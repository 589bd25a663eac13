/** AES on one block as the code does it, in place on a state of sixteen bytes. */
module AesBlock {
  import opened Aes
  import AesStandard
  import opened Bytes
  import opened GaloisField
  import opened SubstitutionTables

  /** A state, read from an array. */
  ghost function Read(a: array<Byte>): State
    requires a.Length == 16
    reads a
  {
    a[..]
  }

  // ----- the steps -----

  method SubBytes(state: array<Byte>, box: seq<seq<Byte>>)
    requires state.Length == 16 && IsTable(box)
    modifies state
    ensures Read(state) == SubState(old(Read(state)), box)
  {
    hide Lookup, IsTable;
    ghost var s := Read(state);
    var i := 0;
    while i < 16
      invariant 0 <= i <= 16
      invariant forall j :: 0 <= j < i ==> state[j] == Lookup(box, s[j])
      invariant forall j :: i <= j < 16 ==> state[j] == s[j]
    {
      state[i] := Lookup(box, state[i]);
      i := i + 1;
    }
    assert Read(state) == SubState(s, box);
  }

  /** Turns four bytes left by one place. */
  method RotLeftWord(a: array<Byte>, at: nat)
    requires at + 4 <= a.Length
    modifies a
    ensures a[at] == old(a[at + 1]) && a[at + 1] == old(a[at + 2]) && a[at + 2] == old(a[at + 3]) && a[at + 3] == old(a[at])
    ensures forall j :: 0 <= j < at || at + 4 <= j < a.Length ==> a[j] == old(a[j])
  {
    var tmp := a[at];
    a[at] := a[at + 1];
    a[at + 1] := a[at + 2];
    a[at + 2] := a[at + 3];
    a[at + 3] := tmp;
  }

  method RotRightWord(a: array<Byte>, at: nat)
    requires at + 4 <= a.Length
    modifies a
    ensures a[at] == old(a[at + 3]) && a[at + 1] == old(a[at]) && a[at + 2] == old(a[at + 1]) && a[at + 3] == old(a[at + 2])
    ensures forall j :: 0 <= j < at || at + 4 <= j < a.Length ==> a[j] == old(a[j])
  {
    var tmp := a[at + 3];
    a[at + 3] := a[at + 2];
    a[at + 2] := a[at + 1];
    a[at + 1] := a[at];
    a[at] := tmp;
  }

  method RotLeftTwice(a: array<Byte>, at: nat)
    requires at + 4 <= a.Length
    modifies a
    ensures a[at] == old(a[at + 2]) && a[at + 1] == old(a[at + 3]) && a[at + 2] == old(a[at]) && a[at + 3] == old(a[at + 1])
    ensures forall j :: 0 <= j < at || at + 4 <= j < a.Length ==> a[j] == old(a[j])
  {
    RotLeftWord(a, at);
    RotLeftWord(a, at);
  }

  method RotRightTwice(a: array<Byte>, at: nat)
    requires at + 4 <= a.Length
    modifies a
    ensures a[at] == old(a[at + 2]) && a[at + 1] == old(a[at + 3]) && a[at + 2] == old(a[at]) && a[at + 3] == old(a[at + 1])
    ensures forall j :: 0 <= j < at || at + 4 <= j < a.Length ==> a[j] == old(a[j])
  {
    RotRightWord(a, at);
    RotRightWord(a, at);
  }

  /** Row r is turned by r places. */
  method TurnRows(state: array<Byte>)
    requires state.Length == 16
    modifies state
    ensures Read(state) == ShiftRows(old(Read(state)))
  {
    RotLeftWord(state, 4);
    RotLeftTwice(state, 8);
    RotLeftTwice(state, 12);
    RotLeftWord(state, 12);
  }

  method TurnRowsBack(state: array<Byte>)
    requires state.Length == 16
    modifies state
    ensures Read(state) == InvShiftRows(old(Read(state)))
  {
    RotRightWord(state, 4);
    RotRightTwice(state, 8);
    RotRightTwice(state, 12);
    RotRightWord(state, 12);
  }

  /** A column times the circulant matrix of `a`. */
  method MultiplyColumn(a: Column, b: Column) returns (d: Column)
    ensures d == CoefMult(a, b)
  {
    hide Product, Sum4;
    var d0 := OneProduct(a[0], b[0], a[3], b[1], a[2], b[2], a[1], b[3]);
    var d1 := OneProduct(a[1], b[0], a[0], b[1], a[3], b[2], a[2], b[3]);
    var d2 := OneProduct(a[2], b[0], a[1], b[1], a[0], b[2], a[3], b[3]);
    var d3 := OneProduct(a[3], b[0], a[2], b[1], a[1], b[2], a[0], b[3]);
    d := [d0, d1, d2, d3];
  }

  method OneProduct(p: Byte, q: Byte, r: Byte, s: Byte, t: Byte, u: Byte, v: Byte, w: Byte) returns (d: Byte)
    ensures d == Sum4(Product(p, q), Product(r, s), Product(t, u), Product(v, w))
  {
    hide Product;
    var a := GfMult(p, q);
    var b := GfMult(r, s);
    var c := GfMult(t, u);
    var e := GfMult(v, w);
    d := Xor(Xor(Xor(a, b), c), e);
  }

  method MixColumnsOf(state: array<Byte>, a: Column)
    requires state.Length == 16
    modifies state
    ensures Read(state) == MixColumns(old(Read(state)), a)
  {
    hide CoefMult;
    ghost var s := Read(state);
    var i := 0;
    while i < 4
      invariant 0 <= i <= 4
      invariant forall j: nat :: j < i ==> ColumnAt(Read(state), j) == CoefMult(a, ColumnAt(s, j))
      invariant forall j: nat :: i <= j < 4 ==> ColumnAt(Read(state), j) == ColumnAt(s, j)
    {
      MixOne(state, i, a);
      i := i + 1;
    }
    MixedColumns(s, Read(state), a);
  }

  /** Column `i`. */
  method MixOne(state: array<Byte>, i: nat, a: Column)
    requires state.Length == 16 && i < 4
    modifies state
    ensures ColumnAt(Read(state), i) == CoefMult(a, ColumnAt(old(Read(state)), i))
    ensures forall j: nat :: j < 4 && j != i ==> ColumnAt(Read(state), j) == ColumnAt(old(Read(state)), j)
  {
    hide CoefMult;
    var res := MultiplyColumn(a, [state[i], state[4 + i], state[8 + i], state[12 + i]]);
    state[i] := res[0];
    state[4 + i] := res[1];
    state[8 + i] := res[2];
    state[12 + i] := res[3];
    assert res == [res[0], res[1], res[2], res[3]];
  }

  lemma {:induction false} MixedColumns(s: State, t: State, a: Column)
    requires forall j: nat :: j < 4 ==> ColumnAt(t, j) == CoefMult(a, ColumnAt(s, j))
    ensures t == MixColumns(s, a)
  {
    hide CoefMult, MixColumns, ColumnAt;
    forall c: nat | c < 4
      ensures ColumnAt(MixColumns(s, a), c) == ColumnAt(t, c)
    {
      ColumnOfMix(s, a, c);
    }
    SameColumns(MixColumns(s, a), t);
  }

  /** The offset into the round keys is a byte. */
  method AddKey(round: nat, state: array<Byte>, w: seq<Byte>)
    requires state.Length == 16 && 16 * (round + 1) <= |w| && round < 16
    modifies state
    ensures Read(state) == AddRoundKey(old(Read(state)), w, round)
  {
    hide Xor;
    ghost var s := Read(state);
    var i := 0;
    while i < 4
      invariant 0 <= i <= 4
      invariant forall j :: 0 <= j < 16 ==> state[j] == if j % 4 < i then Xor(s[j], KeyByte(w, round, j)) else s[j]
    {
      var k := (16 * round + 4 * i) % 256;
      state[i] := Xor(state[i], w[k]);
      state[4 + i] := Xor(state[4 + i], w[k + 1]);
      state[8 + i] := Xor(state[8 + i], w[k + 2]);
      state[12 + i] := Xor(state[12 + i], w[k + 3]);
      i := i + 1;
    }
    assert Read(state) == AddRoundKey(s, w, round);
  }

  /** Column `c` of one state is row `c` of the other. */
  ghost predicate Crossed(s: State, t: State, c: nat) {
    c < 4 && s[c] == t[4 * c] && s[c + 4] == t[4 * c + 1] && s[c + 8] == t[4 * c + 2] && s[c + 12] == t[4 * c + 3]
  }

  lemma {:induction false} AllCrossed(s: State, t: State)
    requires forall c: nat :: c < 4 ==> Crossed(s, t, c)
    ensures s == Transposed(t) && t == Transposed(s)
  {
    forall j | 0 <= j < 16
      ensures s[j] == Transposed(t)[j] && t[j] == Transposed(s)[j]
    {
      CrossedAt(s, t, j);
    }
  }

  lemma {:induction false} CrossedAt(s: State, t: State, j: nat)
    requires j < 16 && forall c: nat :: c < 4 ==> Crossed(s, t, c)
    ensures s[j] == t[4 * (j % 4) + j / 4] && t[j] == s[4 * (j % 4) + j / 4]
  {
    assert Crossed(s, t, j % 4) && Crossed(s, t, j / 4);
    assert j / 4 == 0 || j / 4 == 1 || j / 4 == 2 || j / 4 == 3;
    assert j % 4 == 0 || j % 4 == 1 || j % 4 == 2 || j % 4 == 3;
  }

  /** Copies a block, columns to rows. */
  method Layout(source: array<Byte>, target: array<Byte>)
    requires source.Length == 16 && target.Length == 16 && source != target
    modifies target
    ensures Read(target) == Transposed(Read(source))
  {
    var i := 0;
    while i < 4
      invariant 0 <= i <= 4
      invariant forall c: nat :: c < i ==> Crossed(Read(source), Read(target), c)
    {
      ghost var t := Read(target);
      var k := 4 * i;
      target[k] := source[i];
      target[k + 1] := source[i + 4];
      target[k + 2] := source[i + 8];
      target[k + 3] := source[i + 12];
      forall c: nat | c < i
        ensures Crossed(Read(source), Read(target), c)
      {
        assert Crossed(Read(source), t, c);
      }
      i := i + 1;
    }
    AllCrossed(Read(source), Read(target));
  }

  /** Copies a state, rows to columns. */
  method LayoutBack(source: array<Byte>, target: array<Byte>)
    requires source.Length == 16 && target.Length == 16 && source != target
    modifies target
    ensures Read(target) == Transposed(Read(source))
  {
    var i := 0;
    while i < 4
      invariant 0 <= i <= 4
      invariant forall c: nat :: c < i ==> Crossed(Read(target), Read(source), c)
    {
      ghost var t := Read(target);
      var k := 4 * i;
      target[i] := source[k];
      target[i + 4] := source[k + 1];
      target[i + 8] := source[k + 2];
      target[i + 12] := source[k + 3];
      forall c: nat | c < i
        ensures Crossed(Read(target), Read(source), c)
      {
        assert Crossed(t, Read(source), c);
      }
      i := i + 1;
    }
    AllCrossed(Read(target), Read(source));
  }

  // ----- the ciphers -----

  /** What one round of the cipher does to the state before the substitution. */
  method RoundOf(state: array<Byte>, w: seq<Byte>, round: nat)
    requires state.Length == 16 && 16 * (round + 1) <= |w| && round < 16 && IsTable(S_BOX)
    modifies state
    ensures SubShift(Read(state), S_BOX) == Round(SubShift(old(Read(state)), S_BOX), w, S_BOX, round)
  {
    hide SubState, ShiftRows, MixColumns, AddRoundKey, IsTable;
    SubBytes(state, S_BOX);
    TurnRows(state);
    MixColumnsOf(state, MIX);
    AddKey(round, state, w);
  }

  method InvRoundOf(state: array<Byte>, w: seq<Byte>, round: nat)
    requires state.Length == 16 && 16 * (round + 1) <= |w| && round < 16 && IsTable(INV_S_BOX)
    modifies state
    ensures Read(state) == InvRound(old(Read(state)), w, INV_S_BOX, round)
  {
    hide SubState, InvShiftRows, MixColumns, AddRoundKey, IsTable;
    TurnRowsBack(state);
    SubBytes(state, INV_S_BOX);
    AddKey(round, state, w);
    MixColumnsOf(state, INV_MIX);
  }

  /** Rounds 1 to nr - 1. */
  method AllRounds(state: array<Byte>, w: seq<Byte>, nr: nat)
    requires 0 < nr < 16 && |w| == 16 * (nr + 1) && state.Length == 16 && IsTable(S_BOX) && IsTable(INV_S_BOX)
    modifies state
    ensures SubShift(Read(state), S_BOX)
            == RoundSteps(w, S_BOX, INV_S_BOX).Forward(SubShift(old(Read(state)), S_BOX), nr - 1)
  {
    hide SubShift, IsTable, Round;
    ghost var steps, start := RoundSteps(w, S_BOX, INV_S_BOX), SubShift(Read(state), S_BOX);
    var round := 1;
    while round < nr
      invariant 1 <= round <= nr
      invariant SubShift(Read(state), S_BOX) == steps.Forward(start, round - 1)
    {
      RoundOf(state, w, round);
      round := round + 1;
    }
  }

  /** Rounds nr - 1 to 1 of the inverse cipher. */
  method AllRoundsBack(state: array<Byte>, w: seq<Byte>, nr: nat)
    requires 0 < nr < 16 && |w| == 16 * (nr + 1) && state.Length == 16 && IsTable(S_BOX) && IsTable(INV_S_BOX)
    modifies state
    ensures Read(state) == RoundSteps(w, S_BOX, INV_S_BOX).Backward(old(Read(state)), nr - 1)
  {
    hide IsTable, InvRound, RoundSteps, Rounds.Backward;
    ghost var steps, start := RoundSteps(w, S_BOX, INV_S_BOX), Read(state);
    var round := nr - 1;
    while round > 0
      invariant 0 <= round < nr
      invariant steps.Backward(Read(state), round) == steps.Backward(start, nr - 1)
    {
      BackwardStep(w, Read(state), round);
      InvRoundOf(state, w, round);
      round := round - 1;
    }
    BackwardEnd(w, Read(state));
  }

  lemma {:induction false} BackwardStep(w: seq<Byte>, s: State, n: nat)
    requires 0 < n && IsTable(S_BOX) && IsTable(INV_S_BOX)
    ensures var steps := RoundSteps(w, S_BOX, INV_S_BOX);
            steps.Backward(s, n) == steps.Backward(InvRound(s, w, INV_S_BOX, n), n - 1)
  {
  }

  lemma {:induction false} BackwardEnd(w: seq<Byte>, s: State)
    requires IsTable(S_BOX) && IsTable(INV_S_BOX)
    ensures RoundSteps(w, S_BOX, INV_S_BOX).Backward(s, 0) == s
  {
  }

  lemma {:induction false} EnciphersTo(w: seq<Byte>, nr: nat, b: State)
    requires 0 < nr && 16 * (nr + 1) <= |w| && IsTable(S_BOX) && IsTable(INV_S_BOX)
    ensures var rounds := RoundSteps(w, S_BOX, INV_S_BOX).Forward(SubShift(AddRoundKey(Transposed(b), w, 0), S_BOX), nr - 1);
      && Cipher(w, nr).Encipher(b, nr - 1) == Transposed(AddRoundKey(rounds, w, nr))
      && AesStandard.Enciphered(b, w, nr) == Transposed(AddRoundKey(rounds, w, nr))
  {
    AesStandard.EncipherIsStandard(b, w, nr);
    hide SubShift, AddRoundKey, IsTable, Transposed, RoundSteps, Rounds.Forward, AesStandard.Enciphered;
  }

  /** Enciphers the block `source` into `target` with `nr` rounds. */
  method EncryptBlock(w: seq<Byte>, nr: nat, source: array<Byte>, target: array<Byte>)
    requires 0 < nr < 16 && |w| == 16 * (nr + 1) && source.Length == 16 && target.Length == 16
    modifies target
    ensures Read(target) == Cipher(w, nr).Encipher(old(Read(source)), nr - 1)
    ensures Read(target) == AesStandard.Enciphered(old(Read(source)), w, nr)
  {
    hide Cipher, Parts.Encipher, AesStandard.Enciphered;
    hide SubState, ShiftRows, AddRoundKey, IsTable, Transposed, RoundSteps, Rounds.Forward;
    TableShapes();
    EnciphersTo(w, nr, Read(source));
    var state := new Byte[16];
    Layout(source, state);
    AddKey(0, state, w);
    AllRounds(state, w, nr);
    SubBytes(state, S_BOX);
    TurnRows(state);
    AddKey(nr, state, w);
    LayoutBack(state, target);
  }

  /** Deciphers the block `source` into `target` with `nr` rounds. */
  method DecryptBlock(w: seq<Byte>, nr: nat, source: array<Byte>, target: array<Byte>)
    requires 0 < nr < 16 && |w| == 16 * (nr + 1) && source.Length == 16 && target.Length == 16
    modifies target
    ensures Read(target) == Cipher(w, nr).Decipher(old(Read(source)), nr - 1)
    ensures Read(target) == AesStandard.Deciphered(old(Read(source)), w, nr)
  {
    AesStandard.DecipherIsStandard(Read(source), w, nr);
    hide AesStandard.Deciphered;
    hide SubState, InvShiftRows, AddRoundKey, IsTable, Transposed, RoundSteps, Rounds.Backward;
    TableShapes();
    var state := new Byte[16];
    Layout(source, state);
    AddKey(nr, state, w);
    AllRoundsBack(state, w, nr);
    TurnRowsBack(state);
    SubBytes(state, INV_S_BOX);
    AddKey(0, state, w);
    LayoutBack(state, target);
  }

  /** Encrypting and decrypting with the same round keys gives the block back. */
  method EncryptDecrypt(w: seq<Byte>, nr: nat, block: seq<Byte>) returns (back: seq<Byte>)
    requires 0 < nr < 16 && |w| == 16 * (nr + 1) && |block| == 16
    ensures back == block
  {
    hide Cipher, Parts.Encipher, Parts.Decipher;
    var a, b, c := new Byte[16], new Byte[16], new Byte[16];
    forall i | 0 <= i < 16 {
      a[i] := block[i];
    }
    assert Read(a) == block;
    EncryptBlock(w, nr, a, b);
    DecryptBlock(w, nr, b, c);
    RoundTrip(block, w, nr);
    back := c[..];
    assert back == Read(c);
  }
}
