/** AES on one block: the rounds, the inverse cipher, and that it is the inverse. */
module Aes {
  import opened Bytes
  import opened GaloisField
  import opened SubstitutionTables

  // ----- the steps of a round -----

  /** Sixteen bytes, row by row. */
  type State = s: seq<Byte> | |s| == 16 witness seq(16, _ => 0)

  /** Every byte replaced by its entry of a table. */
  function SubState(s: State, t: seq<seq<Byte>>): State
    requires IsTable(t)
  {
    seq(16, i requires 0 <= i < 16 => Lookup(t, s[i]))
  }

  /** Row `r` turned left by r places. */
  function ShiftRows(s: State): State {
    [s[0], s[1], s[2], s[3], s[5], s[6], s[7], s[4], s[10], s[11], s[8], s[9], s[15], s[12], s[13], s[14]]
  }

  function InvShiftRows(s: State): State {
    [s[0], s[1], s[2], s[3], s[7], s[4], s[5], s[6], s[10], s[11], s[8], s[9], s[13], s[14], s[15], s[12]]
  }

  function ColumnAt(s: State, i: nat): Column
    requires i < 4
  {
    [s[i], s[4 + i], s[8 + i], s[12 + i]]
  }

  /** Every column times the circulant matrix of `a`. */
  function MixColumns(s: State, a: Column): State {
    seq(16, i requires 0 <= i < 16 => CoefMult(a, ColumnAt(s, i % 4))[i / 4])
  }

  /** The bytes of round key `round`, row by row. */
  function KeyByte(w: seq<Byte>, round: nat, i: nat): Byte
    requires i < 16
  {
    var k := 16 * round + 4 * (i % 4) + i / 4;
    if k < |w| then w[k] else 0
  }

  function AddRoundKey(s: State, w: seq<Byte>, round: nat): State {
    seq(16, i requires 0 <= i < 16 => Xor(s[i], KeyByte(w, round, i)))
  }

  /** Rows and columns exchanged: how a block becomes a state, and back. */
  function Transposed(s: State): State {
    seq(16, i requires 0 <= i < 16 => s[4 * (i % 4) + i / 4])
  }

  // ----- each step has its inverse -----

  lemma {:induction false} SubUndone(s: State, box: seq<seq<Byte>>, inv: seq<seq<Byte>>)
    requires Undoes(inv, box)
    ensures SubState(SubState(s, box), inv) == s
  {
    var t := SubState(SubState(s, box), inv);
    forall i | 0 <= i < 16
      ensures t[i] == s[i]
    {
    }
  }

  lemma {:induction false} ShiftUndone(s: State)
    ensures InvShiftRows(ShiftRows(s)) == s
  {
  }

  lemma {:induction false} ColumnOfMix(s: State, a: Column, c: nat)
    requires c < 4
    ensures ColumnAt(MixColumns(s, a), c) == CoefMult(a, ColumnAt(s, c))
  {
    MixedByte(s, a, c, 0);
    MixedByte(s, a, c, 1);
    MixedByte(s, a, c, 2);
    MixedByte(s, a, c, 3);
    SameColumn(ColumnAt(MixColumns(s, a), c), CoefMult(a, ColumnAt(s, c)));
  }

  lemma {:induction false} MixedByte(s: State, a: Column, c: nat, k: nat)
    requires c < 4 && k < 4
    ensures MixColumns(s, a)[4 * k + c] == CoefMult(a, ColumnAt(s, c))[k]
  {
    var i := 4 * k + c;
    assert i % 4 == c && i / 4 == k;
  }

  lemma {:induction false} SameColumns(s: State, t: State)
    requires forall c: nat :: c < 4 ==> ColumnAt(s, c) == ColumnAt(t, c)
    ensures s == t
  {
    forall i | 0 <= i < 16
      ensures s[i] == t[i]
    {
      assert ColumnAt(s, i % 4)[i / 4] == ColumnAt(t, i % 4)[i / 4];
      assert IsIndex(i);
    }
  }

  lemma {:induction false} MixUndone(s: State)
    ensures MixColumns(MixColumns(s, MIX), INV_MIX) == s
  {
    var t := MixColumns(s, MIX);
    var u := MixColumns(t, INV_MIX);
    forall c: nat | c < 4
      ensures ColumnAt(u, c) == ColumnAt(s, c)
    {
      ColumnUndone(s, t, u, c);
    }
    SameColumns(u, s);
  }

  lemma {:induction false} ColumnUndone(s: State, t: State, u: State, c: nat)
    requires c < 4 && t == MixColumns(s, MIX) && u == MixColumns(t, INV_MIX)
    ensures ColumnAt(u, c) == ColumnAt(s, c)
  {
    ColumnOfMix(s, MIX, c);
    ColumnOfMix(t, INV_MIX, c);
    ColumnRestored(ColumnAt(s, c));
  }

  lemma {:induction false} KeyUndone(s: State, w: seq<Byte>, round: nat)
    ensures AddRoundKey(AddRoundKey(s, w, round), w, round) == s
  {
    forall i | 0 <= i < 16
      ensures AddRoundKey(AddRoundKey(s, w, round), w, round)[i] == s[i]
    {
      XorCancel(s[i], KeyByte(w, round, i));
    }
  }

  lemma {:induction false} TransposedTwice(s: State)
    ensures Transposed(Transposed(s)) == s
  {
    forall i | 0 <= i < 16
      ensures Transposed(Transposed(s))[i] == s[i]
    {
      assert IsIndex(i);
    }
  }

  // ----- ciphers as steps, each with its inverse -----

  /** A step and what is meant to undo it. */
  datatype Step<!T(!new)> = Step(enc: T -> T, dec: T -> T) {
    ghost predicate Undone() {
      match this
      case Step(enc, dec) => forall x: T {:trigger dec(enc(x))} :: dec(enc(x)) == x
    }
  }

  /** A numbered family of steps. */
  datatype Rounds<!T(!new)> = Rounds(enc: (nat, T) -> T, dec: (nat, T) -> T) {
    ghost predicate Undone() {
      match this
      case Rounds(enc, dec) => forall k: nat, x: T {:trigger dec(k, enc(k, x))} :: dec(k, enc(k, x)) == x
    }

    /** Rounds 1 to `n`. */
    function Forward(x: T, n: nat): T {
      if n == 0 then x else enc(n, Forward(x, n - 1))
    }

    /** Rounds `n` down to 1. */
    function Backward(x: T, n: nat): T
      decreases n
    {
      if n == 0 then x else Backward(dec(n, x), n - 1)
    }

    /** Rounds that are undone one by one are undone together. */
    lemma {:induction false} AllUndone(x: T, n: nat)
      requires Undone()
      ensures Backward(Forward(x, n), n) == x
    {
      if n != 0 {
        AllUndone(x, n - 1);
      }
    }
  }

  /** A cipher: the layout of the block, the first key, the substitution, the
      rounds, and the last key. */
  datatype Parts<!T(!new)> = Parts(layout: Step<T>, first: Step<T>, sub: Step<T>, rounds: Rounds<T>, last: Step<T>) {
    function Encipher(x: T, n: nat): T {
      layout.dec(last.enc(rounds.Forward(sub.enc(first.enc(layout.enc(x))), n)))
    }

    function Decipher(x: T, n: nat): T {
      layout.dec(first.dec(sub.dec(rounds.Backward(last.dec(layout.enc(x)), n))))
    }

    ghost predicate Undone() {
      match this
      case Parts(layout, first, sub, rounds, last) =>
        && layout.Undone() && Step(layout.dec, layout.enc).Undone()
        && first.Undone() && sub.Undone() && rounds.Undone() && last.Undone()
    }

    /** If every part is undone by its counterpart, so is the whole. */
    lemma {:induction false} RoundTrip(x: T, n: nat)
      requires Undone()
      ensures Decipher(Encipher(x, n), n) == x
    {
      var start := sub.enc(first.enc(layout.enc(x)));
      var u := rounds.Forward(start, n);
      rounds.AllUndone(start, n);
      assert layout.enc(layout.dec(last.enc(u))) == last.enc(u);
    }
  }

  // ----- the ciphers -----

  /** What stands before the mix or the last key: substituted and shifted. */
  function SubShift(s: State, box: seq<seq<Byte>>): State
    requires IsTable(box)
  {
    ShiftRows(SubState(s, box))
  }

  function InvSubShift(s: State, inv: seq<seq<Byte>>): State
    requires IsTable(inv)
  {
    SubState(InvShiftRows(s), inv)
  }

  /** One round, from before its mix to before the mix of the next. */
  function Round(s: State, w: seq<Byte>, box: seq<seq<Byte>>, round: nat): State
    requires IsTable(box)
  {
    SubShift(AddRoundKey(MixColumns(s, MIX), w, round), box)
  }

  /** One round of the inverse cipher. */
  function InvRound(s: State, w: seq<Byte>, inv: seq<seq<Byte>>, round: nat): State
    requires IsTable(inv)
  {
    MixColumns(AddRoundKey(InvSubShift(s, inv), w, round), INV_MIX)
  }

  /** The parts of the cipher with `nr` rounds, for the round keys `w` and a pair of tables. */
  function CipherParts(w: seq<Byte>, box: seq<seq<Byte>>, inv: seq<seq<Byte>>, nr: nat): Parts<State>
    requires IsTable(box) && IsTable(inv)
  {
    Parts(LayoutStep(), KeyStep(w, 0), SubStep(box, inv), RoundSteps(w, box, inv), KeyStep(w, nr))
  }

  function LayoutStep(): Step<State> {
    Step(s => Transposed(s), s => Transposed(s))
  }

  function KeyStep(w: seq<Byte>, round: nat): Step<State> {
    Step(s => AddRoundKey(s, w, round), s => AddRoundKey(s, w, round))
  }

  function SubStep(box: seq<seq<Byte>>, inv: seq<seq<Byte>>): Step<State>
    requires IsTable(box) && IsTable(inv)
  {
    Step(s => SubShift(s, box), s => InvSubShift(s, inv))
  }

  function RoundSteps(w: seq<Byte>, box: seq<seq<Byte>>, inv: seq<seq<Byte>>): Rounds<State>
    requires IsTable(box) && IsTable(inv)
  {
    Rounds((k, s) => Round(s, w, box, k), (k, s) => InvRound(s, w, inv, k))
  }

  // ----- every part is undone -----

  lemma {:induction false} SubShiftUndone(t: State, box: seq<seq<Byte>>, inv: seq<seq<Byte>>)
    requires Undoes(inv, box)
    ensures InvSubShift(SubShift(t, box), inv) == t
  {
    ShiftUndone(SubState(t, box));
    SubUndone(t, box, inv);
  }

  /** One inverse round undoes one round. */
  lemma {:induction false} RoundUndone(s: State, w: seq<Byte>, box: seq<seq<Byte>>, inv: seq<seq<Byte>>, round: nat)
    requires Undoes(inv, box)
    ensures InvRound(Round(s, w, box, round), w, inv, round) == s
  {
    SubShiftUndone(AddRoundKey(MixColumns(s, MIX), w, round), box, inv);
    KeyUndone(MixColumns(s, MIX), w, round);
    MixUndone(s);
  }

  lemma {:induction false} KeyStepUndone(w: seq<Byte>, round: nat)
    ensures KeyStep(w, round).Undone()
  {
    var k := KeyStep(w, round);
    forall s: State
      ensures k.dec(k.enc(s)) == s
    {
      KeyUndone(s, w, round);
    }
  }

  lemma {:induction false} LayoutUndone()
    ensures LayoutStep().Undone() && Step(LayoutStep().dec, LayoutStep().enc).Undone()
  {
    var t := LayoutStep();
    forall s: State
      ensures t.dec(t.enc(s)) == s && t.enc(t.dec(s)) == s
    {
      TransposedTwice(s);
    }
  }

  lemma {:induction false} SubStepUndone(box: seq<seq<Byte>>, inv: seq<seq<Byte>>)
    requires Undoes(inv, box)
    ensures SubStep(box, inv).Undone()
  {
    hide SubShift, InvSubShift, IsTable;
    var f := SubStep(box, inv);
    forall s: State
      ensures f.dec(f.enc(s)) == s
    {
      SubShiftUndone(s, box, inv);
    }
  }

  lemma {:induction false} RoundStepsUndone(w: seq<Byte>, box: seq<seq<Byte>>, inv: seq<seq<Byte>>)
    requires Undoes(inv, box)
    ensures RoundSteps(w, box, inv).Undone()
  {
    hide Round, InvRound, IsTable;
    var f := RoundSteps(w, box, inv);
    forall k: nat, s: State
      ensures f.dec(k, f.enc(k, s)) == s
    {
      RoundUndone(s, w, box, inv, k);
    }
  }

  lemma {:induction false} PartsUndone(w: seq<Byte>, box: seq<seq<Byte>>, inv: seq<seq<Byte>>, nr: nat)
    requires Undoes(inv, box)
    ensures CipherParts(w, box, inv, nr).Undone()
  {
    LayoutUndone();
    KeyStepUndone(w, 0);
    KeyStepUndone(w, nr);
    SubStepUndone(box, inv);
    RoundStepsUndone(w, box, inv);
  }

  lemma {:induction false} PartsRoundTrip(p: Parts<State>, block: State, n: nat)
    requires p.Undone()
    ensures p.Decipher(p.Encipher(block, n), n) == block
  {
    p.RoundTrip(block, n);
  }

  // ----- the cipher with its tables -----

  /** The parts with the tables of the cipher. */
  function Cipher(w: seq<Byte>, nr: nat): Parts<State> {
    TableShapes();
    CipherParts(w, S_BOX, INV_S_BOX, nr)
  }

  lemma {:induction false} CipherUndone(w: seq<Byte>, nr: nat)
    ensures Cipher(w, nr).Undone()
  {
    TablesInverse();
    PartsUndone(w, S_BOX, INV_S_BOX, nr);
  }

  /** Deciphering what was enciphered gives the block back, for any round keys and
      any number of rounds; the last round has no mix. */
  lemma {:induction false} RoundTrip(block: State, w: seq<Byte>, nr: nat)
    requires 0 < nr
    ensures Cipher(w, nr).Decipher(Cipher(w, nr).Encipher(block, nr - 1), nr - 1) == block
  {
    hide *;
    CipherUndone(w, nr);
    PartsRoundTrip(Cipher(w, nr), block, nr - 1);
  }
}
