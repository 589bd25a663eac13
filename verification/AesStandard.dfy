/** The cipher and the inverse cipher of FIPS 197 on blocks as the standard lays them
    out, column after column, and that the cipher on states is the same. */
module AesStandard {
  import opened Aes
  import opened Bytes
  import opened GaloisField
  import opened SubstitutionTables

  // ----- sections 5.1 and 5.3 of FIPS 197: byte 4c + r of a block is in row r and column c -----

  type Block = State

  function SubBytes(b: Block, box: seq<seq<Byte>>): Block
    requires IsTable(box)
  {
    seq(16, i requires 0 <= i < 16 => box[b[i] / 16][b[i] % 16])
  }

  function Shifted(b: Block): Block {
    seq(16, i requires 0 <= i < 16 => b[4 * ((i / 4 + i % 4) % 4) + i % 4])
  }

  function ShiftedBack(b: Block): Block {
    seq(16, i requires 0 <= i < 16 => b[4 * ((i / 4 + 4 - i % 4) % 4) + i % 4])
  }

  type Matrix = m: seq<Column> | |m| == 4 witness [MIX, MIX, MIX, MIX]

  const MIX_MATRIX: Matrix := [
    [0x02, 0x03, 0x01, 0x01],
    [0x01, 0x02, 0x03, 0x01],
    [0x01, 0x01, 0x02, 0x03],
    [0x03, 0x01, 0x01, 0x02]]

  const INV_MIX_MATRIX: Matrix := [
    [0x0e, 0x0b, 0x0d, 0x09],
    [0x09, 0x0e, 0x0b, 0x0d],
    [0x0d, 0x09, 0x0e, 0x0b],
    [0x0b, 0x0d, 0x09, 0x0e]]

  /** Row `m` of a matrix times a column. */
  function RowTimes(m: Column, s: Column): Byte {
    Sum4(Product(m[0], s[0]), Product(m[1], s[1]), Product(m[2], s[2]), Product(m[3], s[3]))
  }

  /** Every column times a matrix. */
  function Mixed(b: Block, m: Matrix): Block {
    seq(16, i requires 0 <= i < 16 => RowTimes(m[i % 4], b[4 * (i / 4)..4 * (i / 4) + 4]))
  }

  function KeyAdded(b: Block, w: seq<Byte>, round: nat): Block
    requires 16 * (round + 1) <= |w|
  {
    seq(16, i requires 0 <= i < 16 => Xor(b[i], w[16 * round + i]))
  }

  /** The state after the first key and `n` rounds. */
  function AfterRounds(b: Block, w: seq<Byte>, n: nat): Block
    requires 16 * (n + 1) <= |w|
  {
    if n == 0 then KeyAdded(b, w, 0)
    else
      TableShapes();
      KeyAdded(Mixed(Shifted(SubBytes(AfterRounds(b, w, n - 1), S_BOX)), MIX_MATRIX), w, n)
  }

  /** The cipher with `nr` rounds. */
  function Enciphered(b: Block, w: seq<Byte>, nr: nat): Block
    requires 0 < nr && 16 * (nr + 1) <= |w|
  {
    TableShapes();
    KeyAdded(Shifted(SubBytes(AfterRounds(b, w, nr - 1), S_BOX)), w, nr)
  }

  /** The state before round `n` of the inverse cipher, which has `nr` rounds and counts down. */
  function BeforeRound(b: Block, w: seq<Byte>, nr: nat, n: nat): Block
    requires n < nr && 16 * (nr + 1) <= |w|
    decreases nr - n
  {
    if n == nr - 1 then KeyAdded(b, w, nr)
    else
      TableShapes();
      Mixed(KeyAdded(SubBytes(ShiftedBack(BeforeRound(b, w, nr, n + 1)), INV_S_BOX), w, n + 1), INV_MIX_MATRIX)
  }

  /** The inverse cipher with `nr` rounds. */
  function Deciphered(b: Block, w: seq<Byte>, nr: nat): Block
    requires 0 < nr && 16 * (nr + 1) <= |w|
  {
    TableShapes();
    KeyAdded(SubBytes(ShiftedBack(BeforeRound(b, w, nr, 0)), INV_S_BOX), w, 0)
  }

  // ----- the steps on states, byte by byte of the block -----

  lemma {:induction false} AddRoundKeyByte(b: Block, w: seq<Byte>, round: nat, i: nat)
    requires i < 16 && 16 * (round + 1) <= |w|
    ensures Transposed(AddRoundKey(Transposed(b), w, round))[i] == Xor(b[i], w[16 * round + i])
  {
    hide Xor;
    var j := 4 * (i % 4) + i / 4;
    assert j % 4 == i / 4 && j / 4 == i % 4;
    assert 4 * (j % 4) + j / 4 == i;
  }

  lemma {:induction false} ShiftRowsByte(b: Block, c: nat, r: nat)
    requires c < 4 && r < 4
    ensures Transposed(ShiftRows(Transposed(b)))[4 * c + r] == b[4 * ((c + r) % 4) + r]
  {
    assert c == 0 || c == 1 || c == 2 || c == 3;
    assert r == 0 || r == 1 || r == 2 || r == 3;
  }

  lemma {:induction false} InvShiftRowsByte(b: Block, c: nat, r: nat)
    requires c < 4 && r < 4
    ensures Transposed(InvShiftRows(Transposed(b)))[4 * ((c + r) % 4) + r] == b[4 * c + r]
  {
    assert c == 0 || c == 1 || c == 2 || c == 3;
    assert r == 0 || r == 1 || r == 2 || r == 3;
  }

  lemma {:induction false} SubStateByte(b: Block, box: seq<seq<Byte>>, i: nat)
    requires i < 16 && IsTable(box)
    ensures Transposed(SubState(Transposed(b), box))[i] == box[b[i] / 16][b[i] % 16]
  {
    var j := 4 * (i % 4) + i / 4;
    assert 4 * (j % 4) + j / 4 == i;
  }

  lemma {:induction false} MixColumnsByte(b: Block, a: Column, c: nat, r: nat)
    requires c < 4 && r < 4
    ensures Transposed(MixColumns(Transposed(b), a))[4 * c + r] == CoefMult(a, b[4 * c..4 * c + 4])[r]
  {
    hide CoefMult, MixColumns, ColumnAt;
    MixedByte(Transposed(b), a, c, r);
    ColumnOfBlock(b, c);
    assert (4 * c + r) % 4 == r && (4 * c + r) / 4 == c;
  }

  lemma {:induction false} ColumnOfBlock(b: Block, c: nat)
    requires c < 4
    ensures ColumnAt(Transposed(b), c) == b[4 * c..4 * c + 4]
  {
    assert c == 0 || c == 1 || c == 2 || c == 3;
  }

  /** The circulant products are the products with the matrices. */
  lemma {:induction false} MatrixRows(s: Column, r: nat)
    requires r < 4
    ensures CoefMult(MIX, s)[r] == RowTimes(MIX_MATRIX[r], s)
    ensures CoefMult(INV_MIX, s)[r] == RowTimes(INV_MIX_MATRIX[r], s)
  {
    hide Product, Sum4;
    assert r == 0 || r == 1 || r == 2 || r == 3;
  }

  // ----- whole steps -----

  lemma {:induction false} SameBlock(s: State, b: Block)
    requires forall i :: 0 <= i < 16 ==> Transposed(s)[i] == b[i]
    ensures s == Transposed(b)
  {
    hide Transposed;
    assert Transposed(s) == b;
    TransposedTwice(s);
  }

  lemma {:induction false} KeyStepAgrees(b: Block, w: seq<Byte>, round: nat)
    requires 16 * (round + 1) <= |w|
    ensures AddRoundKey(Transposed(b), w, round) == Transposed(KeyAdded(b, w, round))
  {
    hide Transposed, AddRoundKey, Xor;
    var s := AddRoundKey(Transposed(b), w, round);
    forall i | 0 <= i < 16
      ensures Transposed(s)[i] == KeyAdded(b, w, round)[i]
    {
      AddRoundKeyByte(b, w, round, i);
    }
    SameBlock(s, KeyAdded(b, w, round));
  }

  lemma {:induction false} SubStepAgrees(b: Block, box: seq<seq<Byte>>)
    requires IsTable(box)
    ensures SubState(Transposed(b), box) == Transposed(SubBytes(b, box))
  {
    hide Transposed, SubState;
    var s := SubState(Transposed(b), box);
    forall i | 0 <= i < 16
      ensures Transposed(s)[i] == SubBytes(b, box)[i]
    {
      SubStateByte(b, box, i);
    }
    SameBlock(s, SubBytes(b, box));
  }

  lemma {:induction false} ShiftStepAgrees(b: Block)
    ensures ShiftRows(Transposed(b)) == Transposed(Shifted(b))
    ensures InvShiftRows(Transposed(b)) == Transposed(ShiftedBack(b))
  {
    hide Transposed, ShiftRows, InvShiftRows;
    var s, t := ShiftRows(Transposed(b)), InvShiftRows(Transposed(b));
    forall i | 0 <= i < 16
      ensures Transposed(s)[i] == Shifted(b)[i] && Transposed(t)[i] == ShiftedBack(b)[i]
    {
      var c, r := i / 4, i % 4;
      ShiftRowsByte(b, c, r);
      InvShiftRowsByte(b, (c + 4 - r) % 4, r);
      assert ((c + 4 - r) % 4 + r) % 4 == c;
    }
    SameBlock(s, Shifted(b));
    SameBlock(t, ShiftedBack(b));
  }

  lemma {:induction false} MixStepAgrees(b: Block)
    ensures MixColumns(Transposed(b), MIX) == Transposed(Mixed(b, MIX_MATRIX))
    ensures MixColumns(Transposed(b), INV_MIX) == Transposed(Mixed(b, INV_MIX_MATRIX))
  {
    hide Transposed, MixColumns, CoefMult, RowTimes;
    var s, t := MixColumns(Transposed(b), MIX), MixColumns(Transposed(b), INV_MIX);
    forall i | 0 <= i < 16
      ensures Transposed(s)[i] == Mixed(b, MIX_MATRIX)[i] && Transposed(t)[i] == Mixed(b, INV_MIX_MATRIX)[i]
    {
      MixColumnsByte(b, MIX, i / 4, i % 4);
      MixColumnsByte(b, INV_MIX, i / 4, i % 4);
      MatrixRows(b[4 * (i / 4)..4 * (i / 4) + 4], i % 4);
    }
    SameBlock(s, Mixed(b, MIX_MATRIX));
    SameBlock(t, Mixed(b, INV_MIX_MATRIX));
  }

  // ----- the ciphers -----

  lemma {:induction false} RoundsAgree(b: Block, w: seq<Byte>, n: nat)
    requires 16 * (n + 1) <= |w| && IsTable(S_BOX) && IsTable(INV_S_BOX)
    ensures RoundSteps(w, S_BOX, INV_S_BOX).Forward(SubShift(AddRoundKey(Transposed(b), w, 0), S_BOX), n)
            == SubShift(Transposed(AfterRounds(b, w, n)), S_BOX)
  {
    hide Transposed, AddRoundKey, SubState, ShiftRows, MixColumns, KeyAdded, SubBytes, Shifted, Mixed, IsTable;
    if n == 0 {
      KeyStepAgrees(b, w, 0);
    } else {
      RoundsAgree(b, w, n - 1);
      var x := AfterRounds(b, w, n - 1);
      SubStepAgrees(x, S_BOX);
      ShiftStepAgrees(SubBytes(x, S_BOX));
      MixStepAgrees(Shifted(SubBytes(x, S_BOX)));
      KeyStepAgrees(Mixed(Shifted(SubBytes(x, S_BOX)), MIX_MATRIX), w, n);
    }
  }

  /** The cipher on states is the cipher of the standard. */
  lemma {:induction false} EncipherIsStandard(b: Block, w: seq<Byte>, nr: nat)
    requires 0 < nr && 16 * (nr + 1) <= |w|
    ensures Cipher(w, nr).Encipher(b, nr - 1) == Enciphered(b, w, nr)
  {
    hide Transposed, AddRoundKey, SubState, ShiftRows, KeyAdded, SubBytes, Shifted, IsTable, AfterRounds,
         RoundSteps, Rounds.Forward;
    TableShapes();
    RoundsAgree(b, w, nr - 1);
    var x := AfterRounds(b, w, nr - 1);
    SubStepAgrees(x, S_BOX);
    ShiftStepAgrees(SubBytes(x, S_BOX));
    KeyStepAgrees(Shifted(SubBytes(x, S_BOX)), w, nr);
    TransposedTwice(Enciphered(b, w, nr));
  }

  lemma {:induction false} InvRoundsAgree(b: Block, w: seq<Byte>, nr: nat, n: nat)
    requires n < nr && 16 * (nr + 1) <= |w| && IsTable(S_BOX) && IsTable(INV_S_BOX)
    ensures RoundSteps(w, S_BOX, INV_S_BOX).Backward(AddRoundKey(Transposed(b), w, nr), nr - 1)
            == RoundSteps(w, S_BOX, INV_S_BOX).Backward(Transposed(BeforeRound(b, w, nr, n)), n)
    decreases nr - n
  {
    hide Transposed, AddRoundKey, SubState, InvShiftRows, MixColumns, KeyAdded, SubBytes, ShiftedBack, Mixed, IsTable;
    if n == nr - 1 {
      KeyStepAgrees(b, w, nr);
    } else {
      InvRoundsAgree(b, w, nr, n + 1);
      var x := BeforeRound(b, w, nr, n + 1);
      var y := SubBytes(ShiftedBack(x), INV_S_BOX);
      ShiftStepAgrees(x);
      SubStepAgrees(ShiftedBack(x), INV_S_BOX);
      KeyStepAgrees(y, w, n + 1);
      MixStepAgrees(KeyAdded(y, w, n + 1));
    }
  }

  /** The inverse cipher on states is the inverse cipher of the standard. */
  lemma {:induction false} DecipherIsStandard(b: Block, w: seq<Byte>, nr: nat)
    requires 0 < nr && 16 * (nr + 1) <= |w|
    ensures Cipher(w, nr).Decipher(b, nr - 1) == Deciphered(b, w, nr)
  {
    hide Transposed, AddRoundKey, SubState, InvShiftRows, KeyAdded, SubBytes, ShiftedBack, IsTable, BeforeRound;
    TableShapes();
    InvRoundsAgree(b, w, nr, 0);
    var x := BeforeRound(b, w, nr, 0);
    ShiftStepAgrees(x);
    SubStepAgrees(ShiftedBack(x), INV_S_BOX);
    KeyStepAgrees(SubBytes(ShiftedBack(x), INV_S_BOX), w, 0);
    TransposedTwice(Deciphered(b, w, nr));
  }
}
