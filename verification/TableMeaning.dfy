/** What the substitution table holds: the affine image of the inverse in GF(2^8). */
module TableMeaning {
  import opened Bytes
  import opened GaloisField
  import opened SubstitutionTables
  import O = Octets

  // ----- bit vectors and bytes -----

  lemma {:induction false} BitAbove(c: bool, n: nat, i: nat)
    requires n < 128
    ensures Bit(O.One(c) + 2 * n, i) == if i == 0 then O.One(c) else Bit(n, i - 1)
  {
    assert (O.One(c) + 2 * n) / 2 == n;
  }

  /** The number of the bits of `b` from bit `k` up. */
  function From(b: bv8, k: nat): (n: nat)
    requires k <= 8
    ensures n < if k == 0 then 256 else if k == 1 then 128 else if k == 2 then 64 else if k == 3 then 32
                else if k == 4 then 16 else if k == 5 then 8 else if k == 6 then 4 else if k == 7 then 2 else 1
    decreases 8 - k
  {
    if k == 8 then 0 else O.One(O.On(b, k)) + 2 * From(b, k + 1)
  }

  lemma {:induction false} FromIsValue(b: bv8)
    ensures From(b, 0) == O.Value(b)
  {
    hide From, O.On, O.One, O.Unit;
    O.UnitOn(b);
    FromNext(b, 0);
    FromNext(b, 1);
    FromNext(b, 2);
    FromNext(b, 3);
    FromNext(b, 4);
    FromNext(b, 5);
    FromNext(b, 6);
    FromNext(b, 7);
    FromEnd(b);
  }

  lemma {:induction false} FromNext(b: bv8, k: nat)
    requires k < 8
    ensures From(b, k) == O.One(O.On(b, k)) + 2 * From(b, k + 1)
  {
  }

  lemma {:induction false} FromEnd(b: bv8)
    ensures From(b, 8) == 0
  {
  }

  lemma {:induction false} FromBit(b: bv8, k: nat, i: nat)
    requires k + i < 8
    ensures Bit(From(b, k), i) == O.One(O.On(b, k + i))
    decreases i
  {
    hide O.On, From, O.One;
    FromNext(b, k);
    BitAbove(O.On(b, k), From(b, k + 1), i);
    if i != 0 {
      FromBit(b, k + 1, i - 1);
    }
  }

  lemma {:induction false} ValueBit(b: bv8, i: nat)
    requires i < 8
    ensures Bit(O.Value(b), i) == O.One(O.On(b, i))
  {
    hide O.On, O.Value, From;
    FromIsValue(b);
    FromBit(b, 0, i);
  }

  lemma {:induction false} ValueSum(a: bv8, b: bv8)
    ensures O.Value(O.Sum(a, b)) == Xor(O.Value(a), O.Value(b))
  {
    hide O.On, O.Value, O.Sum, Xor;
    var x, y := O.Value(O.Sum(a, b)), Xor(O.Value(a), O.Value(b));
    forall i: nat | i < 8
      ensures (Bit(x, i) + Bit(y, i)) % 2 == 0
    {
      O.SumOn(a, b, i);
      ValueBit(a, i);
      ValueBit(b, i);
      ValueBit(O.Sum(a, b), i);
      XorBit(O.Value(a), O.Value(b), i);
    }
    SameByte(x, y);
  }

  lemma {:induction false} ValueDoubled(b: bv8)
    ensures O.Value(O.Doubled(b)) == Xtime(O.Value(b))
  {
    hide O.On, O.Value, O.Doubled, Xtime;
    var x, y := O.Value(O.Doubled(b)), Xtime(O.Value(b));
    forall i: nat | i < 8
      ensures (Bit(x, i) + Bit(y, i)) % 2 == 0
    {
      O.DoubledOn(b, i);
      ValueBit(b, 7);
      if i != 0 {
        ValueBit(b, i - 1);
      }
      ValueBit(O.Doubled(b), i);
      XtimeBit(O.Value(b), i);
    }
    SameByte(x, y);
  }

  /** One more bit of the first factor. */
  lemma {:induction false} ProductFrom(n: Byte, u: Byte, b: bv8, c: bv8, rest: bv8)
    requires n == O.Unit(c) + 2 * u
    requires Product(u, O.Value(O.Doubled(b))) == O.Value(rest)
    ensures Product(n, O.Value(b)) == O.Value(O.Sum(O.If(c, b), rest))
  {
    hide O.Value, O.Doubled, O.Sum, Xtime, Product, Xor;
    ValueDoubled(b);
    assert n / 2 == u && (n % 2 == 1 <==> c != 0);
    ProductStep(n, O.Value(b));
    ValueOfZero();
    ValueSum(O.If(c, b), rest);
  }

  lemma {:induction false} ValueOfZero()
    ensures O.Value(0) == 0 && O.Value(1) == 1
  {
  }

  /** The products of bit vectors are the products of bytes. */
  lemma {:induction false} ValueTimes(a: bv8, b: bv8)
    ensures O.Value(O.Times(a, b)) == Product(O.Value(a), O.Value(b))
  {
    hide *;
    var c0, c1, c2, c3, c4, c5, c6, c7 := O.ByBits(a, b);
    var b4 := O.FourTimes(b);
    NoProduct(O.Value(O.FourTimes(b4)));
    ValueOfZero();
    ValueChosen(0, c4, c5, c6, c7, b4, 0);
    ValueChosen(O.Unit(c4) + 2 * O.Unit(c5) + 4 * O.Unit(c6) + 8 * O.Unit(c7), c0, c1, c2, c3, b, O.Chosen(c4, c5, c6, c7, b4, 0));
  }

  /** Four more bits of the first factor. */
  lemma {:induction false} ValueChosen(u: nat, c0: bv8, c1: bv8, c2: bv8, c3: bv8, b: bv8, rest: bv8)
    requires u < 16 && Product(u, O.Value(O.FourTimes(b))) == O.Value(rest)
    ensures Product(O.Unit(c0) + 2 * O.Unit(c1) + 4 * O.Unit(c2) + 8 * O.Unit(c3) + 16 * u, O.Value(b))
            == O.Value(O.Chosen(c0, c1, c2, c3, b, rest))
  {
    hide O.Value, O.Doubled, O.If, O.Unit, O.Sum, Product;
    var b1 := O.Doubled(b);
    var b2 := O.Doubled(b1);
    var b3 := O.Doubled(b2);
    var n3, t3 := O.Unit(c3) + 2 * u, O.Sum(O.If(c3, b3), rest);
    ProductFrom(n3, u, b3, c3, rest);
    var n2, t2 := O.Unit(c2) + 2 * n3, O.Sum(O.If(c2, b2), t3);
    ProductFrom(n2, n3, b2, c2, t3);
    var n1, t1 := O.Unit(c1) + 2 * n2, O.Sum(O.If(c1, b1), t2);
    ProductFrom(n1, n2, b1, c1, t2);
    ProductFrom(O.Unit(c0) + 2 * n1, n1, b, c0, t1);
  }

  lemma {:induction false} NoProduct(y: Byte)
    ensures Product(0, y) == 0
  {
  }

  // ----- the table -----

  ghost predicate IsInverse(x: Byte, y: Byte) {
    if x == 0 then y == 0 else Product(x, y) == 1
  }

  /** Bit `i` is the sum of five bits of `y` and the bit of 0x63. */
  ghost predicate IsAffineImage(s: Byte, y: Byte) {
    forall i: nat :: i < 8 ==>
      (Bit(s, i) + Bit(y, i) + Bit(y, (i + 4) % 8) + Bit(y, (i + 5) % 8) + Bit(y, (i + 6) % 8) + Bit(y, (i + 7) % 8)
        + Bit(0x63, i)) % 2 == 0
  }

  lemma {:induction false} AffineImage(b: bv8)
    ensures IsAffineImage(O.Value(O.Affine(b)), O.Value(b))
  {
    hide O.On, O.Value, O.Affine, Bit, O.One;
    forall i: nat | i < 8
      ensures (Bit(O.Value(O.Affine(b)), i) + Bit(O.Value(b), i) + Bit(O.Value(b), (i + 4) % 8) + Bit(O.Value(b), (i + 5) % 8)
        + Bit(O.Value(b), (i + 6) % 8) + Bit(O.Value(b), (i + 7) % 8) + Bit(0x63, i)) % 2 == 0
    {
      AffineBit(b, i);
      ValueBit(O.Affine(b), i);
      ValueBit(b, i);
      ValueBit(b, (i + 4) % 8);
      ValueBit(b, (i + 5) % 8);
      ValueBit(b, (i + 6) % 8);
      ValueBit(b, (i + 7) % 8);
      ValueBit(0x63, i);
      ConstantOfAffine();
    }
  }

  lemma {:induction false} AffineBit(b: bv8, i: nat)
    requires i < 8
    ensures (O.One(O.On(O.Affine(b), i)) + O.One(O.On(b, i)) + O.One(O.On(b, (i + 4) % 8)) + O.One(O.On(b, (i + 5) % 8))
      + O.One(O.On(b, (i + 6) % 8)) + O.One(O.On(b, (i + 7) % 8)) + O.One(O.On(0x63, i))) % 2 == 0
  {
    hide O.On, O.Affine;
    O.AffineOn(b, i);
  }

  lemma {:induction false} ConstantOfAffine()
    ensures O.Value(0x63) == 0x63
  {
  }

  lemma {:induction false} Row0(i: int)
    requires 0 <= i < 16 && |S_BOX| == 16 && |S_BOX[0]| == 16
    ensures O.IsEntry(16 * 0 + i, S_BOX[0][i])
  {
    hide O.IsEntry;
    O.EntryOfZero();
    O.EntryOfOne();
    O.Entries0();
    O.Entries8();
    assert IsIndex(i);
  }

  lemma {:induction false} Row1(i: int)
    requires 0 <= i < 16 && |S_BOX| == 16 && |S_BOX[1]| == 16
    ensures O.IsEntry(16 * 1 + i, S_BOX[1][i])
  {
    hide O.IsEntry;
    O.Entries16();
    O.Entries24();
    assert IsIndex(i);
  }

  lemma {:induction false} Row2(i: int)
    requires 0 <= i < 16 && |S_BOX| == 16 && |S_BOX[2]| == 16
    ensures O.IsEntry(16 * 2 + i, S_BOX[2][i])
  {
    hide O.IsEntry;
    O.Entries32();
    O.Entries40();
    assert IsIndex(i);
  }

  lemma {:induction false} Row3(i: int)
    requires 0 <= i < 16 && |S_BOX| == 16 && |S_BOX[3]| == 16
    ensures O.IsEntry(16 * 3 + i, S_BOX[3][i])
  {
    hide O.IsEntry;
    O.Entries48();
    O.Entries56();
    assert IsIndex(i);
  }

  lemma {:induction false} Row4(i: int)
    requires 0 <= i < 16 && |S_BOX| == 16 && |S_BOX[4]| == 16
    ensures O.IsEntry(16 * 4 + i, S_BOX[4][i])
  {
    hide O.IsEntry;
    O.Entries64();
    O.Entries72();
    assert IsIndex(i);
  }

  lemma {:induction false} Row5(i: int)
    requires 0 <= i < 16 && |S_BOX| == 16 && |S_BOX[5]| == 16
    ensures O.IsEntry(16 * 5 + i, S_BOX[5][i])
  {
    hide O.IsEntry;
    O.Entries80();
    O.Entries88();
    assert IsIndex(i);
  }

  lemma {:induction false} Row6(i: int)
    requires 0 <= i < 16 && |S_BOX| == 16 && |S_BOX[6]| == 16
    ensures O.IsEntry(16 * 6 + i, S_BOX[6][i])
  {
    hide O.IsEntry;
    O.Entries96();
    O.Entries104();
    assert IsIndex(i);
  }

  lemma {:induction false} Row7(i: int)
    requires 0 <= i < 16 && |S_BOX| == 16 && |S_BOX[7]| == 16
    ensures O.IsEntry(16 * 7 + i, S_BOX[7][i])
  {
    hide O.IsEntry;
    O.Entries112();
    O.Entries120();
    assert IsIndex(i);
  }

  lemma {:induction false} Row8(i: int)
    requires 0 <= i < 16 && |S_BOX| == 16 && |S_BOX[8]| == 16
    ensures O.IsEntry(16 * 8 + i, S_BOX[8][i])
  {
    hide O.IsEntry;
    O.Entries128();
    O.Entries136();
    assert IsIndex(i);
  }

  lemma {:induction false} Row9(i: int)
    requires 0 <= i < 16 && |S_BOX| == 16 && |S_BOX[9]| == 16
    ensures O.IsEntry(16 * 9 + i, S_BOX[9][i])
  {
    hide O.IsEntry;
    O.Entries144();
    O.Entries152();
    assert IsIndex(i);
  }

  lemma {:induction false} Row10(i: int)
    requires 0 <= i < 16 && |S_BOX| == 16 && |S_BOX[10]| == 16
    ensures O.IsEntry(16 * 10 + i, S_BOX[10][i])
  {
    hide O.IsEntry;
    O.Entries160();
    O.Entries168();
    assert IsIndex(i);
  }

  lemma {:induction false} Row11(i: int)
    requires 0 <= i < 16 && |S_BOX| == 16 && |S_BOX[11]| == 16
    ensures O.IsEntry(16 * 11 + i, S_BOX[11][i])
  {
    hide O.IsEntry;
    O.Entries176();
    O.Entries184();
    assert IsIndex(i);
  }

  lemma {:induction false} Row12(i: int)
    requires 0 <= i < 16 && |S_BOX| == 16 && |S_BOX[12]| == 16
    ensures O.IsEntry(16 * 12 + i, S_BOX[12][i])
  {
    hide O.IsEntry;
    O.Entries192();
    O.Entries200();
    assert IsIndex(i);
  }

  lemma {:induction false} Row13(i: int)
    requires 0 <= i < 16 && |S_BOX| == 16 && |S_BOX[13]| == 16
    ensures O.IsEntry(16 * 13 + i, S_BOX[13][i])
  {
    hide O.IsEntry;
    O.Entries208();
    O.Entries216();
    assert IsIndex(i);
  }

  lemma {:induction false} Row14(i: int)
    requires 0 <= i < 16 && |S_BOX| == 16 && |S_BOX[14]| == 16
    ensures O.IsEntry(16 * 14 + i, S_BOX[14][i])
  {
    hide O.IsEntry;
    O.Entries224();
    O.Entries232();
    assert IsIndex(i);
  }

  lemma {:induction false} Row15(i: int)
    requires 0 <= i < 16 && |S_BOX| == 16 && |S_BOX[15]| == 16
    ensures O.IsEntry(16 * 15 + i, S_BOX[15][i])
  {
    hide O.IsEntry;
    O.Entries240();
    O.Entries248();
    assert IsIndex(i);
  }

  lemma {:induction false} IsEntryOf(x: Byte)
    requires IsTable(S_BOX)
    ensures O.IsEntry(x, Lookup(S_BOX, x))
  {
    hide O.IsEntry;
    var r, i := x / 16, x % 16;
    assert IsIndex(r);
    Row0(i);
    Row1(i);
    Row2(i);
    Row3(i);
    Row4(i);
    Row5(i);
    Row6(i);
    Row7(i);
    Row8(i);
    Row9(i);
    Row10(i);
    Row11(i);
    Row12(i);
    Row13(i);
    Row14(i);
    Row15(i);
  }

  /** Every entry is the affine image of the inverse of its index, and of zero for zero. */
  lemma {:induction false} EntriesAreAffineInverses(x: Byte)
    ensures IsTable(S_BOX)
    ensures exists y: Byte :: IsInverse(x, y) && IsAffineImage(Lookup(S_BOX, x), y)
  {
    hide O.Value, O.Affine, O.Times, Lookup, IsAffineImage, Product;
    TableShapes();
    IsEntryOf(x);
    var a: bv8, b: bv8 :| O.Value(a) == x && O.Value(O.Affine(b)) == Lookup(S_BOX, x)
      && (x == 0 ==> b == 0) && (x != 0 ==> O.Times(a, b) == 1);
    ValueTimes(a, b);
    ValueOfZero();
    AffineImage(b);
    assert IsInverse(x, O.Value(b));
  }
}
