/** The comba multipliers: a column at a time into one wide accumulator, the
    carries delayed to the end of the column. */
module Comba {
  import opened Arith
  import opened Digits
  import opened MpInts
  import opened Columns

  // ----- room in a word -----

  const PRODUCT_MAX: int := (B - 1) * (B - 1)

  lemma {:induction false} DigitProduct(x: int, y: int)
    requires 0 <= x < B && 0 <= y < B
    ensures 0 <= x * y <= PRODUCT_MAX
  {
    MulBothLe(x, B - 1, y, B - 1);
    MulNonNeg(x, y);
  }

  /** MAX_COMBA digit products and the carry of such a column fit in a word. */
  lemma {:induction false} ColumnRoom(acc: int, terms: int)
    requires 0 <= terms <= MAX_COMBA
    requires 0 <= acc <= MAX_COMBA * B + terms * PRODUCT_MAX
    ensures acc < WORD_LIMIT && 0 <= acc / B <= MAX_COMBA * B
  {
    RadixFacts();
    MulLe(terms, MAX_COMBA, PRODUCT_MAX);
    assert MAX_COMBA * B + MAX_COMBA * PRODUCT_MAX == MAX_COMBA * (B * B - B + 1) by {
      assert PRODUCT_MAX == B * B - 2 * B + 1;
      Distribute(B, PRODUCT_MAX, MAX_COMBA);
    }
    MulLt(B * B - B + 1, B * B, MAX_COMBA);
    assert MAX_COMBA * (B * B) == (MAX_COMBA * B) * B by { Assoc(MAX_COMBA, B, B); }
    DivLt(acc, B, MAX_COMBA * B);
    DivNonNeg(acc, B);
  }

  // ----- storing a column -----

  /** Column `ix` absorbed: its low digit is stored and the rest carried. */
  lemma {:induction false} StoreColumn(low: seq<int>, carry: int, acc: Word, cols: seq<int>, ix: nat)
    requires AreDigits(low) && |low| == ix < |cols|
    requires acc == carry + cols[ix]
    requires Val(low) + BP(ix) * carry == Val(cols[..ix])
    ensures AreDigits(low + [acc % B]) && 0 <= acc / B < WORD_LIMIT
    ensures Val(low + [acc % B]) + BP(ix + 1) * (acc / B) == Val(cols[..ix + 1])
  {
    DivMod(acc, B);
    DivNonNeg(acc, B);
    ValSnoc(low, acc % B);
    assert cols[..ix + 1] == cols[..ix] + [cols[ix]];
    ValSnoc(cols[..ix], cols[ix]);
    BPSucc(ix);
    Assoc(BP(ix), B, acc / B);
    Distribute(carry, cols[ix], BP(ix));
    Distribute(B * (acc / B), acc % B, BP(ix));
  }

  /** The stored digits are the product modulo the weight of the first column left out. */
  lemma {:induction false} StoredProduct(low: seq<int>, carry: int, a: seq<int>, b: seq<int>, pa: nat, digs: nat)
    requires AreDigits(low) && AreDigits(a) && AreDigits(b)
    requires |low| == pa == Min(digs, |a| + |b|)
    requires Val(low) + BP(pa) * carry == Val(AllColumns(a, b, |a| + |b|)[..pa])
    ensures Val(low) == (Val(a) * Val(b)) % BP(digs)
  {
    var cols := AllColumns(a, b, |a| + |b|);
    ColumnsAreProduct(a, b, |a| + |b|);
    ValSplit(cols, pa);
    ValBound(low);
    var q := carry + Val(cols[pa..]);
    assert Val(a) * Val(b) == q * BP(pa) + Val(low) by {
      Distribute(carry, Val(cols[pa..]), BP(pa));
    }
    DivModUnique(Val(a) * Val(b), BP(pa), q, Val(low));
    if pa < digs {
      ProductBound(a, b);
      ModSmall(Val(a) * Val(b), BP(pa));
      BPLe(pa, digs);
      ModSmall(Val(a) * Val(b), BP(digs));
    }
  }

  lemma {:induction false} ProductBound(a: seq<int>, b: seq<int>)
    requires AreDigits(a) && AreDigits(b)
    ensures 0 <= Val(a) * Val(b) < BP(|a| + |b|)
  {
    ValBound(a);
    ValBound(b);
    BPAdd(|a|, |b|);
    MulNonNeg(Val(a), Val(b));
    MulLe(Val(a), BP(|a|), Val(b));
    MulLt(Val(b), BP(|b|), BP(|a|));
  }

  // ----- comba multiplication -----

  ghost predicate InRoom(acc: int, terms: int) {
    0 <= terms <= MAX_COMBA && 0 <= acc <= MAX_COMBA * B + terms * PRODUCT_MAX
  }

  /** Adding row `x` to column sum `r` leaves the rows from `x + 1` to add. */
  lemma {:induction false} AddTerm(a: seq<int>, b: seq<int>, x: nat, y: nat, r: int, terms: int, total: int)
    requires AreDigits(a) && AreDigits(b) && x < |a| && y < |b|
    requires InRoom(r, terms) && terms < MAX_COMBA
    requires r + Column(a[x..], b, y) == total
    ensures r + a[x] * b[y] + Column(a[x + 1..], b, y - 1) == total
    ensures InRoom(r + a[x] * b[y], terms + 1) && 0 <= r + a[x] * b[y] < WORD_LIMIT
  {
    ColumnStep(a, b, x, y);
    DigitProduct(a[x], b[y]);
    Distribute(terms, 1, PRODUCT_MAX);
    ColumnRoom(r + a[x] * b[y], terms + 1);
  }

  /** Where the first nonzero row of column `ix` is. */
  lemma {:induction false} ColumnStart(a: seq<int>, b: seq<int>, ix: nat, tx: nat, ty: int)
    requires ix < |a| + |b|
    requires ty == Min(|b| - 1, ix) && tx == ix - ty
    ensures tx < |a| && 0 <= ty ==> Column(a, b, ix) == Column(a[tx..], b, ty)
    ensures tx >= |a| || ty < 0 ==> Column(a, b, ix) == 0
  {
    var t := Min(tx, |a|);
    ColumnSkip(a, b, ix, t);
    if tx >= |a| || ty < 0 {
      ColumnEmpty(a[t..], b, ix - t);
    }
  }

  /** One column of the product, added to the carry `acc`. */
  method AddColumn(a: seq<int>, b: seq<int>, ix: nat, acc: Word) returns (r: Word)
    requires AreDigits(a) && AreDigits(b) && ix < |a| + |b|
    requires Min(|a|, |b|) <= MAX_COMBA && InRoom(acc, 0)
    ensures r == acc + Column(a, b, ix)
    ensures InRoom(r / B, 0)
  {
    ghost var total := acc + Column(a, b, ix);
    var ty := Min(|b| - 1, ix);
    var tx := ix - ty;
    var iy := Min(|a| - tx, ty + 1);
    ColumnStart(a, b, ix, tx, ty);
    r := acc;
    var iz := 0;
    while iz < iy
      invariant 0 <= iz <= Max(iy, 0)
      invariant 0 < iy ==> r + Column(a[tx + iz..], b, ty - iz) == total
      invariant iy <= 0 ==> r == total
      invariant InRoom(r, iz)
    {
      AddTerm(a, b, tx + iz, ty - iz, r, iz, total);
      r := r + a[tx + iz] * b[ty - iz];
      iz := iz + 1;
    }
    ColumnRoom(r, iz);
    if 0 < iy {
      ColumnEmpty(a[tx + iz..], b, ty - iz);
    }
  }

  /** The columns from `from` up to `pa`, each reduced to a digit in the buffer
      and its carry passed on; the carry out of the last one is `acc`. */
  method StoreColumns(a: seq<int>, b: seq<int>, from: nat, pa: nat) returns (digits: seq<int>, acc: Word)
    requires AreDigits(a) && AreDigits(b) && Min(|a|, |b|) <= MAX_COMBA
    requires from <= pa <= |a| + |b| && pa <= WARRAY
    ensures AreDigits(digits) && |digits| == pa - from
    ensures Val(digits) + BP(|digits|) * acc == Val(AllColumns(a, b, |a| + |b|)[from..][..pa - from])
  {
    ghost var cols := AllColumns(a, b, |a| + |b|)[from..];
    var W := new int[WARRAY];
    acc := 0;
    for ix := from to pa
      invariant AreDigits(W[from..ix]) && InRoom(acc, 0)
      invariant Val(W[from..ix]) + BP(ix - from) * acc == Val(cols[..ix - from])
    {
      ghost var low, carry := W[from..ix], acc;
      acc := AddColumn(a, b, ix, acc);
      StoreColumn(low, carry, acc, cols, ix - from);
      W[ix] := acc % B;
      assert W[from..ix + 1] == low + [acc % B];
      acc := acc / B;
    }
    digits := W[from..pa];
  }

  /** `c` = |a| * |b|, columns below `digs` only. */
  method MulComba(a: MpInt, b: MpInt, c: MpInt, digs: nat)
    requires a.Valid() && b.Valid()
    requires digs < WARRAY && Min(|a.dp|, |b.dp|) <= MAX_COMBA
    modifies c
    ensures c.Valid()
    ensures Val(c.dp) == (old(Val(a.dp)) * old(Val(b.dp))) % BP(digs)
    ensures c.sign == if c.dp == [] then Zpos else old(c.sign)
  {
    DigitsOf(a);
    DigitsOf(b);
    var pa := Min(digs, |a.dp| + |b.dp|);
    var W, acc := StoreColumns(a.dp, b.dp, 0, pa);
    assert AllColumns(a.dp, b.dp, |a.dp| + |b.dp|)[0..] == AllColumns(a.dp, b.dp, |a.dp| + |b.dp|);
    StoredProduct(W, acc, a.dp, b.dp, pa, digs);
    c.dp := W;
    c.Clamp();
  }

  // ----- the high columns only -----

  /** `low` becomes the digits of the columns from `digs` on; below them stay
      whatever digits `c` had, which the caller drops. */
  method MulHighComba(a: MpInt, b: MpInt, c: MpInt, digs: nat)
    requires a.Valid() && b.Valid() && c.Valid()
    requires |a.dp| + |b.dp| <= WARRAY && Min(|a.dp|, |b.dp|) <= MAX_COMBA
    requires |a.dp| <= digs + 1
    modifies c
    ensures c.Valid()
    ensures Val(c.dp) / BP(digs) == HighPart(old(a.dp), old(b.dp), digs)
    ensures c.sign == if c.dp == [] then Zpos else old(c.sign)
  {
    DigitsOf(a);
    DigitsOf(b);
    DigitsOf(c);
    var pa := |a.dp| + |b.dp|;
    // the digits of c below digs are not written
    var kept := Kept(c.dp, Min(digs, pa));
    if digs < pa {
      var W, acc := StoreColumns(a.dp, b.dp, digs, pa);
      StoredHigh(kept, W, acc, a.dp, b.dp, digs);
      c.dp := kept + W;
    } else {
      StoredNothing(kept, a.dp, b.dp, digs);
      c.dp := kept;
    }
    c.Clamp();
  }

  /** The low `n` digits of a number whose unused digits are zero. */
  function Kept(s: seq<int>, n: nat): (t: seq<int>)
    ensures |t| == n
    ensures AreDigits(s) ==> AreDigits(t)
  {
    if n <= |s| then s[..n] else s + seq(n - |s|, _ => 0)
  }

  lemma {:induction false} StoredHigh(kept: seq<int>, high: seq<int>, carry: int, a: seq<int>, b: seq<int>, digs: nat)
    requires AreDigits(kept) && AreDigits(high) && AreDigits(a) && AreDigits(b) && 0 <= carry
    requires |kept| == digs < |a| + |b| && |high| == |a| + |b| - digs && |a| <= digs + 1
    requires Val(high) + BP(|high|) * carry == Val(AllColumns(a, b, |a| + |b|)[digs..][..|high|])
    ensures AreDigits(kept + high) && Val(kept + high) / BP(digs) == HighPart(a, b, digs)
  {
    var cols := AllColumns(a, b, |a| + |b|);
    assert cols[digs..][..|high|] == cols[digs..];
    HighColumns(a, b, |a| + |b|, digs);
    HighPartBound(a, b, digs);
    ValBound(high);
    assert HighPart(a, b, digs) < BP(|high|) by {
      ProductBound(a, b);
      BPAdd(digs, |high|);
      MulCancelLt(HighPart(a, b, digs), BP(|high|), BP(digs));
    }
    NoCarry(Val(high), BP(|high|), carry);
    ValDivMod(kept + high, digs);
    assert (kept + high)[digs..] == high;
  }

  lemma {:induction false} NoCarry(low: int, w: int, carry: int)
    requires 0 <= low && 0 < w && 0 <= carry && low + w * carry < w
    ensures carry == 0
  {
    if 0 < carry {
      MulLe(1, carry, w);
    }
  }

  lemma {:induction false} StoredNothing(kept: seq<int>, a: seq<int>, b: seq<int>, digs: nat)
    requires AreDigits(kept) && AreDigits(a) && AreDigits(b)
    requires |a| + |b| <= digs && |kept| <= digs
    ensures Val(kept) / BP(digs) == HighPart(a, b, digs)
  {
    ValBound(kept);
    BPLe(|kept|, digs);
    ModSmall(Val(kept), BP(digs));
    HighPartZero(a, b, digs);
  }

  // ----- comba squaring -----

  /** The sum of a[x + i] * a[y - i] for i below `n`. */
  ghost function PairSum(a: seq<int>, x: int, y: int, n: nat): int
    requires 0 <= x && x + n <= |a| && n <= y + 1 <= |a|
  {
    if n == 0 then 0 else PairSum(a, x, y, n - 1) + a[x + n - 1] * a[y - n + 1]
  }

  /** Peeling a pair sum from its first term. */
  lemma {:induction false} PairSumFirst(a: seq<int>, x: nat, y: nat, n: nat)
    requires 0 < n && x + n <= |a| && n <= y + 1 <= |a|
    ensures PairSum(a, x, y, n) == a[x] * a[y] + PairSum(a, x + 1, y - 1, n - 1)
  {
    if n != 1 {
      PairSumFirst(a, x, y, n - 1);
    }
  }

  /** A column of the square is a pair sum over all its rows. */
  lemma {:induction false} ColumnIsPairSum(a: seq<int>, x: nat, y: int)
    requires -1 <= y < |a| && x <= |a|
    ensures Column(a[x..], a, y) == PairSum(a, x, y, Min(|a| - x, y + 1))
    decreases y + 1
  {
    if 0 <= y && x < |a| {
      ColumnStep(a, a, x, y);
      PairSumFirst(a, x, y, Min(|a| - x, y + 1));
      ColumnIsPairSum(a, x + 1, y - 1);
    } else {
      ColumnEmpty(a[x..], a, y);
    }
  }

  /** The rows of a square come in `h` equal pairs, and one in the middle if their number is odd. */
  lemma {:induction false} PairSumFolds(a: seq<int>, x: nat, y: int, h: nat, odd: bool)
    requires -1 <= y < |a| && y - x + 1 == 2 * h + if odd then 1 else 0
    ensures PairSum(a, x, y, y - x + 1) == 2 * PairSum(a, x, y, h) + if odd then a[x + h] * a[x + h] else 0
    decreases h
  {
    if h != 0 {
      PairSumFirst(a, x, y, y - x + 1);
      PairSumFirst(a, x, y, h);
      PairSumFolds(a, x + 1, y - 1, h - 1, odd);
      var inner := PairSum(a, x + 1, y - 1, y - x - 1);
      assert PairSum(a, x + 1, y - 1, y - x) == inner + a[y] * a[x];
    }
  }

  /** One column of the square: its pairs doubled, its middle square, and the carry. */
  method SquareColumn(a: seq<int>, ix: nat, carry: Word) returns (r: Word)
    requires AreDigits(a) && ix < 2 * |a| && 2 * |a| < MAX_COMBA
    requires InRoom(carry, 0)
    ensures r == carry + Column(a, a, ix)
    ensures InRoom(r / B, 0)
  {
    var ty := Min(|a| - 1, ix);
    var tx := ix - ty;
    ColumnStart(a, a, ix, tx, ty);
    var iy := Min(|a| - tx, ty + 1);
    ghost var rows := iy;
    iy := Min(iy, (ty - tx + 1) / 2);
    var acc: int := 0;
    var iz := 0;
    while iz < iy
      invariant 0 <= iz <= Max(iy, 0) <= rows
      invariant acc == PairSum(a, tx, ty, iz)
      invariant 0 <= acc <= iz * PRODUCT_MAX
    {
      DigitProduct(a[tx + iz], a[ty - iz]);
      Distribute(iz, 1, PRODUCT_MAX);
      acc := acc + a[tx + iz] * a[ty - iz];
      iz := iz + 1;
    }
    SquareFold(a, ix, tx, ty, iz, acc, carry);
    r := acc + acc + carry;
    if ix % 2 == 0 {
      r := r + a[ix / 2] * a[ix / 2];
    }
  }

  /** The middle row of column `ix` of a square, if it has one. */
  ghost function MiddleSquare(a: seq<int>, ix: nat): int
    requires ix < 2 * |a|
  {
    if ix % 2 == 0 then a[ix / 2] * a[ix / 2] else 0
  }

  lemma {:induction false} SquareFold(a: seq<int>, ix: nat, tx: nat, ty: nat, h: nat, acc: int, carry: int)
    requires AreDigits(a) && ix < 2 * |a| && 2 * |a| < MAX_COMBA
    requires ty == Min(|a| - 1, ix) && tx == ix - ty
    requires tx < |a| ==> Column(a, a, ix) == Column(a[tx..], a, ty)
    requires tx >= |a| ==> Column(a, a, ix) == 0
    requires h == Max((ty - tx + 1) / 2, 0) && acc == PairSum(a, tx, ty, h)
    requires 0 <= acc <= h * PRODUCT_MAX && InRoom(carry, 0)
    ensures acc + acc + MiddleSquare(a, ix) == Column(a, a, ix)
    ensures 0 <= acc + acc + carry <= acc + acc + carry + MiddleSquare(a, ix) < WORD_LIMIT
    ensures InRoom((acc + acc + carry + MiddleSquare(a, ix)) / B, 0)
  {
    SquareSum(a, ix, tx, ty, h);
    if ix % 2 == 0 {
      DigitProduct(a[ix / 2], a[ix / 2]);
    } else {
      DigitProduct(0, 0);
    }
    SquareRoom(acc, h, carry, MiddleSquare(a, ix));
  }

  lemma {:induction false} SquareSum(a: seq<int>, ix: nat, tx: nat, ty: nat, h: nat)
    requires ix < 2 * |a|
    requires ty == Min(|a| - 1, ix) && tx == ix - ty
    requires tx < |a| ==> Column(a, a, ix) == Column(a[tx..], a, ty)
    requires tx >= |a| ==> Column(a, a, ix) == 0
    requires h == Max((ty - tx + 1) / 2, 0)
    ensures 2 * PairSum(a, tx, ty, h) + MiddleSquare(a, ix) == Column(a, a, ix)
  {
    var odd := ix % 2 == 0;
    assert ty - tx + 1 == 2 * h + if odd then 1 else 0;
    if tx < |a| {
      ColumnIsPairSum(a, tx, ty);
      PairSumFolds(a, tx, ty, h, odd);
      if odd {
        assert tx + h == ix / 2;
      }
    }
  }

  lemma {:induction false} SquareRoom(acc: int, h: nat, carry: int, square: int)
    requires 2 * h + 1 <= MAX_COMBA && 0 <= acc <= h * PRODUCT_MAX
    requires InRoom(carry, 0) && 0 <= square <= PRODUCT_MAX
    ensures 0 <= acc + acc + carry + square < WORD_LIMIT
    ensures InRoom((acc + acc + carry + square) / B, 0)
  {
    Distribute(h, h, PRODUCT_MAX);
    Distribute(2 * h, 1, PRODUCT_MAX);
    ColumnRoom(acc + acc + carry + square, 2 * h + 1);
  }

  /** `b` = `a` squared. */
  method SqrComba(a: MpInt, b: MpInt)
    requires a.Valid() && 2 * |a.dp| < MAX_COMBA
    modifies b
    ensures b.Valid()
    ensures Val(b.dp) == old(Val(a.dp)) * old(Val(a.dp))
    ensures b.sign == if b.dp == [] then Zpos else old(b.sign)
  {
    DigitsOf(a);
    ghost var x := a.dp;
    ghost var cols := AllColumns(x, x, |x| + |x|);
    var pa := |a.dp| + |a.dp|;
    var W := new int[WARRAY];
    var W1: Word := 0;
    for ix := 0 to pa
      invariant a.dp == x && b.sign == old(b.sign)
      invariant AreDigits(W[..ix]) && InRoom(W1, 0)
      invariant Val(W[..ix]) + BP(ix) * W1 == Val(cols[..ix])
    {
      ghost var low, carry := W[..ix], W1;
      var acc := SquareColumn(a.dp, ix, W1);
      StoreColumn(low, carry, acc, cols, ix);
      W[ix] := acc % B;
      assert W[..ix + 1] == low + [acc % B];
      W1 := acc / B;
    }
    StoredProduct(W[..pa], W1, x, x, pa, pa);
    ProductBound(x, x);
    ModSmall(Val(x) * Val(x), BP(pa));
    b.dp := W[..pa];
    b.Clamp();
  }
}
