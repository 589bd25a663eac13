/** Multiplication of any two numbers: the choice of algorithm by size, and the
    recursive algorithms, which come back to that choice.

    Temporaries of the recursive algorithms are held by value. */
module Multiply {
  import opened Arith
  import opened Digits
  import opened MpInts
  import opened Columns
  import Comba
  import Schoolbook
  import DivideDigit

  /** Run-time tunable; four digits are enough for every recursion to shrink. */
  type Cutoff = c: int | 4 <= c witness 80

  const MUL_KARATSUBA_CUTOFF: Cutoff
  const SQR_KARATSUBA_CUTOFF: Cutoff
  const MUL_TOOM_CUTOFF: Cutoff
  const SQR_TOOM_CUTOFF: Cutoff

  // ----- products of limited width -----

  /** |a| * |b|, columns below `digs` only. */
  method MulTruncated(a: MpInt, b: MpInt, c: MpInt, digs: nat)
    requires a.Valid() && b.Valid()
    modifies c
    ensures c.Valid() && Val(c.dp) == (old(Val(a.dp)) * old(Val(b.dp))) % BP(digs)
    ensures c.sign == if c.dp == [] || old(c.sign) == Zpos then Zpos else c.sign
  {
    if digs < WARRAY && Min(|a.dp|, |b.dp|) < MAX_COMBA {
      Comba.MulComba(a, b, c, digs);
    } else {
      Schoolbook.MulSchool(a, b, c, digs);
    }
  }

  /** |a| * |b| with the columns from `digs` on right, those below left out. */
  method MulHigh(a: MpInt, b: MpInt, c: MpInt, digs: nat)
    requires a.Valid() && b.Valid() && c.Valid() && |a.dp| <= digs + 1
    modifies c
    ensures c.Valid() && Val(c.dp) / BP(digs) == HighPart(old(a.dp), old(b.dp), digs)
    ensures c.sign == if c.dp == [] || old(c.sign) == Zpos then Zpos else c.sign
  {
    if |a.dp| + |b.dp| + 1 < WARRAY && Min(|a.dp|, |b.dp|) < MAX_COMBA {
      Comba.MulHighComba(a, b, c, digs);
    } else {
      Schoolbook.MulHighSchool(a, b, c, digs);
    }
  }

  // ----- sizes that make the recursion end -----

  /** A part of a number has no more digits than places. */
  lemma {:induction false} PartUsed(s: seq<int>)
    requires AreDigits(s)
    ensures 0 <= Val(s) && Used(Val(s)) <= |s|
  {
    ValBound(s);
    UsedLe(Val(s), |s|);
  }

  /** A small multiple of a number of `n` digits has at most `n` + 1. */
  lemma {:induction false} UsedSum(v: int, n: nat)
    requires Abs(v) < 7 * BP(n)
    ensures Used(Abs(v)) <= n + 1
  {
    BPSucc(n);
    MulLe(7, B, BP(n));
    UsedLe(Abs(v), n + 1);
  }

  lemma {:induction false} PartBound(s: seq<int>, n: nat)
    requires AreDigits(s) && |s| <= n
    ensures 0 <= Val(s) < BP(n)
  {
    ValBound(s);
    BPLe(|s|, n);
  }

  // ----- the dispatcher -----

  /** c = a * b, for every size and sign; `a`, `b` and `c` may be the same object. */
  method Mul(a: MpInt, b: MpInt, c: MpInt)
    requires a.Valid() && b.Valid()
    modifies c
    ensures c.Valid() && c.Value() == old(a.Value()) * old(b.Value())
    decreases |a.dp| + |b.dp|, 4
  {
    ghost var x, y := a.Value(), b.Value();
    DigitsOf(a);
    DigitsOf(b);
    SignedProduct(x, y);
    var neg := a.sign != b.sign;
    MulMagnitudes(a, b, c);
    c.sign := if |c.dp| > 0 && neg then Neg else Zpos;
    DigitsOf(c);
  }

  /** |c| = |a| * |b| by the algorithm that suits the sizes. */
  method MulMagnitudes(a: MpInt, b: MpInt, c: MpInt)
    requires a.Valid() && b.Valid()
    modifies c
    ensures c.Valid() && Val(c.dp) == old(Val(a.dp)) * old(Val(b.dp))
    decreases |a.dp| + |b.dp|, 3
  {
    DigitsOf(a);
    DigitsOf(b);
    var min, max := Min(|a.dp|, |b.dp|), Max(|a.dp|, |b.dp|);
    var digs := |a.dp| + |b.dp| + 1;
    if a == b && |a.dp| >= SQR_TOOM_CUTOFF {
      SqrToom(a, c);
    } else if a == b && |a.dp| >= SQR_KARATSUBA_CUTOFF {
      SqrKaratsuba(a, c);
    } else if a == b && 2 * |a.dp| + 1 < WARRAY && |a.dp| < MAX_COMBA / 2 {
      Comba.SqrComba(a, c);
    } else if a == b {
      Schoolbook.SqrSchool(a, c);
    } else if min >= MUL_KARATSUBA_CUTOFF && max / 2 >= MUL_KARATSUBA_CUTOFF && max >= 2 * min {
      MulBalance(a, b, c);
    } else if min >= MUL_TOOM_CUTOFF {
      MulToom(a, b, c);
    } else if min >= MUL_KARATSUBA_CUTOFF {
      MulKaratsuba(a, b, c);
    } else if digs < WARRAY && min <= MAX_COMBA {
      WholeProduct(a.dp, b.dp, digs);
      Comba.MulComba(a, b, c, digs);
    } else {
      WholeProduct(a.dp, b.dp, digs);
      Schoolbook.MulSchool(a, b, c, digs);
    }
  }

  lemma {:induction false} SignedProduct(x: int, y: int)
    ensures x * y == if x < 0 <==> y < 0 then Abs(x) * Abs(y) else -(Abs(x) * Abs(y))
    ensures Abs(x) * Abs(y) == 0 <==> x == 0 || y == 0
  {
  }

  /** Truncation above the top column loses nothing. */
  lemma {:induction false} WholeProduct(a: seq<int>, b: seq<int>, digs: nat)
    requires AreDigits(a) && AreDigits(b) && |a| + |b| <= digs
    ensures (Val(a) * Val(b)) % BP(digs) == Val(a) * Val(b)
  {
    Comba.ProductBound(a, b);
    BPLe(|a| + |b|, digs);
    ModSmall(Val(a) * Val(b), BP(digs));
  }

  /** The recursive call on two temporaries. */
  method Product(x: int, y: int) returns (z: int)
    ensures z == x * y
    decreases Used(Abs(x)) + Used(Abs(y)), 5
  {
    var a := new MpInt.Of(x);
    var b := new MpInt.Of(y);
    var c := new MpInt();
    DigitsOf(a);
    DigitsOf(b);
    Mul(a, b, c);
    z := c.Value();
  }

  /** The recursive call that squares a temporary. */
  method Square(x: int) returns (z: int)
    ensures z == x * x
    decreases Used(Abs(x)) + Used(Abs(x)), 5
  {
    var a := new MpInt.Of(x);
    var c := new MpInt();
    DigitsOf(a);
    Mul(a, a, c);
    z := c.Value();
  }

  // ----- Karatsuba -----

  lemma {:induction false} KaratsubaIdentity(x0: int, x1: int, y0: int, y1: int, w: int)
    ensures (x0 + w * x1) * (y0 + w * y1)
         == x0 * y0 + ((x1 + x0) * (y1 + y0) - (x0 * y0 + x1 * y1)) * w + x1 * y1 * (w * w)
    ensures (x1 + x0) * (y1 + y0) == x1 * y1 + x0 * y0 + (x1 * y0 + x0 * y1)
  {
    Distribute(x1, x0, y1 + y0);
    Distribute(y1, y0, x1);
    Distribute(y1, y0, x0);
    Distribute(x0, w * x1, y0 + w * y1);
    Distribute(y0, w * y1, x0);
    Distribute(y0, w * y1, w * x1);
    assert x0 * (w * y1) == (x0 * y1) * w by { Assoc(x0, w, y1); Assoc(x0, y1, w); }
    assert (w * x1) * y0 == (x1 * y0) * w by { Assoc(w, x1, y0); }
    assert (w * x1) * (w * y1) == x1 * y1 * (w * w) by {
      Assoc(w, x1, w * y1);
      Assoc(x1, w, y1);
      Assoc(x1, y1, w);
      Assoc(w, w, x1 * y1);
    }
    Distribute(x1 * y0, x0 * y1, w);
  }

  /** The product of two digit sequences with three products of half the size. */
  method KaratsubaProduct(a: seq<int>, b: seq<int>) returns (r: int)
    requires AreDigits(a) && AreDigits(b) && Min(|a|, |b|) >= 4
    ensures r == Val(a) * Val(b)
    decreases |a| + |b|, 0
  {
    var half := Min(|a|, |b|) / 2;
    var x0, x1 := Val(a[..half]), Val(a[half..]);
    var y0, y1 := Val(b[..half]), Val(b[half..]);
    KaratsubaSizes(a, half);
    KaratsubaSizes(b, half);
    KaratsubaIdentity(x0, x1, y0, y1, BP(half));
    KaratsubaOrder(x0, x1, y0, y1);
    BPAdd(half, half);
    var x0y0 := Product(x0, y0);
    var x1y1 := Product(x1, y1);
    var t1 := x1 + x0;
    x0 := y1 + y0;
    t1 := Product(t1, x0);
    x0 := x0y0 + x1y1;
    // a subtraction of magnitudes: it needs the larger on the left
    assert 0 <= x0 <= t1;
    t1 := t1 - x0;
    t1 := t1 * BP(half);
    x1y1 := x1y1 * BP(half * 2);
    t1 := x0y0 + t1;
    r := t1 + x1y1;
  }

  lemma {:induction false} KaratsubaOrder(x0: nat, x1: nat, y0: nat, y1: nat)
    ensures 0 <= x0 * y0 && 0 <= x1 * y1 && 0 <= x0 * y1 && 0 <= x1 * y0
  {
  }

  /** |c| = |a| * |b| by Karatsuba's method. */
  method MulKaratsuba(a: MpInt, b: MpInt, c: MpInt)
    requires a.Valid() && b.Valid() && Min(|a.dp|, |b.dp|) >= 4
    modifies c
    ensures c.Valid() && Val(c.dp) == old(Val(a.dp)) * old(Val(b.dp))
    decreases |a.dp| + |b.dp|, 1
  {
    DigitsOf(a);
    DigitsOf(b);
    MulNonNeg(Val(a.dp), Val(b.dp));
    var r := KaratsubaProduct(a.dp, b.dp);
    c.Set(r);
  }

  lemma {:induction false} KaratsubaSizes(a: seq<int>, half: nat)
    requires AreDigits(a) && 2 <= half && 2 * half <= |a|
    ensures Val(a) == Val(a[..half]) + BP(half) * Val(a[half..])
    ensures 0 <= Val(a[..half]) && 0 <= Val(a[half..])
    ensures Used(Val(a[..half])) <= half && Used(Val(a[half..])) <= |a| - half
    ensures Used(Val(a[half..]) + Val(a[..half])) <= |a| - half + 1
  {
    ValSplit(a, half);
    PartUsed(a[..half]);
    PartUsed(a[half..]);
    PartBound(a[..half], |a| - half);
    PartBound(a[half..], |a| - half);
    UsedSum(Val(a[half..]) + Val(a[..half]), |a| - half);
  }

  /** |b| = |a| squared with three squares of half the size. */
  method SqrKaratsuba(a: MpInt, b: MpInt)
    requires a.Valid() && |a.dp| >= 4
    modifies b
    ensures b.Valid() && Val(b.dp) == old(Val(a.dp)) * old(Val(a.dp))
    decreases |a.dp| + |a.dp|, 1
  {
    DigitsOf(a);
    ghost var p := Val(a.dp) * Val(a.dp);
    var half := |a.dp| / 2;
    var x0, x1 := Val(a.dp[..half]), Val(a.dp[half..]);
    KaratsubaSizes(a.dp, half);
    KaratsubaIdentity(x0, x1, x0, x1, BP(half));
    MulNonNeg(x1, x0);
    var x0x0 := Square(x0);
    var x1x1 := Square(x1);
    var t1 := x1 + x0;
    t1 := Square(t1);
    var t2 := x0x0 + x1x1;
    assert t2 <= t1;
    t1 := t1 - t2;
    t1 := t1 * BP(half);
    BPAdd(half, half);
    x1x1 := x1x1 * BP(half * 2);
    t1 := x0x0 + t1;
    MulNonNeg(Val(a.dp), Val(a.dp));
    assert t1 + x1x1 == p;
    b.Set(t1 + x1x1);
  }

  // ----- Toom-Cook, three parts -----

  /** The value of three parts at weight `w`. */
  function Joined(p0: int, p1: int, p2: int, w: int): int {
    p0 + p1 * w + p2 * (w * w)
  }

  /** The five coefficients of the product of two three-part numbers. */
  datatype Coefficients = Coefficients(c0: int, c1: int, c2: int, c3: int, c4: int)

  function ProductCoefficients(a0: int, a1: int, a2: int, b0: int, b1: int, b2: int): Coefficients {
    Coefficients(a0 * b0, a0 * b1 + a1 * b0, a0 * b2 + a1 * b1 + a2 * b0, a1 * b2 + a2 * b1, a2 * b2)
  }

  function Recombined(c: Coefficients, w: int): int {
    c.c0 + c.c1 * w + c.c2 * (w * w) + c.c3 * (w * w * w) + c.c4 * (w * w * w * w)
  }

  lemma {:induction false} ExpandThree(p0: int, p1: int, p2: int, q0: int, q1: int, q2: int)
    ensures (p0 + p1 + p2) * (q0 + q1 + q2)
         == p0 * q0 + (p0 * q1 + p1 * q0) + (p0 * q2 + p1 * q1 + p2 * q0) + (p1 * q2 + p2 * q1) + p2 * q2
  {
    var q := q0 + q1 + q2;
    Distribute(p0 + p1, p2, q);
    Distribute(p0, p1, q);
    Distribute(q0 + q1, q2, p0);
    Distribute(q0, q1, p0);
    Distribute(q0 + q1, q2, p1);
    Distribute(q0, q1, p1);
    Distribute(q0 + q1, q2, p2);
    Distribute(q0, q1, p2);
  }

  lemma {:induction false} ScaledProduct(x: int, p: int, y: int, q: int)
    ensures (p * x) * (q * y) == (p * q) * (x * y)
    ensures (x * p) * (y * q) == (x * y) * (p * q)
  {
    Assoc(p, x, q * y);
    Assoc(x, q, y);
    Assoc(q, x, y);
    Assoc(p, q, x * y);
  }

  /** The recombination of the coefficients is the product. */
  lemma {:induction false} ToomProduct(a0: int, a1: int, a2: int, b0: int, b1: int, b2: int, w: int)
    ensures Joined(a0, a1, a2, w) * Joined(b0, b1, b2, w)
         == Recombined(ProductCoefficients(a0, a1, a2, b0, b1, b2), w)
  {
    var v := w * w;
    ExpandThree(a0, a1 * w, a2 * v, b0, b1 * w, b2 * v);
    Assoc(a0, b1, w);
    Assoc(a0, b2, v);
    assert (a1 * w) * b0 == (a1 * b0) * w by { Assoc(a1, w, b0); Assoc(a1, b0, w); }
    assert (a2 * v) * b0 == (a2 * b0) * v by { Assoc(a2, v, b0); Assoc(a2, b0, v); }
    assert (a1 * w) * (b1 * w) == (a1 * b1) * v by { ScaledProduct(w, a1, w, b1); }
    assert (a1 * w) * (b2 * v) == (a1 * b2) * (w * w * w) by { ScaledProduct(w, a1, v, b2); Assoc(w, w, w); }
    assert (a2 * v) * (b1 * w) == (a2 * b1) * (w * w * w) by { ScaledProduct(v, a2, w, b1); }
    assert (a2 * v) * (b2 * v) == (a2 * b2) * (w * w * w * w) by { ScaledProduct(v, a2, v, b2); Assoc(w * w, w, w); }
    Distribute(a0 * b1, a1 * b0, w);
    Distribute(a0 * b2 + a1 * b1, a2 * b0, v);
    Distribute(a0 * b2, a1 * b1, v);
    Distribute(a1 * b2, a2 * b1, w * w * w);
  }

  /** The product of the values `p` and `q` taken at the point `x`. */
  lemma {:induction false} ToomPoint(a0: int, a1: int, a2: int, b0: int, b1: int, b2: int, x: int, p: int, q: int)
    requires p == a0 + x * a1 + x * x * a2 && q == b0 + x * b1 + x * x * b2
    ensures var c := ProductCoefficients(a0, a1, a2, b0, b1, b2);
      p * q == c.c0 + x * c.c1 + x * x * c.c2 + x * x * x * c.c3 + x * x * x * x * c.c4
  {
    var y := x * x;
    ExpandThree(a0, x * a1, y * a2, b0, x * b1, y * b2);
    ScaledProduct(x, a1, x, b1);
    ScaledProduct(x, a1, y, b2);
    ScaledProduct(y, a2, x, b1);
    ScaledProduct(y, a2, y, b2);
    ScaledProduct(1, a0, x, b1);
    ScaledProduct(1, a0, y, b2);
    ScaledProduct(x, a1, 1, b0);
    ScaledProduct(y, a2, 1, b0);
    Distribute(a0 * b1, a1 * b0, x);
    Distribute(a0 * b2 + a1 * b1, a2 * b0, y);
    Distribute(a0 * b2, a1 * b1, y);
    Distribute(a1 * b2, a2 * b1, x * y);
  }

  /** The products at 1, 2 and -1 are those combinations of the coefficients. */
  ghost predicate AtPoints(s1: int, s2: int, s3: int, k: Coefficients) {
    && s1 == k.c0 + k.c1 + k.c2 + k.c3 + k.c4
    && s2 == k.c0 + 2 * k.c1 + 4 * k.c2 + 8 * k.c3 + 16 * k.c4
    && s3 == k.c0 - k.c1 + k.c2 - k.c3 + k.c4
  }

  lemma {:induction false} ToomPoints(a0: int, a1: int, a2: int, b0: int, b1: int, b2: int,
                                      x1: int, x2: int, x3: int, y1: int, y2: int, y3: int)
    requires x1 == a2 + a1 + a0 && x2 == 2 * (a2 + a1 + a2) + a0 && x3 == a2 - a1 + a0
    requires y1 == b2 + b1 + b0 && y2 == 2 * (b2 + b1 + b2) + b0 && y3 == b2 - b1 + b0
    ensures AtPoints(x1 * y1, x2 * y2, x3 * y3, ProductCoefficients(a0, a1, a2, b0, b1, b2))
  {
    ToomPoint(a0, a1, a2, b0, b1, b2, 1, x1, y1);
    ToomPoint(a0, a1, a2, b0, b1, b2, 2, x2, y2);
    ToomPoint(a0, a1, a2, b0, b1, b2, -1, x3, y3);
  }

  /** Sizes of the parts and of the values at the points. */
  lemma {:induction false} ToomSizes(a: seq<int>, third: nat)
    requires AreDigits(a) && 1 <= third && 3 * third <= |a|
    ensures var a0, a1, a2 := Val(a[..third]), Val(a[third..2 * third]), Val(a[2 * third..]);
      && Val(a) == Joined(a0, a1, a2, BP(third))
      && 0 <= a0 && 0 <= a1 && 0 <= a2
      && Used(a0) <= third && Used(a1) <= third && Used(a2) <= |a| - 2 * third
      && Used(Abs(a2 + a1 + a0)) <= |a| - 2 * third + 1
      && Used(Abs(2 * (a2 + a1 + a2) + a0)) <= |a| - 2 * third + 1
      && Used(Abs(a2 - a1 + a0)) <= |a| - 2 * third + 1
  {
    var n := |a| - 2 * third;
    var a0, a1, a2 := a[..third], a[third..2 * third], a[2 * third..];
    PartUsed(a0);
    PartUsed(a1);
    PartUsed(a2);
    PartBound(a0, n);
    PartBound(a1, n);
    PartBound(a2, n);
    UsedSum(Val(a2) + Val(a1) + Val(a0), n);
    UsedSum(2 * (Val(a2) + Val(a1) + Val(a2)) + Val(a0), n);
    UsedSum(Val(a2) - Val(a1) + Val(a0), n);
    ThreeParts(a, third);
  }

  lemma {:induction false} ThreeParts(a: seq<int>, third: nat)
    requires 2 * third <= |a|
    ensures Val(a) == Joined(Val(a[..third]), Val(a[third..2 * third]), Val(a[2 * third..]), BP(third))
  {
    var rest := a[third..];
    ValSplit(a, third);
    ValSplit(rest, third);
    assert rest[..third] == a[third..2 * third] && rest[third..] == a[2 * third..];
    var p1, p2, w := Val(rest[..third]), Val(rest[third..]), BP(third);
    Distribute(p1, w * p2, w);
    Assoc(w, w, p2);
  }

  /** Weights of one to four parts. */
  lemma {:induction false} PartWeights(third: nat)
    ensures var w := BP(third);
      BP(2 * third) == w * w && BP(3 * third) == w * w * w && BP(4 * third) == w * w * w * w
  {
    BPAdd(third, third);
    BPAdd(2 * third, third);
    BPAdd(3 * third, third);
  }

  /** An exact third of a temporary. */
  method ExactThird(v: int, ghost q: int) returns (r: int)
    requires v == 3 * q
    ensures r == q
  {
    var t := new MpInt.Of(v);
    var d := DivideDigit.DivThree(t, t);
    r := t.Value();
    if v < 0 {
      DivModUnique(-v, 3, -q, 0);
    } else {
      DivModUnique(v, 3, q, 0);
    }
  }

  /** Halving an even number is exact on either side of zero. */
  lemma {:induction false} ExactHalf(q: int)
    ensures Truncated(2 * q, 2) == q
  {
  }

  /** The five coefficients from the products at 1, 2, -1, infinity and 0.  The
      divisions by 3 and by 2 are exact. */
  method Interpolate(s1: int, s2: int, s3: int, top: int, low: int, ghost k: Coefficients)
    returns (c: Coefficients)
    requires AtPoints(s1, s2, s3, k)
    requires top == k.c4 && low == k.c0
    ensures c == k
  {
    var S1, S2, a1 := s1, s2, s3;
    S2 := S2 - a1;
    S2 := ExactThird(S2, k.c1 + k.c2 + 3 * k.c3 + 5 * k.c4);
    a1 := S1 - a1;
    ExactHalf(k.c1 + k.c3);
    a1 := Truncated(a1, 2);
    S1 := S1 - low;
    S2 := S2 - S1;
    ExactHalf(k.c3 + 2 * k.c4);
    S2 := Truncated(S2, 2);
    S1 := S1 - a1;
    S1 := S1 - top;
    var T1 := 2 * top;
    S2 := S2 - T1;
    a1 := a1 - S2;
    c := Coefficients(low, a1, S1, S2, top);
  }

  /** The product put together from its coefficients, highest first. */
  method Recombine(k: Coefficients, third: nat) returns (r: int)
    ensures r == Recombined(k, BP(third))
  {
    PartWeights(third);
    r := k.c4 * BP(4 * third);
    r := r + k.c3 * BP(3 * third);
    r := r + k.c2 * BP(2 * third);
    r := r + k.c1 * BP(1 * third);
    r := r + k.c0;
  }

  /** The values of a three-part number at 1, 2 and -1. */
  method Evaluate(a0: int, a1: int, a2: int) returns (one: int, two: int, minusOne: int)
    ensures one == a2 + a1 + a0
    ensures two == 2 * (a2 + a1 + a2) + a0
    ensures minusOne == a2 - a1 + a0
  {
    var T1 := a2 + a1;
    one := T1 + a0;
    T1 := T1 + a2;
    T1 := 2 * T1;
    two := T1 + a0;
    minusOne := a2 - a1;
    minusOne := minusOne + a0;
  }

  /** The coefficients from five products, each smaller than `m`. */
  method ToomCoefficients(x1: int, x2: int, x3: int, a2: int, a0: int, y1: int, y2: int, y3: int, b2: int, b0: int,
                          ghost m: nat, ghost k: Coefficients)
    returns (c: Coefficients)
    requires Used(Abs(x1)) + Used(Abs(y1)) < m && Used(Abs(x2)) + Used(Abs(y2)) < m
    requires Used(Abs(x3)) + Used(Abs(y3)) < m
    requires Used(Abs(a2)) + Used(Abs(b2)) < m && Used(Abs(a0)) + Used(Abs(b0)) < m
    requires AtPoints(x1 * y1, x2 * y2, x3 * y3, k) && k.c4 == a2 * b2 && k.c0 == a0 * b0
    ensures c == k
    decreases m, 0
  {
    var S1 := Product(x1, y1);
    var S2 := Product(x2, y2);
    var S3 := Product(x3, y3);
    var top := Product(a2, b2);
    var low := Product(a0, b0);
    c := Interpolate(S1, S2, S3, top, low, k);
  }

  /** The product of two digit sequences from five products of a third of the size. */
  method ToomProducts(a: seq<int>, b: seq<int>) returns (r: int)
    requires AreDigits(a) && AreDigits(b) && Min(|a|, |b|) >= 4
    ensures r == Val(a) * Val(b)
    decreases |a| + |b|, 1
  {
    var third := Min(|a|, |b|) / 3;
    var a0, a1, a2 := Val(a[..third]), Val(a[third..2 * third]), Val(a[2 * third..]);
    var b0, b1, b2 := Val(b[..third]), Val(b[third..2 * third]), Val(b[2 * third..]);
    ToomSizes(a, third);
    ToomSizes(b, third);
    var x1, x2, x3 := Evaluate(a0, a1, a2);
    var y1, y2, y3 := Evaluate(b0, b1, b2);
    ToomPoints(a0, a1, a2, b0, b1, b2, x1, x2, x3, y1, y2, y3);
    var c := ToomCoefficients(x1, x2, x3, a2, a0, y1, y2, y3, b2, b0, |a| + |b|,
                              ProductCoefficients(a0, a1, a2, b0, b1, b2));
    r := Recombine(c, third);
    ToomProduct(a0, a1, a2, b0, b1, b2, BP(third));
  }

  /** |c| = |a| * |b| by Toom and Cook's method. */
  method MulToom(a: MpInt, b: MpInt, c: MpInt)
    requires a.Valid() && b.Valid() && Min(|a.dp|, |b.dp|) >= 4
    modifies c
    ensures c.Valid() && Val(c.dp) == old(Val(a.dp)) * old(Val(b.dp))
    decreases |a.dp| + |b.dp|, 2
  {
    DigitsOf(a);
    DigitsOf(b);
    MulNonNeg(Val(a.dp), Val(b.dp));
    var r := ToomProducts(a.dp, b.dp);
    c.Set(r);
  }

  /** The squares taken at the points 1 and -1. */
  lemma {:induction false} SquarePoints(a0: int, a1: int, a2: int)
    ensures var k := ProductCoefficients(a0, a1, a2, a0, a1, a2);
      && (a0 + a2 + a1) * (a0 + a2 + a1) == k.c0 + k.c1 + k.c2 + k.c3 + k.c4
      && (a0 + a2 - a1) * (a0 + a2 - a1) == k.c0 - k.c1 + k.c2 - k.c3 + k.c4
      && k.c3 == 2 * (a1 * a2)
  {
    ToomPoint(a0, a1, a2, a0, a1, a2, 1, a0 + a2 + a1, a0 + a2 + a1);
    ToomPoint(a0, a1, a2, a0, a1, a2, -1, a0 + a2 - a1, a0 + a2 - a1);
  }

  /** The square of a digit sequence from squares of a third of the size. */
  method ToomSquares(a: seq<int>) returns (r: int)
    requires AreDigits(a) && |a| >= 4
    ensures r == Val(a) * Val(a)
    decreases |a| + |a|, 0
  {
    var third := |a| / 3;
    var a0, a1, a2 := Val(a[..third]), Val(a[third..2 * third]), Val(a[2 * third..]);
    ToomSizes(a, third);
    SquarePoints(a0, a1, a2);
    ToomProduct(a0, a1, a2, a0, a1, a2, BP(third));
    ghost var k := ProductCoefficients(a0, a1, a2, a0, a1, a2);
    var S0 := Square(a0);
    a0 := a0 + a2;
    var t := a0 - a1;
    a0 := a0 + a1;
    a0 := Square(a0);
    t := Square(t);
    a1 := Product(a1, a2);
    a1 := 2 * a1;
    a2 := Square(a2);
    t := a0 + t;
    ExactHalf(k.c0 + k.c2 + k.c4);
    t := Truncated(t, 2);
    a0 := a0 - t;
    a0 := a0 - a1;
    t := t - a2;
    t := t - S0;
    r := Recombine(Coefficients(S0, a0, t, a1, a2), third);
  }

  /** |b| = |a| squared by Toom and Cook's method. */
  method SqrToom(a: MpInt, b: MpInt)
    requires a.Valid() && |a.dp| >= 4
    modifies b
    ensures b.Valid() && Val(b.dp) == old(Val(a.dp)) * old(Val(a.dp))
    decreases |a.dp| + |a.dp|, 1
  {
    DigitsOf(a);
    MulNonNeg(Val(a.dp), Val(a.dp));
    var r := ToomSquares(a.dp);
    b.Set(r);
  }

  // ----- balancing -----

  /** One more slice of the longer operand. */
  lemma {:induction false} SliceProduct(a: seq<int>, j: nat, n: nat, b: int, r: int)
    requires AreDigits(a) && j + n <= |a| && r == Val(a[..j]) * b
    ensures r + (Val(a[j..j + n]) * b) * BP(j) == Val(a[..j + n]) * b
    ensures 0 <= Val(a[j..j + n]) && Used(Val(a[j..j + n])) <= n
  {
    var s := a[j..j + n];
    assert a[..j + n] == a[..j] + s;
    ValConcat(a[..j], s);
    Distribute(Val(a[..j]), BP(j) * Val(s), b);
    Assoc(BP(j), Val(s), b);
    PartUsed(s);
  }

  /** c = |a| * b, `a` the longer: its slices, each as long as `b`, times `b`. */
  method BalancedProduct(a: seq<int>, b: int) returns (r: int)
    requires AreDigits(a) && 0 < Used(Abs(b)) && 2 * Used(Abs(b)) <= |a|
    ensures r == Val(a) * b
    decreases |a| + Used(Abs(b)), 0
  {
    var bsize := Used(Abs(b));
    var nblocks := |a| / bsize;
    var i, j := 0, 0;
    r := 0;
    assert a[..0] == [];
    DivMod(|a|, bsize);
    while i < nblocks
      invariant 0 <= i <= nblocks && j == bsize * i <= |a|
      invariant r == Val(a[..j]) * b
    {
      MulLe(i + 1, nblocks, bsize);
      Distribute(i, 1, bsize);
      SliceProduct(a, j, bsize, b, r);
      var a0 := Val(a[j..j + bsize]);
      var tmp := Product(a0, b);
      tmp := tmp * BP(bsize * i);
      r := r + tmp;
      j := j + bsize;
      i := i + 1;
    }
    // the left-overs
    if j < |a| {
      assert j == nblocks * bsize;
      SliceProduct(a, j, |a| - j, b, r);
      assert a[j..j + (|a| - j)] == a[j..];
      var a0 := Val(a[j..]);
      var tmp := Product(a0, b);
      tmp := tmp * BP(bsize * i);
      r := r + tmp;
      assert a[..j + (|a| - j)] == a;
    } else {
      assert a[..j] == a;
    }
  }

  /** |c| = |a| * |b|, the longer operand cut into slices as long as the shorter. */
  method MulBalance(a: MpInt, b: MpInt, c: MpInt)
    requires a.Valid() && b.Valid()
    requires Min(|a.dp|, |b.dp|) >= 4 && Max(|a.dp|, |b.dp|) >= 2 * Min(|a.dp|, |b.dp|)
    modifies c
    ensures c.Valid() && Val(c.dp) == old(Val(a.dp)) * old(Val(b.dp))
    decreases |a.dp| + |b.dp|, 1
  {
    DigitsOf(a);
    DigitsOf(b);
    var r;
    if |a.dp| < |b.dp| {
      BalancedSign(b.dp, a.Value());
      r := BalancedProduct(b.dp, a.Value());
    } else {
      BalancedSign(a.dp, b.Value());
      r := BalancedProduct(a.dp, b.Value());
    }
    c.Set(r);
    DigitsOf(c);
  }

  lemma {:induction false} BalancedSign(a: seq<int>, b: int)
    requires AreDigits(a)
    ensures Abs(Val(a) * b) == Val(a) * Abs(b)
  {
    ValBound(a);
    SignedProduct(Val(a), b);
    MulNonNeg(Val(a), Abs(b));
  }
}
