/** Reduction modulo numbers close below a power of two: fold the high part
    back, times the difference, until the number is small. */
module TwoK {
  import opened Arith
  import opened Digits
  import opened MpInts
  import opened Montgomery
  import Multiply

  // ----- folding -----

  /** The high part of `a` above `w` times `d`, added to the low part. */
  function Folded(a: nat, w: int, d: nat): (r: nat)
    requires 0 < w
  {
    DivMod(a, w);
    DivNonNeg(a, w);
    MulNonNeg(a / w, d);
    a % w + (a / w) * d
  }

  lemma {:induction false} FoldedShrinks(a: nat, w: int, d: nat)
    requires 0 < w && d <= w
    ensures Folded(a, w, d) <= a
  {
    DivMod(a, w);
    DivNonNeg(a, w);
    MulLe(d, w, a / w);
  }

  /** What the fold-and-subtract loop leaves, for any difference `d`. */
  function FoldResult(a: nat, n: nat, w: int, d: nat): nat
    requires 0 < n && 0 < w && d <= w
    decreases a
  {
    FoldedShrinks(a, w, d);
    var r := Folded(a, w, d);
    if r < n then r else FoldResult(r - n, n, w, d)
  }

  /** With the true difference the loop computes the residue. */
  lemma {:induction false} FoldIsMod(a: nat, n: nat, w: int, d: nat)
    requires 0 < n && 0 < w && d == w - n
    ensures FoldResult(a, n, w, d) == a % n
    decreases a
  {
    FoldedShrinks(a, w, d);
    var r := Folded(a, w, d);
    DivMod(a, w);
    Distribute(w, n, a / w);
    CongIntro(r, a, -(a / w), n);
    if r < n {
      CongUnique(r, a, n);
    } else {
      FoldIsMod(r - n, n, w, d);
      CongIntro(r - n, r, -1, n);
    }
  }

  /** With difference zero the high part is simply lost. */
  lemma {:induction false} FoldWithZero(a: nat, n: nat, w: int)
    requires 0 < n <= w
    ensures FoldResult(a, n, w, 0) == (DivMod(a, w); a % w) % n
    decreases a
  {
    FoldedShrinks(a, w, 0);
    DivMod(a, w);
    var r := Folded(a, w, 0);
    assert r == a % w;
    if r < n {
      ModSmall(r, n);
    } else {
      FoldWithZero(r - n, n, w);
      ModSmall(r - n, w);
      CongIntro(r - n, r, -1, n);
    }
  }

  // ----- one-digit difference -----

  /** The power of two above `n`. */
  ghost function PowerAbove(n: nat): (w: int)
    ensures 0 < w && n < w
  {
    BitsBounds(n);
    PowPos(2, Bits(n));
    Pow(2, Bits(n))
  }

  /** The setup keeps the lowest digit of the difference. */
  method Setup(a: MpInt) returns (d: int)
    requires a.Valid() && 0 < a.Value()
    ensures d == (PowerAbove(a.Value()) - a.Value()) % B && 0 <= d < B
    ensures d <= PowerAbove(a.Value()) - a.Value()
  {
    var tmp := new MpInt();
    var p := CountBits(a);
    BitsBounds(a.Value());
    tmp.Set(Pow(2, p) - a.Value());
    DigitsOf(tmp);
    d := LowestDigit(tmp.dp);
    LowestIsRemainder(tmp.dp);
  }

  lemma {:induction false} LowestIsRemainder(s: seq<int>)
    requires AreDigits(s)
    ensures 0 <= LowestDigit(s) < B && LowestDigit(s) == Val(s) % B && LowestDigit(s) <= Val(s)
  {
    LowDigit(s);
    CongUnique(LowestDigit(s), Val(s), B);
    if s != [] {
      ValBound(s[1..]);
      MulNonNeg(B, Val(s[1..]));
    }
  }

  /** One fold with a one-digit difference. */
  method Fold(a: MpInt, p: nat, d: nat)
    requires a.Valid() && 0 <= a.Value() && 0 < Pow(2, p)
    modifies a
    ensures a.Valid() && a.Value() == Folded(old(a.Value()), Pow(2, p), d)
  {
    DivMod(a.Value(), Pow(2, p));
    DivNonNeg(a.Value(), Pow(2, p));
    var q := a.Value() / Pow(2, p);
    a.Set(a.Value() % Pow(2, p));
    if d != 1 {
      q := q * d;
    }
    MulNonNeg(q, 1);
    a.Set(a.Value() + q);
  }

  /** If a >= n then a = a - n, and tell which. */
  method SubtractUnlessSmall(a: MpInt, n: MpInt) returns (small: bool)
    requires a.Valid() && n.Valid() && a != n && 0 <= a.Value() && 0 < n.Value()
    modifies a
    ensures a.Valid() && small == (old(a.Value()) < n.Value())
    ensures a.Value() == if small then old(a.Value()) else old(a.Value()) - n.Value()
  {
    var cmp := CmpMag(a, n);
    small := cmp == Lt;
    if !small {
      DigitsOf(a);
      SubMagnitudes(a, n, a);
      DigitsOf(a);
    }
  }

  /** The fold-and-subtract loop with a one-digit difference. */
  method Reduce(a: MpInt, n: MpInt, d: int)
    requires a.Valid() && n.Valid() && a != n && 0 < n.Value() && 0 <= a.Value()
    requires 0 <= d <= PowerAbove(n.Value()) - n.Value()
    modifies a
    ensures a.Valid() && a.Value() == FoldResult(old(a.Value()), n.Value(), PowerAbove(n.Value()), d)
  {
    var p := CountBits(n);
    ghost var m, w := n.Value(), PowerAbove(n.Value());
    ghost var v := a.Value();
    var small := false;
    while !small
      invariant a.Valid() && n.Valid() && n.Value() == m && 0 <= a.Value()
      invariant !small ==> FoldResult(v, m, w, d) == FoldResult(a.Value(), m, w, d)
      invariant small ==> FoldResult(v, m, w, d) == a.Value()
      decreases !small, a.Value()
    {
      FoldedShrinks(a.Value(), w, d);
      Fold(a, p, d);
      small := SubtractUnlessSmall(a, n);
    }
  }

  /** `n` is all ones above its lowest digit. */
  ghost predicate AllOnesAbove(n: nat) {
    PowerAbove(n) - B <= n
  }

  /** For two digits or more, the one-digit loop computes residues exactly when
      the low digit of the modulus is not zero, or the modulus is the radix itself. */
  lemma {:induction false} ReduceCorrectIff(n: nat)
    requires B <= n && AllOnesAbove(n)
    ensures var w := PowerAbove(n);
      var d := (w - n) % B;
      0 <= d <= w - n &&
      ((forall a: nat :: FoldResult(a, n, w, d) == a % n) <==> (n % B != 0 || n == B))
  {
    var w := PowerAbove(n);
    var d := (w - n) % B;
    DivMod(w - n, B);
    DivNonNeg(w - n, B);
    MulNonNeg((w - n) / B, B);
    RadixDividesPower(n);
    var c := w / B;
    if n % B != 0 {
      DifferenceIsDigit(n, w, c);
      forall a: nat
        ensures FoldResult(a, n, w, d) == a % n
      {
        FoldIsMod(a, n, w, d);
      }
    } else {
      DifferenceIsRadix(n, w, c);
      if n == B {
        PowerAboveRadix();
        forall a: nat
          ensures FoldResult(a, n, w, d) == a % n
        {
          FoldWithZero(a, n, w);
          DivMod(a, w);
          Assoc(a / w, 2, n);
          CongIntro(a % w, a, -(a / w) * 2, n);
        }
      } else {
        // the power of two itself is folded to zero
        FoldWithZero(w, n, w);
        DivModUnique(w, w, 1, 0);
        ModSmall(0, n);
        DivModUnique(w, n, 1, B);
        assert FoldResult(w, n, w, d) != w % n;
      }
    }
  }

  /** A power of two above the radix is a multiple of it. */
  lemma {:induction false} RadixDividesPower(n: nat)
    requires B <= n
    ensures PowerAbove(n) == (PowerAbove(n) / B) * B && 2 * B <= PowerAbove(n)
  {
    var p := Bits(n);
    BitsBounds(n);
    if p <= DIGIT_BIT {
      PowLe(2, p, DIGIT_BIT);
    }
    PowAdd(2, p - DIGIT_BIT, DIGIT_BIT);
    DivModUnique(Pow(2, p), B, Pow(2, p - DIGIT_BIT), 0);
    PowLe(2, DIGIT_BIT + 1, p);
  }

  lemma {:induction false} DifferenceIsDigit(n: nat, w: int, c: int)
    requires w == c * B && n < w <= n + B && n % B != 0
    ensures (w - n) % B == w - n
  {
    DivMod(n, B);
    if w - n == B {
      Distribute(c, -1, B);
      DivModUnique(n, B, c - 1, 0);
    }
    ModSmall(w - n, B);
  }

  lemma {:induction false} DifferenceIsRadix(n: nat, w: int, c: int)
    requires w == c * B && n < w <= n + B && n % B == 0
    ensures w - n == B && (w - n) % B == 0
  {
    DivMod(n, B);
    Distribute(c, n / B, B);
    var k := c - n / B;
    if k < 1 {
      MulLe(k, 0, B);
    } else if 1 < k {
      MulLe(2, k, B);
    }
    DivModUnique(B, B, 1, 0);
  }

  lemma {:induction false} PowerAboveRadix()
    ensures PowerAbove(B) == 2 * B
  {
    PowPos(2, DIGIT_BIT);
    BitsUnique(B, DIGIT_BIT + 1);
  }

  // ----- difference of any size -----

  /** d = 2^p - a. */
  method SetupLarge(a: MpInt, d: MpInt)
    requires a.Valid() && d.Valid() && a != d && 0 < a.Value() && 0 <= d.Value()
    modifies d
    ensures d.Valid() && d.Value() == PowerAbove(a.Value()) - a.Value()
  {
    var tmp := new MpInt();
    var p := CountBits(a);
    tmp.Set(Pow(2, p));
    BitsBounds(a.Value());
    DigitsOf(tmp);
    DigitsOf(d);
    SubMagnitudes(tmp, a, d);
    DigitsOf(d);
  }

  /** One fold with a difference of any size. */
  method FoldLarge(a: MpInt, p: nat, d: MpInt)
    requires a.Valid() && d.Valid() && a != d && 0 <= a.Value() && 0 <= d.Value() && 0 < Pow(2, p)
    modifies a
    ensures a.Valid() && a.Value() == Folded(old(a.Value()), Pow(2, p), d.Value())
  {
    DivMod(a.Value(), Pow(2, p));
    DivNonNeg(a.Value(), Pow(2, p));
    var q := Multiply.Product(a.Value() / Pow(2, p), d.Value());
    a.Set(a.Value() % Pow(2, p));
    a.Set(a.Value() + q);
  }

  /** The fold-and-subtract loop with a difference of any size: the residue, always. */
  method ReduceLarge(a: MpInt, n: MpInt, d: MpInt)
    requires a.Valid() && n.Valid() && d.Valid() && a != n && a != d
    requires 0 < n.Value() && 0 <= a.Value() && d.Value() == PowerAbove(n.Value()) - n.Value()
    modifies a
    ensures a.Valid() && a.Value() == old(a.Value()) % n.Value()
  {
    var p := CountBits(n);
    ghost var m, w := n.Value(), PowerAbove(n.Value());
    ghost var v, k: nat := a.Value(), d.Value();
    FoldIsMod(v, m, w, k);
    var small := false;
    while !small
      invariant a.Valid() && n.Valid() && n.Value() == m && 0 <= a.Value()
      invariant d.Valid() && d.Value() == k
      invariant !small ==> FoldResult(v, m, w, k) == FoldResult(a.Value(), m, w, k)
      invariant small ==> FoldResult(v, m, w, k) == a.Value()
      decreases !small, a.Value()
    {
      FoldedShrinks(a.Value(), w, k);
      FoldLarge(a, p, d);
      small := SubtractUnlessSmall(a, n);
    }
  }
}
