/** Barrett reduction, with a product that leaves out its low columns. */
module Barrett {
  import opened Arith
  import opened Digits
  import opened MpInts
  import opened Columns
  import opened Multiply
  import opened Divide
  import opened Montgomery

  /** The reciprocal Barrett reduction works with. */
  ghost predicate IsReciprocal(mu: int, m: int) {
    0 < m && mu == BP(2 * Used(m)) / m
  }

  /** mu = B^(2 um) / m; fails exactly for m = 0. */
  method Setup(mu: MpInt, m: MpInt) returns (err: Outcome)
    requires mu.Valid() && m.Valid() && mu != m && 0 <= m.Value()
    modifies mu
    ensures mu.Valid() && err == if m.Value() == 0 then BadValue else Okay
    ensures err == Okay ==> IsReciprocal(mu.Value(), m.Value())
  {
    DigitsOf(m);
    BPPow2(2 * |m.dp|);
    mu.Set(Pow(2, DIGIT_BIT * (2 * |m.dp|)));
    var r := new MpInt();
    err := Div(mu, m, mu, r);
  }

  // ----- the estimate -----

  /** The estimate is never too large. */
  lemma {:induction false} NotTooLarge(x: int, m: int, mu: int, q1: int, q3: int, w: int, v: int)
    requires 0 < w && 0 < v && 0 <= q1 && 0 < m && 0 <= mu
    requires q1 * w <= x && mu * m <= w * v && q3 * v <= q1 * mu
    ensures q3 * m <= x
  {
    assert (q3 * m) * (w * v) <= x * (w * v) by {
      calc {
        (q3 * m) * (w * v);
        { Assoc(q3, m, w * v); Assoc(m, w, v); Assoc(q3, m * w, v); Assoc(q3, v, m * w); }
        (q3 * v) * (m * w);
      <= { MulNonNeg(m, w); MulLe(q3 * v, q1 * mu, m * w); }
        (q1 * mu) * (m * w);
        { Assoc(q1, mu, m * w); Assoc(mu, m, w); Assoc(q1, w, mu * m); }
        (q1 * w) * (mu * m);
      <= { MulNonNeg(q1, w); MulNonNeg(w, v); MulLe(mu * m, w * v, q1 * w); }
        (q1 * w) * (w * v);
      <= { MulNonNeg(w, v); MulLe(q1 * w, x, w * v); }
        x * (w * v);
      }
    }
    MulLt(0, w, v);
    MulCancelLe(q3 * m, x, w * v);
  }

  /** Nor is it much too small: `lost` is what the product left out, in units of `v`. */
  lemma {:induction false} NotTooSmall(x: int, m: int, mu: int, q1: int, q3: int, w: int, v: int, lost: int)
    requires 0 < w && 0 < v && 0 <= q1 < v && 0 < m && 0 <= mu <= v
    requires x < (q1 + 1) * w && w * v < (mu + 1) * m
    requires q1 * mu < (q3 + 1 + lost) * v
    ensures x < (q3 + lost + 3) * m
  {
    var s, k := (q1 + 1) * (mu + 1), q3 + lost + 3;
    assert s <= k * v by {
      Distribute(q1, 1, mu + 1);
      Distribute(mu, 1, q1);
      Distribute(q3 + 1 + lost, 2, v);
    }
    UpperChain(x, m, mu, q1, k, w, v);
  }

  lemma {:induction false} UpperChain(x: int, m: int, mu: int, q1: int, k: int, w: int, v: int)
    requires 0 < w && 0 < v && 0 <= q1 && 0 < m && 0 <= mu
    requires x < (q1 + 1) * w && w * v < (mu + 1) * m && (q1 + 1) * (mu + 1) <= k * v
    ensures x < k * m
  {
    MulLt(0, w, v);
    calc {
      x * (w * v);
    < { MulLt(x, (q1 + 1) * w, w * v); }
      ((q1 + 1) * w) * (w * v);
    < { MulLt(0, q1 + 1, w); MulLt(w * v, (mu + 1) * m, (q1 + 1) * w); }
      ((q1 + 1) * w) * ((mu + 1) * m);
      { Assoc(q1 + 1, w, (mu + 1) * m); Assoc(w, mu + 1, m); Assoc(mu + 1, w, m); Assoc(q1 + 1, mu + 1, w * m); }
      ((q1 + 1) * (mu + 1)) * (w * m);
    <= { MulLt(0, w, m); MulLe((q1 + 1) * (mu + 1), k * v, w * m); }
      (k * v) * (w * m);
      { Assoc(k, v, w * m); Assoc(v, w, m); Assoc(m, w, v); Assoc(k, m, w * v); }
      (k * m) * (w * v);
    }
    MulCancelLt(x, k * m, w * v);
  }

  /** Sizes of the factors of the estimate. */
  lemma {:induction false} FactorSizes(x: nat, m: nat, mu: int, um: nat)
    requires 0 < m && um == Used(m) && x < BP(2 * um) && IsReciprocal(mu, m)
    ensures 0 < um && BP(um - 1) * BP(um + 1) == BP(2 * um)
    ensures 0 <= x / BP(um - 1) < BP(um + 1) && 0 <= mu <= BP(um + 1)
    ensures (x / BP(um - 1)) * BP(um - 1) <= x < (x / BP(um - 1) + 1) * BP(um - 1)
    ensures mu * m <= BP(2 * um) < (mu + 1) * m
    ensures m < BP(um)
  {
    UsedBounds(m);
    BPAdd(um - 1, um + 1);
    DivLt(x, BP(um - 1), BP(um + 1));
    DivNonNeg(x, BP(um - 1));
    DivMod(x, BP(um - 1));
    Distribute(x / BP(um - 1), 1, BP(um - 1));
    DivMod(BP(2 * um), m);
    DivNonNeg(BP(2 * um), m);
    Distribute(mu, 1, m);
    MulLe(BP(um - 1), m, mu);
    MulCancelLe(mu, BP(um + 1), BP(um - 1));
  }

  /** The product of the two factors, whole or without its low columns, and
      shifted down by um + 1 digits. */
  method HighProduct(q: MpInt, mu: MpInt, um: nat) returns (ghost lost: nat)
    requires q.Valid() && mu.Valid() && q != mu && 0 <= q.Value() < BP(um + 1) && 0 <= mu.Value()
    modifies q
    ensures q.Valid() && lost == if um > B / 2 then 0 else um
    ensures 0 <= q.Value()
    ensures q.Value() * BP(um + 1) <= old(q.Value()) * mu.Value() < (q.Value() + 1 + lost) * BP(um + 1)
  {
    hide Val;
    DigitsOf(q);
    DigitsOf(mu);
    UsedLe(q.Value(), um + 1);
    MulNonNeg(q.Value(), mu.Value());
    if um > B / 2 {
      lost := 0;
      WholeEstimate(q.Value() * mu.Value(), um);
      Mul(q, mu, q);
    } else {
      lost := um;
      ghost var a, b := q.dp, mu.dp;
      MulHigh(q, mu, q, um);
      DigitsOf(q);
      HighEstimate(a, b, Val(q.dp), um);
    }
    ShiftDigitsDown(q, um + 1);
  }

  /** The quotient estimate. */
  method Estimate(x: MpInt, m: MpInt, mu: MpInt) returns (q: MpInt)
    requires x.Valid() && m.Valid() && mu.Valid()
    requires IsReciprocal(mu.Value(), m.Value()) && 0 <= x.Value() < BP(2 * |m.dp|)
    ensures fresh(q) && q.Valid() && 0 <= q.Value()
    ensures q.Value() * m.Value() <= x.Value() < q.Value() * m.Value() + BP(|m.dp| + 1)
  {
    DigitsOf(m);
    var um := |m.dp|;
    FactorSizes(x.Value(), m.Value(), mu.Value(), um);
    q := new MpInt.Copy(x);
    ShiftDigitsDown(q, um - 1);
    ghost var q1 := q.Value();
    ghost var lost := HighProduct(q, mu, um);
    EstimateBounds(x.Value(), m.Value(), mu.Value(), q1, q.Value(), um, lost);
  }

  lemma {:induction false} WholeEstimate(p: nat, um: nat)
    ensures var q3 := p / BP(um + 1);
      0 <= q3 && q3 * BP(um + 1) <= p < (q3 + 1) * BP(um + 1)
  {
    DivMod(p, BP(um + 1));
    DivNonNeg(p, BP(um + 1));
    Distribute(p / BP(um + 1), 1, BP(um + 1));
  }

  /** The estimate taken from the high part alone loses at most `um` units. */
  lemma {:induction false} HighEstimate(a: seq<int>, b: seq<int>, c: nat, um: nat)
    requires AreDigits(a) && AreDigits(b) && |a| <= um + 1
    requires c / BP(um) == HighPart(a, b, um)
    ensures var q3 := c / BP(um + 1);
      0 <= q3 && q3 * BP(um + 1) <= Val(a) * Val(b) < (q3 + 1 + um) * BP(um + 1)
  {
    var h, q3, p := HighPart(a, b, um), c / BP(um + 1), Val(a) * Val(b);
    HighPartBound(a, b, um);
    BPSucc(um);
    DivMod(c, BP(um));
    DivMod(h, B);
    // the quotient by the larger weight is the quotient of the quotient
    assert c == (h / B) * BP(um + 1) + ((h % B) * BP(um) + c % BP(um)) by {
      Distribute((h / B) * B, h % B, BP(um));
      Assoc(h / B, B, BP(um));
    }
    MulLe(h % B + 1, B, BP(um));
    Distribute(h % B, 1, BP(um));
    MulNonNeg(h % B, BP(um));
    DivModUnique(c, BP(um + 1), h / B, (h % B) * BP(um) + c % BP(um));
    DivNonNeg(h, B);
    LostUnits(p, h, q3, BP(um), um, Min(um, |a|));
  }

  lemma {:induction false} LostUnits(p: int, h: int, q3: int, w: int, um: nat, rows: nat)
    requires 0 < w && q3 * B <= h < q3 * B + B && rows <= um
    requires h * w <= p <= h * w + rows * (B - 1) * w
    ensures q3 * (B * w) <= p < (q3 + 1 + um) * (B * w)
  {
    var v := B * w;
    assert q3 * v <= h * w by { MulLe(q3 * B, h, w); Assoc(q3, B, w); }
    assert h * w < (q3 + 1) * v by {
      Distribute(q3, 1, B);
      MulLt(h, (q3 + 1) * B, w);
      Assoc(q3 + 1, B, w);
    }
    assert rows * (B - 1) * w <= um * v by {
      MulBothLe(rows, um, B - 1, B);
      MulLe(rows * (B - 1), um * B, w);
      Assoc(um, B, w);
    }
    Distribute(q3 + 1, um, v);
  }

  lemma {:induction false} EstimateBounds(x: nat, m: nat, mu: int, q1: int, q3: int, um: nat, lost: nat)
    requires 0 < m && um == Used(m) && x < BP(2 * um) && IsReciprocal(mu, m) && q1 == x / BP(um - 1)
    requires 0 <= q3 && q3 * BP(um + 1) <= q1 * mu < (q3 + 1 + lost) * BP(um + 1)
    requires lost == 0 || (lost == um && um <= B / 2)
    ensures q3 * m <= x < q3 * m + BP(um + 1)
  {
    FactorSizes(x, m, mu, um);
    NotTooLarge(x, m, mu, q1, q3, BP(um - 1), BP(um + 1));
    NotTooSmall(x, m, mu, q1, q3, BP(um - 1), BP(um + 1), lost);
    Distribute(q3, lost + 3, m);
    BPSucc(um);
    MulBothLe(lost + 3, B, m, BP(um));
  }

  // ----- the reduction -----

  /** Two numbers less than `w` apart, known modulo `w`. */
  lemma {:induction false} DifferenceModulo(x: int, y: int, w: int)
    requires 0 < w && y <= x < y + w
    ensures x - y == if x % w < y % w then x % w - y % w + w else x % w - y % w
  {
    DivMod(x, w);
    DivMod(y, w);
    Distribute(x / w, y / w, w);
    var k := x / w - y / w;
    if k < 0 {
      MulLe(k, -1, w);
    } else if 1 < k {
      MulLe(2, k, w);
    }
  }

  /** x = x - q * m for a product at most x and less than B^(um + 1) below it:
      both sides modulo B^(um + 1) are enough. */
  method SubtractProduct(x: MpInt, q: MpInt, m: MpInt, um: nat)
    requires x.Valid() && q.Valid() && m.Valid() && x != q && x != m && q != m
    requires 0 <= x.Value() && 0 <= q.Value() && 0 <= m.Value()
    requires q.Value() * m.Value() <= x.Value() < q.Value() * m.Value() + BP(um + 1)
    modifies x, q
    ensures x.Valid() && x.Value() == old(x.Value()) - old(q.Value()) * m.Value() && m.Valid()
  {
    MulNonNeg(q.Value(), m.Value());
    DigitsOf(q);
    DigitsOf(m);
    DifferenceModulo(x.Value(), q.Value() * m.Value(), BP(um + 1));
    x.Set(x.Value() % BP(um + 1));
    MulTruncated(q, m, q, um + 1);
    Sub(x, q, x);
    if x.Value() < 0 {
      q.Set(BP(um + 1));
      Add(x, q, x);
    }
  }

  /** x = x mod m for every x of at most twice as many digits as m, so for all
      0 <= x < m^2, and for the start value 1 when m is 1. */
  method Reduce(x: MpInt, m: MpInt, mu: MpInt)
    requires x.Valid() && m.Valid() && mu.Valid() && x != m
    requires IsReciprocal(mu.Value(), m.Value()) && 0 <= x.Value() < BP(2 * |m.dp|)
    modifies x
    ensures x.Valid() && x.Value() == old(x.Value()) % m.Value()
  {
    ghost var v, n := x.Value(), m.Value();
    var q := Estimate(x, m, mu);
    ghost var k := q.Value();
    SubtractProduct(x, q, m, |m.dp|);
    CongIntro(x.Value(), v, -k, n);
    BackOff(x, m, v);
  }

  /** Products of residues are in range. */
  lemma {:induction false} SquareInRange(x: int, m: nat)
    requires 0 < m && x <= m * m
    ensures x < BP(2 * Used(m))
  {
    UsedBounds(m);
    BPAdd(Used(m), Used(m));
    MulLt(m, BP(Used(m)), m);
    MulLt(m, BP(Used(m)), BP(Used(m)));
  }

  /** Subtract the modulus as long as it fits. */
  method BackOff(x: MpInt, m: MpInt, ghost v: int)
    requires x.Valid() && m.Valid() && x != m && 0 < m.Value() && 0 <= x.Value()
    requires Cong(x.Value(), v, m.Value())
    modifies x
    ensures x.Valid() && x.Value() == v % m.Value()
  {
    var cmp := CmpMag(x, m);
    while cmp != Lt
      invariant x.Valid() && m.Valid() && 0 < m.Value() == old(m.Value()) && 0 <= x.Value()
      invariant Cong(x.Value(), v, m.Value())
      invariant cmp == Ordered(x.Value(), m.Value())
      decreases x.Value()
    {
      ghost var y := x.Value();
      DigitsOf(x);
      SubMagnitudes(x, m, x);
      DigitsOf(x);
      CongIntro(x.Value(), y, -1, m.Value());
      cmp := CmpMag(x, m);
    }
    CongUnique(x.Value(), v, m.Value());
  }
}
