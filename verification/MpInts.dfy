/** Multiple-precision integers: sign and magnitude, the magnitude a sequence
    of digits without leading zeros.

    The operations of this file are the small ones the algorithms are built
    from; they are specified, and written, by the value they leave. */
module MpInts {
  import opened Arith
  import opened Digits

  datatype Sign = Zpos | Neg

  datatype Order = Lt | Eq | Gt

  datatype Outcome = Okay | BadValue | NoRoom

  class MpInt {
    /** The digits in use; `used` in the source is the length. */
    var dp: seq<int>
    var sign: Sign

    ghost predicate Valid()
      reads this
    {
      dp == ToDigits(Val(dp)) && (dp == [] ==> sign == Zpos)
    }

    function Value(): int
      reads this
    {
      if sign == Neg then -Val(dp) else Val(dp)
    }

    constructor ()
      ensures Valid() && Value() == 0
    {
      dp, sign := [], Zpos;
    }

    /** A copy of `a`. */
    constructor Copy(a: MpInt)
      requires a.Valid()
      ensures Valid() && Value() == a.Value() && dp == a.dp && sign == a.sign
    {
      dp, sign := a.dp, a.sign;
    }

    /** A number given by its value. */
    constructor Of(v: int)
      ensures Valid() && Value() == v
    {
      ToDigitsFacts(Abs(v));
      dp := ToDigits(Abs(v));
      sign := if v < 0 then Neg else Zpos;
    }

    method Set(v: int)
      modifies this
      ensures Valid() && Value() == v
    {
      ToDigitsFacts(Abs(v));
      dp := ToDigits(Abs(v));
      sign := if v < 0 then Neg else Zpos;
    }

    /** Change the magnitude and keep the sign, except that zero is positive. */
    method SetMagnitude(m: nat)
      modifies this
      ensures Valid() && Val(dp) == m
      ensures sign == if dp == [] then Zpos else old(sign)
    {
      ToDigitsFacts(m);
      dp := ToDigits(m);
      if dp == [] {
        sign := Zpos;
      }
    }

    /** Trim leading zeros and give zero the positive sign. */
    method Clamp()
      requires AreDigits(dp)
      modifies this
      ensures Valid() && dp == ToDigits(Val(old(dp))) && Val(dp) == Val(old(dp)) >= 0
      ensures sign == if dp == [] then Zpos else old(sign)
    {
      ClampedFacts(dp);
      while dp != [] && dp[|dp| - 1] == 0
        invariant Clamped(dp) == Clamped(old(dp)) && sign == old(sign)
      {
        dp := dp[..|dp| - 1];
      }
      if dp == [] {
        sign := Zpos;
      }
    }
  }

  /** What validity says about a number's digits. */
  lemma {:induction false} DigitsOf(a: MpInt)
    requires a.Valid()
    ensures AreDigits(a.dp) && Val(a.dp) == Abs(a.Value()) && a.dp == ToDigits(Abs(a.Value()))
    ensures a.dp != [] ==> a.dp[|a.dp| - 1] != 0
    ensures Val(a.dp) < BP(|a.dp|)
    ensures a.dp != [] ==> BP(|a.dp| - 1) <= Val(a.dp)
    ensures a.dp == [] <==> a.Value() == 0
    ensures a.sign == Neg <==> a.Value() < 0
  {
    if 0 <= Val(a.dp) {
      ToDigitsFacts(Val(a.dp));
      UsedBounds(Val(a.dp));
    }
  }

  // ----- sums -----

  /** c = a + b */
  method Add(a: MpInt, b: MpInt, c: MpInt)
    requires a.Valid() && b.Valid()
    modifies c
    ensures c.Valid() && c.Value() == old(a.Value()) + old(b.Value())
  {
    c.Set(a.Value() + b.Value());
  }

  /** c = a - b */
  method Sub(a: MpInt, b: MpInt, c: MpInt)
    requires a.Valid() && b.Valid()
    modifies c
    ensures c.Valid() && c.Value() == old(a.Value()) - old(b.Value())
  {
    c.Set(a.Value() - b.Value());
  }

  /** |c| = |a| - |b|, where |a| is the larger; the sign of `c` stays. */
  method SubMagnitudes(a: MpInt, b: MpInt, c: MpInt)
    requires a.Valid() && b.Valid() && Abs(b.Value()) <= Abs(a.Value())
    modifies c
    ensures c.Valid() && Val(c.dp) == old(Abs(a.Value())) - old(Abs(b.Value()))
    ensures c.sign == if c.dp == [] then Zpos else old(c.sign)
  {
    c.SetMagnitude(Abs(a.Value()) - Abs(b.Value()));
  }

  // ----- shifts -----

  /** Sign-magnitude division: the quotient rounds towards zero. */
  function Truncated(v: int, n: int): int
    requires 0 < n
  {
    if v < 0 then -((-v) / n) else v / n
  }

  /** Shift right by `k` digits, in place. */
  method ShiftDigitsDown(a: MpInt, k: int)
    requires a.Valid()
    modifies a
    ensures a.Valid() && a.Value() == Truncated(old(a.Value()), BP(Max(k, 0)))
  {
    a.Set(Truncated(a.Value(), BP(Max(k, 0))));
  }

  /** c = 2 * a */
  method Double(a: MpInt, c: MpInt)
    requires a.Valid()
    modifies c
    ensures c.Valid() && c.Value() == 2 * old(a.Value())
  {
    c.Set(2 * a.Value());
  }

  /** c = a / 2, rounded towards zero */
  method Half(a: MpInt, c: MpInt)
    requires a.Valid()
    modifies c
    ensures c.Valid() && c.Value() == Truncated(old(a.Value()), 2)
  {
    c.Set(Truncated(a.Value(), 2));
  }

  /** Exchange two numbers. */
  method Exchange(a: MpInt, b: MpInt)
    requires a.Valid() && b.Valid()
    modifies a, b
    ensures a.Valid() && b.Valid()
    ensures a.Value() == old(b.Value()) && b.Value() == old(a.Value())
  {
    var dp, sign := a.dp, a.sign;
    a.dp, a.sign := b.dp, b.sign;
    b.dp, b.sign := dp, sign;
  }

  // ----- signed quotient and remainder -----

  /** The quotient of signed division: magnitudes divided, rounded towards zero. */
  function Quotient(a: int, b: int): int
    requires b != 0
  {
    var q := Abs(a) / Abs(b);
    if (a < 0) == (b < 0) then q else -q
  }

  /** The remainder that goes with it: below the divisor, zero or of the dividend's sign. */
  function Remainder(a: int, b: int): int
    requires b != 0
  {
    var r := Abs(a) % Abs(b);
    if a < 0 then -r else r
  }

  /** The two are the only pair with these properties. */
  lemma {:induction false} DivisionUnique(a: int, b: int, q: int, r: int)
    requires b != 0
    ensures IsDivision(a, b, q, r) <==> q == Quotient(a, b) && r == Remainder(a, b)
  {
    hide Quotient, Remainder, IsDivision;
    QuotientDivides(a, b);
    if IsDivision(a, b, q, r) {
      DivisionIs(a, b, q, r);
    }
  }

  /** What signed division promises: an identity, and a remainder below the divisor,
      zero or of the sign of the dividend. */
  predicate IsDivision(a: int, b: int, q: int, r: int) {
    a == q * b + r && Abs(r) < Abs(b) && (r == 0 || (r < 0 <==> a < 0))
  }

  lemma {:induction false} QuotientDivides(a: int, b: int)
    requires b != 0
    ensures IsDivision(a, b, Quotient(a, b), Remainder(a, b))
  {
    DivMod(Abs(a), Abs(b));
    SignedTimes(Quotient(a, b), b);
    DivNonNeg(Abs(a), Abs(b));
  }

  lemma {:induction false} DivisionIs(a: int, b: int, q: int, r: int)
    requires b != 0 && IsDivision(a, b, q, r)
    ensures q == Quotient(a, b) && r == Remainder(a, b)
  {
    MagnitudeOfQuotient(a, b, q, r);
    DivModUnique(Abs(a), Abs(b), Abs(q), Abs(r));
  }

  lemma {:induction false} SignedTimes(q: int, b: int)
    ensures q * b == if (q < 0) == (b < 0) then Abs(q) * Abs(b) else -(Abs(q) * Abs(b))
    ensures 0 <= Abs(q) * Abs(b)
  {
  }

  lemma {:induction false} MagnitudeOfQuotient(a: int, b: int, q: int, r: int)
    requires b != 0 && a == q * b + r && Abs(r) < Abs(b) && (r == 0 || (r < 0 <==> a < 0))
    ensures Abs(a) == Abs(q) * Abs(b) + Abs(r)
    ensures q != 0 ==> ((q < 0) == ((a < 0) != (b < 0)))
  {
    SignedTimes(q, b);
    if q != 0 {
      MulLe(1, Abs(q), Abs(b));
    }
  }

  // ----- comparison -----

  /** Compare digit sequences: by length, then from the top digit down.  This
      is the order of the values when neither has a leading zero. */
  method CompareMagnitudes(s: seq<int>, t: seq<int>) returns (r: Order)
    requires |s| == |t| ==> AreDigits(s) && AreDigits(t)
    ensures |s| < |t| ==> r == Lt
    ensures |s| > |t| ==> r == Gt
    ensures |s| == |t| ==> r == if Val(s) < Val(t) then Lt else if Val(s) > Val(t) then Gt else Eq
  {
    if |s| != |t| {
      return if |s| > |t| then Gt else Lt;
    }
    for n := |s| downto 0
      invariant s[n..] == t[n..]
    {
      if s[n] != t[n] {
        HigherDigit(s, t, n);
        return if s[n] > t[n] then Gt else Lt;
      }
    }
    assert s[0..] == s && t[0..] == t;
    return Eq;
  }

  /** The highest differing digit decides. */
  lemma {:induction false} HigherDigit(s: seq<int>, t: seq<int>, n: nat)
    requires AreDigits(s) && AreDigits(t) && n < |s| == |t| && s[n + 1..] == t[n + 1..]
    ensures s[n] < t[n] ==> Val(s) < Val(t)
    ensures s[n] > t[n] ==> Val(s) > Val(t)
  {
    LowerIfDigit(s, t, n);
    LowerIfDigit(t, s, n);
  }

  lemma {:induction false} LowerIfDigit(s: seq<int>, t: seq<int>, n: nat)
    requires AreDigits(s) && AreDigits(t) && n < |s| == |t| && s[n + 1..] == t[n + 1..]
    ensures s[n] < t[n] ==> Val(s) < Val(t)
  {
    SplitAt(s, n);
    SplitAt(t, n);
    ValBound(s[..n]);
    ValBound(t[..n]);
    if s[n] < t[n] {
      MulLe(s[n] + 1, t[n], BP(n));
      Distribute(s[n], 1, BP(n));
    }
  }

  /** A number as its digits below column `n`, digit `n`, and the rest. */
  lemma {:induction false} SplitAt(s: seq<int>, n: nat)
    requires n < |s|
    ensures Val(s) == Val(s[..n]) + s[n] * BP(n) + BP(n + 1) * Val(s[n + 1..])
  {
    ValSplit(s, n + 1);
    var low := s[..n];
    assert s[..n + 1] == low + [s[n]];
    ValSnoc(low, s[n]);
    assert BP(|low|) * s[n] == s[n] * BP(n);
  }

  /** The order of two values. */
  function Ordered(x: int, y: int): Order {
    if x < y then Lt else if x > y then Gt else Eq
  }

  /** Compare the magnitudes of two numbers. */
  method CmpMag(a: MpInt, b: MpInt) returns (r: Order)
    requires a.Valid() && b.Valid()
    ensures r == Ordered(Abs(a.Value()), Abs(b.Value()))
  {
    DigitsOf(a);
    DigitsOf(b);
    if |a.dp| < |b.dp| {
      BPLe(|a.dp|, |b.dp| - 1);
    } else if |b.dp| < |a.dp| {
      BPLe(|b.dp|, |a.dp| - 1);
    }
    r := CompareMagnitudes(a.dp, b.dp);
  }

  // ----- bits -----

  /** The number of bits of `v`. */
  function Bits(v: nat): nat {
    if v == 0 then 0 else Bits(v / 2) + 1
  }

  lemma {:induction false} BitsBounds(v: nat)
    ensures v < Pow(2, Bits(v))
    ensures 0 < v ==> 0 < Bits(v) && Pow(2, Bits(v) - 1) <= v
    decreases v
  {
    if v != 0 {
      BitsBounds(v / 2);
    }
  }

  /** Exactly the numbers from 2^(n-1) to 2^n - 1 have `n` bits. */
  lemma {:induction false} BitsUnique(v: nat, n: nat)
    requires 0 < n && Pow(2, n - 1) <= v < Pow(2, n)
    ensures Bits(v) == n
  {
    BitsBounds(v);
    PowPos(2, n - 1);
    if Bits(v) < n {
      PowLe(2, Bits(v), n - 1);
    } else if n < Bits(v) {
      PowLe(2, n, Bits(v) - 1);
    }
  }

  /** The number of bits: those of the digits below the top one, and the top one's. */
  method CountBits(a: MpInt) returns (r: nat)
    requires a.Valid()
    ensures r == Bits(Abs(a.Value()))
  {
    DigitsOf(a);
    if a.dp == [] {
      return 0;
    }
    var top := |a.dp| - 1;
    r := top * DIGIT_BIT;
    var q := a.dp[top];
    ghost var k := 0;
    TopDigitValue(a.dp);
    BPPow2(top);
    while q > 0
      invariant 0 <= q && k == Bits(a.dp[top]) - Bits(q) >= 0 && r == top * DIGIT_BIT + k
    {
      r := r + 1;
      q := q / 2;
      k := k + 1;
    }
    BitsBounds(a.dp[top]);
    BitsScale(Val(a.dp), a.dp[top], top * DIGIT_BIT);
  }

  lemma {:induction false} TopDigitValue(s: seq<int>)
    requires AreDigits(s) && s != []
    ensures s[|s| - 1] * BP(|s| - 1) <= Val(s) < (s[|s| - 1] + 1) * BP(|s| - 1)
  {
    var top := |s| - 1;
    ValSplit(s, top);
    assert s[top..] == [s[top]];
    ValOne(s[top]);
    ValBound(s[..top]);
    Distribute(s[top], 1, BP(top));
  }

  /** A number within a power of two of `top` times that power has that many bits more. */
  lemma {:induction false} BitsScale(v: nat, top: nat, k: nat)
    requires 0 < top && top * Pow(2, k) <= v < (top + 1) * Pow(2, k)
    ensures Bits(v) == Bits(top) + k
  {
    BitsBounds(top);
    PowPos(2, k);
    MulLe(Pow(2, Bits(top) - 1), top, Pow(2, k));
    MulLe(top + 1, Pow(2, Bits(top)), Pow(2, k));
    PowAdd(2, Bits(top) - 1, k);
    PowAdd(2, Bits(top), k);
    BitsUnique(v, Bits(top) + k);
  }
}
