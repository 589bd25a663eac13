/** The tests for moduli of special form, and how the forms relate. */
module ModulusShape {
  import opened Arith
  import opened Digits
  import opened MpInts
  import DR = DiminishedRadix
  import TwoK
  import Divide

  // ----- all bits from the second digit up are ones -----

  lemma {:induction false} DivDiv(n: nat, a: int, b: int)
    requires 0 < a && 0 < b
    ensures 0 < a * b && (n / a) / b == n / (a * b)
  {
    MulLt(0, a, b);
    DivMod(n, a);
    DivMod(n / a, b);
    var q, r, s := (n / a) / b, (n / a) % b, n % a;
    Distribute(q * b, r, a);
    Assoc(q, b, a);
    MulLe(r + 1, b, a);
    Distribute(r, 1, a);
    MulNonNeg(r, a);
    DivModUnique(n, a * b, q, r * a + s);
  }

  /** A bit of a digit is a bit of the number. */
  lemma {:induction false} BitOfDigit(s: seq<int>, iw: nat, j: nat)
    requires AreDigits(s) && iw < |s| && j < DIGIT_BIT
    ensures 0 < Pow(2, j) && 0 <= DIGIT_BIT * iw && 0 < Pow(2, DIGIT_BIT * iw + j)
    ensures (Val(s) / Pow(2, DIGIT_BIT * iw + j)) % 2 == (s[iw] / Pow(2, j)) % 2
  {
    PowPos(2, j);
    BPPow2(iw);
    PowAdd(2, DIGIT_BIT * iw, j);
    ValBound(s);
    ValDivMod(s, iw);
    DivDiv(Val(s), BP(iw), Pow(2, j));
    assert s[iw..][0] == s[iw] && s[iw..][1..] == s[iw + 1..];
    var up := Pow(2, DIGIT_BIT - 1 - j);
    PowAdd(2, DIGIT_BIT - 1 - j, j);
    assert B == 2 * (up * Pow(2, j));
    LowBitOnly(s[iw], Val(s[iw + 1..]), up, Pow(2, j));
  }

  lemma {:induction false} LowBitOnly(x: int, h: int, up: int, w: int)
    requires 0 < w && B == 2 * (up * w)
    ensures ((x + B * h) / w) % 2 == (x / w) % 2
  {
    DivMod(x, w);
    var k := up * h;
    assert B * h == (2 * k) * w by {
      Assoc(2, up * w, h);
      Assoc(up, w, h);
      Assoc(up, h, w);
      Assoc(2, k, w);
    }
    Distribute(x / w, 2 * k, w);
    DivModUnique(x + B * h, w, x / w + 2 * k, x % w);
    CongIntro(x / w + 2 * k, x / w, k, 2);
  }

  /** One more bit, all ones so far. */
  lemma {:induction false} OneMoreOne(n: nat, w: int, b: int)
    requires 0 < w && n % w >= w - b && (n / w) % 2 == 1
    ensures n % (2 * w) >= 2 * w - b
  {
    DivMod(n, w);
    var q := n / w;
    assert n == (q / 2) * (2 * w) + (w + n % w) by {
      Distribute(2 * (q / 2), 1, w);
      Assoc(2, q / 2, w);
      Assoc(q / 2, 2, w);
    }
    DivModUnique(n, 2 * w, q / 2, w + n % w);
  }

  /** A zero bit keeps the number away from the power above it. */
  lemma {:induction false} ZeroBitBelow(n: nat, p: nat, ix: nat, b: int)
    requires ix < p && n < Pow(2, p) && b <= Pow(2, ix) && 0 < Pow(2, ix) && (n / Pow(2, ix)) % 2 == 0
    ensures n < Pow(2, p) - b
  {
    var w, c := Pow(2, ix), Pow(2, p - ix - 1);
    PowAdd(2, p - ix - 1, ix);
    assert Pow(2, p) == (2 * c) * w by { Assoc(2, c, w); PowAdd(2, p - ix, ix); }
    DivMod(n, w);
    var q := n / w;
    MulCancelLt(q, 2 * c, w);
    MulLe(q, 2 * c - 2, w);
    Distribute(2 * c, 2, w);
  }

  /** Every bit from the second digit up is a one. */
  method Is2k(a: MpInt) returns (r: bool)
    requires a.Valid()
    ensures r == (a.Value() != 0 && TwoK.AllOnesAbove(Abs(a.Value())))
  {
    DigitsOf(a);
    ghost var n: nat := Abs(a.Value());
    BitsBounds(n);
    if a.dp == [] {
      return false;
    }
    if |a.dp| == 1 {
      OneDigitShape(n);
      return true;
    }
    var iy := CountBits(a);
    var iw, iz := 1, 1;
    ghost var j := 0;
    MoreThanADigit(n, |a.dp|);
    DivMod(n, B);
    for ix := DIGIT_BIT to iy
      invariant 1 <= iw && j < DIGIT_BIT && iz == Pow(2, j) && ix == DIGIT_BIT * iw + j
      invariant 0 < Pow(2, ix) && n % Pow(2, ix) >= Pow(2, ix) - B
    {
      BitInside(n, a.dp, ix, iw, j);
      BitOfDigit(a.dp, iw, j);
      PowLe(2, DIGIT_BIT, ix);
      if (a.dp[iw] / iz) % 2 == 0 {
        ZeroBitBelow(n, iy, ix, B);
        return false;
      }
      OneMoreOne(n, Pow(2, ix), B);
      iz := 2 * iz;
      j := j + 1;
      if j == DIGIT_BIT {
        Distribute(iw, 1, DIGIT_BIT);
      } else {
        PowLt(2, j, DIGIT_BIT);
      }
      if iz > B - 1 {
        iw, iz, j := iw + 1, 1, 0;
      }
    }
    ModSmall(n, Pow(2, iy));
    return true;
  }

  lemma {:induction false} OneDigitShape(n: nat)
    requires 0 < n && n < BP(1)
    ensures TwoK.AllOnesAbove(n)
  {
    BitsBounds(n);
    BPSucc(0);
    if DIGIT_BIT < Bits(n) {
      PowLe(2, DIGIT_BIT, Bits(n) - 1);
    }
    PowLe(2, Bits(n), DIGIT_BIT);
  }

  lemma {:induction false} MoreThanADigit(n: nat, k: nat)
    requires 2 <= k && BP(k - 1) <= n
    ensures DIGIT_BIT <= Bits(n) && B <= n
  {
    BitsBounds(n);
    BPLe(1, k - 1);
    BPSucc(0);
    if Bits(n) < DIGIT_BIT {
      PowLe(2, Bits(n), DIGIT_BIT);
    }
  }

  /** A place below the number of bits lies in one of the digits. */
  lemma {:induction false} BitInside(n: nat, s: seq<int>, ix: nat, iw: nat, j: nat)
    requires n < BP(|s|) && ix < Bits(n) && ix == DIGIT_BIT * iw + j
    ensures iw < |s|
  {
    BitsBounds(n);
    BPPow2(|s|);
    if |s| <= iw {
      MulLe(|s|, iw, DIGIT_BIT);
      PowLe(2, DIGIT_BIT * |s|, Bits(n) - 1);
    }
  }

  // ----- half of the digits are full -----

  /** The number of full digits. */
  function FullCount(s: seq<int>): (r: nat)
    ensures r <= |s|
  {
    if s == [] then 0 else FullCount(s[..|s| - 1]) + if s[|s| - 1] == B - 1 then 1 else 0
  }

  /** One digit, or half of the digits full. */
  predicate MostlyOnes(s: seq<int>) {
    |s| == 1 || (|s| > 1 && FullCount(s) >= |s| / 2)
  }

  /** At least half of the digits are full. */
  method Is2kLarge(a: MpInt) returns (r: bool)
    ensures r == MostlyOnes(a.dp)
  {
    if a.dp == [] {
      return false;
    }
    if |a.dp| == 1 {
      return true;
    }
    var iy := 0;
    for ix := 0 to |a.dp|
      invariant iy == FullCount(a.dp[..ix])
    {
      assert a.dp[..ix + 1][..ix] == a.dp[..ix];
      if a.dp[ix] == B - 1 {
        iy := iy + 1;
      }
    }
    assert a.dp[..|a.dp|] == a.dp;
    return iy >= |a.dp| / 2;
  }

  lemma {:induction false} FullRange(s: seq<int>, lo: nat)
    requires lo <= |s| && forall i :: lo <= i < |s| ==> s[i] == B - 1
    ensures FullCount(s) >= |s| - lo
    decreases |s|
  {
    if lo < |s| {
      FullRange(s[..|s| - 1], lo);
    }
  }

  /** Every diminished radix modulus is taken by the test for full digits first. */
  lemma {:induction false} DrIsMostlyOnes(s: seq<int>)
    requires DR.IsDr(s)
    ensures MostlyOnes(s)
  {
    FullRange(s, 1);
  }

  // ----- the moduli the one-digit reduction gets wrong -----

  /** A full block of ones below the top of the second of two digits, zero in the first. */
  ghost predicate LosesDifference(p: int) {
    exists j: nat :: 2 <= j < DIGIT_BIT && p == (Pow(2, j) - 1) * B
  }

  /** All ones above the lowest digit: the middle digits are full. */
  lemma {:induction false} MiddleDigit(s: seq<int>, k: nat)
    requires AreDigits(s) && 1 <= k < |s| - 1 && s[|s| - 1] != 0 && 0 <= Val(s) && TwoK.AllOnesAbove(Val(s))
    ensures s[k] == B - 1
  {
    var n: nat := Val(s);
    ValTop(s);
    var c := PowerAsMultiple(n, k, |s| - 1);
    BPLe(1, k);
    BPSucc(0);
    BPSucc(k);
    TopOfOnes(n, c, BP(k));
    ValDivMod(s, k);
    var t := s[k..];
    assert t[0] == s[k];
    DivModUnique(Val(t), B, Val(t[1..]), s[k]);
    DivModUnique(Val(t), B, c - 1, B - 1);
  }

  /** The power of two above `n` is a multiple of the weight of digit k + 1. */
  lemma {:induction false} PowerAsMultiple(n: nat, k: nat, top: nat) returns (c: int)
    requires k + 1 <= top && BP(top) <= n
    ensures 0 < c && TwoK.PowerAbove(n) == c * BP(k + 1)
  {
    var p, m := Bits(n), DIGIT_BIT * (k + 1);
    BitsBounds(n);
    BPPow2(top);
    BPPow2(k + 1);
    MulLe(k + 1, top, DIGIT_BIT);
    if p < m {
      PowLe(2, p, DIGIT_BIT * top);
    }
    c := Pow(2, p - m);
    PowPos(2, p - m);
    PowAdd(2, p - m, m);
  }

  lemma {:induction false} TopOfOnes(n: nat, c: int, w: int)
    requires B <= w && 0 < c && c * (B * w) - B <= n < c * (B * w)
    ensures n / w == (c - 1) * B + (B - 1)
  {
    Assoc(c, B, w);
    Distribute(c, 1, B);
    Distribute(c * B, 1, w);
    DivModUnique(n, w, c * B - 1, n - (c * B - 1) * w);
  }

  /** What is left for the one-digit 2k test, when its low digit is zero. */
  lemma {:induction false} LeftForOneDigit(s: seq<int>)
    requires AreDigits(s) && s != [] && s[|s| - 1] != 0 && 0 <= Val(s)
    requires TwoK.AllOnesAbove(Val(s)) && !MostlyOnes(s) && Val(s) % B == 0 && Val(s) != B
    ensures LosesDifference(Val(s))
  {
    var n := Val(s);
    if |s| >= 3 {
      forall k | 1 <= k < |s| - 1
        ensures s[k] == B - 1
      {
        MiddleDigit(s, k);
      }
      var low := s[..|s| - 1];
      FullRange(low, 1);
    } else {
      TwoDigits(s);
    }
  }

  lemma {:induction false} TwoDigits(s: seq<int>)
    requires AreDigits(s) && |s| == 2 && s[1] != 0 && 0 <= Val(s)
    requires TwoK.AllOnesAbove(Val(s)) && s[1] != B - 1 && Val(s) % B == 0 && Val(s) != B
    ensures LosesDifference(Val(s))
  {
    var n: nat := Val(s);
    assert s[1..][1..] == [] && Val(s[1..]) == s[1];
    DivModUnique(n, B, s[1], s[0]);
    hide Val, Pow;
    var p := Bits(n);
    BitsBounds(n);
    MulLe(1, s[1], B);
    if p <= DIGIT_BIT {
      PowLe(2, p, DIGIT_BIT);
    }
    var j := p - DIGIT_BIT;
    var c := Pow(2, j);
    PowAdd(2, j, DIGIT_BIT);
    PowPos(2, j);
    Distribute(c, 1, B);
    if s[1] < c - 1 {
      MulLe(s[1], c - 2, B);
      Distribute(c, 2, B);
    }
    MulCancelLt(s[1], c, B);
    assert s[1] == c - 1;
    if DIGIT_BIT <= j {
      PowLe(2, DIGIT_BIT, j);
    }
  }

  /** Such a modulus has the shape of the one-digit test and of no test before it. */
  lemma {:induction false} LosesDifferenceShape(s: seq<int>, j: nat)
    requires AreDigits(s) && s != [] && s[|s| - 1] != 0 && 2 <= j < DIGIT_BIT && Val(s) == (Pow(2, j) - 1) * B
    ensures 0 < Val(s) && !MostlyOnes(s) && !DR.IsDr(s) && TwoK.AllOnesAbove(Val(s))
    ensures 3 * B <= Val(s) && TwoK.PowerAbove(Val(s)) == Pow(2, j) * B && Val(s) % B == 0
  {
    var c := Pow(2, j);
    assert Pow(2, 2) == 4;
    PowLe(2, 2, j);
    PowLe(2, j, DIGIT_BIT - 1);
    RadixFacts();
    MulLe(3, c - 1, B);
    MulLe(1, c, B);
    Distribute(c, 1, B);
    ShapeOfDigits(s, c - 1);
    // the power above
    PowAdd(2, j, DIGIT_BIT);
    PowAdd(2, j - 1, DIGIT_BIT);
    Assoc(2, Pow(2, j - 1), B);
    MulLe(1, Pow(2, j - 1), B);
    BitsUnique(Val(s), j + DIGIT_BIT);
    DivModUnique(Val(s), B, c - 1, 0);
  }

  lemma {:induction false} ShapeOfDigits(s: seq<int>, top: int)
    requires AreDigits(s) && s != [] && s[|s| - 1] != 0 && 0 < top < B - 1 && Val(s) == top * B
    ensures s == [0, top] && FullCount(s) == 0
  {
    var t := [0, top];
    assert t[1..][1..] == [] && Val(t[1..]) == top;
    Canonical(s);
    Canonical(t);
    assert FullCount([]) == 0;
    assert t[..1] == [0] && [0][..0] == [];
    assert FullCount([0]) == 0;
  }

  /** The square of the radix is not zero modulo such a number ... */
  lemma {:induction false} SquareOfRadix(j: nat)
    requires 2 <= j < DIGIT_BIT
    ensures 1 < Pow(2, j) && 0 < (Pow(2, j) - 1) * B && (B * B) % ((Pow(2, j) - 1) * B) != 0
  {
    var m := Pow(2, j) - 1;
    assert Pow(2, 2) == 4;
    PowLe(2, 2, j);
    MulLe(1, m, B);
    if (B * B) % (m * B) == 0 {
      DivMod(B * B, m * B);
      var k := (B * B) / (m * B);
      Assoc(k, m, B);
      MulCancelLe(k * m, B, B);
      MulCancelLe(B, k * m, B);
      // an odd number above 1 does not divide a power of two
      CongIntro(1 * Pow(2, DIGIT_BIT), 0 * Pow(2, DIGIT_BIT), k, m);
      assert Pow(2, j) == 2 * Pow(2, j - 1);
      PowersOfTwoCancel(1, 0, DIGIT_BIT, m);
      ModSmall(1, m);
      ModSmall(0, m);
    }
  }

  /** ... but folding with the difference lost makes it zero. */
  lemma {:induction false} SquareFoldsToZero(j: nat)
    requires 2 <= j < DIGIT_BIT
    ensures var p, w := (Pow(2, j) - 1) * B, Pow(2, j) * B;
      0 < p < w && 0 <= B * B && TwoK.FoldResult(B * B, p, w, 0) == 0
  {
    var c := Pow(2, j);
    assert Pow(2, 2) == 4;
    PowLe(2, 2, j);
    MulLe(1, c - 1, B);
    Distribute(c, 1, B);
    PowAdd(2, DIGIT_BIT - j, j);
    var k := Pow(2, DIGIT_BIT - j);
    Assoc(k, c, B);
    DivModUnique(B * B, c * B, k, 0);
    TwoK.FoldWithZero(B * B, (c - 1) * B, c * B);
    ModSmall(0, (c - 1) * B);
  }
}
