/** Machine words and digit sequences.

    A digit holds DIGIT_BIT bits of an unsigned machine digit of DIGIT_WIDTH
    bits; a word is twice as wide as a machine digit. */
module Digits {
  import opened Arith

  /** The supported digit sizes. */
  datatype WordConfig = Mp16Bit | Mp28Bit | Mp31Bit | Mp64Bit {
    function DigitBit(): nat {
      match this
      case Mp16Bit => 15
      case Mp28Bit => 28
      case Mp31Bit => 31
      case Mp64Bit => 60
    }

    function DigitWidth(): nat {
      match this
      case Mp16Bit => 16
      case Mp28Bit => 32
      case Mp31Bit => 32
      case Mp64Bit => 64
    }
  }

  /** The configuration is left open: everything below holds for each of them. */
  const CONFIG: WordConfig

  const DIGIT_BIT: nat := CONFIG.DigitBit()
  const DIGIT_WIDTH: nat := CONFIG.DigitWidth()

  type Positive = x: int | 0 < x witness 1

  type RadixSize = x: int | 32768 <= x witness 32768

  /** The radix, one more than MP_MASK. */
  const B: RadixSize := (RadixMinimum(); Pow(2, DIGIT_BIT))
  const DIGIT_LIMIT: Positive := (PowPos(2, DIGIT_WIDTH); Pow(2, DIGIT_WIDTH))
  const WORD_LIMIT: Positive := (PowPos(2, 2 * DIGIT_WIDTH); Pow(2, 2 * DIGIT_WIDTH))
  /** How many digit products fit in a word. */
  const MAX_COMBA: Positive :=
    (PowPos(2, 2 * DIGIT_WIDTH - 2 * DIGIT_BIT); Pow(2, 2 * DIGIT_WIDTH - 2 * DIGIT_BIT))
  /** The length of the column buffers. */
  const WARRAY: int := 2 * MAX_COMBA

  lemma {:induction false} RadixMinimum()
    ensures 32768 <= Pow(2, DIGIT_BIT)
  {
    assert Pow(2, 7) == 128 && Pow(2, 8) == 256;
    PowAdd(2, 8, 7);
    PowLe(2, 15, DIGIT_BIT);
  }

  lemma {:induction false} RadixFacts()
    ensures 2 <= DIGIT_BIT < DIGIT_WIDTH
    ensures B % 2 == 0 && B == 2 * Pow(2, DIGIT_BIT - 1)
    ensures 2 * B <= DIGIT_LIMIT
    ensures 4 <= MAX_COMBA && WORD_LIMIT == MAX_COMBA * (B * B)
  {
    PowLe(2, DIGIT_BIT + 1, DIGIT_WIDTH);
    PowLe(2, 2, 2 * DIGIT_WIDTH - 2 * DIGIT_BIT);
    assert Pow(2, 2) == 4;
    PowAdd(2, DIGIT_BIT, DIGIT_BIT);
    PowAdd(2, 2 * DIGIT_WIDTH - 2 * DIGIT_BIT, 2 * DIGIT_BIT);
  }

  type Word = x: int | 0 <= x < WORD_LIMIT witness 0

  /** The weight of digit `k`. */
  function BP(k: nat): (p: int)
    ensures 0 < p
  {
    PowPos(B, k);
    Pow(B, k)
  }

  lemma {:induction false} BPSucc(k: nat)
    ensures BP(k + 1) == B * BP(k) && BP(0) == 1
  {
  }

  lemma {:induction false} BPAdd(j: nat, k: nat)
    ensures BP(j + k) == BP(j) * BP(k)
  {
    PowAdd(B, j, k);
  }

  lemma {:induction false} BPLe(j: nat, k: nat)
    requires j <= k
    ensures BP(j) <= BP(k)
  {
    PowLe(B, j, k);
  }

  /** The weights are the powers of two at multiples of DIGIT_BIT. */
  lemma {:induction false} BPPow2(k: nat)
    ensures 0 <= DIGIT_BIT * k && BP(k) == Pow(2, DIGIT_BIT * k)
  {
    PowPow(2, DIGIT_BIT, k);
  }

  // ----- digit sequences, least significant first -----

  /** The number a sequence of columns stands for; columns may exceed the radix. */
  function Val(s: seq<int>): int {
    if s == [] then 0 else s[0] + B * Val(s[1..])
  }

  ghost predicate AreDigits(s: seq<int>) {
    forall i :: 0 <= i < |s| ==> 0 <= s[i] < B
  }

  lemma {:induction false} ValConcat(s: seq<int>, t: seq<int>)
    ensures Val(s + t) == Val(s) + BP(|s|) * Val(t)
  {
    if s == [] {
      assert s + t == t;
    } else {
      ValConcat(s[1..], t);
      assert (s + t)[1..] == s[1..] + t;
      Distribute(Val(s[1..]), BP(|s| - 1) * Val(t), B);
      Assoc(B, BP(|s| - 1), Val(t));
    }
  }

  lemma {:induction false} ValOne(x: int)
    ensures Val([x]) == x
  {
    assert Val([x][1..]) == 0;
  }

  lemma {:induction false} ValSnoc(s: seq<int>, x: int)
    ensures Val(s + [x]) == Val(s) + BP(|s|) * x
  {
    ValConcat(s, [x]);
    ValOne(x);
  }

  lemma {:induction false} SliceSnoc(s: seq<int>, lo: nat, hi: nat)
    requires lo <= hi < |s|
    ensures s[lo..hi + 1] == s[lo..hi] + [s[hi]]
  {
  }

  lemma {:induction false} ValSplit(s: seq<int>, k: nat)
    requires k <= |s|
    ensures Val(s) == Val(s[..k]) + BP(k) * Val(s[k..])
  {
    ValConcat(s[..k], s[k..]);
    assert s == s[..k] + s[k..];
  }

  lemma {:induction false} ValZeros(s: seq<int>)
    requires forall i :: 0 <= i < |s| ==> s[i] == 0
    ensures Val(s) == 0
  {
    if s != [] {
      ValZeros(s[1..]);
    }
  }

  /** Changing one column changes the number by that column's weight. */
  lemma {:induction false} ValUpdate(s: seq<int>, i: nat, v: int)
    requires i < |s|
    ensures Val(s[i := v]) == Val(s) + (v - s[i]) * BP(i)
  {
    if i == 0 {
      assert s[0 := v][1..] == s[1..];
    } else {
      ValUpdate(s[1..], i - 1, v);
      assert s[i := v][1..] == s[1..][i - 1 := v];
      Distribute(Val(s[1..]), (v - s[i]) * BP(i - 1), B);
      assert B * ((v - s[i]) * BP(i - 1)) == (v - s[i]) * BP(i) by {
        Assoc(v - s[i], B, BP(i - 1));
        Assoc(B, v - s[i], BP(i - 1));
      }
    }
  }

  lemma {:induction false} ValBound(s: seq<int>)
    requires AreDigits(s)
    ensures 0 <= Val(s) < BP(|s|)
  {
    if s != [] {
      ValBound(s[1..]);
      MulLe(Val(s[1..]) + 1, BP(|s| - 1), B);
      MulNonNeg(B, Val(s[1..]));
      Distribute(Val(s[1..]), 1, B);
    }
  }

  /** A nonzero top digit bounds the number from below. */
  lemma {:induction false} ValTop(s: seq<int>)
    requires AreDigits(s) && s != [] && s[|s| - 1] != 0
    ensures BP(|s| - 1) <= Val(s)
  {
    var k := |s| - 1;
    ValSplit(s, k);
    assert s[k..] == [s[k]];
    ValOne(s[k]);
    ValBound(s[..k]);
    MulLe(1, s[k], BP(k));
  }

  /** The low digits are the remainder, the high digits the quotient. */
  lemma {:induction false} ValDivMod(s: seq<int>, k: nat)
    requires AreDigits(s) && k <= |s|
    ensures Val(s) % BP(k) == Val(s[..k]) && Val(s) / BP(k) == Val(s[k..])
  {
    hide Val;
    ValSplit(s, k);
    ValBound(s[..k]);
    DivModUnique(Val(s), BP(k), Val(s[k..]), Val(s[..k]));
  }

  /** Digits are determined by the number. */
  lemma {:induction false} ValInjective(s: seq<int>, t: seq<int>)
    requires AreDigits(s) && AreDigits(t) && |s| == |t| && Val(s) == Val(t)
    ensures s == t
  {
    if s != [] {
      DivModUnique(Val(s), B, Val(s[1..]), s[0]);
      DivModUnique(Val(t), B, Val(t[1..]), t[0]);
      ValInjective(s[1..], t[1..]);
      assert s == [s[0]] + s[1..] && t == [t[0]] + t[1..];
    }
  }

  /** The digits of `n`, without leading zeros. */
  function ToDigits(n: int): seq<int>
    decreases Max(n, 0)
  {
    if n <= 0 then []
    else
      ToDigitsDecreases(n);
      [n % B] + ToDigits(n / B)
  }

  lemma {:induction false} ToDigitsDecreases(n: nat)
    requires 0 < n
    ensures 0 <= n / B < n
  {
    DivNonNeg(n, B);
    MulLt(1, B, n);
    DivLt(n, B, n);
  }

  lemma {:induction false} ToDigitsFacts(n: nat)
    ensures AreDigits(ToDigits(n)) && Val(ToDigits(n)) == n
    ensures ToDigits(n) != [] ==> ToDigits(n)[|ToDigits(n)| - 1] != 0
    decreases n
  {
    if n != 0 {
      ToDigitsDecreases(n);
      ToDigitsFacts(n / B);
      DivMod(n, B);
      assert ToDigits(n)[1..] == ToDigits(n / B);
    }
  }

  /** How many digits `n` has; the field `used`. */
  function Used(n: int): nat {
    |ToDigits(n)|
  }

  lemma {:induction false} UsedBounds(n: nat)
    ensures n < BP(Used(n))
    ensures 0 < n ==> 0 < Used(n) && BP(Used(n) - 1) <= n
    ensures n == 0 ==> Used(n) == 0
  {
    ToDigitsFacts(n);
    ValBound(ToDigits(n));
    if 0 < n {
      ValTop(ToDigits(n));
    }
  }

  /** Exactly the numbers below `BP(k)` have at most `k` digits. */
  lemma {:induction false} UsedLe(n: nat, k: nat)
    ensures Used(n) <= k <==> n < BP(k)
  {
    UsedBounds(n);
    if Used(n) <= k {
      BPLe(Used(n), k);
    } else {
      BPLe(k, Used(n) - 1);
    }
  }

  /** Digits without leading zeros are the digits of their value. */
  lemma {:induction false} Canonical(s: seq<int>)
    requires AreDigits(s) && (s != [] ==> s[|s| - 1] != 0)
    ensures 0 <= Val(s) && s == ToDigits(Val(s))
  {
    ValBound(s);
    UsedLe(Val(s), |s|);
    if s != [] {
      ValTop(s);
      UsedLe(Val(s), |s| - 1);
    }
    ToDigitsFacts(Val(s));
    ValInjective(s, ToDigits(Val(s)));
  }

  /** The sequence without its leading zeros. */
  function Clamped(s: seq<int>): (t: seq<int>)
    ensures |t| <= |s| && t == s[..|t|]
  {
    if s != [] && s[|s| - 1] == 0 then Clamped(s[..|s| - 1]) else s
  }

  lemma {:induction false} ClampedFacts(s: seq<int>)
    requires AreDigits(s)
    ensures 0 <= Val(s) && Clamped(s) == ToDigits(Val(s)) && Val(Clamped(s)) == Val(s)
  {
    if s != [] && s[|s| - 1] == 0 {
      var t := s[..|s| - 1];
      assert s == t + [0];
      ValSnoc(t, 0);
      ClampedFacts(t);
    } else {
      Canonical(s);
    }
  }
}
