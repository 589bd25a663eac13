/** Schoolbook division of many digits by many: a trial digit from the top
    digits, at most one add-back.

    The temporaries x, y, t1 and t2 are held by value, their digits read off
    with Window. */
module DivideSchool {
  import opened Arith
  import opened Digits
  import opened MpInts
  import opened Columns

  // ----- reading digits of a temporary -----

  /** The digits of `v`, zero-extended to `n` places. */
  function Padded(v: nat, n: nat): (s: seq<int>)
    requires v < BP(n)
    ensures |s| == n && AreDigits(s) && Val(s) == v
  {
    ToDigitsFacts(v);
    UsedLe(v, n);
    ValPadded(ToDigits(v), n - Used(v));
    ToDigits(v) + seq(n - Used(v), _ => 0)
  }

  /** The top `k` digits of the `n` digits of `v`; the place below the lowest
      digit reads as zero. */
  function Window(v: nat, n: nat, k: nat): (s: seq<int>)
    requires v < BP(n) && k <= n + 1
    ensures |s| == k && AreDigits(s) && Val(s) == (B * v) / BP(n + 1 - k)
  {
    WindowValue(v, n, k);
    ([0] + Padded(v, n))[n + 1 - k..]
  }

  lemma {:induction false} WindowValue(v: nat, n: nat, k: nat)
    requires v < BP(n) && k <= n + 1
    ensures var s := ([0] + Padded(v, n))[n + 1 - k..];
      AreDigits(s) && Val(s) == (B * v) / BP(n + 1 - k)
  {
    var t := [0] + Padded(v, n);
    assert t[1..] == Padded(v, n);
    assert AreDigits(t);
    ValDivMod(t, n + 1 - k);
  }

  // ----- the trial digit -----

  /** The state of one step: `top` and `div` are the top three digits of the
      remainder and the top two of the divisor; `num` and `den` the numbers
      they are the tops of, at unit `p`. */
  ghost predicate Tops(num: int, den: int, p: int, top: int, div: int) {
    0 < p && top * p <= num < (top + 1) * p && div * p <= den < (div + 1) * p
  }

  /** A digit small enough for the numbers is small enough for their tops. */
  lemma {:induction false} NeverBelow(num: int, den: int, p: int, top: int, div: int, q: int)
    requires Tops(num, den, p, top, div) && 0 <= q && 0 < div && q * den <= num
    ensures q * div <= top
    ensures q * (div / B) <= top / B
  {
    MulLe(div * p, den, q);
    Assoc(q, div, p);
    MulCancelLt(q * div, top + 1, p);
    DivMod(div, B);
    MulLe((div / B) * B, div, q);
    Assoc(q, div / B, B);
    DivGe(top, B, q * (div / B));
  }

  /** A digit that passes the two-digit test is at most one too large. */
  lemma {:induction false} AtMostOneAbove(num: int, den: int, p: int, top: int, div: int, q: int)
    requires Tops(num, den, p, top, div) && 0 < div && 1 <= q
    requires q * div + q <= top + div + 1
    ensures (q - 1) * den <= num
  {
    MulLe(den, (div + 1) * p, q - 1);
    Assoc(q - 1, div + 1, p);
    assert (q - 1) * (div + 1) <= top by {
      Distribute(q, 1, div + 1);
      Distribute(div, 1, q);
    }
    MulLe((q - 1) * (div + 1), top, p);
  }

  /** The comparison takes the longer sequence for the larger even when its top
      digit is zero.  It may then let a digit pass that fails the two-digit
      test; the digit is small enough all the same. */
  lemma {:induction false} EarlyExit(top: int, div: int, q: int)
    requires 0 <= q && 0 <= top < B * B && B * 4 <= div && q <= 4 && q * (div / B) <= top / B
    ensures q * div + q <= top + div + 1
  {
    DivMod(div, B);
    DivMod(top, B);
    MulLe(q * (div / B), top / B, B);
    Assoc(q, div / B, B);
    MulBothLe(q, q, div % B, B - 1);
    Distribute((div / B) * B, div % B, q);
    Distribute(B, 1, q);
    MulLe(q, 4, B);
  }

  /** The first estimate, from the top two digits over the top digit: never
      below the true digit. */
  method FirstTrial(x3: seq<int>, y2: seq<int>, ghost num: int, ghost den: int, ghost p: int, ghost digit: int)
    returns (q: int)
    requires AreDigits(x3) && |x3| == 3 && AreDigits(y2) && |y2| == 2
    requires B <= 4 * (y2[1] + 1)
    requires Tops(num, den, p, Val(x3), Val(y2))
    requires 0 <= digit < B && digit * den <= num
    ensures digit <= q < B
    ensures x3[2] == 0 ==> q * (Val(y2) / B) <= Val(x3) / B && q <= 4
  {
    ThreeDigits(x3);
    TwoDigits(y2);
    DivModUnique(Val(y2), B, y2[1], y2[0]);
    DivModUnique(Val(x3), B, x3[2] * B + x3[1], x3[0]);
    NeverBelow(num, den, p, Val(x3), Val(y2), digit);
    if x3[2] == y2[1] {
      q := B - 1;
    } else {
      var tmp := (x3[2] * B + x3[1]) / y2[1];
      DivGe(x3[2] * B + x3[1], y2[1], digit);
      if tmp > B - 1 {
        tmp := B - 1;
      }
      q := tmp;
      if x3[2] == 0 {
        SmallTrial(x3[1], y2[1], q);
      }
    }
  }

  /** The trial digit: never below the true digit and at most one above it. */
  method TrialDigit(x3: seq<int>, y2: seq<int>, ghost num: int, ghost den: int, ghost p: int, ghost digit: int)
    returns (q: int)
    requires AreDigits(x3) && |x3| == 3 && AreDigits(y2) && |y2| == 2
    requires B <= 4 * (y2[1] + 1)
    requires Tops(num, den, p, Val(x3), Val(y2))
    requires 0 <= digit < B && digit * den <= num < (digit + 1) * den
    ensures digit <= q <= digit + 1 && q < B
  {
    q := FirstTrial(x3, y2, num, den, p, digit);
    ghost var start := q;
    ghost var div := Val(y2);
    DivisorTop(y2);
    while true
      invariant digit <= q <= start
      decreases q
    {
      MulNonNeg(q, div);
      var t1 := ToDigits(q * Val(y2));
      ToDigitsFacts(q * Val(y2));
      var cmp := CompareMagnitudes(t1, x3);
      GuardFacts(q, div, x3, cmp);
      if cmp != Gt {
        Accepted(num, den, p, x3, div, digit, q, start);
        return;
      }
      NeverBelow(num, den, p, Val(x3), div, digit);
      q := q - 1;
    }
  }

  lemma {:induction false} DivisorTop(y2: seq<int>)
    requires AreDigits(y2) && |y2| == 2 && B <= 4 * (y2[1] + 1)
    ensures 4 * B <= Val(y2) < B * B
  {
    TwoDigits(y2);
    MulLe(4, y2[1], B);
    MulLe(y2[1] + 1, B, B);
    Distribute(y2[1], 1, B);
  }

  /** A digit the correction loop lets pass is at most one above the true digit. */
  lemma {:induction false} Accepted(num: int, den: int, p: int, x3: seq<int>, div: int, digit: int, q: int, start: int)
    requires AreDigits(x3) && |x3| == 3 && 4 * B <= div < B * B
    requires Tops(num, den, p, Val(x3), div) && num < (digit + 1) * den
    requires 0 <= digit <= q <= start < B
    requires x3[2] == 0 ==> start * (div / B) <= Val(x3) / B && start <= 4
    requires q * div <= Val(x3) || x3[2] == 0
    ensures q <= digit + 1
  {
    if 1 <= q {
      var top := Val(x3);
      ThreeDigits(x3);
      if q * div > top {
        DivNonNeg(div, B);
        MulLe(q, start, div / B);
        MulLe(x3[1] + 1, B, B);
        Distribute(x3[1], 1, B);
        EarlyExit(top, div, q);
      }
      MulLt(0, div, p);
      AtMostOneAbove(num, den, p, top, div, q);
      DigitUnique(num, den, digit, q);
    }
  }

  lemma {:induction false} ThreeDigits(s: seq<int>)
    requires |s| == 3
    ensures Val(s) == (s[2] * B + s[1]) * B + s[0]
  {
    assert s[1..][1..] == [s[2]];
    ValOne(s[2]);
    Distribute(s[2] * B, s[1], B);
  }

  lemma {:induction false} TwoDigits(s: seq<int>)
    requires |s| == 2
    ensures Val(s) == s[1] * B + s[0]
  {
    assert s[1..] == [s[1]];
    ValOne(s[1]);
  }

  /** With nothing above it, digit `x` over the normalised digit `y` is at most 4. */
  lemma {:induction false} SmallTrial(x: int, y: int, q: int)
    requires 0 <= x < B && 0 <= y < B && B <= 4 * (y + 1)
    requires y != 0 ==> q <= x / y
    requires y != 0
    ensures q * y <= x && q <= 4
  {
    DivMod(x, y);
    MulLe(q, x / y, y);
    if q > 4 {
      MulLe(5, q, y);
    }
  }

  /** What the guard of the correction loop tells. */
  lemma {:induction false} GuardFacts(q: int, div: int, x3: seq<int>, cmp: Order)
    requires 0 <= q < B && 0 <= div < B * B && AreDigits(x3) && |x3| == 3
    requires 0 <= q * div
    requires var t1 := ToDigits(q * div);
      && (|t1| < 3 ==> cmp == Lt)
      && (|t1| > 3 ==> cmp == Gt)
      && (|t1| == 3 ==> cmp == if Val(t1) < Val(x3) then Lt else if Val(t1) > Val(x3) then Gt else Eq)
    ensures cmp == Gt ==> q * div > Val(x3)
    ensures cmp != Gt ==> q * div <= Val(x3) || x3[2] == 0
  {
    var v := q * div;
    ToDigitsFacts(v);
    BPSucc(0);
    BPSucc(1);
    BPSucc(2);
    Assoc(B, B, B);
    assert v < BP(3) by {
      MulBothLe(q, B - 1, div, B * B);
      Distribute(B, 1, B * B);
    }
    UsedLe(v, 3);
    UsedLe(v, 2);
    ThreeDigits(x3);
    if x3[2] != 0 {
      MulLe(1, x3[2], B);
      MulLe(B, x3[2] * B + x3[1], B);
    }
  }

  /** A number whose predecessor is small enough is at most one above the true digit. */
  lemma {:induction false} DigitUnique(num: int, den: int, digit: int, q: int)
    requires 0 < den && num < (digit + 1) * den && (q - 1) * den <= num
    ensures q <= digit + 1
  {
    MulCancelLt(q - 1, digit + 1, den);
  }

  // ----- one quotient digit -----

  /** `y` has `t` + 1 digits and its top digit is at least a quarter of the radix. */
  ghost predicate Normalised(y: int, t: nat) {
    0 < y < BP(t + 1) && B * BP(t) <= 4 * y
  }

  /** The windows of step `i` are the tops of the remainder and of the shifted divisor. */
  lemma {:induction false} WindowsAreTops(x: nat, y: nat, i: nat, t: nat)
    requires Normalised(y, t) && t + 1 <= i && x < y * BP(i - t)
    ensures x < BP(i + 1)
    ensures Tops(B * x, B * (y * BP(i - t - 1)), BP(i - 1), Val(Window(x, i + 1, 3)), Val(Window(y, t + 1, 2)))
    ensures B <= 4 * (Window(y, t + 1, 2)[1] + 1)
  {
    var w := BP(i - t - 1);
    MulLe(y, BP(t + 1), BP(i - t));
    BPAdd(t + 1, i - t);
    var top, div := Val(Window(x, i + 1, 3)), Val(Window(y, t + 1, 2));
    DivMod(B * x, BP(i - 1));
    Distribute(top, 1, BP(i - 1));
    DivMod(B * y, BP(t));
    Distribute(div, 1, BP(t));
    BPAdd(t, i - t - 1);
    MulLe(div * BP(t), B * y, w);
    MulLt(B * y, (div + 1) * BP(t), w);
    Assoc(div, BP(t), w);
    Assoc(div + 1, BP(t), w);
    Assoc(B, y, w);
    TopOfNormalised(y, t, Window(y, t + 1, 2));
  }

  lemma {:induction false} TopOfNormalised(y: nat, t: nat, s: seq<int>)
    requires Normalised(y, t) && |s| == 2 && AreDigits(s) && B * y < (Val(s) + 1) * BP(t)
    ensures B <= 4 * (s[1] + 1)
  {
    TwoDigits(s);
    MulLe(B * BP(t), 4 * y, B);
    Assoc(B, B, BP(t));
    Assoc(B, BP(t), B);
    MulCancelLt(B * B, 4 * (Val(s) + 1), BP(t));
    Distribute(s[1], 1, B);
    MulCancelLt(B - 1, 4 * (s[1] + 1), B);
  }

  /** One step: the next quotient digit and the remainder left after it. */
  method QuotientDigit(x: nat, y: nat, i: nat, t: nat) returns (q: int, r: nat)
    requires Normalised(y, t) && t + 1 <= i && x < y * BP(i - t)
    ensures 0 <= q < B && 0 <= r < y * BP(i - t - 1)
    ensures x == q * (y * BP(i - t - 1)) + r
  {
    var w := BP(i - t - 1);
    ghost var den := y * w;
    MulLt(0, y, w);
    ghost var digit := x / den;
    DivMod(x, den);
    DivNonNeg(x, den);
    BPSucc(i - t - 1);
    assert x < B * den by { Assoc(y, w, B); }
    DivLt(x, den, B);
    WindowsAreTops(x, y, i, t);
    ScaledDigit(x, den, digit);
    q := TrialDigit(Window(x, i + 1, 3), Window(y, t + 1, 2), B * x, B * den, BP(i - 1), digit);
    // x minus the shifted product
    var t1 := y * q;
    t1 := t1 * w;
    var rest := x - t1;
    assert t1 == q * den by { Assoc(q, y, w); }
    Distribute(digit, 1, den);
    if rest < 0 {
      t1 := y * w;
      rest := rest + t1;
      q := q - 1;
    }
    r := rest;
    Distribute(q, 1, den);
  }

  lemma {:induction false} ScaledDigit(x: int, den: int, digit: int)
    requires 0 < den && digit * den <= x < digit * den + den
    ensures digit * (B * den) <= B * x < (digit + 1) * (B * den)
  {
    Distribute(digit, 1, den);
    MulLe(digit * den, x, B);
    MulLt(x, (digit + 1) * den, B);
    Assoc(digit, den, B);
    Assoc(digit + 1, den, B);
  }

  // ----- all of them -----

  /** Quotient digits found so far and the remainder account for the dividend. */
  ghost predicate Divided(q: seq<int>, x: int, y: int, total: int, low: int) {
    && AreDigits(q) && 0 <= x
    && Val(q) * y + x == total
    && (forall j :: 0 <= j < low && j < |q| ==> q[j] == 0)
  }

  lemma {:induction false} DividedStep(q: seq<int>, x: int, y: int, total: int, k: nat, digit: int, r: int)
    requires Divided(q, x, y, total, k + 1) && k < |q|
    requires 0 <= digit < B && 0 <= r && x == digit * (y * BP(k)) + r
    ensures Divided(q[k := digit], r, y, total, k)
  {
    ValUpdate(q, k, digit);
    Distribute(Val(q), digit * BP(k), y);
    Assoc(digit, BP(k), y);
  }

  /** The leading digit, by repeated subtraction: at most three. */
  method LeadingDigit(x0: nat, y: nat, n: nat, t: nat, q: array<int>)
    returns (x: nat)
    requires t <= n && n - t < q.Length && Normalised(y, t) && x0 < BP(n + 1)
    requires Divided(q[..], x0, y, x0, q.Length)
    modifies q
    ensures Divided(q[..], x, y, x0, n - t)
    ensures x < y * BP(n - t)
  {
    x := x0;
    var k := n - t;
    var shifted := y * BP(k);
    assert x0 < 4 * shifted by {
      MulLe(B * BP(t), 4 * y, BP(k));
      BPAdd(t, k);
      BPSucc(n);
      Assoc(B, BP(t), BP(k));
      Assoc(4, y, BP(k));
    }
    MulLt(0, y, BP(k));
    ghost var zeros := q[..];
    while x >= shifted
      invariant 0 <= q[k] < 4 && q[..] == zeros[k := q[k]]
      invariant 0 <= x && x0 == q[k] * shifted + x
      decreases x
    {
      Distribute(q[k], 1, shifted);
      MulCancelLt(q[k] + 1, 4, shifted);
      q[k] := q[k] + 1;
      x := x - shifted;
    }
    DividedStep(zeros, x0, y, x0, k, q[k], x);
  }

  /** All quotient digits below the leading one, highest first. */
  method LowerDigits(x0: nat, y: nat, n: nat, t: nat, q: array<int>, ghost total: int) returns (x: nat)
    requires t <= n && n - t < q.Length && Normalised(y, t) && x0 < y * BP(n - t)
    requires Divided(q[..], x0, y, total, n - t)
    modifies q
    ensures Divided(q[..], x, y, total, 0) && x < y
  {
    x := x0;
    for k := n - t downto 0
      invariant Divided(q[..], x, y, total, k) && x < y * BP(k)
    {
      var i := k + t + 1;
      ghost var before := q[..];
      if i > Used(x) {
        SkippedDigit(x, y, t, k);
        DividedStep(before, x, y, total, k, 0, x);
        assert q[..] == before[k := 0];
        continue;
      }
      var digit, r := QuotientDigit(x, y, i, t);
      DividedStep(before, x, y, total, k, digit, r);
      q[k] := digit;
      assert q[..] == before[k := digit];
      x := r;
    }
  }

  /** A remainder that is too short leaves the quotient digit zero. */
  lemma {:induction false} SkippedDigit(x: nat, y: nat, t: nat, k: nat)
    requires Normalised(y, t) && k + t + 1 > Used(x)
    ensures x < y * BP(k)
  {
    UsedBounds(x);
    BPLe(Used(x), k + t);
    BPAdd(t, k);
    MulCancelLe(BP(t), y, 4);
    MulLe(BP(t), y, BP(k));
  }
}
