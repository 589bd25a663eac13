/** Integer logarithms, rounded down: by doubling a bracket and bisecting it, on
    numbers and on machine words, and by counting bits. */
module Logarithm {
  import opened Arith
  import opened Digits
  import opened MpInts
  import opened OneDigit
  import Multiply

  /** `k` is the logarithm of `n`, rounded down. */
  predicate IsLog(k: int, base: int, n: int) {
    0 <= k && Pow(base, k) <= n < Pow(base, k + 1)
  }

  lemma {:induction false} LogUnique(j: int, k: int, base: int, n: int)
    requires 2 <= base && IsLog(j, base, n) && IsLog(k, base, n)
    ensures j == k
  {
    if j < k {
      PowLe(base, j + 1, k);
    } else if k < j {
      PowLe(base, k + 1, j);
    }
  }

  // ----- powers by squaring -----

  /** c = g^b */
  method Power(g0: int, b0: nat) returns (c: int)
    ensures c == Pow(g0, b0)
  {
    var g, b := g0, b0;
    c := 1;
    while b > 0
      invariant 0 <= b && c * Pow(g, b) == Pow(g0, b0)
    {
      SquareStep(g, b, c);
      if b % 2 != 0 {
        c := Multiply.Product(c, g);
      }
      if b > 1 {
        g := Multiply.Square(g);
      }
      b := b / 2;
    }
    assert Pow(g, 0) == 1;
  }

  lemma {:induction false} SquareStep(g: int, b: nat, c: int)
    requires 0 < b
    ensures (if b % 2 != 0 then c * g else c) * Pow(g * g, b / 2) == c * Pow(g, b)
    ensures b == 1 ==> c * g == c * Pow(g, 1) && Pow(g, 0) == 1
  {
    var h := b / 2;
    PowMul(g, g, h);
    PowAdd(g, h, h);
    if b % 2 != 0 {
      assert Pow(g, b) == g * Pow(g, h + h);
      Assoc(c, g, Pow(g, h + h));
    }
    assert Pow(g, 1) == g * Pow(g, 0);
  }

  /** The same on words: a square that does not fit wraps around, and is not used. */
  method WordPower(base0: int, exponent0: nat) returns (result: int)
    requires 2 <= base0 && Pow(base0, exponent0) < WORD_LIMIT
    ensures result == Pow(base0, exponent0)
  {
    var base, exponent := base0 % WORD_LIMIT, exponent0;
    ghost var total := Pow(base0, exponent0);
    result := 1;
    if exponent != 0 {
      PowLe(base0, 1, exponent0);
      assert Pow(base0, 1) == base0;
      ModSmall(base0, WORD_LIMIT);
    }
    while exponent != 0
      invariant 0 <= exponent && 1 <= result
      invariant if exponent == 0 then result == total else 2 <= base && result * Pow(base, exponent) == total
      decreases exponent
    {
      SquareStep(base, exponent, result);
      ProductsFit(result, base, exponent, total, WORD_LIMIT);
      if exponent % 2 == 1 {
        result := (result * base) % WORD_LIMIT;
      }
      exponent := exponent / 2;
      base := (base * base) % WORD_LIMIT;
    }
    assert Pow(base0, 0) == 1;
  }

  lemma {:induction false} ProductsFit(result: int, g: int, e: nat, total: int, limit: int)
    requires 1 <= result && 2 <= g && 0 < e && result * Pow(g, e) == total < limit
    ensures 1 <= result * g <= total && (result * g) % limit == result * g
    ensures 4 <= g * g && (1 < e ==> (g * g) % limit == g * g)
  {
    PowLe(g, 1, e);
    assert Pow(g, 1) == g * Pow(g, 0) && Pow(g, 0) == 1;
    MulLe(g, Pow(g, e), result);
    MulLe(1, result, g);
    ModSmall(result * g, limit);
    MulBothLe(2, g, 2, g);
    if 1 < e {
      PowLe(g, 2, e);
      assert Pow(g, 2) == g * Pow(g, 1);
      MulLe(1, result, Pow(g, e));
      ModSmall(g * g, limit);
    }
  }

  // ----- the bracket -----

  /** The bracket holds powers of the base, and the number between them. */
  ghost predicate Bracket(base: int, n: int, low: int, high: int, bracketLow: int, bracketHigh: int) {
    && 0 <= low < high
    && bracketLow == Pow(base, low) && bracketHigh == Pow(base, high)
    && bracketLow < n
  }

  lemma {:induction false} DoubledBracket(base: int, n: int, low: int, high: int, bracketLow: int, bracketHigh: int)
    requires 2 <= base && Bracket(base, n, low, high, bracketLow, bracketHigh) && bracketHigh < n
    ensures Bracket(base, n, high, 2 * high, bracketHigh, bracketHigh * bracketHigh)
    ensures bracketHigh < bracketHigh * bracketHigh
  {
    PowAdd(base, high, high);
    PowLe(base, 1, high);
    assert Pow(base, 1) == base * Pow(base, 0) && Pow(base, 0) == 1;
    MulLt(1, bracketHigh, bracketHigh);
  }

  lemma {:induction false} MiddlePower(base: int, low: nat, mid: nat)
    requires low <= mid
    ensures Pow(base, low) * Pow(base, mid - low) == Pow(base, mid)
  {
    PowAdd(base, low, mid - low);
  }

  lemma {:induction false} BracketClosed(base: int, n: int, low: int, high: int, bracketLow: int, bracketHigh: int)
    requires 2 <= base && Bracket(base, n, low, high, bracketLow, bracketHigh) && n <= bracketHigh && high - low <= 1
    ensures IsLog(if bracketHigh == n then high else low, base, n)
  {
    PowLt(base, high, high + 1);
  }

  /** The logarithm of a number. */
  method Log(a: int, base: int) returns (c: int)
    requires 1 <= a && 2 <= base
    ensures IsLog(c, base, a)
  {
    assert Pow(base, 0) == 1 && Pow(base, 1) == base * Pow(base, 0);
    if a <= base {
      PowLt(base, 1, 2);
      return if a == base then 1 else 0;
    }
    var low, high, bracketLow, bracketHigh := 0, 1, 1, base;
    while bracketHigh < a
      invariant Bracket(base, a, low, high, bracketLow, bracketHigh)
      decreases a - bracketHigh
    {
      DoubledBracket(base, a, low, high, bracketLow, bracketHigh);
      low, bracketLow := high, bracketHigh;
      high := 2 * high;
      bracketHigh := Multiply.Square(bracketHigh);
    }
    while high - low > 1
      invariant Bracket(base, a, low, high, bracketLow, bracketHigh) && a <= bracketHigh
    {
      var mid := (high + low) / 2;
      var t := Power(base, mid - low);
      var bracketMid := Multiply.Product(bracketLow, t);
      MiddlePower(base, low, mid);
      if a < bracketMid {
        high, bracketHigh := mid, bracketMid;
      } else if a > bracketMid {
        low, bracketLow := mid, bracketMid;
      } else {
        PowLt(base, mid, mid + 1);
        return mid;
      }
    }
    BracketClosed(base, a, low, high, bracketLow, bracketHigh);
    return if bracketHigh == a then high else low;
  }

  /** The logarithm of a digit, on words: no bracket exceeds a word. */
  method LogDigit(base: int, n: int) returns (c: int)
    requires 1 <= n < B && 2 <= base < B
    ensures IsLog(c, base, n)
  {
    assert Pow(base, 0) == 1 && Pow(base, 1) == base * Pow(base, 0);
    if n < base {
      return 0;
    }
    if n == base {
      PowLt(base, 1, 2);
      return 1;
    }
    var low, high, bracketLow, bracketHigh := 0, 1, 1, base;
    WordHoldsSquares();
    while bracketHigh < n
      invariant Bracket(base, n, low, high, bracketLow, bracketHigh) && bracketHigh < WORD_LIMIT
      decreases n - bracketHigh
    {
      DoubledBracket(base, n, low, high, bracketLow, bracketHigh);
      SquareFits(bracketHigh);
      low, bracketLow := high, bracketHigh;
      high := 2 * high;
      bracketHigh := (bracketHigh * bracketHigh) % WORD_LIMIT;
    }
    while high - low > 1
      invariant Bracket(base, n, low, high, bracketLow, bracketHigh) && n <= bracketHigh < WORD_LIMIT
    {
      var mid := (low + high) / 2;
      MiddleFits(base, low, mid, high);
      var t := WordPower(base, mid - low);
      var bracketMid := (bracketLow * t) % WORD_LIMIT;
      if n < bracketMid {
        high, bracketHigh := mid, bracketMid;
      } else if n > bracketMid {
        low, bracketLow := mid, bracketMid;
      } else {
        PowLt(base, mid, mid + 1);
        return mid;
      }
    }
    BracketClosed(base, n, low, high, bracketLow, bracketHigh);
    return if bracketHigh == n then high else low;
  }

  lemma {:induction false} WordHoldsSquares()
    ensures B < B * B <= WORD_LIMIT
  {
    RadixFacts();
    MulLe(2, B, B);
    MulLe(1, MAX_COMBA, B * B);
  }

  lemma {:induction false} SquareFits(x: int)
    requires 0 <= x < B
    ensures 0 <= x * x < WORD_LIMIT && (x * x) % WORD_LIMIT == x * x
  {
    WordHoldsSquares();
    MulNonNeg(x, x);
    MulBothLe(x, B - 1, x, B - 1);
    Distribute(B, 1, B - 1);
    Distribute(B, 1, B);
    ModSmall(x * x, WORD_LIMIT);
  }

  lemma {:induction false} MiddleFits(base: int, low: nat, mid: nat, high: nat)
    requires 2 <= base && low <= mid <= high && Pow(base, high) < WORD_LIMIT
    ensures Pow(base, mid - low) < WORD_LIMIT
    ensures (Pow(base, low) * Pow(base, mid - low)) % WORD_LIMIT == Pow(base, mid)
  {
    MiddlePower(base, low, mid);
    PowLe(base, mid - low, high);
    PowLe(base, mid, high);
    ModSmall(Pow(base, mid), WORD_LIMIT);
  }

  // ----- powers of two -----

  /** The exponent of a power of two, by halving. */
  method TwoExponent(base0: int) returns (y: nat)
    requires 2 <= base0 && IsTwoPower(base0)
    ensures 0 < y && base0 == Pow(2, y)
  {
    TwoPowerIff(base0);
    ghost var k: nat :| base0 == Pow(2, k);
    var base := base0;
    y := 0;
    HalvedPower(k);
    while base % 2 == 0
      invariant 0 <= y <= k && base == Pow(2, k - y)
      decreases k - y
    {
      HalvedPower(k - y);
      base, y := base / 2, y + 1;
    }
    HalvedPower(k - y);
  }

  lemma {:induction false} HalvedPower(m: nat)
    ensures 0 < m ==> Pow(2, m) % 2 == 0 && Pow(2, m) / 2 == Pow(2, m - 1)
    ensures m == 0 ==> Pow(2, m) == 1
  {
  }

  /** For a base 2^y: the bits below the leading one, in groups of y. */
  method LogTwoPower(a: int, base: int) returns (c: int)
    requires 1 <= a && 2 <= base && IsTwoPower(base)
    ensures IsLog(c, base, a)
  {
    var y := TwoExponent(base);
    BitsBounds(a);
    GroupedBits(a, Bits(a) - 1, y);
    c := (Bits(a) - 1) / y;
  }

  lemma {:induction false} GroupedBits(a: int, e: nat, y: nat)
    requires 0 < y && Pow(2, e) <= a < Pow(2, e + 1)
    ensures IsLog(e / y, Pow(2, y), a)
  {
    var c := e / y;
    DivMod(e, y);
    DivNonNeg(e, y);
    PowPow(2, y, c);
    PowPow(2, y, c + 1);
    Distribute(c, 1, y);
    PowLe(2, y * c, e);
    PowLe(2, e + 1, y * (c + 1));
  }

  /** c = the logarithm of `a` to any base of one digit, rounded down. */
  method LogN(a: MpInt, base: int) returns (err: Outcome, c: int)
    requires a.Valid()
    ensures err == if a.Value() <= 0 || base < 2 || base > B - 1 then BadValue else Okay
    ensures err == Okay ==> IsLog(c, base, a.Value())
  {
    DigitsOf(a);
    c := 0;
    if a.sign == Neg || a.dp == [] || base < 2 || base > B - 1 {
      return BadValue, c;
    }
    if IsTwoPower(base) {
      c := LogTwoPower(a.Value(), base);
    } else if |a.dp| == 1 {
      BPSucc(0);
      assert Val(a.dp[1..]) == 0 && a.dp[0] == a.Value();
      c := LogDigit(base, a.dp[0]);
    } else {
      c := Log(a.Value(), base);
    }
    return Okay, c;
  }
}
