/** Signed division of any two numbers: schoolbook or recursive by size, with
    the same quotient and remainder. */
module Divide {
  import opened Arith
  import opened Digits
  import opened MpInts
  import opened DivideSchool
  import opened Multiply

  // ----- schoolbook division with its normalisation -----

  lemma {:induction false} BitsShift(v: nat, k: nat)
    requires 0 < v
    ensures 0 < v * Pow(2, k) && Bits(v * Pow(2, k)) == Bits(v) + k
  {
    PowPos(2, k);
    MulNonNeg(v, Pow(2, k));
    Distribute(v, 1, Pow(2, k));
    BitsScale(v * Pow(2, k), v, k);
  }

  /** A number whose bits fill all but one place of its top digit is normalised. */
  lemma {:induction false} NormalisedByBits(y: nat, m: nat)
    requires 0 < y && Bits(y) == m * DIGIT_BIT + DIGIT_BIT - 1
    ensures Used(y) == m + 1 && Normalised(y, m)
  {
    RadixFacts();
    BitsBounds(y);
    TopBits(m);
    UsedLe(y, m);
    UsedLe(y, m + 1);
  }

  lemma {:induction false} TopBits(m: nat)
    ensures 0 <= m * DIGIT_BIT + DIGIT_BIT - 2
    ensures BP(m) <= Pow(2, m * DIGIT_BIT + DIGIT_BIT - 2)
    ensures B * BP(m) == 4 * Pow(2, m * DIGIT_BIT + DIGIT_BIT - 2)
    ensures Pow(2, m * DIGIT_BIT + DIGIT_BIT - 1) <= BP(m + 1)
  {
    RadixFacts();
    MulNonNeg(m, DIGIT_BIT);
    BPPow2(m);
    var k := m * DIGIT_BIT;
    assert BP(m) == Pow(2, k);
    PowLe(2, k, k + DIGIT_BIT - 2);
    PowAdd(2, k, DIGIT_BIT);
    PowAdd(2, k + DIGIT_BIT - 2, 2);
    assert Pow(2, 2) == 4;
    BPSucc(m);
    PowLe(2, k + DIGIT_BIT - 1, k + DIGIT_BIT);
  }

  /** The shift that normalises a divisor. */
  method NormalisingShift(b: MpInt) returns (norm: nat)
    requires b.Valid() && b.Value() != 0
    ensures 0 < Abs(b.Value()) * Pow(2, norm)
    ensures 0 < Used(Abs(b.Value()) * Pow(2, norm))
    ensures Normalised(Abs(b.Value()) * Pow(2, norm), Used(Abs(b.Value()) * Pow(2, norm)) - 1)
  {
    RadixFacts();
    var bits := CountBits(b);
    norm := bits % DIGIT_BIT;
    DivMod(bits, DIGIT_BIT);
    if norm < DIGIT_BIT - 1 {
      norm := (DIGIT_BIT - 1) - norm;
    } else {
      norm := 0;
    }
    PowPos(2, norm);
    MulLt(0, Abs(b.Value()), Pow(2, norm));
    BitsShift(Abs(b.Value()), norm);
    DivNonNeg(bits, DIGIT_BIT);
    NormalisedByBits(Abs(b.Value()) * Pow(2, norm), bits / DIGIT_BIT);
  }

  /** The quotient digits and the scaled remainder of magnitudes. */
  method SchoolDigits(a: nat, b: nat, norm: nat) returns (q: seq<int>, x: nat)
    requires 0 < b && 0 < Used(b * Pow(2, norm))
    requires Normalised(b * Pow(2, norm), Used(b * Pow(2, norm)) - 1)
    ensures AreDigits(q) && Val(q) == a / b && x == (a % b) * Pow(2, norm)
  {
    ghost var s := Pow(2, norm);
    PowPos(2, norm);
    MulNonNeg(a, s);
    var y := b * Pow(2, norm);
    x := a * Pow(2, norm);
    var n, t := Used(x) - 1, Used(y) - 1;
    UsedBounds(x);
    UsedBounds(y);
    var digits := new int[Max(Used(x), Used(y)) + 1](_ => 0);
    ValZeros(digits[..]);
    ghost var total := x;
    if t <= n {
      x := LeadingDigit(x, y, n, t, digits);
      x := LowerDigits(x, y, n, t, digits, total);
    } else {
      BPLe(n + 1, t);
      BPLe(0, t);
      MulCancelLe(BP(t), y, 4);
    }
    q := digits[..];
    ValBound(q);
    Unscale(a, b, s, Val(q), x);
  }

  /** Quotient and remainder of scaled magnitudes. */
  lemma {:induction false} Unscale(a: nat, b: nat, s: int, q: int, x: int)
    requires 0 < b && 0 < s && 0 <= x < b * s && q * (b * s) + x == a * s
    ensures q == a / b && x == (a % b) * s
  {
    Assoc(q, b, s);
    Distribute(a, q * b, s);
    var r := a - q * b;
    MulCancelLt(r, b, s);
    if r < 0 {
      MulLe(r, -1, s);
    }
    DivModUnique(a, b, q, r);
  }

  /** The scaled remainder gets the sign of the dividend and is then shifted back. */
  lemma {:induction false} ShiftedBack(u: int, v: int, norm: nat, x: int)
    requires v != 0 && x == (Abs(u) % Abs(v)) * Pow(2, norm)
    ensures 0 < Pow(2, norm) && Truncated(if u < 0 then -x else x, Pow(2, norm)) == Remainder(u, v)
  {
    var r := Abs(u) % Abs(v);
    QuotientPositive(Abs(u), Abs(v));
    PowPos(2, norm);
    MulNonNeg(r, Pow(2, norm));
    DivModUnique(x, Pow(2, norm), r, 0);
  }

  /** The digits of the quotient and the signed remainder of values. */
  method SchoolValues(u: int, v: int, norm: nat) returns (q: seq<int>, r: int)
    requires v != 0 && 0 < Abs(v) * Pow(2, norm) && 0 < Used(Abs(v) * Pow(2, norm))
    requires Normalised(Abs(v) * Pow(2, norm), Used(Abs(v) * Pow(2, norm)) - 1)
    ensures AreDigits(q) && Val(q) == Abs(u) / Abs(v)
    ensures r == Remainder(u, v)
  {
    var x: int;
    q, x := SchoolDigits(Abs(u), Abs(v), norm);
    ShiftedBack(u, v, norm, x);
    r := Truncated(if u < 0 then -x else x, Pow(2, norm));
  }

  /** c = a / b and d = a mod b, signed, digit by digit. */
  method DivSchool(a: MpInt, b: MpInt, c: MpInt, d: MpInt)
    requires a.Valid() && b.Valid() && b.Value() != 0 && c != d
    requires Abs(b.Value()) <= Abs(a.Value()) || (0 <= a.Value() && 0 < b.Value())
    modifies c, d
    ensures c.Valid() && c.Value() == Quotient(old(a.Value()), old(b.Value()))
    ensures d.Valid() && d.Value() == Remainder(old(a.Value()), old(b.Value()))
  {
    var u, v := a.Value(), b.Value();
    DigitsOf(a);
    DigitsOf(b);
    var neg := a.sign != b.sign;
    var norm := NormalisingShift(b);
    var q, r := SchoolValues(u, v, norm);
    c.dp, c.sign := q, Zpos;
    c.Clamp();
    c.sign := if neg then Neg else Zpos;
    SignedQuotientValue(u, v, c);
    d.Set(r);
  }

  lemma {:induction false} QuotientPositive(m: nat, n: nat)
    requires 0 < n
    ensures 0 <= m / n && 0 <= m % n < n && (n <= m ==> 0 < m / n)
  {
    DivMod(m, n);
    DivNonNeg(m, n);
    if n <= m {
      DivGe(m, n, 1);
    }
  }

  lemma {:induction false} SignedQuotientValue(u: int, v: int, c: MpInt)
    requires v != 0 && c.dp == ToDigits(Val(c.dp)) && Val(c.dp) == Abs(u) / Abs(v)
    requires c.sign == if (u < 0) != (v < 0) then Neg else Zpos
    requires Abs(v) <= Abs(u) || (0 <= u && 0 < v)
    ensures c.Valid() && c.Value() == Quotient(u, v)
  {
    QuotientPositive(Abs(u), Abs(v));
    ToDigitsFacts(Abs(u) / Abs(v));
  }

  // ----- recursive division -----

  /** Dividing the high parts: what is left of `a`, which may be negative but is below `b`. */
  lemma {:induction false} HighParts(a: int, top: int, low: int, b: int, b1: int, b0: int, w: int, q: int, r0: int)
    requires 0 < w && b == b1 * w + b0 && 0 <= b0 < w && 0 < b1
    requires a == top * w + low && 0 <= low < w && 0 <= q
    requires top == q * b1 + r0 && 0 <= r0 < b1
    ensures a == q * b + (r0 * w + low - q * b0) && r0 * w + low - q * b0 < b && 0 < b
  {
    Distribute(q * b1, r0, w);
    Distribute(b1 * w, b0, q);
    Assoc(q, b1, w);
    MulLe(r0 + 1, b1, w);
    Distribute(r0, 1, w);
    MulNonNeg(q, b0);
    MulLt(0, b1, w);
  }

  /** Lower the quotient until the remainder is not negative. */
  method CorrectDownwards(q0: int, r0: int, b: int) returns (q: int, r: int)
    requires 0 < b && r0 < b
    ensures q * b + r == q0 * b + r0 && 0 <= r < b
  {
    q, r := q0, r0;
    while r < 0
      invariant q * b + r == q0 * b + r0 && r < b
      decreases -r
    {
      Distribute(q, 1, b);
      q := q - 1;
      r := r + b;
    }
  }

  /** Sizes of the parts of a recursive step. */
  lemma {:induction false} PartSizes(a: nat, b: nat, m: nat, k: nat)
    requires 0 < b && m == Used(a) - Used(b) && m <= Used(b) && 2 <= k == m / 2
    ensures 0 < b / BP(k) && Used(b / BP(k)) == Used(b) - k && 0 <= b % BP(k) < BP(k)
    ensures 0 <= a / BP(2 * k) && Used(a / BP(2 * k)) == Used(a) - 2 * k
  {
    UsedShift(b, k);
    UsedShift(a, 2 * k);
    DivMod(b, BP(k));
  }

  lemma {:induction false} UsedShift(v: nat, k: nat)
    requires k < Used(v)
    ensures 0 < v / BP(k) && Used(v / BP(k)) == Used(v) - k
  {
    UsedBounds(v);
    if v == 0 {
      assert false;
    }
    var n := Used(v);
    BPAdd(n - k, k);
    BPAdd(n - 1 - k, k);
    DivLt(v, BP(k), BP(n - k));
    DivGe(v, BP(k), BP(n - 1 - k));
    UsedLe(v / BP(k), n - k);
    UsedLe(v / BP(k), n - 1 - k);
  }

  /** Quotient and remainder of magnitudes, by two divisions of the high parts. */
  method RecursiveDivRem(a: nat, b: nat) returns (q: int, r: int)
    requires 0 < b && Used(a) <= 2 * Used(b)
    ensures q == a / b && r == a % b
    decreases Max(Used(a) - Used(b), 0)
  {
    var m := Used(a) - Used(b);
    if m < MUL_KARATSUBA_CUTOFF {
      q, r := SchoolTemporaries(a, b);
      return;
    }
    var k := m / 2;
    PartSizes(a, b, m, k);
    BPAdd(k, k);
    var B1, B0 := b / BP(k), b % BP(k);
    var A1, t := a / BP(2 * k), a % BP(2 * k);
    DivMod(b, BP(k));
    DivMod(a, BP(2 * k));
    var Q1, R1 := RecursiveDivRem(A1, B1);
    QuotientPositive(A1, B1);
    DivMod(A1, B1);
    FirstHalf(a, b, k, Q1, R1);
    R1 := R1 * BP(2 * k);
    A1 := R1 + t;
    t := Product(Q1, B0);
    t := t * BP(k);
    A1 := A1 - t;
    Q1, A1 := CorrectDownwards(Q1, A1, b * BP(k));
    // what is left is below b * BP(k): the same again, k digits lower
    ghost var rest := A1;
    DivMod(A1, BP(k));
    t := A1 % BP(k);
    DivLt(A1, BP(k), b);
    DivNonNeg(A1, BP(k));
    A1 := A1 / BP(k);
    UsedLess(A1, b);
    var Q0, R0 := RecursiveDivRem(A1, B1);
    QuotientPositive(A1, B1);
    DivMod(A1, B1);
    HighParts(rest, A1, t, b, B1, B0, BP(k), Q0, R0);
    R0 := R0 * BP(k);
    var A2 := R0 + t;
    t := Product(Q0, B0);
    A2 := A2 - t;
    Q0, A2 := CorrectDownwards(Q0, A2, b);
    q := Q1 * BP(k) + Q0;
    r := A2;
    JoinHalves(a, b, BP(k), Q1, Q0, rest, r);
  }

  lemma {:induction false} FirstHalf(a: nat, b: nat, k: nat, q: int, r: int)
    requires 0 < b / BP(k) && 0 <= q
    requires a / BP(2 * k) == q * (b / BP(k)) + r && 0 <= r < b / BP(k)
    ensures var a1 := r * BP(2 * k) + a % BP(2 * k) - (q * (b % BP(k))) * BP(k);
      a == q * (b * BP(k)) + a1 && a1 < b * BP(k) && 0 < b * BP(k)
  {
    var w, b1, b0 := BP(k), b / BP(k), b % BP(k);
    BPAdd(k, k);
    DivMod(a, BP(2 * k));
    DivMod(b, w);
    Distribute(b1 * w, b0, w);
    Assoc(b1, w, w);
    Assoc(q, b0, w);
    MulNonNeg(b0, w);
    MulLt(b0, w, w);
    HighParts(a, a / BP(2 * k), a % BP(2 * k), b * w, b1, b0 * w, w * w, q, r);
  }

  lemma {:induction false} UsedLess(v: nat, b: nat)
    requires v < b
    ensures Used(v) <= Used(b)
  {
    UsedBounds(b);
    UsedLe(v, Used(b));
  }

  lemma {:induction false} JoinHalves(a: int, b: int, w: int, q1: int, q0: int, rest: int, r: int)
    requires 0 < b && a == q1 * (b * w) + rest && rest == q0 * b + r && 0 <= r < b
    ensures q1 * w + q0 == a / b && r == a % b
  {
    Distribute(q1 * w, q0, b);
    Assoc(q1, w, b);
    DivModUnique(a, b, q1 * w + q0, r);
  }

  /** Schoolbook division of temporaries. */
  method SchoolTemporaries(a: nat, b: nat) returns (q: int, r: int)
    requires 0 < b
    ensures q == a / b && r == a % b
  {
    var x := new MpInt.Of(a);
    var y := new MpInt.Of(b);
    var c := new MpInt();
    var d := new MpInt();
    DivSchool(x, y, c, d);
    q, r := c.Value(), d.Value();
  }

  /** How far to shift so that the top digit has its highest bit set. */
  method TopBitShift(top: int) returns (sigma: nat)
    requires 0 < top < B
    ensures B / 2 <= top * Pow(2, sigma) < B
  {
    var msb := B / 2;
    var msbB := top;
    sigma := 0;
    while msbB < msb
      invariant 0 < msbB < B && msbB == top * Pow(2, sigma)
      decreases B - msbB
    {
      Assoc(top, 2, Pow(2, sigma));
      sigma := sigma + 1;
      msbB := msbB * 2;
    }
  }

  /** The dividend cut into blocks as long as the divisor, from the top. */
  method BlockDivRem(a: nat, b: nat) returns (q: int, r: int)
    requires 0 < b && Used(b) <= Used(a)
    ensures q == a / b && r == a % b
  {
    hide BP, Used;
    var n := Used(b);
    var m := Used(a) - n;
    var A: nat := a;
    q := 0;
    UsedBounds(b);
    while m > n
      invariant 0 <= m && Used(A) <= n + m
      invariant a == q * (b * BP(m)) + A
      decreases m
    {
      var j := m - n;
      DivMod(A, BP(j));
      UsedBounds(A);
      BPLe(Used(A), n + m);
      BPAdd(2 * n, j);
      DivLt(A, BP(j), BP(2 * n));
      DivNonNeg(A, BP(j));
      UsedLe(A / BP(j), 2 * n);
      var Q1, R := RecursiveDivRem(A / BP(j), b);
      DivMod(A / BP(j), b);
      ghost var q0 := q;
      q := q * BP(n);
      q := q + Q1;
      BlockStep(a, b, q0, A, Q1, R, m, n);
      A := R * BP(j) + A % BP(j);
      BlockSize(A, b, R, j);
      m := m - n;
    }
    var Q1, R := RecursiveDivRem(A, b);
    DivMod(A, b);
    q := q * BP(m);
    q := q + Q1;
    r := R;
    assert a == q * b + r by {
      Distribute(q - Q1, Q1, b);
      assert (q - Q1) * b == ((q - Q1) * b);
    }
    DivModUnique(a, b, q, r);
  }

  lemma {:induction false} BlockStep(a: int, b: int, q: int, rest: int, q1: int, r: int, m: nat, n: nat)
    requires n <= m && a == q * (b * BP(m)) + rest
    requires rest == (q1 * b + r) * BP(m - n) + rest % BP(m - n)
    ensures a == (q * BP(n) + q1) * (b * BP(m - n)) + (r * BP(m - n) + rest % BP(m - n))
  {
    var w := BP(m - n);
    BPAdd(n, m - n);
    Distribute(q * BP(n), q1, b * w);
    assert (q * BP(n)) * (b * w) == q * (b * BP(m)) by {
      Assoc(q, BP(n), b * w);
      Assoc(BP(n), b, w);
      Assoc(b, BP(n), w);
    }
    Distribute(q1 * b, r, w);
    Assoc(q1, b, w);
  }

  lemma {:induction false} BlockSize(v: int, b: nat, r: int, j: nat)
    requires 0 <= r < b && r * BP(j) <= v < r * BP(j) + BP(j)
    ensures 0 <= v && Used(v) <= Used(b) + j
  {
    MulNonNeg(r, BP(j));
    MulLe(r + 1, b, BP(j));
    Distribute(r, 1, BP(j));
    UsedBounds(b);
    MulLe(b, BP(Used(b)), BP(j));
    BPAdd(Used(b), j);
    UsedLe(v, Used(b) + j);
  }

  /** Scaling dividend and divisor alike scales the remainder only. */
  lemma {:induction false} ScaledDivision(a: nat, b: nat, s: int)
    requires 0 < b && 0 < s
    ensures 0 <= a * s && 0 < b * s
    ensures (a * s) / (b * s) == a / b && (a * s) % (b * s) == (a % b) * s
  {
    DivMod(a, b);
    MulNonNeg(a, s);
    MulLt(0, b, s);
    MulNonNeg(a % b, s);
    MulLt(a % b, b, s);
    Distribute((a / b) * b, a % b, s);
    Assoc(a / b, b, s);
    DivModUnique(a * s, b * s, a / b, (a % b) * s);
  }

  /** c = a / b and d = a mod b, signed, recursively. */
  method DivRecursive(a: MpInt, b: MpInt, c: MpInt, d: MpInt)
    requires a.Valid() && b.Valid() && b.Value() != 0 && c != d
    requires Abs(b.Value()) <= Abs(a.Value())
    modifies c, d
    ensures c.Valid() && c.Value() == Quotient(old(a.Value()), old(b.Value()))
    ensures d.Valid() && d.Value() == Remainder(old(a.Value()), old(b.Value()))
  {
    var u, v := a.Value(), b.Value();
    DigitsOf(b);
    var sigma := TopBitShift(b.dp[|b.dp| - 1]);
    PowPos(2, sigma);
    ScaledDivision(Abs(u), Abs(v), Pow(2, sigma));
    MulLe(Abs(v), Abs(u), Pow(2, sigma));
    var A, D := Abs(u) * Pow(2, sigma), Abs(v) * Pow(2, sigma);
    UsedMonotone(D, A);
    var neg := (u < 0) != (v < 0);
    var Q, R := BlockDivRem(A, D);
    QuotientPositive(Abs(u), Abs(v));
    // the remainder takes the sign of the dividend, then it is shifted back
    R := if Q == 0 then R else if u < 0 then -R else R;
    ShiftedBack(u, v, sigma, Abs(R));
    c.Set(if neg then -Q else Q);
    d.Set(Truncated(R, Pow(2, sigma)));
  }

  lemma {:induction false} UsedMonotone(x: nat, y: nat)
    requires x <= y
    ensures Used(x) <= Used(y)
  {
    UsedBounds(y);
    UsedLe(x, Used(y));
  }

  // ----- the dispatcher -----

  /** c = a / b and d = a mod b, for every size and sign; dividing by zero is an error. */
  method Div(a: MpInt, b: MpInt, c: MpInt, d: MpInt) returns (err: Outcome)
    requires a.Valid() && b.Valid() && c.Valid() && d.Valid() && c != d
    modifies c, d
    ensures err == if old(b.Value()) == 0 then BadValue else Okay
    ensures c.Valid() && d.Valid()
    ensures err == Okay ==> c.Value() == Quotient(old(a.Value()), old(b.Value()))
    ensures err == Okay ==> d.Value() == Remainder(old(a.Value()), old(b.Value()))
    ensures err != Okay ==> c.Value() == old(c.Value()) && d.Value() == old(d.Value())
  {
    if b.Value() == 0 {
      return BadValue;
    }
    DigitsOf(b);
    var cmp := CmpMag(a, b);
    if cmp == Lt {
      ModSmall(Abs(a.Value()), Abs(b.Value()));
      d.Set(a.Value());
      c.Set(0);
    } else if |b.dp| > 2 * MUL_KARATSUBA_CUTOFF && |b.dp| <= (|a.dp| / 3) * 2 {
      DivRecursive(a, b, c, d);
    } else {
      DivSchool(a, b, c, d);
    }
    return Okay;
  }

  /** c = a mod b, of the sign of `b`; if `c` is the divisor itself, its sign is
      compared with itself, and the remainder keeps the sign of the dividend. */
  method Mod(a: MpInt, b: MpInt, c: MpInt) returns (err: Outcome)
    requires a.Valid() && b.Valid() && c.Valid()
    modifies c
    ensures err == if old(b.Value()) == 0 then BadValue else Okay
    ensures c.Valid()
    ensures err == Okay && c != b && 0 < b.Value() ==> c.Value() == old(a.Value()) % b.Value()
    ensures err == Okay && c != b && b.Value() < 0 ==>
      b.Value() < c.Value() <= 0 && Cong(c.Value(), old(a.Value()), -b.Value())
    ensures err == Okay && c == b ==> c.Value() == Remainder(old(a.Value()), old(b.Value()))
    ensures err != Okay ==> c.Value() == old(c.Value())
  {
    ghost var u, n := a.Value(), b.Value();
    var q := new MpInt();
    err := Div(a, b, q, c);
    if err != Okay {
      return;
    }
    RemainderIsMod(u, n);
    if c.Value() != 0 && (c.Value() < 0) != (b.Value() < 0) {
      Add(b, c, c);
    }
  }

  /** The signed remainder, moved by the modulus when it has the other sign. */
  function Moved(a: int, n: int): int
    requires n != 0
  {
    var r := Remainder(a, n);
    if r != 0 && (r < 0) != (n < 0) then r + n else r
  }

  /** For a positive modulus this is the residue, for a negative one it is
      congruent and has the sign of the modulus. */
  lemma {:induction false} RemainderIsMod(a: int, n: int)
    requires n != 0
    ensures 0 < n ==> Moved(a, n) == a % n
    ensures n < 0 ==> n < Moved(a, n) <= 0 && Cong(Moved(a, n), a, -n)
  {
    hide Moved;
    if 0 < n {
      ResidueIsMoved(a, n);
    } else {
      ResidueIsMoved(-a, -n);
      MovedOpposite(a, n);
      DivMod(-a, -n);
      CongIntro(Moved(a, n), a, (-a) / (-n), -n);
    }
  }

  lemma {:induction false} MovedOpposite(a: int, n: int)
    requires n < 0
    ensures Moved(a, n) == -Moved(-a, -n)
  {
    hide Remainder;
    OppositeRemainder(a, n);
  }

  lemma {:induction false} OppositeRemainder(a: int, n: int)
    requires n != 0
    ensures Remainder(-a, -n) == -Remainder(a, n)
  {
    assert Abs(-a) == Abs(a) && Abs(-n) == Abs(n);
    ModSmall(0, Abs(n));
  }

  lemma {:induction false} ResidueIsMoved(a: int, n: int)
    requires 0 < n
    ensures Moved(a, n) == a % n
  {
    var m := Abs(a);
    DivMod(m, n);
    if a < 0 {
      if m % n == 0 {
        DivModUnique(a, n, -(m / n), 0);
      } else {
        Distribute(-(m / n), -1, n);
        DivModUnique(a, n, -(m / n) - 1, n - m % n);
      }
    } else {
      DivModUnique(a, n, m / n, m % n);
    }
  }
}
