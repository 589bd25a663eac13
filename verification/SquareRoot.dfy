/** Integer square root by Newton's iteration, and the test for squares. */
module SquareRoot {
  import opened Arith
  import opened Digits
  import opened MpInts
  import Divide
  import Multiply
  import opened Montgomery

  /** `s` is the square root of `n`, rounded down. */
  predicate IsSqrt(s: int, n: int) {
    0 <= s && s * s <= n < (s + 1) * (s + 1)
  }

  /** Every number has one ... */
  lemma {:induction false} SqrtExists(n: nat) returns (s: nat)
    ensures IsSqrt(s, n)
  {
    if n == 0 {
      s := 0;
    } else {
      s := SqrtExists(n - 1);
      if (s + 1) * (s + 1) <= n {
        s := s + 1;
        NextSquare(s);
      }
    }
  }

  lemma {:induction false} NextSquare(s: nat)
    ensures (s + 1) * (s + 1) == s * s + 2 * s + 1
  {
    Distribute(s, 1, s + 1);
    Distribute(s, 1, s);
  }

  /** ... and only one. */
  lemma {:induction false} SqrtUnique(s: int, t: int, n: int)
    requires IsSqrt(s, n) && IsSqrt(t, n)
    ensures s == t
  {
    if s < t {
      MulBothLe(s + 1, t, s + 1, t);
    } else if t < s {
      MulBothLe(t + 1, s, t + 1, s);
    }
  }

  // ----- Newton's iteration -----

  function Newton(t: int, n: int): int
    requires t != 0
  {
    (t + n / t) / 2
  }

  /** The iteration stays at or above `m` if m is at most the mean of t and n / t. */
  lemma {:induction false} NewtonAtLeast(t: int, n: nat, m: nat)
    requires 0 < t && 2 * (t * m) <= t * t + n
    ensures m <= Newton(t, n)
  {
    var q := n / t;
    DivMod(n, t);
    Distribute(q, 1, t);
    Distribute(t, q + 1, t);
    Assoc(2, m, t);
    MulCancelLt(2 * m, t + q + 1, t);
  }

  /** It never goes below the root, and just below a square only s + 1 leads to the root. */
  lemma {:induction false} NewtonAbove(t: int, n: nat, s: nat)
    requires 0 < t && IsSqrt(s, n)
    ensures s <= Newton(t, n)
    ensures n == s * s + 2 * s && t != s + 1 ==> s + 1 <= Newton(t, n)
  {
    SquareBelow(t, s);
    SquareNonNeg(t - s);
    Assoc(2, s, t);
    NewtonAtLeast(t, n, s);
    if n == s * s + 2 * s && t != s + 1 {
      SquareBelow(t, s + 1);
      NextSquare(s);
      SquarePositive(t - (s + 1));
      Assoc(2, s + 1, t);
      NewtonAtLeast(t, n, s + 1);
    }
  }

  lemma {:induction false} SquareNonNeg(d: int)
    ensures 0 <= d * d
  {
    if d < 0 {
      MulNonNeg(-d, -d);
    }
  }

  lemma {:induction false} SquarePositive(d: int)
    requires d != 0
    ensures 1 <= d * d
  {
    if d < 0 {
      MulBothLe(1, -d, 1, -d);
    } else {
      MulBothLe(1, d, 1, d);
    }
  }

  /** Above the root the quotient is at most the root. */
  lemma {:induction false} QuotientAbove(t: int, n: nat, s: nat)
    requires s + 1 <= t && IsSqrt(s, n)
    ensures n / t <= s
  {
    MulLe(s + 1, t, s + 1);
    DivLt(n, t, s + 1);
  }

  /** At the root the quotient is at most two more, and that only below the next square. */
  lemma {:induction false} QuotientAt(n: nat, s: nat)
    requires 0 < s && IsSqrt(s, n)
    ensures s <= n / s <= s + 2 && (n / s == s + 2 ==> n == s * s + 2 * s)
  {
    NextSquare(s);
    DivGe(n, s, s);
    Distribute(s, 3, s);
    DivLt(n, s, s + 3);
    if n / s == s + 2 {
      DivMod(n, s);
      Distribute(s, 2, s);
    }
  }

  /** A value that is not at the root of a number just below a square. */
  ghost predicate Safe(t: int, n: nat, s: nat) {
    s <= t && (n == s * s + 2 * s ==> t != s)
  }

  /** One pass of the loop: done with the root, or lower and still safe. */
  lemma {:induction false} NewtonStep(t: int, n: nat, s: nat)
    requires 0 < t && 0 < s && IsSqrt(s, n) && Safe(t, n, s)
    ensures var next := Newton(t, n);
      if next > n / t then next < t && Safe(next, n, s) else next == s
  {
    NewtonAbove(t, n, s);
    if t == s {
      QuotientAt(n, s);
    } else {
      QuotientAbove(t, n, s);
      if t == s + 1 && n == s * s + 2 * s {
        NextSquare(s);
        Distribute(s, 1, s);
        DivModUnique(n, s + 1, s, s);
      }
    }
  }

  /** The seed is not the one value from which the root would be overrun. */
  lemma {:induction false} SeedSafe(n: nat, w: int, s: nat)
    requires 0 < w && 0 < n / w && IsSqrt(s, n)
    ensures Safe(Newton(n / w, n), n, s)
  {
    var t := n / w;
    NewtonAbove(t, n, s);
    if n == s * s + 2 * s && t == s + 1 {
      DivMod(n, w);
      NextSquare(s);
      Distribute(t, 1, w);
      assert n == s * (s + 2) by { Distribute(s, 2, s); }
      assert n < (s + 2) * w;
      MulCancelLt(s, w, s + 2);
      MulLe(s + 1, w, t);
      assert false;
    }
  }

  /** The number shifted down by half of its digits is positive. */
  lemma {:induction false} SeedPositive(n: nat, k: nat)
    requires 0 < n && k == Used(n)
    ensures 0 < n / BP(k / 2)
  {
    UsedBounds(n);
    BPLe(k / 2, k - 1);
    DivGe(n, BP(k / 2), 1);
  }

  /** t2 = n / t1, then t1 = (t1 + t2) / 2. */
  method Iterate(arg: MpInt, t1: MpInt, t2: MpInt)
    requires arg.Valid() && t1.Valid() && t2.Valid() && arg != t1 && arg != t2 && t1 != t2
    requires 0 <= arg.Value() && 0 < t1.Value()
    modifies t1, t2
    ensures t1.Valid() && t2.Valid()
    ensures t2.Value() == arg.Value() / old(t1.Value()) && t1.Value() == Newton(old(t1.Value()), arg.Value())
  {
    var rest := new MpInt();
    var err := Divide.Div(arg, t1, t2, rest);
    DivNonNeg(arg.Value(), t1.Value());
    Add(t1, t2, t1);
    Half(t1, t1);
  }

  /** ret = the square root of `arg`, rounded down. */
  method Sqrt(arg: MpInt, ret: MpInt) returns (err: Outcome)
    requires arg.Valid() && ret.Valid()
    modifies ret
    ensures ret.Valid() && err == if old(arg.Value()) < 0 then BadValue else Okay
    ensures err == Okay ==> IsSqrt(ret.Value(), old(arg.Value()))
    ensures err != Okay ==> ret.Value() == old(ret.Value())
  {
    DigitsOf(arg);
    if arg.sign == Neg {
      return BadValue;
    }
    if arg.dp == [] {
      ret.Set(0);
      return Okay;
    }
    var t1 := Seed(arg);
    var t2 := new MpInt();
    NewtonLoop(arg, t1, t2);
    Exchange(t1, ret);
    return Okay;
  }

  /** The first value: the number shifted down by half of its digits, and one iteration. */
  method Seed(arg: MpInt) returns (t1: MpInt)
    requires arg.Valid() && 0 < arg.Value()
    ensures fresh(t1) && t1.Valid()
    ensures forall s: nat :: IsSqrt(s, arg.Value()) ==> Safe(t1.Value(), arg.Value(), s)
  {
    DigitsOf(arg);
    ghost var n: nat, w := arg.Value(), BP(|arg.dp| / 2);
    SeedPositive(n, |arg.dp|);
    t1 := new MpInt.Copy(arg);
    var t2 := new MpInt();
    ShiftDigitsDown(t1, |t1.dp| / 2);
    Iterate(arg, t1, t2);
    forall s: nat | IsSqrt(s, n)
      ensures Safe(t1.Value(), n, s)
    {
      SeedSafe(n, w, s);
    }
  }

  /** Iterate as long as the value falls. */
  method NewtonLoop(arg: MpInt, t1: MpInt, t2: MpInt)
    requires arg.Valid() && t1.Valid() && t2.Valid() && arg != t1 && arg != t2 && t1 != t2 && 0 < arg.Value()
    requires forall s: nat :: IsSqrt(s, arg.Value()) ==> Safe(t1.Value(), arg.Value(), s)
    modifies t1, t2
    ensures t1.Valid() && IsSqrt(t1.Value(), old(arg.Value()))
  {
    ghost var n: nat := arg.Value();
    ghost var s := SqrtExists(n);
    RootPositive(s, n);
    var done := false;
    while !done
      invariant arg.Valid() && arg.Value() == n && t1.Valid() && t2.Valid()
      invariant if done then t1.Value() == s else Safe(t1.Value(), n, s)
      decreases !done, t1.Value()
    {
      NewtonStep(t1.Value(), n, s);
      DivNonNeg(n, t1.Value());
      Iterate(arg, t1, t2);
      var cmp := CmpMag(t1, t2);
      done := cmp != Gt;
    }
  }

  lemma {:induction false} RootPositive(s: nat, n: nat)
    requires IsSqrt(s, n) && 0 < n
    ensures 0 < s
  {
  }

  // ----- the test for squares -----

  /** The residues the tables and masks let through or refuse. */
  const PASS_128: set<int> := {0, 1, 4, 9, 16, 17, 25, 33, 36, 41, 49, 57, 64, 65, 68, 73, 81, 89, 97, 100, 105, 113, 121}
  const PASS_105: set<int> := {0, 1, 4, 9, 15, 16, 21, 25, 30, 36, 39, 46, 49, 51, 60, 64, 70, 79, 81, 84, 85, 91, 99, 100}
  const BLOCKED_11: set<int> := {2, 6, 7, 8, 10} // the bits of 0x5C4
  const BLOCKED_13: set<int> := {2, 5, 6, 7, 8, 11} // the bits of 0x9E4
  const BLOCKED_17: set<int> := {3, 5, 6, 7, 10, 11, 12, 14} // the bits of 0x5CE8
  const BLOCKED_19: set<int> := {2, 3, 8, 10, 12, 13, 14, 15, 18} // the bits of 0x4F50C
  const BLOCKED_23: set<int> := {5, 7, 10, 11, 14, 15, 17, 19, 20, 21, 22} // the bits of 0x7ACCA0
  const BLOCKED_29: set<int> := {2, 3, 8, 10, 11, 12, 14, 15, 17, 18, 19, 21, 26, 27} // the bits of 0xC2EDD0C
  const BLOCKED_31: set<int> := {3, 6, 11, 12, 13, 15, 17, 21, 22, 23, 24, 26, 27, 29, 30} // the bits of 0x6DE2B848

  lemma {:induction false} Squares128(x: int)
    ensures (x * x) % 128 in PASS_128
  {
    if x % 2 == 1 {
      OddSquare(x);
      OneModEight(x * x);
    } else {
      var y := x / 2;
      EvenSquare(x);
      if y % 2 == 1 {
        OddSquare(y);
        FourModThirtyTwo(4 * (y * y));
      } else {
        EvenSquare(y);
        SquareModEight(y / 2);
        TimesSixteen((y / 2) * (y / 2));
      }
    }
  }

  lemma {:induction false} EvenSquare(x: int)
    requires x % 2 == 0
    ensures x * x == 4 * ((x / 2) * (x / 2))
  {
    var y := x / 2;
    Assoc(2, y, x);
    Assoc(y, 2, y);
  }

  /** An odd square is 1 modulo 8. */
  lemma {:induction false} OddSquare(x: int)
    requires x % 2 == 1
    ensures (x * x) % 8 == 1
  {
    var y := x / 2;
    ConsecutiveProduct(y);
    Distribute(2 * y, 1, x);
    Distribute(2 * y, 1, y);
    Assoc(2, y, y);
    Distribute(y, 1, y);
    FourTimesEven(y * (y + 1), x * x);
  }

  lemma {:induction false} FourTimesEven(k: int, n: int)
    requires k % 2 == 0 && n == 4 * k + 1
    ensures n % 8 == 1
  {
  }

  lemma {:induction false} OneModEight(n: int)
    requires n % 8 == 1
    ensures n % 128 in PASS_128
  {
    var q := n / 8;
    var k := q % 16;
    DivModUnique(n, 128, q / 16, 8 * k + 1);
    assert k == 0 || k == 1 || k == 2 || k == 3 || k == 4 || k == 5 || k == 6 || k == 7 ||
      k == 8 || k == 9 || k == 10 || k == 11 || k == 12 || k == 13 || k == 14 || k == 15;
  }

  lemma {:induction false} FourModThirtyTwo(n: int)
    requires n % 32 == 4
    ensures n % 128 in PASS_128
  {
    var q := n / 32;
    var k := q % 4;
    DivModUnique(n, 128, q / 4, 32 * k + 4);
    assert k == 0 || k == 1 || k == 2 || k == 3;
  }

  lemma {:induction false} TimesSixteen(m: int)
    requires m % 8 == 0 || m % 8 == 1 || m % 8 == 4
    ensures (4 * (4 * m)) % 128 in PASS_128
  {
    DivModUnique(4 * (4 * m), 128, m / 8, 16 * (m % 8));
  }

  lemma {:induction false} ConsecutiveProduct(y: int)
    ensures (y * (y + 1)) % 2 == 0
  {
    ParityOfProduct(y, y + 1);
  }

  lemma {:induction false} SquareModEight(z: int)
    ensures (z * z) % 8 == 0 || (z * z) % 8 == 1 || (z * z) % 8 == 4
  {
    SquareResidue(z, 8);
    var i := z % 8;
    assert i == 0 || i == 1 || i == 2 || i == 3 || i == 4 || i == 5 || i == 6 || i == 7;
  }

  /** The residue of a square is that of the square of the residue. */
  lemma {:induction false} SquareResidue(x: int, m: int)
    requires 0 < m
    ensures 0 <= x % m < m && (x * x) % m == ((x % m) * (x % m)) % m
  {
    ModIdem(x, m);
    CongMul(x % m, x, x % m, x, m);
  }

  lemma {:induction false} SquaresModThree(x: int)
    ensures (x * x) % 3 != 2
  {
    SquareResidue(x, 3);
    var i := x % 3;
    assert i == 0 || i == 1 || i == 2;
  }

  lemma {:induction false} SquaresModFive(x: int)
    ensures (x * x) % 5 != 2 && (x * x) % 5 != 3
  {
    SquareResidue(x, 5);
    var i := x % 5;
    assert i == 0 || i == 1 || i == 2 || i == 3 || i == 4;
  }

  lemma {:induction false} SquaresModSeven(x: int)
    ensures (x * x) % 7 != 3 && (x * x) % 7 != 5 && (x * x) % 7 != 6
  {
    SquareResidue(x, 7);
    var i := x % 7;
    assert i == 0 || i == 1 || i == 2 || i == 3 || i == 4 || i == 5 || i == 6;
  }

  lemma {:induction false} Squares105(x: int)
    ensures (x * x) % 105 in PASS_105
  {
    SquaresModThree(x);
    SquaresModFive(x);
    SquaresModSeven(x);
    ResidueOfFactor(x * x, 3, 35);
    ResidueOfFactor(x * x, 5, 21);
    ResidueOfFactor(x * x, 7, 15);
    ResiduesOf105((x * x) % 105);
  }

  lemma {:induction false} ResiduesOf105(r: int)
    requires 0 <= r < 105
    requires r % 3 != 2 && r % 5 != 2 && r % 5 != 3 && r % 7 != 3 && r % 7 != 5 && r % 7 != 6
    ensures r in PASS_105
  {
    var k, c := r / 15, r % 15;
    CongIntro(r, c, 5 * k, 3);
    CongIntro(r, c, 3 * k, 5);
    ResiduesOf15(c);
    FromFifteenths(k, c);
  }

  lemma {:induction false} ResiduesOf15(c: int)
    requires 0 <= c < 15 && c % 3 != 2 && c % 5 != 2 && c % 5 != 3
    ensures c == 0 || c == 1 || c == 4 || c == 6 || c == 9 || c == 10
  {
    assert c == 0 || c == 1 || c == 2 || c == 3 || c == 4 || c == 5 || c == 6 || c == 7 ||
      c == 8 || c == 9 || c == 10 || c == 11 || c == 12 || c == 13 || c == 14;
  }

  lemma {:induction false} FromFifteenths(k: int, c: int)
    requires 0 <= k < 7 && (c == 0 || c == 1 || c == 4 || c == 6 || c == 9 || c == 10)
    requires (15 * k + c) % 7 != 3 && (15 * k + c) % 7 != 5 && (15 * k + c) % 7 != 6
    ensures 15 * k + c in PASS_105
  {
    assert k == 0 || k == 1 || k == 2 || k == 3 || k == 4 || k == 5 || k == 6;
  }

  lemma {:induction false} ResidueOfFactor(n: int, p: int, q: int)
    requires 0 < p && 0 < q && 0 < p * q
    ensures (n % (p * q)) % p == n % p
  {
    ModIdem(n, p * q);
    CongFactor(n % (p * q), n, p, q);
  }

  lemma {:induction false} FilterResidue(x: int, p: int, q: int)
    requires 0 < p && 0 < q && p * q == PRIME_PRODUCT
    ensures 0 <= x % p < p && ((x * x) % PRIME_PRODUCT) % p == ((x % p) * (x % p)) % p
  {
    ResidueOfFactor(x * x, p, q);
    SquareResidue(x, p);
  }

  lemma {:induction false} Squares11(x: int)
    ensures ((x * x) % PRIME_PRODUCT) % 11 !in BLOCKED_11
  {
    FilterResidue(x, 11, PRIME_PRODUCT / 11);
    var i := x % 11;
    assert i == 0 || i == 1 || i == 2 || i == 3 || i == 4 || i == 5 || i == 6 || i == 7 || i == 8 ||
      i == 9 || i == 10;
  }

  lemma {:induction false} Squares13(x: int)
    ensures ((x * x) % PRIME_PRODUCT) % 13 !in BLOCKED_13
  {
    FilterResidue(x, 13, PRIME_PRODUCT / 13);
    var i := x % 13;
    assert i == 0 || i == 1 || i == 2 || i == 3 || i == 4 || i == 5 || i == 6 || i == 7 || i == 8 ||
      i == 9 || i == 10 || i == 11 || i == 12;
  }

  lemma {:induction false} Squares17(x: int)
    ensures ((x * x) % PRIME_PRODUCT) % 17 !in BLOCKED_17
  {
    FilterResidue(x, 17, PRIME_PRODUCT / 17);
    var i := x % 17;
    assert i == 0 || i == 1 || i == 2 || i == 3 || i == 4 || i == 5 || i == 6 || i == 7 || i == 8 ||
      i == 9 || i == 10 || i == 11 || i == 12 || i == 13 || i == 14 || i == 15 || i == 16;
  }

  lemma {:induction false} Squares19(x: int)
    ensures ((x * x) % PRIME_PRODUCT) % 19 !in BLOCKED_19
  {
    FilterResidue(x, 19, PRIME_PRODUCT / 19);
    var i := x % 19;
    assert i == 0 || i == 1 || i == 2 || i == 3 || i == 4 || i == 5 || i == 6 || i == 7 || i == 8 ||
      i == 9 || i == 10 || i == 11 || i == 12 || i == 13 || i == 14 || i == 15 || i == 16 || i == 17 ||
      i == 18;
  }

  lemma {:induction false} Squares23(x: int)
    ensures ((x * x) % PRIME_PRODUCT) % 23 !in BLOCKED_23
  {
    FilterResidue(x, 23, PRIME_PRODUCT / 23);
    var i := x % 23;
    assert i == 0 || i == 1 || i == 2 || i == 3 || i == 4 || i == 5 || i == 6 || i == 7 || i == 8 ||
      i == 9 || i == 10 || i == 11 || i == 12 || i == 13 || i == 14 || i == 15 || i == 16 || i == 17 ||
      i == 18 || i == 19 || i == 20 || i == 21 || i == 22;
  }

  lemma {:induction false} Squares29(x: int)
    ensures ((x * x) % PRIME_PRODUCT) % 29 !in BLOCKED_29
  {
    FilterResidue(x, 29, PRIME_PRODUCT / 29);
    var i := x % 29;
    assert i == 0 || i == 1 || i == 2 || i == 3 || i == 4 || i == 5 || i == 6 || i == 7 || i == 8 ||
      i == 9 || i == 10 || i == 11 || i == 12 || i == 13 || i == 14 || i == 15 || i == 16 || i == 17 ||
      i == 18 || i == 19 || i == 20 || i == 21 || i == 22 || i == 23 || i == 24 || i == 25 || i == 26 ||
      i == 27 || i == 28;
  }

  lemma {:induction false} Squares31(x: int)
    ensures ((x * x) % PRIME_PRODUCT) % 31 !in BLOCKED_31
  {
    FilterResidue(x, 31, PRIME_PRODUCT / 31);
    var i := x % 31;
    assert i == 0 || i == 1 || i == 2 || i == 3 || i == 4 || i == 5 || i == 6 || i == 7 || i == 8 ||
      i == 9 || i == 10 || i == 11 || i == 12 || i == 13 || i == 14 || i == 15 || i == 16 || i == 17 ||
      i == 18 || i == 19 || i == 20 || i == 21 || i == 22 || i == 23 || i == 24 || i == 25 || i == 26 ||
      i == 27 || i == 28 || i == 29 || i == 30;
  }

  /** The product of the primes from 11 to 31 without 2. */
  const PRIME_PRODUCT := 11 * 13 * 17 * 19 * 23 * 29 * 31

  /** The mask tests, on the residue modulo the product of the primes. */
  predicate Refused(r: int) {
    || r % 11 in BLOCKED_11 || r % 13 in BLOCKED_13 || r % 17 in BLOCKED_17 || r % 19 in BLOCKED_19
    || r % 23 in BLOCKED_23 || r % 29 in BLOCKED_29 || r % 31 in BLOCKED_31
  }

  /** No filter refuses a square. */
  lemma {:induction false} SquaresNotRefused(x: int)
    ensures !Refused((x * x) % PRIME_PRODUCT)
  {
    Squares11(x);
    Squares13(x);
    Squares17(x);
    Squares19(x);
    Squares23(x);
    Squares29(x);
    Squares31(x);
  }

  ghost predicate IsSquareNumber(n: int) {
    exists x :: x * x == n
  }

  /** Squares pass every filter. */
  lemma {:induction false} SquaresPass(n: int)
    ensures IsSquareNumber(n) ==> n % 128 in PASS_128 && n % 105 in PASS_105 && !Refused(n % PRIME_PRODUCT)
  {
    if x :| x * x == n {
      Squares128(x);
      Squares105(x);
      SquaresNotRefused(x);
    }
  }

  /** The root decides. */
  lemma {:induction false} RootDecides(n: nat, s: nat)
    requires IsSqrt(s, n)
    ensures s * s == n <==> IsSquareNumber(n)
  {
    if x :| x * x == n {
      assert Abs(x) * Abs(x) == n;
      NextSquare(Abs(x));
      SqrtUnique(s, Abs(x), n);
    }
  }

  /** For positive numbers: whether `arg` is a square. */
  method IsSquare(arg: MpInt) returns (err: Outcome, ret: bool)
    requires arg.Valid()
    ensures err == if arg.Value() < 0 then BadValue else Okay
    ensures ret <==> 0 < arg.Value() && IsSquareNumber(arg.Value())
  {
    ret := false;
    DigitsOf(arg);
    if arg.sign == Neg {
      return BadValue, ret;
    }
    if arg.dp == [] {
      return Okay, ret;
    }
    SquaresPass(arg.Value());
    assert Pow(2, 7) == 128;
    LowBits(arg.dp, 7);
    if arg.dp[0] % 128 !in PASS_128 {
      return Okay, ret;
    }
    if arg.Value() % 105 !in PASS_105 {
      return Okay, ret;
    }
    if Refused(arg.Value() % PRIME_PRODUCT) {
      return Okay, ret;
    }
    var t := new MpInt();
    err := Sqrt(arg, t);
    RootDecides(arg.Value(), t.Value());
    Multiply.Mul(t, t, t);
    MulNonNeg(t.Value(), 1);
    var cmp := CmpMag(t, arg);
    return Okay, cmp == Eq;
  }
}
