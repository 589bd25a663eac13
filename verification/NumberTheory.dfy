/** Divisors, greatest common divisors, primes. */
module NumberTheory {
  import opened Arith

  predicate Divides(d: int, n: int)
    requires 0 < d
  {
    n % d == 0
  }

  lemma {:induction false} DividesIntro(d: int, n: int, k: int)
    requires 0 < d && n == k * d
    ensures Divides(d, n)
  {
    DivModUnique(n, d, k, 0);
  }

  lemma {:induction false} DividesCombination(d: int, a: int, b: int, s: int, t: int)
    requires 0 < d && Divides(d, a) && Divides(d, b)
    ensures Divides(d, s * a + t * b)
  {
    DivMod(a, d);
    DivMod(b, d);
    Assoc(s, a / d, d);
    Assoc(t, b / d, d);
    Distribute(s * (a / d), t * (b / d), d);
    DividesIntro(d, s * a + t * b, s * (a / d) + t * (b / d));
  }

  lemma {:induction false} DividesLe(d: int, n: int)
    requires 0 < d && 0 < n && Divides(d, n)
    ensures d <= n
  {
    DivMod(n, d);
    if n / d <= 0 {
      MulLe(n / d, 0, d);
    } else {
      MulLe(1, n / d, d);
    }
  }

  /** Congruent numbers have the same divisors among those of the modulus. */
  lemma {:induction false} DividesCong(d: int, a: int, b: int, n: int)
    requires 0 < d && 0 < n && Divides(d, n) && Cong(a, b, n) && Divides(d, b)
    ensures Divides(d, a)
  {
    var k := CongQuotient(a, b, n);
    DividesCombination(d, b, n, 1, k);
  }

  // ----- the greatest common divisor -----

  function Gcd(a: nat, b: nat): nat
    decreases b
  {
    if b == 0 then a else Gcd(b, a % b)
  }

  lemma {:induction false} Bezout(a: nat, b: nat) returns (s: int, t: int)
    ensures s * a + t * b == Gcd(a, b)
    decreases b
  {
    if b == 0 {
      s, t := 1, 0;
    } else {
      var s', t' := Bezout(b, a % b);
      s, t := t', s' - t' * (a / b);
      DivMod(a, b);
      Distribute(a, (a / b) * b, t');
      Distribute(s', t' * (a / b), b);
      Assoc(t', a / b, b);
    }
  }

  lemma {:induction false} GcdDivides(a: nat, b: nat)
    requires 0 < a || 0 < b
    ensures 0 < Gcd(a, b) && Divides(Gcd(a, b), a) && Divides(Gcd(a, b), b)
    decreases b
  {
    if b == 0 {
      DivModUnique(a, a, 1, 0);
      ModSmall(0, a);
    } else {
      GcdDivides(b, a % b);
      var g := Gcd(b, a % b);
      DivMod(a, b);
      DividesCombination(g, b, a % b, a / b, 1);
    }
  }

  lemma {:induction false} CommonDivisor(d: int, a: nat, b: nat)
    requires 0 < d && Divides(d, a) && Divides(d, b)
    ensures Divides(d, Gcd(a, b))
  {
    var s, t := Bezout(a, b);
    DividesCombination(d, a, b, s, t);
  }

  /** Pairs with the same common divisors have the same greatest one. */
  lemma {:induction false} SameGcd(a: nat, b: nat, c: nat, d: nat)
    requires (0 < a || 0 < b) && (0 < c || 0 < d)
    requires 0 < Gcd(a, b) ==> Divides(Gcd(a, b), c) && Divides(Gcd(a, b), d)
    requires 0 < Gcd(c, d) ==> Divides(Gcd(c, d), a) && Divides(Gcd(c, d), b)
    ensures Gcd(a, b) == Gcd(c, d)
  {
    GcdDivides(a, b);
    GcdDivides(c, d);
    CommonDivisor(Gcd(a, b), c, d);
    CommonDivisor(Gcd(c, d), a, b);
    DividesLe(Gcd(a, b), Gcd(c, d));
    DividesLe(Gcd(c, d), Gcd(a, b));
  }

  lemma {:induction false} GcdSymmetric(a: nat, b: nat)
    ensures Gcd(a, b) == Gcd(b, a)
  {
    if 0 < a || 0 < b {
      GcdDivides(a, b);
      GcdDivides(b, a);
      SameGcd(a, b, b, a);
    }
  }

  lemma {:induction false} GcdSubtract(a: nat, b: nat)
    requires b <= a
    ensures Gcd(a - b, b) == Gcd(a, b)
  {
    if 0 < a {
      GcdDivides(a, b);
      GcdDivides(a - b, b);
      DividesCombination(Gcd(a, b), a, b, 1, -1);
      DividesCombination(Gcd(a - b, b), a - b, b, 1, 1);
      SameGcd(a - b, b, a, b);
    }
  }

  /** A factor two that only one of the numbers has does not count. */
  lemma {:induction false} GcdHalf(a: nat, b: nat)
    requires a % 2 == 0 && b % 2 == 1
    ensures Gcd(a / 2, b) == Gcd(a, b)
  {
    GcdDivides(a, b);
    GcdDivides(a / 2, b);
    var g := Gcd(a, b);
    OddDivisor(g, a / 2, b);
    DividesCombination(Gcd(a / 2, b), a / 2, b, 2, 0);
    SameGcd(a / 2, b, a, b);
  }

  lemma {:induction false} OddDivisor(d: int, h: int, b: int)
    requires 0 < d && Divides(d, b) && b % 2 == 1 && Divides(d, 2 * h)
    ensures Divides(d, h)
  {
    var k := (b - 1) / 2;
    Assoc(h, 2, k);
    Distribute(2 * k, 1, h);
    DividesCombination(d, 2 * h, b, -k, h);
    assert (-k) * (2 * h) + h * b == h by {
      assert b == 2 * k + 1;
      Assoc(k, 2, h);
      Assoc(2, k, h);
    }
  }

  lemma {:induction false} GcdScale(a: nat, b: nat, k: nat)
    requires 0 < k
    ensures 0 <= a * k && 0 <= b * k && Gcd(a * k, b * k) == Gcd(a, b) * k
    decreases b
  {
    MulNonNeg(a, k);
    MulNonNeg(b, k);
    if b != 0 {
      GcdScale(b, a % b, k);
      MulLt(0, b, k);
      DivMod(a, b);
      Distribute((a / b) * b, a % b, k);
      Assoc(a / b, b, k);
      MulLt(a % b, b, k);
      MulNonNeg(a % b, k);
      DivModUnique(a * k, b * k, a / b, (a % b) * k);
    }
  }

  /** Numbers have an inverse exactly when they have no common divisor with the modulus. */
  lemma {:induction false} InvertibleIff(a: int, n: int)
    requires 0 < n
    ensures (exists c :: Cong(a * c, 1, n)) <==> Gcd((DivMod(a, n); a % n), n) == 1
  {
    DivMod(a, n);
    var r: nat := a % n;
    GcdDivides(r, n);
    ModIdem(a, n);
    if Gcd(r, n) == 1 {
      var s, t := Bezout(r, n);
      CongIntro(s * r, 1, -t, n);
      CongMul(a, r, s, s, n);
      assert Cong(a * s, 1, n);
    }
    if c :| Cong(a * c, 1, n) {
      InverseMeansCoprime(a, c, r, n);
    }
  }

  lemma {:induction false} InverseMeansCoprime(a: int, c: int, r: nat, n: int)
    requires 0 < n && Cong(a * c, 1, n) && Cong(r, a, n)
    ensures Gcd(r, n) == 1
  {
    GcdDivides(r, n);
    var g := Gcd(r, n);
    CongMul(r, a, c, c, n);
    DividesCombination(g, r, n, c, 0);
    DividesCong(g, 1, r * c, n);
    DividesLe(g, 1);
  }

  // ----- low zero bits -----

  /** How many zero bits `n` ends with; none for zero. */
  function LowZeros(n: nat): nat {
    if n == 0 || n % 2 == 1 then 0 else LowZeros(n / 2) + 1
  }

  /** The odd part of a number. */
  lemma {:induction false} OddPart(n: nat)
    requires 0 < n
    ensures 0 < Pow(2, LowZeros(n)) && n == (n / Pow(2, LowZeros(n))) * Pow(2, LowZeros(n))
    ensures 0 < n / Pow(2, LowZeros(n)) && (n / Pow(2, LowZeros(n))) % 2 == 1
    decreases n
  {
    if n % 2 == 0 {
      OddPart(n / 2);
      var w := Pow(2, LowZeros(n / 2));
      var h := (n / 2) / w;
      Assoc(h, 2, w);
      Assoc(2, h, w);
      DivModUnique(n, 2 * w, h, 0);
    } else {
      assert Pow(2, 0) == 1;
    }
  }
}
