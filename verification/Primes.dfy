/** Prime numbers: Euclid's lemma, Fermat's little theorem, the roots of one. */
module Primes {
  import opened Arith
  import opened NumberTheory

  ghost predicate IsPrime(p: int) {
    1 < p && forall d :: 1 < d < p ==> !Divides(d, p)
  }

  ghost function PrimesBelow(n: nat): nat {
    if n == 0 then 0 else PrimesBelow(n - 1) + if IsPrime(n - 1) then 1 else 0
  }

  /** A prime that divides a product divides a factor. */
  lemma {:induction false} EuclidsLemma(p: int, x: int, y: int)
    requires IsPrime(p) && Divides(p, x * y)
    ensures Divides(p, x) || Divides(p, y)
  {
    DivMod(x, p);
    var r: nat := x % p;
    GcdDivides(r, p);
    var g := Gcd(r, p);
    DividesLe(g, p);
    if g == 1 {
      InvertibleIff(x, p);
      var c :| Cong(x * c, 1, p);
      CongMul(x * c, 1, y, y, p);
      Assoc(x, c, y);
      Assoc(x, y, c);
      DividesCombination(p, x * y, p, c, 0);
      assert (x * c) * y == c * (x * y);
    } else {
      assert g == p;
      if 0 < r {
        DividesLe(p, r);
      }
    }
  }

  // ----- Fermat's little theorem, by the binomial theorem -----

  function Choose(n: nat, k: nat): nat {
    if k == 0 then 1 else if n == 0 then 0 else Choose(n - 1, k - 1) + Choose(n - 1, k)
  }

  lemma {:induction false} ChooseAbove(n: nat, k: nat)
    requires n < k
    ensures Choose(n, k) == 0
  {
    if n != 0 {
      ChooseAbove(n - 1, k - 1);
      ChooseAbove(n - 1, k);
    }
  }

  lemma {:induction false} ChooseAll(n: nat)
    ensures Choose(n, n) == 1
  {
    if n != 0 {
      ChooseAll(n - 1);
      ChooseAbove(n - 1, n);
    }
  }

  lemma {:induction false} Absorption(n: nat, k: nat)
    requires 1 <= n && 1 <= k
    ensures k * Choose(n, k) == n * Choose(n - 1, k - 1)
  {
    if n == 1 {
      if k != 1 {
        ChooseAbove(1, k);
        ChooseAbove(0, k - 1);
      }
    } else {
      Absorption(n - 1, k);
      var x, y := Choose(n - 1, k - 1), Choose(n - 1, k);
      Distribute(x, y, k);
      Distribute(n, 1, x);
      if k != 1 {
        Absorption(n - 1, k - 1);
        Distribute(k, 1, x);
        Distribute(Choose(n - 2, k - 2), Choose(n - 2, k - 1), n - 1);
      }
    }
  }

  /** The first terms of the binomial expansion of (b + 1)^n, up to b^m. */
  function Expansion(b: nat, n: nat, m: nat): int {
    Choose(n, m) * Pow(b, m) + if m == 0 then 0 else Expansion(b, n, m - 1)
  }

  lemma {:induction false} ExpansionStep(b: nat, n: nat, m: nat)
    requires 1 <= n
    ensures Expansion(b, n, m) == Expansion(b, n - 1, m) + if m == 0 then 0 else b * Expansion(b, n - 1, m - 1)
  {
    if m != 0 {
      ExpansionStep(b, n, m - 1);
      var x, y := Choose(n - 1, m - 1), Choose(n - 1, m);
      Distribute(x, y, Pow(b, m));
      Assoc(x, b, Pow(b, m - 1));
      Assoc(b, x, Pow(b, m - 1));
      var rest := if m == 1 then 0 else Expansion(b, n - 1, m - 2);
      Distribute(x * Pow(b, m - 1), rest, b);
    }
  }

  lemma {:induction false} BinomialTheorem(b: nat, n: nat)
    ensures Pow(b + 1, n) == Expansion(b, n, n)
  {
    if n != 0 {
      BinomialTheorem(b, n - 1);
      ExpansionStep(b, n, n);
      ChooseAbove(n - 1, n);
      Distribute(b, 1, Pow(b + 1, n - 1));
    }
  }

  /** Modulo a prime only the first and the last term remain. */
  lemma {:induction false} MiddleTermsVanish(b: nat, p: nat, m: nat)
    requires IsPrime(p) && m < p
    ensures Cong(Expansion(b, p, m), 1, p)
  {
    if m == 0 {
      assert Pow(b, 0) == 1 && Choose(p, 0) == 1;
    } else {
      MiddleTermsVanish(b, p, m - 1);
      Absorption(p, m);
      DividesIntro(p, m * Choose(p, m), Choose(p - 1, m - 1));
      EuclidsLemma(p, m, Choose(p, m));
      if Divides(p, m) {
        DividesLe(p, m);
      }
      DivMod(Choose(p, m), p);
      CongMul(Choose(p, m), 0, Pow(b, m), Pow(b, m), p);
      CongAdd(Choose(p, m) * Pow(b, m), 0, Expansion(b, p, m - 1), 1, p);
    }
  }

  lemma {:induction false} FermatPower(b: nat, p: nat)
    requires IsPrime(p)
    ensures Cong(Pow(b, p), b, p)
  {
    if b == 0 {
      assert Pow(0, p) == 0 * Pow(0, p - 1);
    } else {
      FermatPower(b - 1, p);
      BinomialTheorem(b - 1, p);
      MiddleTermsVanish(b - 1, p, p - 1);
      ChooseAll(p);
      CongAdd(Pow(b - 1, p), b - 1, Expansion(b - 1, p, p - 1), 1, p);
    }
  }

  lemma {:induction false} Fermat(b: nat, p: nat)
    requires IsPrime(p) && !Divides(p, b)
    ensures Cong(Pow(b, p - 1), 1, p)
  {
    FermatPower(b, p);
    CongAdd(Pow(b, p), b, b, b, p);
    var x := Pow(b, p - 1);
    Distribute(x, 1, b);
    assert x * b == b * x;
    EuclidsLemma(p, x - 1, b);
    DivMod(x - 1, p);
    CongIntro(x, 1, (x - 1) / p, p);
  }

  /** Modulo a prime the square roots of 1 are 1 and -1. */
  lemma {:induction false} RootsOfOne(x: int, p: int)
    requires IsPrime(p) && Cong(x * x, 1, p)
    ensures Cong(x, 1, p) || Cong(x, -1, p)
  {
    CongAdd(x * x, 1, 1, 1, p);
    Distribute(x, 1, x + 1);
    Distribute(x, 1, x);
    EuclidsLemma(p, x - 1, x + 1);
    if Divides(p, x - 1) {
      DivMod(x - 1, p);
      CongIntro(x, 1, (x - 1) / p, p);
    } else {
      DivMod(x + 1, p);
      CongIntro(x, -1, (x + 1) / p, p);
    }
  }
}
