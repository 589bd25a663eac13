/** Where the constants of the hashes come from: roots of the first prime numbers. */
module HashConstants {
  import opened Arith
  import opened NumberTheory
  import opened PrimeRoots
  import opened Primes
  import H = HashStream
  import Sha1
  import Sha256
  import W = Words

  // ----- the prime numbers below 19 * 19 -----

  lemma {:induction false} SieveIff(n: nat)
    requires n < 361
    ensures Sieve(n) <==> IsPrime(n)
  {
    if IsPrime(n) {
      NoDivisor(n, 2);
      NoDivisor(n, 3);
      NoDivisor(n, 5);
      NoDivisor(n, 7);
      NoDivisor(n, 11);
      NoDivisor(n, 13);
      NoDivisor(n, 17);
    }
    if Sieve(n) {
      forall d | 1 < d < n
        ensures !Divides(d, n)
      {
        if Divides(d, n) {
          SmallFactor(n, d, n / d);
        }
      }
    }
  }

  lemma {:induction false} NoDivisor(p: nat, q: nat)
    requires IsPrime(p) && 1 < q
    ensures p == q || p % q != 0
  {
    if q < p {
      assert !Divides(q, p);
    } else if p < q {
      ModSmall(p, q);
    }
  }

  /** Of two factors of a number below 19 * 19 one is below 19, and has a prime factor up to 17. */
  lemma {:induction false} SmallFactor(n: nat, d: nat, e: nat)
    requires n < 361 && 1 < d < n && n % d == 0 && e == n / d
    ensures !Sieve(n)
  {
    DivMod(n, d);
    assert n == e * d;
    DivNonNeg(n, d);
    if e <= 1 {
      MulLe(e, 1, d);
    }
    if d < 19 {
      HasFactor(n, d, e);
    } else if e < 19 {
      if n <= e {
        MulLe(2, d, e);
      }
      HasFactor(n, e, d);
    } else {
      MulBothLe(19, d, 19, e);
    }
  }

  lemma {:induction false} HasFactor(n: nat, d: nat, e: nat)
    requires 1 < d < 19 && d < n && n == e * d
    ensures !Sieve(n)
  {
    if d % 2 == 0 {
      Inherited(n, d, e, 2);
    } else if d % 3 == 0 {
      Inherited(n, d, e, 3);
    } else {
      assert d == 5 || d == 7 || d == 11 || d == 13 || d == 17;
      Inherited(n, d, e, d);
    }
  }

  lemma {:induction false} Inherited(n: nat, d: nat, e: nat, q: nat)
    requires 0 < q && d % q == 0 && n == e * d
    ensures n % q == 0
  {
    DivMod(d, q);
    Assoc(e, d / q, q);
    DivModUnique(n, q, e * (d / q), 0);
  }

  lemma {:induction false} SieveCounts(n: nat)
    requires n <= 361
    ensures SieveCount(n) == PrimesBelow(n)
  {
    hide Sieve, IsPrime;
    if n != 0 {
      SieveCounts(n - 1);
      SieveIff(n - 1);
    }
  }

  // ----- roots -----

  /** `p` is the prime number with `t` prime numbers below it. */
  ghost predicate IsPrimeAt(p: nat, t: nat) {
    IsPrime(p) && PrimesBelow(p) == t
  }

  /** `k` is the first 32 bits of the fraction of the cube root of prime number `t`. */
  ghost predicate CubeRootBits(k: int, t: nat) {
    exists p: nat, c: nat :: IsPrimeAt(p, t) && IsCubeRoot(c, p) && k == c % W.WORD
  }

  /** `k` is the first 32 bits of the fraction of the square root of prime number `t`. */
  ghost predicate SquareRootBits(k: int, t: nat) {
    exists p: nat, c: nat :: IsPrimeAt(p, t) && IsSquareRoot(c, p * 0x1_0000_0000_0000_0000) && k == c % W.WORD
  }

  lemma {:induction false} CubeOfPrime(k: int, t: nat)
    requires CubeFraction(k, t)
    ensures CubeRootBits(k, t)
  {
    hide Sieve, IsCubeRoot;
    var p: nat, c: nat :| p < 361 && Sieve(p) && SieveCount(p) == t && IsCubeRoot(c, p) && k == c % W.WORD;
    SieveIff(p);
    SieveCounts(p);
    assert IsPrimeAt(p, t);
  }

  lemma {:induction false} SquareOfPrime(t: nat, p: nat, c: nat, k: int)
    requires p < 361 && Sieve(p) && SieveCount(p) == t
    requires IsSquareRoot(c, p * 0x1_0000_0000_0000_0000) && k == c % W.WORD
    ensures SquareRootBits(k, t)
  {
    hide Sieve, IsSquareRoot;
    SieveIff(p);
    SieveCounts(p);
    assert IsPrimeAt(p, t);
  }

  // ----- the constants of the rounds of SHA-256 -----

  lemma {:induction false} Row0(t: nat)
    requires 0 <= t < 8
    ensures CubeFraction(Sha256.KTmp(t), t)
  {
    hide Sieve, SieveCount, CubeFraction;
    Fractions0();
    Fractions4();
    assert t == 0 || t == 1 || t == 2 || t == 3 || t == 4 || t == 5 || t == 6 || t == 7;
  }

  lemma {:induction false} Row1(t: nat)
    requires 8 <= t < 16
    requires SieveCount(23) == 8
    ensures CubeFraction(Sha256.KTmp(t), t)
  {
    hide Sieve, SieveCount, CubeFraction;
    Fractions8();
    Fractions12();
    assert t == 8 || t == 9 || t == 10 || t == 11 || t == 12 || t == 13 || t == 14 || t == 15;
  }

  lemma {:induction false} Row2(t: nat)
    requires 16 <= t < 24
    requires SieveCount(59) == 16
    ensures CubeFraction(Sha256.KTmp(t), t)
  {
    hide Sieve, SieveCount, CubeFraction;
    Fractions16();
    Fractions20();
    assert t == 16 || t == 17 || t == 18 || t == 19 || t == 20 || t == 21 || t == 22 || t == 23;
  }

  lemma {:induction false} Row3(t: nat)
    requires 24 <= t < 32
    requires SieveCount(97) == 24
    ensures CubeFraction(Sha256.KTmp(t), t)
  {
    hide Sieve, SieveCount, CubeFraction;
    Fractions24();
    Fractions28();
    assert t == 24 || t == 25 || t == 26 || t == 27 || t == 28 || t == 29 || t == 30 || t == 31;
  }

  lemma {:induction false} Row4(t: nat)
    requires 32 <= t < 40
    requires SieveCount(137) == 32
    ensures CubeFraction(Sha256.KTmp(t), t)
  {
    hide Sieve, SieveCount, CubeFraction;
    Fractions32();
    Fractions36();
    assert t == 32 || t == 33 || t == 34 || t == 35 || t == 36 || t == 37 || t == 38 || t == 39;
  }

  lemma {:induction false} Row5(t: nat)
    requires 40 <= t < 48
    requires SieveCount(179) == 40
    ensures CubeFraction(Sha256.KTmp(t), t)
  {
    hide Sieve, SieveCount, CubeFraction;
    Fractions40();
    Fractions44();
    assert t == 40 || t == 41 || t == 42 || t == 43 || t == 44 || t == 45 || t == 46 || t == 47;
  }

  lemma {:induction false} Row6(t: nat)
    requires 48 <= t < 56
    requires SieveCount(227) == 48
    ensures CubeFraction(Sha256.KTmp(t), t)
  {
    hide Sieve, SieveCount, CubeFraction;
    Fractions48();
    Fractions52();
    assert t == 48 || t == 49 || t == 50 || t == 51 || t == 52 || t == 53 || t == 54 || t == 55;
  }

  lemma {:induction false} Row7(t: nat)
    requires 56 <= t < 64
    requires SieveCount(269) == 56
    ensures CubeFraction(Sha256.KTmp(t), t)
  {
    hide Sieve, SieveCount, CubeFraction;
    Fractions56();
    Fractions60();
    assert t == 56 || t == 57 || t == 58 || t == 59 || t == 60 || t == 61 || t == 62 || t == 63;
  }

  /** The constant of round `t` is cut from the cube root of prime number `t`. */
  lemma {:induction false} RoundConstants(t: nat)
    requires t < 64
    ensures CubeRootBits(Sha256.KTmp(t), t)
  {
    hide *;
    Primes0();
    Primes8();
    Primes16();
    Primes24();
    Primes32();
    Primes40();
    Primes48();
    if t < 8 {
      Row0(t);
    } else if t < 16 {
      Row1(t);
    } else if t < 24 {
      Row2(t);
    } else if t < 32 {
      Row3(t);
    } else if t < 40 {
      Row4(t);
    } else if t < 48 {
      Row5(t);
    } else if t < 56 {
      Row6(t);
    } else if t < 64 {
      Row7(t);
    }
    CubeOfPrime(Sha256.KTmp(t), t);
  }

  // ----- the values that the hashes start from -----

  /** SHA-256 starts from the square roots of the first eight prime numbers. */
  lemma {:induction false} StartOfSha256(t: nat)
    requires t < 8
    ensures SquareRootBits(H.Algorithm.SHA256.Init()[t], t)
  {
    Primes0();
    hide Sieve, SieveCount, SquareRootBits;
    SquareOfPrime(0, 2, 0x1_6A09E667, 0x6A09E667);
    SquareOfPrime(1, 3, 0x1_BB67AE85, 0xBB67AE85);
    SquareOfPrime(2, 5, 0x2_3C6EF372, 0x3C6EF372);
    SquareOfPrime(3, 7, 0x2_A54FF53A, 0xA54FF53A);
    SquareOfPrime(4, 11, 0x3_510E527F, 0x510E527F);
    SquareOfPrime(5, 13, 0x3_9B05688C, 0x9B05688C);
    SquareOfPrime(6, 17, 0x4_1F83D9AB, 0x1F83D9AB);
    SquareOfPrime(7, 19, 0x4_5BE0CD19, 0x5BE0CD19);
    assert t == 0 || t == 1 || t == 2 || t == 3 || t == 4 || t == 5 || t == 6 || t == 7;
  }

  /** The number whose root gives the constant of a phase of SHA-1. */
  function Radicand(t: nat): nat {
    if t < 20 then 2 else if t < 40 then 3 else if t < 60 then 5 else 10
  }

  /** The constants of SHA-1 are square roots times 2^30. */
  lemma {:induction false} PhaseConstants(t: nat)
    ensures IsSquareRoot(Sha1.K(t), Radicand(t) * 0x1000_0000_0000_0000)
  {
    assert IsSquareRoot(0x5A82_7999, 2 * 0x1000_0000_0000_0000);
    assert IsSquareRoot(0x6ED9_EBA1, 3 * 0x1000_0000_0000_0000);
    assert IsSquareRoot(0x8F1B_BCDC, 5 * 0x1000_0000_0000_0000);
    assert IsSquareRoot(0xCA62_C1D6, 10 * 0x1000_0000_0000_0000);
  }

  /** Twenty bytes whose hexadecimal digits count up, then down, then both ways. */
  function CountedByte(i: nat): int {
    if i < 8 then 0x01 + 0x22 * i else if i < 16 then 0xFE - 0x22 * (i - 8) else 0xF0 - 0x0F * (i - 16)
  }

  /** SHA-1 starts from the words of these bytes, the lowest byte of a word first. */
  lemma {:induction false} StartOfSha1(k: nat)
    requires k < 5
    ensures H.Algorithm.SHA1.Init()[k] == CountedByte(4 * k) + 0x100 * CountedByte(4 * k + 1)
      + 0x1_0000 * CountedByte(4 * k + 2) + 0x100_0000 * CountedByte(4 * k + 3)
  {
    assert k == 0 || k == 1 || k == 2 || k == 3 || k == 4;
  }
}
