/** Integer facts used throughout: powers, quotients and congruences. */
module Arith {

  function Abs(x: int): nat {
    if x < 0 then -x else x
  }

  function Min(x: int, y: int): int {
    if x < y then x else y
  }

  function Max(x: int, y: int): int {
    if x < y then y else x
  }

  // ----- products -----

  lemma MulLe(a: int, b: int, c: int)
    requires a <= b && 0 <= c
    ensures a * c <= b * c
  {
  }

  lemma MulLt(a: int, b: int, c: int)
    requires a < b && 0 < c
    ensures a * c < b * c
  {
  }

  lemma MulCancelLt(a: int, b: int, c: int)
    requires a * c < b * c && 0 < c
    ensures a < b
  {
    if b <= a {
      MulLe(b, a, c);
    }
  }

  lemma MulCancelLe(a: int, b: int, c: int)
    requires a * c <= b * c && 0 < c
    ensures a <= b
  {
    if b < a {
      MulLt(b, a, c);
    }
  }

  lemma MulNonNeg(a: int, b: int)
    requires 0 <= a && 0 <= b
    ensures 0 <= a * b
  {
  }

  lemma MulBothLe(a: int, b: int, c: int, d: int)
    requires 0 <= a <= b && 0 <= c <= d
    ensures a * c <= b * d
  {
    MulLe(a, b, c);
    MulLe(c, d, b);
  }

  lemma Distribute(a: int, b: int, c: int)
    ensures (a + b) * c == a * c + b * c
    ensures c * (a + b) == c * a + c * b
    ensures (a - b) * c == a * c - b * c
    ensures c * (a - b) == c * a - c * b
  {
  }

  lemma Assoc(a: int, b: int, c: int)
    ensures (a * b) * c == a * (b * c)
  {
  }

  lemma {:induction false} SquareBelow(w: int, c: int)
    ensures (w - c) * (w - c) == w * w - 2 * c * w + c * c
  {
    Distribute(w, c, w - c);
    Distribute(w, c, w);
    Distribute(w, c, c);
  }

  // ----- quotients and remainders -----

  lemma DivModUnique(x: int, n: int, q: int, r: int)
    requires 0 < n && 0 <= r < n && x == q * n + r
    ensures x / n == q && x % n == r
  {
    var q', r' := x / n, x % n;
    assert x == n * q' + r';
    Distribute(q, q', n);
    assert (q - q') * n == r' - r;
    if q < q' {
      MulLe(q - q', -1, n);
    } else if q' < q {
      MulLe(1, q - q', n);
    }
  }

  lemma DivMod(x: int, n: int)
    requires 0 < n
    ensures x == (x / n) * n + x % n && 0 <= x % n < n
  {
  }

  lemma ModSmall(x: int, n: int)
    requires 0 <= x < n
    ensures x % n == x && x / n == 0
  {
    DivModUnique(x, n, 0, x);
  }

  lemma DivNonNeg(x: int, n: int)
    requires 0 < n && 0 <= x
    ensures 0 <= x / n <= x
  {
    DivMod(x, n);
    if x / n < 0 {
      MulLe(x / n, -1, n);
    } else {
      MulLe(1, n, x / n);
    }
  }

  lemma DivLt(x: int, n: int, m: int)
    requires 0 < n && x < m * n
    ensures x / n < m
  {
    DivMod(x, n);
    MulCancelLt(x / n, m, n);
  }

  lemma DivGe(x: int, n: int, m: int)
    requires 0 < n && m * n <= x
    ensures m <= x / n
  {
    DivMod(x, n);
    if x / n < m {
      MulLe(x / n + 1, m, n);
      Distribute(x / n, 1, n);
    }
  }

  // ----- congruence -----

  /** `a` and `b` leave the same remainder modulo `n`. */
  predicate Cong(a: int, b: int, n: int)
    requires 0 < n
  {
    a % n == b % n
  }

  /** The multiple of the modulus by which two congruent numbers differ. */
  lemma CongQuotient(a: int, b: int, n: int) returns (k: int)
    requires 0 < n && Cong(a, b, n)
    ensures a == b + k * n
  {
    DivMod(a, n);
    DivMod(b, n);
    k := a / n - b / n;
    Distribute(a / n, b / n, n);
  }

  lemma CongIntro(a: int, b: int, k: int, n: int)
    requires 0 < n && a == b + k * n
    ensures Cong(a, b, n)
  {
    DivMod(b, n);
    Distribute(b / n, k, n);
    DivModUnique(a, n, b / n + k, b % n);
  }

  lemma CongMul(a: int, b: int, c: int, d: int, n: int)
    requires 0 < n && Cong(a, b, n) && Cong(c, d, n)
    ensures Cong(a * c, b * d, n)
  {
    var j := CongQuotient(a, b, n);
    var k := CongQuotient(c, d, n);
    assert a * c == b * d + (b * k + j * c) * n by {
      assert a * c == b * c + (j * n) * c by { Distribute(b, j * n, c); }
      assert b * c == b * d + b * (k * n) by { Distribute(d, k * n, b); }
      assert (j * n) * c == (j * c) * n by { Assoc(j, n, c); Assoc(j, c, n); }
      assert b * (k * n) == (b * k) * n by { Assoc(b, k, n); }
      Distribute(b * k, j * c, n);
    }
    CongIntro(a * c, b * d, b * k + j * c, n);
  }

  lemma CongAdd(a: int, b: int, c: int, d: int, n: int)
    requires 0 < n && Cong(a, b, n) && Cong(c, d, n)
    ensures Cong(a + c, b + d, n) && Cong(a - c, b - d, n)
  {
    var j := CongQuotient(a, b, n);
    var k := CongQuotient(c, d, n);
    Distribute(j, k, n);
    CongIntro(a + c, b + d, j + k, n);
    CongIntro(a - c, b - d, j - k, n);
  }

  lemma ModIdem(a: int, n: int)
    requires 0 < n
    ensures Cong(a % n, a, n) && 0 <= a % n < n
  {
    DivMod(a, n);
    ModSmall(a % n, n);
  }

  /** The only representative in range. */
  lemma CongUnique(r: int, a: int, n: int)
    requires 0 <= r < n && Cong(r, a, n)
    ensures r == a % n
  {
    ModSmall(r, n);
  }

  /** A congruence modulo a multiple holds modulo the factor. */
  lemma CongFactor(a: int, b: int, n: int, m: int)
    requires 0 < n && 0 < m && 0 < n * m && Cong(a, b, n * m)
    ensures Cong(a, b, n)
  {
    var k := CongQuotient(a, b, n * m);
    assert k * (n * m) == (k * m) * n by { Assoc(k, m, n); }
    CongIntro(a, b, k * m, n);
  }

  lemma {:induction false} ParityOfProduct(a: int, b: int)
    ensures (a * b) % 2 == (if a % 2 == 1 && b % 2 == 1 then 1 else 0)
  {
    var j := a / 2;
    Assoc(2, j, b);
    Assoc(j, 2, b);
    if a % 2 == 0 {
      DivModUnique(a * b, 2, j * b, 0);
    } else {
      Distribute(2 * j, 1, b);
      CongIntro(a * b, b, j * b, 2);
    }
  }

  // ----- powers -----

  function Pow(b: int, e: nat): int {
    if e == 0 then 1 else b * Pow(b, e - 1)
  }

  lemma {:induction false} PowAdd(b: int, m: nat, n: nat)
    ensures Pow(b, m + n) == Pow(b, m) * Pow(b, n)
  {
    if m != 0 {
      PowAdd(b, m - 1, n);
      Assoc(b, Pow(b, m - 1), Pow(b, n));
    }
  }

  lemma {:induction false} PowPos(b: int, e: nat)
    requires 0 < b
    ensures 0 < Pow(b, e)
  {
    if e != 0 {
      PowPos(b, e - 1);
      MulLt(0, b, Pow(b, e - 1));
    }
  }

  lemma {:induction false} PowLe(b: int, m: nat, n: nat)
    requires 0 < b && m <= n
    ensures 0 < Pow(b, m) <= Pow(b, n)
  {
    PowPos(b, m);
    PowPos(b, n - m);
    PowAdd(b, m, n - m);
    MulLe(1, Pow(b, n - m), Pow(b, m));
  }

  lemma {:induction false} PowLt(b: int, m: nat, n: nat)
    requires 1 < b && m < n
    ensures 0 < Pow(b, m) < Pow(b, n)
  {
    PowLe(b, m, n - 1);
    MulLt(1, b, Pow(b, n - 1));
  }

  lemma {:induction false} PowPow(b: int, m: nat, n: nat)
    ensures 0 <= m * n && Pow(Pow(b, m), n) == Pow(b, m * n)
  {
    MulNonNeg(m, n);
    if n != 0 {
      PowPow(b, m, n - 1);
      Distribute(n - 1, 1, m);
      MulNonNeg(m, n - 1);
      PowAdd(b, m, m * (n - 1));
    }
  }

  lemma {:induction false} PowMul(a: int, b: int, e: nat)
    ensures Pow(a * b, e) == Pow(a, e) * Pow(b, e)
  {
    if e != 0 {
      PowMul(a, b, e - 1);
      var p, q := Pow(a, e - 1), Pow(b, e - 1);
      assert (a * b) * (p * q) == (a * p) * (b * q) by {
        Assoc(a, b, p * q);
        Assoc(b, p, q);
        Assoc(p, b, q);
        Assoc(a, p, b * q);
      }
    }
  }

  lemma {:induction false} CongPow(a: int, b: int, e: nat, n: int)
    requires 0 < n && Cong(a, b, n)
    ensures Cong(Pow(a, e), Pow(b, e), n)
  {
    if e != 0 {
      CongPow(a, b, e - 1, n);
      CongMul(a, b, Pow(a, e - 1), Pow(b, e - 1), n);
    }
  }

  // ----- odd moduli -----

  lemma {:induction false} HalfCancels(a: int, b: int, p: int)
    requires 0 < p && p % 2 == 1 && Cong(2 * a, 2 * b, p)
    ensures Cong(a, b, p)
  {
    var k := CongQuotient(2 * a, 2 * b, p);
    var h := p / 2;
    var j := a - b - k * h;
    assert k * p == 2 * (k * h) + k by { Distribute(2 * h, 1, k); Assoc(2, h, k); }
    assert k * p == 2 * (j * p) by { Assoc(2, j, p); }
    CongIntro(a, b, j, p);
  }

  /** Powers of two cancel modulo odd numbers. */
  lemma {:induction false} PowersOfTwoCancel(a: int, b: int, e: nat, p: int)
    requires 0 < p && p % 2 == 1 && Cong(a * Pow(2, e), b * Pow(2, e), p)
    ensures Cong(a, b, p)
  {
    if e != 0 {
      Assoc(2, a, Pow(2, e - 1));
      Assoc(a, 2, Pow(2, e - 1));
      Assoc(2, b, Pow(2, e - 1));
      Assoc(b, 2, Pow(2, e - 1));
      HalfCancels(a * Pow(2, e - 1), b * Pow(2, e - 1), p);
      PowersOfTwoCancel(a, b, e - 1, p);
    }
  }
}
