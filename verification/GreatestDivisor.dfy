/** The greatest common divisor by the binary method, and the extended
    Euclidean algorithm on signed numbers. */
module GreatestDivisor {
  import opened Arith
  import opened Digits
  import opened MpInts
  import opened NumberTheory
  import Divide
  import Multiply

  /** Factors of two of one number do not count beside an odd one. */
  lemma {:induction false} GcdOddPart(n: nat, m: nat)
    requires 0 < n && m % 2 == 1
    ensures 0 < Pow(2, LowZeros(n)) && 0 < n / Pow(2, LowZeros(n)) && Gcd(n / Pow(2, LowZeros(n)), m) == Gcd(n, m)
    decreases n
  {
    OddPart(n);
    if n % 2 == 0 {
      GcdOddPart(n / 2, m);
      GcdHalf(n, m);
      QuotientOfHalf(n, LowZeros(n / 2));
    } else {
      assert Pow(2, 0) == 1;
    }
  }

  lemma {:induction false} QuotientOfHalf(n: nat, k: nat)
    requires n % 2 == 0
    ensures 0 < Pow(2, k) && n / Pow(2, k + 1) == (n / 2) / Pow(2, k)
  {
    PowPos(2, k);
    Divide.ScaledDivision(n / 2, Pow(2, k), 2);
  }

  /** Both numbers without the twos they share, and with what that leaves out. */
  lemma {:induction false} CommonTwos(a: nat, b: nat, k: nat)
    requires 0 < a && 0 < b && k <= LowZeros(a) && k <= LowZeros(b)
    ensures 0 < Pow(2, k)
    ensures Gcd(a, b) == Gcd(a / Pow(2, k), b / Pow(2, k)) * Pow(2, k)
    ensures 0 < a / Pow(2, k) && LowZeros(a / Pow(2, k)) == LowZeros(a) - k
    ensures 0 < b / Pow(2, k) && LowZeros(b / Pow(2, k)) == LowZeros(b) - k
  {
    TwosRemoved(a, k);
    TwosRemoved(b, k);
    GcdScale(a / Pow(2, k), b / Pow(2, k), Pow(2, k));
  }

  lemma {:induction false} TwosRemoved(a: nat, k: nat)
    requires 0 < a && k <= LowZeros(a)
    ensures 0 < Pow(2, k) && a == (a / Pow(2, k)) * Pow(2, k)
    ensures 0 < a / Pow(2, k) && LowZeros(a / Pow(2, k)) == LowZeros(a) - k
    decreases a
  {
    if k != 0 {
      TwosRemoved(a / 2, k - 1);
      QuotientOfHalf(a, k - 1);
      Assoc(2, a / Pow(2, k), Pow(2, k - 1));
      Assoc(a / Pow(2, k), 2, Pow(2, k - 1));
    } else {
      assert Pow(2, 0) == 1;
    }
  }

  /** The loop: subtract the smaller odd number from the larger, and drop the twos. */
  method OddGcd(a: nat, b: nat) returns (u: nat)
    requires a % 2 == 1 && b % 2 == 1
    ensures u == Gcd(a, b)
  {
    var v: nat;
    u, v := a, b;
    while v != 0
      invariant u % 2 == 1 && (v == 0 || v % 2 == 1) && Gcd(u, v) == Gcd(a, b)
      decreases u + v
    {
      if u > v {
        GcdSymmetric(u, v);
        u, v := v, u;
      }
      GcdSymmetric(u, v);
      GcdSubtract(v, u);
      v := v - u;
      if v != 0 {
        OddPart(v);
        GcdOddPart(v, u);
        DivNonNeg(v, Pow(2, LowZeros(v)));
      }
      PowPos(2, LowZeros(v));
      ghost var w := v;
      v := v / Pow(2, LowZeros(v));
      GcdSymmetric(v, u);
      GcdSymmetric(w, u);
    }
  }

  /** c = gcd(a, b), never negative. */
  method GcdOf(a: MpInt, b: MpInt, c: MpInt)
    requires a.Valid() && b.Valid()
    modifies c
    ensures c.Valid() && c.Value() == Gcd(old(Abs(a.Value())), old(Abs(b.Value())))
  {
    var x: nat, y: nat := Abs(a.Value()), Abs(b.Value());
    if x == 0 {
      GcdSymmetric(x, y);
      c.Set(y);
      return;
    }
    if y == 0 {
      c.Set(x);
      return;
    }
    var k := Min(LowZeros(x), LowZeros(y));
    CommonTwos(x, y, k);
    var g := WithoutCommonTwos(x / Pow(2, k), y / Pow(2, k));
    c.Set(g * Pow(2, k));
  }

  /** One of the numbers is odd already; the other loses its twos. */
  method WithoutCommonTwos(x: nat, y: nat) returns (g: nat)
    requires 0 < x && 0 < y && (LowZeros(x) == 0 || LowZeros(y) == 0)
    ensures g == Gcd(x, y)
  {
    OddPart(x);
    OddPart(y);
    assert Pow(2, 0) == 1;
    var u, v := x / Pow(2, LowZeros(x)), y / Pow(2, LowZeros(y));
    if LowZeros(x) == 0 {
      GcdOddPart(y, x);
      GcdSymmetric(y, x);
      GcdSymmetric(v, u);
    } else {
      GcdOddPart(x, y);
    }
    g := OddGcd(u, v);
  }

  // ----- Bezout coefficients -----

  /** One step of the signed algorithm. */
  lemma {:induction false} EuclidStep(a: int, b: int, u1: int, u2: int, u3: int, v1: int, v2: int, v3: int)
    requires v3 != 0 && a * u1 + b * u2 == u3 && a * v1 + b * v2 == v3
    ensures var q := Quotient(u3, v3);
      var t1, t2, t3 := u1 - v1 * q, u2 - v2 * q, u3 - v3 * q;
      a * t1 + b * t2 == t3 && t3 == Remainder(u3, v3)
      && Abs(t3) < Abs(v3) && Gcd(Abs(v3), Abs(t3)) == Gcd(Abs(u3), Abs(v3))
  {
    var q := Quotient(u3, v3);
    DivisionUnique(u3, v3, q, Remainder(u3, v3));
    Distribute(u1, v1 * q, a);
    Distribute(u2, v2 * q, b);
    Assoc(a, v1, q);
    Assoc(b, v2, q);
    Distribute(a * v1, b * v2, q);
  }

  /** U1 * a + U2 * b = U3, where U3 is the greatest common divisor. */
  method ExtEuclid(a: MpInt, b: MpInt, U1: MpInt, U2: MpInt, U3: MpInt)
    requires a.Valid() && b.Valid() && U1 != U2 && U1 != U3 && U2 != U3
    modifies U1, U2, U3
    ensures U1.Valid() && U2.Valid() && U3.Valid()
    ensures U3.Value() == Gcd(old(Abs(a.Value())), old(Abs(b.Value())))
    ensures old(a.Value()) * U1.Value() + old(b.Value()) * U2.Value() == U3.Value()
  {
    var x, y := a.Value(), b.Value();
    var u1, u2, u3, v1, v2, v3 := 1, 0, x, 0, 1, y;
    while v3 != 0
      invariant x * u1 + y * u2 == u3 && x * v1 + y * v2 == v3
      invariant Gcd(Abs(u3), Abs(v3)) == Gcd(Abs(x), Abs(y))
      decreases Abs(v3)
    {
      EuclidStep(x, y, u1, u2, u3, v1, v2, v3);
      var q := Quotient(u3, v3);
      var p1 := Multiply.Product(v1, q);
      var p2 := Multiply.Product(v2, q);
      var p3 := Multiply.Product(v3, q);
      u1, u2, u3, v1, v2, v3 := v1, v2, v3, u1 - p1, u2 - p2, u3 - p3;
    }
    if u3 < 0 {
      NegatedCombination(x, y, u1, u2);
      u1, u2, u3 := -u1, -u2, -u3;
    }
    U1.Set(u1);
    U2.Set(u2);
    U3.Set(u3);
  }

  lemma {:induction false} NegatedCombination(x: int, y: int, u: int, v: int)
    ensures x * (-u) + y * (-v) == -(x * u + y * v)
  {
  }
}
