/** Modular inverses by the binary extended Euclidean algorithm: the general
    form, and the two-variable form for odd moduli. */
module Inverse {
  import opened Arith
  import opened Digits
  import opened MpInts
  import opened NumberTheory
  import Divide

  // ----- the general form -----

  /** Halving keeps a combination of `x` and `y` exact: if a coefficient is odd,
      shifting both along (y, -x) makes both even. */
  lemma {:induction false} EvenCoefficients(a: int, b: int, x: int, y: int)
    requires x % 2 == 1 || y % 2 == 1
    requires (a * x + b * y) % 2 == 0
    ensures a % 2 == 1 || b % 2 == 1 ==> (a + y) % 2 == 0 && (b - x) % 2 == 0
    ensures (a + y) * x + (b - x) * y == a * x + b * y
  {
    ParityOfProduct(a, x);
    ParityOfProduct(b, y);
    EvenSum(a, b, x, y, a * x, b * y);
    Distribute(a, y, x);
    Distribute(b, x, y);
  }

  lemma {:induction false} EvenSum(a: int, b: int, x: int, y: int, p: int, q: int)
    requires (x % 2 == 1 || y % 2 == 1) && (p + q) % 2 == 0
    requires p % 2 == (if a % 2 == 1 && x % 2 == 1 then 1 else 0)
    requires q % 2 == (if b % 2 == 1 && y % 2 == 1 then 1 else 0)
    ensures a % 2 == 1 || b % 2 == 1 ==> (a + y) % 2 == 0 && (b - x) % 2 == 0
  {
  }

  lemma {:induction false} HalvedCombination(a: int, b: int, x: int, y: int, u: int)
    requires a % 2 == 0 && b % 2 == 0 && a * x + b * y == u
    ensures u % 2 == 0 && (a / 2) * x + (b / 2) * y == u / 2
  {
    Assoc(2, a / 2, x);
    Assoc(2, b / 2, y);
  }

  /** Divide `u` by two as often as possible, its coefficients along with it. */
  method HalveWithCoefficients(u: int, a: int, b: int, x: int, y: int, ghost v: nat)
    returns (u': int, a': int, b': int)
    requires 0 < u && a * x + b * y == u && (x % 2 == 1 || y % 2 == 1) && (u % 2 == 1 || v % 2 == 1)
    ensures 0 < u' <= u && u' % 2 == 1 && a' * x + b' * y == u' && Gcd(u', v) == Gcd(u, v)
  {
    u', a', b' := u, a, b;
    while u' % 2 == 0
      invariant 0 < u' <= u && a' * x + b' * y == u'
      invariant (u' % 2 == 1 || v % 2 == 1) && Gcd(u', v) == Gcd(u, v)
      decreases u'
    {
      GcdHalf(u', v);
      EvenCoefficients(a', b', x, y);
      if a' % 2 == 1 || b' % 2 == 1 {
        a', b' := a' + y, b' - x;
      }
      HalvedCombination(a', b', x, y, u');
      u', a', b' := u' / 2, Truncated(a', 2), Truncated(b', 2);
    }
  }

  /** gcd(x, y) as a combination of the two. */
  method BinaryEuclid(x: nat, y: nat) returns (v: int, c: int, d: int)
    requires 0 < x && 0 < y && (x % 2 == 1 || y % 2 == 1)
    ensures v == Gcd(x, y) && c * x + d * y == v
  {
    var u, a, b: int := x, 1, 0;
    v, c, d := y, 0, 1;
    GcdSymmetric(x, y);
    while true
      invariant 0 < u && 0 < v && (u % 2 == 1 || v % 2 == 1)
      invariant a * x + b * y == u && c * x + d * y == v && Gcd(u, v) == Gcd(x, y)
      decreases u + v
    {
      u, a, b := HalveWithCoefficients(u, a, b, x, y, v);
      GcdSymmetric(u, v);
      v, c, d := HalveWithCoefficients(v, c, d, x, y, u);
      GcdSymmetric(u, v);
      if u >= v {
        GcdSubtract(u, v);
        Distribute(a, c, x);
        Distribute(b, d, y);
        u, a, b := u - v, a - c, b - d;
      } else {
        GcdSubtract(v, u);
        GcdSymmetric(v - u, u);
        Distribute(c, a, x);
        Distribute(d, b, y);
        v, c, d := v - u, c - a, d - b;
      }
      if u == 0 {
        GcdSymmetric(0, v);
        break;
      }
    }
  }

  /** Bring a number in range by adding or subtracting the modulus. */
  method IntoRange(c: int, b: int) returns (r: int)
    requires 0 < b
    ensures 0 <= r < b && Cong(r, c, b)
  {
    r := c;
    while r < 0
      invariant Cong(r, c, b) && (c < 0 ==> r < b)
      decreases -r
    {
      CongIntro(r + b, r, 1, b);
      r := r + b;
    }
    while Abs(r) >= b
      invariant 0 <= r && Cong(r, c, b)
      decreases r
    {
      CongIntro(r - b, r, -1, b);
      r := r - b;
    }
  }

  /** The residue of `a` modulo `b`. */
  method Residue(a: MpInt, b: MpInt) returns (x: int)
    requires a.Valid() && b.Valid() && 0 < b.Value()
    ensures x == a.Value() % b.Value()
  {
    var t := new MpInt();
    var err := Divide.Mod(a, b, t);
    x := t.Value();
  }

  lemma {:induction false} BothEven(x: nat, y: nat)
    requires x % 2 == 0 && y % 2 == 0 && 0 < y
    ensures Gcd(x, y) != 1
  {
    CommonDivisor(2, x, y);
  }

  lemma {:induction false} InverseFromBezout(a: int, x: int, y: int, s: int, r: int, t: int)
    requires 0 < y && Cong(a, x, y) && Cong(r, s, y) && s * x + t * y == 1
    ensures Cong(a * r, 1, y)
  {
    CongMul(a, x, r, s, y);
    NegatedProduct(s, x);
    OneUpToMultiple(s * x, t, y);
  }

  lemma {:induction false} OneUpToMultiple(p: int, t: int, y: int)
    requires 0 < y && p + t * y == 1
    ensures Cong(p, 1, y)
  {
    NegatedProduct(t, y);
    CongIntro(p, 1, -t, y);
  }

  /** `u` halved k times. */
  function Halved(u: nat, k: nat): nat {
    if k == 0 then u else Halved(u / 2, k - 1)
  }

  /** The loop that halves the residue while it is even ends exactly if the modulus
      does not divide the number: zero stays zero. */
  lemma {:induction false} HalvingEndsIff(a: int, b: int)
    requires 0 < b
    ensures (exists k: nat :: Halved(a % b, k) % 2 == 1) <==> a % b != 0
  {
    if a % b == 0 {
      forall k: nat
        ensures Halved(0, k) % 2 == 0
      {
        ZeroHalved(k);
      }
    } else {
      var k := OddAfter(a % b);
    }
  }

  lemma {:induction false} ZeroHalved(k: nat)
    ensures Halved(0, k) == 0
  {
    if k != 0 {
      ZeroHalved(k - 1);
    }
  }

  lemma {:induction false} OddAfter(u: nat) returns (k: nat)
    requires 0 < u
    ensures Halved(u, k) % 2 == 1
  {
    if u % 2 == 1 {
      k := 0;
    } else {
      var j := OddAfter(u / 2);
      k := j + 1;
    }
  }

  /** c = 1/a mod b; fails exactly when there is none.  An odd modulus that
      divides `a` is left to the other form: the halving of zero would not end. */
  method InvModGeneral(a: MpInt, b: MpInt, c: MpInt) returns (err: Outcome)
    requires a.Valid() && b.Valid() && c.Valid()
    requires 0 < b.Value() && b.Value() % 2 == 1 ==> a.Value() % b.Value() != 0
    modifies c
    ensures c.Valid()
    ensures err == Okay <==> 0 < old(b.Value()) && exists z :: Cong(old(a.Value()) * z, 1, old(b.Value()))
    ensures err == Okay ==> 0 <= c.Value() < old(b.Value()) && Cong(old(a.Value()) * c.Value(), 1, old(b.Value()))
    ensures err != Okay ==> c.Value() == old(c.Value())
  {
    DigitsOf(b);
    if b.sign == Neg || b.dp == [] {
      return BadValue;
    }
    ghost var v := a.Value();
    var y := b.Value();
    InvertibleIff(v, y);
    DivMod(v, y);
    var x := Residue(a, b);
    if x % 2 == 0 && y % 2 == 0 {
      BothEven(x, y);
      return BadValue;
    }
    var g, s, t := BinaryEuclid(x, y);
    if g != 1 {
      return BadValue;
    }
    var r := IntoRange(s, y);
    c.Set(r);
    ModIdem(v, y);
    InverseFromBezout(v, x, y, s, r, t);
    return Okay;
  }

  // ----- the odd form -----

  /** Divide `u` by two as often as possible; an odd modulus `x` makes room in the coefficient. */
  method HalveModuloOdd(u: int, b: int, x: int, y: int, ghost v: nat) returns (u': int, b': int)
    requires 0 < u && 0 < x && x % 2 == 1 && Cong(b * y, u, x) && (u % 2 == 1 || v % 2 == 1)
    ensures 0 < u' <= u && u' % 2 == 1 && Cong(b' * y, u', x) && Gcd(u', v) == Gcd(u, v)
  {
    u', b' := u, b;
    while u' % 2 == 0
      invariant 0 < u' <= u && Cong(b' * y, u', x)
      invariant (u' % 2 == 1 || v % 2 == 1) && Gcd(u', v) == Gcd(u, v)
      decreases u'
    {
      GcdHalf(u', v);
      HalvedModuloOdd(b', y, u', x);
      if b' % 2 == 1 {
        b' := b' - x;
      }
      u', b' := u' / 2, Truncated(b', 2);
    }
  }

  lemma {:induction false} HalvedModuloOdd(b: int, y: int, u: int, x: int)
    requires 0 < x && x % 2 == 1 && Cong(b * y, u, x) && u % 2 == 0
    ensures b % 2 == 0 ==> Cong((b / 2) * y, u / 2, x)
    ensures b % 2 == 1 ==> (b - x) % 2 == 0 && Cong(((b - x) / 2) * y, u / 2, x)
  {
    if b % 2 == 0 {
      HalfCoefficient(b / 2, b, y, u / 2, x);
    } else {
      ShiftedCoefficient(b, y, x);
      HalfCoefficient((b - x) / 2, b - x, y, u / 2, x);
    }
  }

  lemma {:induction false} HalfCoefficient(h: int, b: int, y: int, u: int, x: int)
    requires 0 < x && x % 2 == 1 && b == 2 * h && Cong(b * y, 2 * u, x)
    ensures Cong(h * y, u, x)
  {
    Assoc(2, h, y);
    HalfCancels(h * y, u, x);
  }

  lemma {:induction false} ShiftedCoefficient(b: int, y: int, x: int)
    requires 0 < x
    ensures Cong((b - x) * y, b * y, x)
  {
    Distribute(b, x, y);
    NegatedProduct(y, x);
    CongIntro((b - x) * y, b * y, -y, x);
  }

  lemma {:induction false} NegatedProduct(a: int, b: int)
    ensures (-a) * b == -(a * b) && a * b == b * a
  {
  }

  /** gcd(x, y) with the coefficient of `y`, modulo an odd `x`. */
  method OddEuclid(x: nat, y: nat) returns (v: int, d: int)
    requires 0 < x && x % 2 == 1 && 0 < y
    ensures v == Gcd(x, y) && Cong(d * y, v, x)
  {
    var u, b: int := x, 0;
    v, d := y, 1;
    CongIntro(0, x, -1, x);
    while true
      invariant 0 < u && 0 < v && (u % 2 == 1 || v % 2 == 1)
      invariant Cong(b * y, u, x) && Cong(d * y, v, x) && Gcd(u, v) == Gcd(x, y)
      decreases u + v
    {
      u, b := HalveModuloOdd(u, b, x, y, v);
      GcdSymmetric(u, v);
      v, d := HalveModuloOdd(v, d, x, y, u);
      GcdSymmetric(u, v);
      Distribute(b, d, y);
      Distribute(d, b, y);
      CongAdd(b * y, u, d * y, v, x);
      CongAdd(d * y, v, b * y, u, x);
      if u >= v {
        GcdSubtract(u, v);
        u, b := u - v, b - d;
      } else {
        GcdSubtract(v, u);
        GcdSymmetric(v - u, u);
        v, d := v - u, d - b;
      }
      if u == 0 {
        GcdSymmetric(0, v);
        break;
      }
    }
  }

  /** The sign that the odd form gives to an inverse: that of the number inverted. */
  function InverseSign(a: int, b: int): int {
    if a < 0 && b % 2 == 1 then -1 else 1
  }

  /** What an inverse looks like when it is found. */
  ghost predicate IsInverse(c: int, a: int, b: int)
    requires 0 < b
  {
    0 <= InverseSign(a, b) * c < b && Cong(a * c, InverseSign(a, b), b)
  }

  /** The result is an inverse exactly for a nonnegative number or an even modulus:
      modulo an odd one a negative number gets the inverse with the wrong sign. */
  lemma {:induction false} IsInverseIff(c: int, a: int, b: int)
    requires 1 < b && IsInverse(c, a, b)
    ensures Cong(a * c, 1, b) <==> 0 <= a || b % 2 == 0
  {
    if InverseSign(a, b) == -1 && Cong(a * c, 1, b) {
      var k := CongQuotient(1, -1, b);
      if k <= 0 {
        MulLe(k, 0, b);
      } else {
        MulLe(1, k, b);
      }
    }
  }

  /** The inverse in range, if there is one. */
  method InverseValue(a: int, x: nat, y: nat) returns (found: bool, r: int)
    requires 1 < x && x % 2 == 1 && 0 < y == a % x
    ensures found <==> exists z :: Cong(a * z, 1, x)
    ensures found ==> 0 < r < x && Cong(a * r, 1, x) && Cong(a * (-r), -1, x)
  {
    InvertibleIff(a, x);
    GcdSymmetric(x, y);
    var g, d := OddEuclid(x, y);
    found := g == 1;
    r := 0;
    if found {
      r := IntoRange(d, x);
      ModIdem(a, x);
      OddInverse(a, x, y, d, r);
    }
  }

  /** The same for odd moduli above 1, with one coefficient only; see InverseSign for the sign. */
  method InvModOdd(a: MpInt, b: MpInt, c: MpInt) returns (err: Outcome)
    requires a.Valid() && b.Valid() && c.Valid() && 0 <= b.Value()
    modifies c
    ensures c.Valid()
    ensures err == Okay <==>
      1 < old(b.Value()) && old(b.Value()) % 2 == 1 && exists z :: Cong(old(a.Value()) * z, 1, old(b.Value()))
    ensures err == Okay ==> IsInverse(c.Value(), old(a.Value()), old(b.Value()))
    ensures err != Okay ==> c.Value() == old(c.Value())
  {
    var x := b.Value();
    if x % 2 == 0 {
      return BadValue;
    }
    ghost var v := a.Value();
    DigitsOf(a);
    var y := Residue(a, b);
    if x == 0 || y == 0 {
      NoInverse(v, x);
      return BadValue;
    }
    var sign := a.sign;
    var found, r := InverseValue(a.Value(), x, y);
    if !found {
      return BadValue;
    }
    SetSigned(c, r, sign);
    return Okay;
  }

  /** c = r with the sign given. */
  method SetSigned(c: MpInt, r: int, sign: Sign)
    requires 0 < r
    modifies c
    ensures c.Valid() && c.Value() == if sign == Neg then -r else r
  {
    c.Set(r);
    DigitsOf(c);
    c.sign := sign;
  }

  lemma {:induction false} NoInverse(a: int, x: nat)
    requires 0 < x && a % x == 0
    ensures 1 < x ==> !exists z :: Cong(a * z, 1, x)
  {
    InvertibleIff(a, x);
  }

  lemma {:induction false} OddInverse(a: int, x: int, y: int, d: int, r: int)
    requires 1 < x && Cong(a, y, x) && Cong(d * y, 1, x) && 0 <= r < x && Cong(r, d, x)
    ensures 0 < r && Cong(a * r, 1, x) && Cong(a * (-r), -1, x)
  {
    CongMul(a, y, r, d, x);
    CongAdd(0, 0, a * r, 1, x);
    assert a * (-r) == 0 - a * r;
    ModSmall(1, x);
    ModSmall(0, x);
  }

  // ----- the choice -----

  /** c = 1/a mod b. */
  method InvMod(a: MpInt, b: MpInt, c: MpInt) returns (err: Outcome)
    requires a.Valid() && b.Valid() && c.Valid()
    modifies c
    ensures c.Valid()
    ensures old(b.Value()) == 1 && 0 <= old(a.Value()) ==> err == Okay && c.Value() == 0
    ensures old(b.Value()) != 1 || old(a.Value()) < 0 ==>
      (err == Okay <==> 1 < old(b.Value()) && exists z :: Cong(old(a.Value()) * z, 1, old(b.Value())))
    ensures err == Okay ==> IsInverse(c.Value(), old(a.Value()), old(b.Value()))
    ensures err != Okay ==> c.Value() == old(c.Value())
  {
    ghost var x, y := a.Value(), b.Value();
    DigitsOf(a);
    DigitsOf(b);
    if a.sign != Neg && b.Value() == 1 {
      c.Set(0);
      return Okay;
    }
    if b.sign == Neg || b.Value() <= 1 {
      return BadValue;
    }
    if b.Value() % 2 == 1 {
      err := InvModOdd(a, b, c);
    } else {
      err := InvModGeneral(a, b, c);
    }
  }
}
