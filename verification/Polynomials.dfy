/** Numbers as polynomials over the field of two elements: bit i is the
    coefficient of x^i. */
module Polynomials {
  import opened Arith
  import T = TwosComplement

  // ----- sums -----

  /** The sum is the exclusive or. */
  function Add(a: nat, b: nat): nat {
    AddNonNeg(a, b);
    T.Bitwise(T.Xor, a, b)
  }

  lemma {:induction false} AddNonNeg(a: nat, b: nat)
    ensures 0 <= T.Bitwise(T.Xor, a, b)
    decreases a + b
  {
    if a + b != 0 {
      AddNonNeg(a / 2, b / 2);
      T.BitwiseStep(T.Xor, a, b);
    }
  }

  lemma {:induction false} AddStep(a: nat, b: nat)
    ensures Add(a, b) / 2 == Add(a / 2, b / 2) && Add(a, b) % 2 == (a + b) % 2
  {
    T.BitwiseStep(T.Xor, a, b);
  }

  lemma {:induction false} AddNothing()
    ensures Add(0, 0) == 0
  {
  }

  lemma {:induction false} AddZero(a: nat)
    ensures Add(a, 0) == a && Add(0, a) == a
    decreases a
  {
    hide Add;
    AddNothing();
    if a != 0 {
      AddZero(a / 2);
      AddStep(a, 0);
      AddStep(0, a);
    }
  }

  lemma {:induction false} AddSelf(a: nat)
    ensures Add(a, a) == 0
    decreases a
  {
    hide Add;
    AddNothing();
    if a != 0 {
      AddSelf(a / 2);
      AddStep(a, a);
    }
  }

  lemma {:induction false} AddCommutes(a: nat, b: nat)
    ensures Add(a, b) == Add(b, a)
    decreases a + b
  {
    hide Add;
    AddNothing();
    if a + b != 0 {
      AddCommutes(a / 2, b / 2);
      AddStep(a, b);
      AddStep(b, a);
    }
  }

  lemma {:induction false} AddAssociates(a: nat, b: nat, c: nat)
    ensures Add(Add(a, b), c) == Add(a, Add(b, c))
    decreases a + b + c
  {
    hide Add;
    AddNothing();
    if a + b + c != 0 {
      AddAssociates(a / 2, b / 2, c / 2);
      AddStep(a, b);
      AddStep(b, c);
      AddStep(Add(a, b), c);
      AddStep(a, Add(b, c));
    }
  }

  lemma {:induction false} AddDoubles(a: nat, b: nat)
    ensures Add(2 * a, 2 * b) == 2 * Add(a, b)
  {
    hide Add;
    AddStep(2 * a, 2 * b);
  }

  /** The terms of a sum of four in another order. */
  lemma {:induction false} AddExchange(a: nat, b: nat, c: nat, d: nat)
    ensures Add(Add(a, b), Add(c, d)) == Add(Add(a, c), Add(b, d))
  {
    hide Add;
    AddAssociates(a, b, Add(c, d));
    AddAssociates(b, c, d);
    AddCommutes(b, c);
    AddAssociates(c, b, d);
    AddAssociates(a, c, Add(b, d));
  }

  /** What is added twice is gone. */
  lemma {:induction false} AddCancels(a: nat, b: nat)
    ensures Add(Add(a, b), b) == a
  {
    hide Add;
    AddAssociates(a, b, b);
    AddSelf(b);
    AddZero(a);
  }

  // ----- products -----

  /** The product: x times the product with the upper coefficients of `a`, and
      `b` for its lowest. */
  function Times(a: nat, b: nat): nat {
    if a == 0 then 0 else Add(Lowest(a, b), 2 * Times(a / 2, b))
  }

  function Lowest(a: nat, b: nat): nat {
    if a % 2 == 1 then b else 0
  }

  lemma {:induction false} TimesStep(a: nat, b: nat)
    ensures Times(a, b) == Add(Lowest(a, b), 2 * Times(a / 2, b))
  {
    AddNothing();
  }

  lemma {:induction false} TimesSum(a: nat, b: nat, c: nat)
    ensures Times(a, Add(b, c)) == Add(Times(a, b), Times(a, c))
    decreases a
  {
    hide Add;
    AddNothing();
    if a != 0 {
      TimesSum(a / 2, b, c);
      AddDoubles(Times(a / 2, b), Times(a / 2, c));
      AddExchange(Lowest(a, b), Lowest(a, c), 2 * Times(a / 2, b), 2 * Times(a / 2, c));
    }
  }

  lemma {:induction false} SumTimes(a: nat, b: nat, c: nat)
    ensures Times(Add(a, b), c) == Add(Times(a, c), Times(b, c))
    decreases a + b
  {
    hide Add, Times;
    AddNothing();
    if a + b == 0 {
      TimesStep(0, c);
      AddZero(Times(0, c));
      ZeroTimes(c);
    } else {
      SumTimes(a / 2, b / 2, c);
      AddStep(a, b);
      TimesStep(a, c);
      TimesStep(b, c);
      TimesStep(Add(a, b), c);
      LowestSum(a, b, c);
      AddDoubles(Times(a / 2, c), Times(b / 2, c));
      AddExchange(Lowest(a, c), 2 * Times(a / 2, c), Lowest(b, c), 2 * Times(b / 2, c));
    }
  }

  lemma {:induction false} ZeroTimes(c: nat)
    ensures Times(0, c) == 0
  {
  }

  lemma {:induction false} LowestSum(a: nat, b: nat, c: nat)
    ensures Lowest(Add(a, b), c) == Add(Lowest(a, c), Lowest(b, c))
  {
    hide Add;
    AddStep(a, b);
    AddZero(c);
    AddSelf(c);
    AddNothing();
  }

  lemma {:induction false} TimesDouble(a: nat, b: nat)
    ensures Times(a, 2 * b) == 2 * Times(a, b)
    decreases a
  {
    hide Add;
    if a != 0 {
      TimesDouble(a / 2, b);
      AddDoubles(Lowest(a, b), 2 * Times(a / 2, b));
    }
  }

  lemma {:induction false} TimesOne(a: nat)
    ensures Times(a, 0) == 0 && Times(a, 1) == a
    decreases a
  {
    hide Add;
    AddNothing();
    if a != 0 {
      TimesOne(a / 2);
      SplitLowest(a);
    }
  }

  lemma {:induction false} SplitLowest(a: nat)
    ensures Add(a % 2, 2 * (a / 2)) == a && Add(2 * (a / 2), a % 2) == a
  {
    hide Add;
    AddStep(a % 2, 2 * (a / 2));
    AddZero(a / 2);
    AddCommutes(a % 2, 2 * (a / 2));
  }

  lemma {:induction false} TimesCommutes(a: nat, b: nat)
    ensures Times(a, b) == Times(b, a)
    decreases a
  {
    hide Add;
    TimesOne(b);
    if a != 0 {
      TimesCommutes(a / 2, b);
      SplitLowest(a);
      TimesSum(b, a % 2, 2 * (a / 2));
      TimesDouble(b, a / 2);
    }
  }

  // ----- remainders modulo x^8 + x^4 + x^3 + x + 1 -----

  const MODULUS: nat := 0x11b

  /** `r` has a degree below eight and differs from `n` by a multiple of the modulus. */
  ghost predicate IsRemainder(r: nat, n: nat) {
    r < 256 && exists q: nat :: Differs(r, n, q)
  }

  predicate Differs(r: nat, n: nat, q: nat) {
    n == Add(r, Times(q, MODULUS))
  }

  /** A multiple of the modulus other than zero has at least its degree. */
  lemma {:induction false} MultipleDegree(q: nat)
    requires 0 < q
    ensures 256 <= Times(q, MODULUS)
    decreases q
  {
    hide Add, T.Bitwise;
    if q == 1 {
      ZeroTimes(MODULUS);
      AddZero(MODULUS);
    } else {
      MultipleDegree(q / 2);
      HighKept(Lowest(q, MODULUS), 2 * Times(q / 2, MODULUS));
    }
  }

  lemma {:induction false} HighKept(low: nat, high: nat)
    requires low < 512 <= high
    ensures 512 <= Add(low, high)
  {
    hide T.Bitwise;
    PowerOfNine();
    T.BitwiseRange(T.Xor, 9, low, high % 512);
    T.BitwiseSplit(T.Xor, 9, low, high % 512, 0, high / 512, low, high);
    AddZero(high / 512);
  }

  lemma {:induction false} PowerOfNine()
    ensures Pow(2, 9) == 512 && Pow(2, 8) == 256
  {
    assert Pow(2, 3) == 8;
    assert Pow(2, 6) == 64;
  }

  /** There is only one remainder. */
  lemma {:induction false} RemainderUnique(r: nat, s: nat, n: nat)
    requires IsRemainder(r, n) && IsRemainder(s, n)
    ensures r == s
  {
    hide Add, Times, T.Bitwise;
    var q: nat :| Differs(r, n, q);
    var p: nat :| Differs(s, n, p);
    SameSum(r, Times(q, MODULUS), s, Times(p, MODULUS));
    SumTimes(q, p, MODULUS);
    SmallSum(r, s);
    if Add(q, p) != 0 {
      MultipleDegree(Add(q, p));
      assert false;
    }
    ZeroTimes(MODULUS);
    AddCancels(r, s);
    AddZero(s);
  }

  lemma {:induction false} SmallSum(r: nat, s: nat)
    requires r < 256 && s < 256
    ensures Add(r, s) < 256
  {
    PowerOfNine();
    T.BitwiseRange(T.Xor, 8, r, s);
  }

  lemma {:induction false} SameSum(r: nat, u: nat, s: nat, v: nat)
    requires Add(r, u) == Add(s, v)
    ensures Add(r, s) == Add(u, v)
  {
    hide Add;
    AddExchange(r, s, u, v);
    AddSelf(Add(r, u));
    AddCancels(Add(r, s), Add(u, v));
    AddZero(Add(u, v));
  }
}
