/** One round of the Miller-Rabin test. */
module MillerRabin {
  import opened Arith
  import opened Digits
  import opened MpInts
  import opened NumberTheory
  import opened Primes
  import ExptMod
  import ModulusShape

  /** a - 1 = 2^s * r with an odd r. */
  function Twos(a: int): nat
    requires 1 < a
  {
    LowZeros(a - 1)
  }

  function OddExponent(a: int): nat
    requires 1 < a
  {
    OddPart(a - 1);
    DivNonNeg(a - 1, Pow(2, Twos(a)));
    (a - 1) / Pow(2, Twos(a))
  }

  /** b^(r * 2^j), by j squarings. */
  ghost function Squared(b: int, r: nat, j: nat): int {
    if j == 0 then Pow(b, r) else Squared(b, r, j - 1) * Squared(b, r, j - 1)
  }

  lemma {:induction false} SquaredIsPower(b: int, r: nat, j: nat)
    ensures 0 <= r * Pow(2, j) && Squared(b, r, j) == Pow(b, r * Pow(2, j))
  {
    PowPos(2, j);
    MulNonNeg(r, Pow(2, j));
    if j != 0 {
      SquaredIsPower(b, r, j - 1);
      var e := r * Pow(2, j - 1);
      PowAdd(b, e, e);
      Assoc(r, 2, Pow(2, j - 1));
      Assoc(2, r, Pow(2, j - 1));
    } else {
      assert Pow(2, 0) == 1;
    }
  }

  /** The strong pseudoprime condition: b^r is 1, or one of its squarings is -1
      before the last. */
  ghost predicate PassesRound(a: int, b: int)
    requires 1 < a
  {
    var r := OddExponent(a);
    Cong(Pow(b, r), 1, a) || exists j: nat :: j < Max(Twos(a), 1) && Cong(Squared(b, r, j), -1, a)
  }

  // ----- primes pass -----

  /** No squaring up to `j` is -1. */
  ghost predicate NotYet(a: int, b: int, r: nat, j: nat)
    requires 0 < a
  {
    forall i: nat :: i < j ==> !Cong(Squared(b, r, i), -1, a)
  }

  /** Backwards from a one: every root is one. */
  lemma {:induction false} RootsBackwards(a: int, b: int, r: nat, s: nat)
    requires IsPrime(a) && Cong(Squared(b, r, s), 1, a) && NotYet(a, b, r, s)
    ensures Cong(Pow(b, r), 1, a)
  {
    if s != 0 {
      RootsOfOne(Squared(b, r, s - 1), a);
      RootsBackwards(a, b, r, s - 1);
    }
  }

  /** Every odd prime passes, to every base it does not divide. */
  lemma {:induction false} PrimesPass(a: int, b: nat)
    requires IsPrime(a) && !Divides(a, b)
    ensures PassesRound(a, b)
  {
    var r, s := OddExponent(a), Twos(a);
    Fermat(b, a);
    OddPart(a - 1);
    SquaredIsPower(b, r, s);
    if NotYet(a, b, r, s) {
      RootsBackwards(a, b, r, s);
    }
  }

  // ----- the round -----

  /** Minus one is represented by a - 1 only. */
  lemma {:induction false} MinusOne(y: int, a: int)
    requires 0 <= y < a
    ensures y == a - 1 <==> Cong(y, -1, a)
    ensures 1 < a ==> (y == 1 <==> Cong(y, 1, a))
  {
    ModSmall(y, a);
    DivModUnique(-1, a, -1, a - 1);
    if 1 < a {
      ModSmall(1, a);
    }
  }

  /** Once 1 is reached the squarings stay there. */
  lemma {:induction false} OnesForward(a: int, b: int, r: nat, j: nat, k: nat)
    requires 2 < a && j <= k && Cong(Squared(b, r, j), 1, a)
    ensures Cong(Squared(b, r, k), 1, a) && !Cong(Squared(b, r, k), -1, a)
  {
    if j < k {
      OnesForward(a, b, r, j, k - 1);
      CongMul(Squared(b, r, k - 1), 1, Squared(b, r, k - 1), 1, a);
    }
    ModSmall(1, a);
    DivModUnique(-1, a, -1, a - 1);
  }

  lemma {:induction false} FailsAfterOne(a: int, b: int, j: nat)
    requires 2 < a && Cong(Squared(b, OddExponent(a), j), 1, a) && NotYet(a, b, OddExponent(a), j)
    requires !Cong(Pow(b, OddExponent(a)), 1, a)
    ensures !PassesRound(a, b)
  {
    var r := OddExponent(a);
    forall i: nat | i < Max(Twos(a), 1)
      ensures !Cong(Squared(b, r, i), -1, a)
    {
      if j <= i {
        OnesForward(a, b, r, j, i);
      }
    }
  }

  /** The value after `j - 1` squarings, none of them -1 before. */
  ghost predicate AtSquaring(y: int, a: int, b: int, j: int) {
    && 2 < a && 1 <= j <= Max(Twos(a), 1) && 0 <= y < a
    && Cong(y, Squared(b, OddExponent(a), j - 1), a)
    && NotYet(a, b, OddExponent(a), j - 1)
    && !Cong(Pow(b, OddExponent(a)), 1, a)
  }

  lemma {:induction false} NextSquaring(y: int, a: int, b: int, j: int)
    requires AtSquaring(y, a, b, j) && j <= Twos(a) - 1 && y != a - 1
    ensures var z := (y * y) % a;
      if z == 1 then !PassesRound(a, b) else AtSquaring(z, a, b, j + 1)
  {
    var r := OddExponent(a);
    var z := (y * y) % a;
    MinusOne(y, a);
    CongMul(y, Squared(b, r, j - 1), y, Squared(b, r, j - 1), a);
    ModIdem(y * y, a);
    MinusOne(z, a);
    assert Cong(z, Squared(b, r, j), a);
    if z == 1 {
      FailsAfterOne(a, b, j);
    }
  }

  lemma {:induction false} LastSquaring(y: int, a: int, b: int, j: int)
    requires AtSquaring(y, a, b, j) && (j == Max(Twos(a), 1) || y == a - 1)
    ensures y == a - 1 <==> PassesRound(a, b)
  {
    MinusOne(y, a);
    if y == a - 1 {
      assert j - 1 < Max(Twos(a), 1) && Cong(Squared(b, OddExponent(a), j - 1), -1, a);
    }
  }

  /** The squaring loop: it stops at -1 (pass), at 1 (fail), or when the squarings run out (fail). */
  method Squarings(y: MpInt, a: MpInt, n1: int, s: nat, ghost b: int, ghost sound: bool) returns (result: bool)
    requires y.Valid() && a.Valid() && y != a && 0 < a.Value() && n1 == a.Value() - 1
    requires sound ==> AtSquaring(y.Value(), a.Value(), b, 1) && s == Twos(a.Value())
    modifies y
    ensures sound ==> (result <==> PassesRound(old(a.Value()), b))
    ensures s <= 1 ==> (result <==> old(y.Value()) == n1)
  {
    ghost var m := a.Value();
    var j := 1;
    while j <= s - 1 && y.Value() != n1
      invariant 1 <= j && y.Valid() && a.Valid() && a.Value() == m
      invariant sound ==> AtSquaring(y.Value(), m, b, j)
      invariant s <= 1 ==> y.Value() == old(y.Value())
      decreases s - j
    {
      if sound {
        NextSquaring(y.Value(), m, b, j);
      }
      ExptMod.MulMod(y, y, a, y);
      if y.Value() == 1 {
        return false;
      }
      j := j + 1;
    }
    if sound {
      LastSquaring(y.Value(), m, b, j);
    }
    return y.Value() == n1;
  }

  /** What the power that starts a round says about it. */
  lemma {:induction false} StartOfRound(y: int, a: int, b: int)
    requires 2 < a && ExptMod.IsPower(y, b, OddExponent(a), a)
    ensures y == 1 ==> PassesRound(a, b)
    ensures y == a - 1 ==> PassesRound(a, b)
    ensures y != 1 ==> AtSquaring(y, a, b, 1)
  {
    var r := OddExponent(a);
    OddPart(a - 1);
    ModIdem(Pow(b, r), a);
    MinusOne(y, a);
    assert Squared(b, r, 0) == Pow(b, r);
  }

  /** Below 3 there are no bits to cut, and the power is the first or the zeroth. */
  lemma {:induction false} SmallModulus(a: int, b: int)
    requires 1 <= a <= 2
    ensures !ModulusShape.LosesDifference(a) && LowZeros(a - 1) == 0 && Pow(2, 0) == 1
    ensures Pow(b, 0) == 1 && Pow(b, 1) == b && Truncated(a - 1, 1) == a - 1
  {
    if ModulusShape.LosesDifference(a) {
      var j: nat :| 2 <= j < DIGIT_BIT && a == (Pow(2, j) - 1) * B;
      RadixFacts();
      PowLe(2, 2, j);
      assert Pow(2, 2) == 4;
      MulLe(1, Pow(2, j) - 1, B);
    }
  }

  /** y = b^r mod a, where a - 1 = 2^s * r. */
  method FirstPower(a: MpInt, b: MpInt) returns (err: Outcome, n1: int, s: nat, y: MpInt)
    requires a.Valid() && b.Valid()
    ensures fresh(y) && y.Valid() && n1 == a.Value() - 1
    ensures err == Okay <==> 0 < a.Value()
    ensures 2 < a.Value() && !ModulusShape.LosesDifference(a.Value()) ==>
      && err == Okay && s == Twos(a.Value())
      && ExptMod.IsPower(y.Value(), b.Value(), OddExponent(a.Value()), a.Value())
    ensures 1 <= a.Value() <= 2 ==> err == Okay && s <= 1 && y.Value() == if a.Value() == 1 then 1 else b.Value() % 2
  {
    if 1 <= a.Value() <= 2 {
      SmallModulus(a.Value(), b.Value());
    }
    n1 := a.Value() - 1;
    s := LowZeros(Abs(n1));
    PowPos(2, s);
    var r := new MpInt.Of(Truncated(n1, Pow(2, s)));
    if 2 < a.Value() {
      OddPart(n1);
    }
    if 0 < a.Value() {
      DivNonNeg(n1, Pow(2, s));
    }
    y := new MpInt();
    err := ExptMod.ExptMod(b, r, a, y);
  }

  /** Miller-Rabin to the base b: true exactly when `a` passes the round; an odd
      prime is never rejected to a base above 1 that it does not divide. */
  method Round(a: MpInt, b: MpInt) returns (err: Outcome, result: bool)
    requires a.Valid() && b.Valid()
    ensures b.Value() <= 1 ==> err == BadValue
    ensures err == Okay <==> 1 < b.Value() && 0 < a.Value()
    ensures 1 < b.Value() && 2 < a.Value() && !ModulusShape.LosesDifference(a.Value()) ==>
      err == Okay && (result <==> PassesRound(a.Value(), b.Value()))
    ensures 1 < b.Value() && 2 < a.Value() && IsPrime(a.Value()) && !Divides(a.Value(), b.Value()) ==>
      err == Okay && result
    ensures 1 < b.Value() && a.Value() == 2 ==> err == Okay && (result <==> b.Value() % 2 == 1)
    ensures 1 < b.Value() && a.Value() == 1 ==> err == Okay && result
  {
    result := false;
    if b.Value() <= 1 {
      return BadValue, result;
    }
    if IsPrime(a.Value()) && !Divides(a.Value(), b.Value()) {
      PrimeModulus(a.Value());
      PrimesPass(a.Value(), b.Value());
    }
    var n1, s, y;
    err, n1, s, y := FirstPower(a, b);
    if err != Okay {
      return;
    }
    ghost var sound := 2 < a.Value() && !ModulusShape.LosesDifference(a.Value());
    if sound {
      StartOfRound(y.Value(), a.Value(), b.Value());
    }
    result := true;
    if y.Value() != 1 && y.Value() != n1 {
      result := Squarings(y, a, n1, s, b.Value(), sound);
    }
  }

  /** No prime loses its difference. */
  lemma {:induction false} PrimeModulus(a: int)
    requires IsPrime(a)
    ensures !ModulusShape.LosesDifference(a)
  {
    if a % 2 == 0 && a != 2 {
      assert Divides(2, a);
    }
    if j: nat :| 2 <= j < DIGIT_BIT && a == (Pow(2, j) - 1) * B {
      RadixFacts();
      ParityOfProduct(Pow(2, j) - 1, B);
      PowLe(2, 2, j);
      assert Pow(2, 2) == 4;
      MulLe(1, Pow(2, j) - 1, B);
    }
  }
}
