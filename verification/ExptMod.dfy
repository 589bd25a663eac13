/** Modular exponentiation: the two window routines, and the choice of the
    reducer by the shape of the modulus. */
module ExptMod {
  import opened Arith
  import opened Digits
  import opened MpInts
  import opened ExptWindow
  import Divide
  import Multiply
  import Montgomery
  import Barrett
  import DR = DiminishedRadix
  import TwoK
  import Inverse
  import opened ModulusShape
  import opened NumberTheory

  /** `y` is the power; the power zero is 1 even modulo 1. */
  ghost predicate IsPower(y: int, g: int, x: int, p: int) {
    0 < p && 0 <= x && y == if x == 0 then 1 else Pow(g, x) % p
  }

  /** A power of the reduced base that stays below the modulus is the result. */
  ghost predicate RightIfSmall(y: int, g: int, x: int, p: int) {
    0 < p && 0 <= x && (Pow(g % p, x) < p ==> y == Pow(g % p, x))
  }

  /** The power is, in particular, right for small powers. */
  lemma {:induction false} PowerIsSmall(y: int, g: int, x: int, p: int)
    requires IsPower(y, g, x, p)
    ensures RightIfSmall(y, g, x, p)
  {
    if Pow(g % p, x) < p && x != 0 {
      ModIdem(g, p);
      CongPow(g % p, g, x, p);
      PowNonNeg(g % p, x);
      ModSmall(Pow(g % p, x), p);
    }
  }

  lemma {:induction false} PowNonNeg(b: nat, e: nat)
    ensures 0 <= Pow(b, e)
  {
    if e != 0 {
      PowNonNeg(b, e - 1);
      MulNonNeg(b, Pow(b, e - 1));
    }
  }

  /** This is the residue of the power except for the power zero modulo 1. */
  lemma {:induction false} IsPowerIff(y: int, g: int, x: nat, p: int)
    requires IsPower(y, g, x, p)
    ensures y == Pow(g, x) % p <==> 0 < x || 1 < p
  {
    if 1 < p {
      ModSmall(1, p);
    }
  }

  // ----- a run of the window machine -----

  /** The table, then the exponent: `res` becomes `first` to the power X. */
  method Run(res: MpInt, first: MpInt, X: MpInt, P: MpInt, red: Reducer, ghost ring: Ring)
    requires X.Valid() && 0 <= X.Value() && res != P && res != X && res != first
    requires Running(red, P, ring) && res.Valid() && ring.Holds(res.Value(), 0) && IsEntry(first, 1, ring, false)
    modifies res
    ensures res.Valid() && ring.Holds(res.Value(), X.Value())
    ensures SquareVanishes(red, first.Value(), ring.p) && X.Value() == 2 ==> res.Value() == 0
    ensures X.Value() == 0 ==> res.Value() == old(res.Value())
  {
    DigitsOf(X);
    var bits := CountBits(X);
    var ws := WindowSize(bits);
    ghost var zero := SquareVanishes(red, first.Value(), ring.p);
    var M := new MpInt?[TAB_SIZE](_ => null);
    BuildTable(M, first, P, red, ws, ring, res);
    TableSizes(ws);
    Slide(res, M, X.dp, P, red, ws, ring, zero);
    if X.Value() == 2 {
      assert Bits(2) == 2 && Pow(2, 1) == 2;
    }
  }

  /** Residues that carry no factor are the power itself. */
  lemma {:induction false} PlainResult(v: int, e: nat, ring: Ring)
    requires ring.Holds(v, e) && ring.exact && ring.r == 1 && (e == 0 ==> v == 1)
    ensures IsPower(v, ring.g, e, ring.p)
  {
    if e != 0 {
      CongUnique(v, Pow(ring.g, e), ring.p);
    }
  }

  /** One more reduction removes the factor. */
  lemma {:induction false} FactorRemoved(v: int, x: int, e: nat, ring: Ring)
    requires ring.Cancels() && ring.exact && ring.Holds(v, e) && 0 <= x < ring.p && Cong(x * ring.r, v, ring.p)
    requires 1 < ring.p
    ensures IsPower(x, ring.g, e, ring.p)
  {
    assert Cong(x * ring.r, Pow(ring.g, e) * ring.r, ring.p);
    CongUnique(x, Pow(ring.g, e), ring.p);
    if e == 0 {
      ModSmall(1, ring.p);
    }
  }

  // ----- the fast routine -----

  /** The condition on the modulus under which a mode computes powers. */
  ghost predicate ModeFits(redmode: int, P: MpInt)
    requires P.Valid()
    reads P
  {
    match redmode
    case 0 => 0 <= P.Value()
    case 1 => DR.IsDr(P.dp) && 0 < P.Value()
    case _ => 0 < P.Value()
  }

  /** The low digit of the difference from the power of two above is the whole
      difference, or dropping it does no harm. */
  ghost predicate Accurate(redmode: int, p: int) {
    redmode != 0 && redmode != 1 && 0 < p ==>
      Exact(TwoKBy((TwoK.PowerAbove(p) - p) % B), p)
  }

  /** The mode loses the square of the base altogether. */
  ghost predicate SquareLost(redmode: int, g: int, p: int) {
    redmode != 0 && redmode != 1 && 0 < p &&
    SquareVanishes(TwoKBy((TwoK.PowerAbove(p) - p) % B), g % p, p)
  }

  /** The setup for a diminished radix modulus. */
  method SetupDiminished(P: MpInt) returns (red: Reducer)
    requires P.Valid() && ModeFits(1, P)
    ensures red.DiminishedBy? && Ready(red, P)
  {
    var k := DR.Setup(P);
    red := DiminishedBy(k);
  }

  /** The setups of the three modes of the fast form. */
  method SetupFast(P: MpInt, redmode: int) returns (err: Outcome, red: Reducer)
    requires P.Valid() && ModeFits(redmode, P)
    ensures err == if redmode == 0 && P.Value() % 2 == 0 then BadValue else Okay
    ensures err == Okay ==> Ready(red, P) && red.MontgomeryBy? == (redmode == 0)
    ensures err == Okay && redmode != 0 && redmode != 1 ==> red == TwoKBy((TwoK.PowerAbove(P.Value()) - P.Value()) % B)
    ensures err == Okay && redmode == 1 ==> red.DiminishedBy?
  {
    err := Okay;
    if redmode == 0 {
      var rho: int;
      err, rho := Montgomery.Setup(P);
      red := MontgomeryBy(rho, 2 * |P.dp| + 1 < WARRAY && |P.dp| < MAX_COMBA);
    } else if redmode == 1 {
      red := SetupDiminished(P);
    } else {
      var d := TwoK.Setup(P);
      red := TwoKBy(d);
    }
  }

  /** c = a * b mod n */
  method MulMod(a: MpInt, b: MpInt, n: MpInt, c: MpInt)
    requires a.Valid() && b.Valid() && n.Valid() && c.Valid() && c != n && 0 < n.Value()
    modifies c
    ensures c.Valid() && c.Value() == (old(a.Value()) * old(b.Value())) % n.Value()
  {
    var t := new MpInt();
    Multiply.Mul(a, b, t);
    var err := Divide.Mod(t, n, c);
  }

  /** The start value and the first entry of the table. */
  method Start(G: MpInt, P: MpInt, red: Reducer) returns (res: MpInt, first: MpInt)
    requires G.Valid() && Ready(red, P)
    ensures fresh(res) && fresh(first) && res != first && res.Valid() && first.Valid()
    ensures RingOf(red, P, G.Value()).Holds(res.Value(), 0) && RingOf(red, P, G.Value()).Holds(first.Value(), 1)
    ensures !red.MontgomeryBy? ==> res.Value() == 1 && first.Value() == G.Value() % P.Value()
  {
    assert Pow(G.Value() % P.Value(), 0) == 1 && Pow(G.Value() % P.Value(), 1) == G.Value() % P.Value();
    assert Pow(G.Value(), 0) == 1 && Pow(G.Value(), 1) == G.Value();
    hide Pow, Cong;
    res := new MpInt();
    first := new MpInt();
    ghost var ring := RingOf(red, P, G.Value());
    if red.MontgomeryBy? {
      DigitsOf(P);
      RadixAboveOne(|P.dp|);
      Montgomery.CalcNormalization(res, P);
      ModIdem(ring.r, ring.p);
      MulMod(G, res, P, first);
      CongMul(G.Value(), G.Value(), res.Value(), ring.r, ring.p);
      ModIdem(G.Value() * res.Value(), ring.p);
    } else {
      res.Set(1);
      var err := Divide.Mod(G, P, first);
      ModIdem(G.Value(), ring.p);
    }
  }

  /** Y = G^X mod P over Montgomery, diminished radix or 2k reduction. */
  method ExptModFast(G: MpInt, X: MpInt, P: MpInt, Y: MpInt, redmode: int) returns (err: Outcome)
    requires G.Valid() && X.Valid() && P.Valid() && Y.Valid() && 0 <= X.Value() && ModeFits(redmode, P)
    modifies Y
    ensures Y.Valid() && err == if redmode == 0 && old(P.Value()) % 2 == 0 then BadValue else Okay
    ensures err == Okay && Accurate(redmode, old(P.Value())) && (redmode == 0 ==> old(P.Value()) != 1) ==>
      IsPower(Y.Value(), old(G.Value()), old(X.Value()), old(P.Value()))
    ensures redmode == 0 && old(P.Value()) == 1 ==> Y.Value() == 0
    ensures err == Okay && SquareLost(redmode, old(G.Value()), old(P.Value())) && old(X.Value()) == 2 ==> Y.Value() == 0
    ensures err == Okay && redmode != 0 ==> RightIfSmall(Y.Value(), old(G.Value()), old(X.Value()), old(P.Value()))
    ensures err != Okay ==> Y.Value() == old(Y.Value())
  {
    hide Pow, Cong, TwoK.FoldResult;
    var red: Reducer;
    err, red := SetupFast(P, redmode);
    if err != Okay {
      return;
    }
    var res, first := Start(G, P, red);
    ghost var ring := RingOf(red, P, G.Value());
    RadixCancels(red, P, G.Value());
    Run(res, first, X, P, red, ring);
    if redmode == 0 {
      ghost var v := res.Value();
      FitsAlone(v, ring.p);
      Redux(res, P, red);
      if P.Value() != 1 {
        FactorRemoved(v, res.Value(), X.Value(), ring);
      }
    } else if ring.exact {
      PlainResult(res.Value(), X.Value(), ring);
    }
    Exchange(res, Y);
  }

  lemma {:induction false} FitsAlone(v: int, p: int)
    requires 0 <= v < p || v == p == 1
    ensures v <= Room(p)
  {
    if 1 < p {
      MulLe(1, p - 1, p - 1);
    }
  }

  // ----- the generic routine -----

  /** The setups of the two modes of the generic form. */
  method SetupGeneric(P: MpInt, redmode: int) returns (err: Outcome, red: Reducer)
    requires P.Valid() && 0 <= P.Value() && (redmode != 0 ==> P.Value() != 0)
    ensures err == if P.Value() == 0 then BadValue else Okay
    ensures err == Okay ==> Ready(red, P) && !red.MontgomeryBy? && !red.TwoKBy?
  {
    var mu := new MpInt();
    if redmode == 0 {
      err := Barrett.Setup(mu, P);
      red := BarrettBy(mu.Value());
    } else {
      TwoK.SetupLarge(P, mu);
      err := Okay;
      red := TwoKLargeBy(mu.Value());
    }
  }

  /** Y = G^X mod P over Barrett reduction or 2k reduction with a long difference. */
  method ExptModGeneric(G: MpInt, X: MpInt, P: MpInt, Y: MpInt, redmode: int) returns (err: Outcome)
    requires G.Valid() && X.Valid() && P.Valid() && Y.Valid() && 0 <= X.Value()
    requires 0 <= P.Value() && (redmode != 0 ==> P.Value() != 0)
    modifies Y
    ensures Y.Valid() && err == if old(P.Value()) == 0 then BadValue else Okay
    ensures err == Okay ==> IsPower(Y.Value(), old(G.Value()), old(X.Value()), old(P.Value()))
    ensures err != Okay ==> Y.Value() == old(Y.Value())
  {
    var red: Reducer;
    err, red := SetupGeneric(P, redmode);
    if err != Okay {
      return;
    }
    var res, first := Start(G, P, red);
    ghost var ring := RingOf(red, P, G.Value());
    RadixCancels(red, P, G.Value());
    Run(res, first, X, P, red, ring);
    PlainResult(res.Value(), X.Value(), ring);
    Exchange(res, Y);
  }

  // ----- the choice -----

  /** For which exponents and moduli the power exists: the modulus is positive,
      and a negative exponent needs an inverse. */
  ghost predicate Defined(g: int, x: int, p: int) {
    0 < p && (x < 0 ==> if p == 1 then 0 <= g else exists z :: Cong(g * z, 1, p))
  }

  /** What the one-digit 2k mode does, by the modulus. */
  lemma {:induction false} OneDigitMode(P: MpInt)
    requires P.Valid() && 0 < P.Value() && TwoK.AllOnesAbove(P.Value()) && !MostlyOnes(P.dp)
    ensures ModeFits(2, P)
    ensures !LosesDifference(P.Value()) ==> Accurate(2, P.Value())
    ensures LosesDifference(P.Value()) ==> SquareLost(2, B, P.Value())
  {
    DigitsOf(P);
    var n: nat := P.Value();
    var w := TwoK.PowerAbove(n);
    BPSucc(0);
    BPLe(1, |P.dp| - 1);
    if n % B != 0 {
      TwoK.RadixDividesPower(n);
      TwoK.DifferenceIsDigit(n, w, w / B);
    } else if n == B {
      TwoK.PowerAboveRadix();
      DivModUnique(B, B, 1, 0);
    } else {
      LeftForOneDigit(P.dp);
    }
    if j: nat :| 2 <= j < DIGIT_BIT && n == (Pow(2, j) - 1) * B {
      LosesDifferenceShape(P.dp, j);
      Distribute(Pow(2, j), 1, B);
      DivModUnique(B, B, 1, 0);
      ModSmall(B, n);
      SquareFoldsToZero(j);
    }
  }

  lemma {:induction false} LosesDifferencePositive(p: int)
    requires LosesDifference(p)
    ensures 0 < p
  {
    var j: nat :| 2 <= j < DIGIT_BIT && p == (Pow(2, j) - 1) * B;
    assert Pow(2, 2) == 4;
    PowLe(2, 2, j);
    MulLt(0, Pow(2, j) - 1, B);
  }

  /** Moduli that lose the difference are left for the one-digit 2k mode. */
  lemma {:induction false} LosesDifferenceMode(P: MpInt)
    requires P.Valid() && LosesDifference(P.Value())
    ensures 0 < P.Value() && !MostlyOnes(P.dp) && TwoK.AllOnesAbove(P.Value())
  {
    LosesDifferencePositive(P.Value());
    DigitsOf(P);
    var j: nat :| 2 <= j < DIGIT_BIT && P.Value() == (Pow(2, j) - 1) * B;
    LosesDifferenceShape(P.dp, j);
  }

  /** The reduction mode for a modulus without enough full digits; mode 1 does not occur. */
  method ChooseMode(P: MpInt) returns (dr: int)
    requires P.Valid() && 0 <= P.Value() && !MostlyOnes(P.dp)
    ensures dr == if P.Value() != 0 && TwoK.AllOnesAbove(P.Value()) then 2 else 0
    ensures P.Value() == 0 || B <= P.Value()
  {
    DigitsOf(P);
    if P.dp != [] {
      BPLe(1, |P.dp| - 1);
      BPSucc(0);
    }
    var isDr := DR.IsModulus(P);
    dr := if isDr then 1 else 0;
    if isDr {
      DrIsMostlyOnes(P.dp);
      assert false;
    }
    if dr == 0 {
      var is2k := Is2k(P);
      dr := if is2k then 2 else 0;
    }
  }

  /** The choice for a modulus without enough full digits. */
  method ExptModByShape(G: MpInt, X: MpInt, P: MpInt, Y: MpInt) returns (err: Outcome)
    requires G.Valid() && X.Valid() && P.Valid() && Y.Valid() && 0 <= X.Value() && 0 <= P.Value()
    requires !MostlyOnes(P.dp)
    modifies Y
    ensures Y.Valid() && err == if old(P.Value()) == 0 then BadValue else Okay
    ensures err == Okay && !LosesDifference(old(P.Value())) ==>
      IsPower(Y.Value(), old(G.Value()), old(X.Value()), old(P.Value()))
    ensures 0 < old(P.Value()) && LosesDifference(old(P.Value())) && TwoK.AllOnesAbove(old(P.Value())) ==>
      (old(G.Value()) == B && old(X.Value()) == 2 ==> Y.Value() == 0)
    ensures err == Okay && LosesDifference(old(P.Value())) && TwoK.AllOnesAbove(old(P.Value())) ==>
      RightIfSmall(Y.Value(), old(G.Value()), old(X.Value()), old(P.Value()))
    ensures err != Okay ==> Y.Value() == old(Y.Value())
  {
    var dr := ChooseMode(P);
    if P.Value() % 2 == 1 || dr != 0 {
      if dr != 0 {
        OneDigitMode(P);
      }
      err := ExptModFast(G, X, P, Y, dr);
    } else {
      err := ExptModGeneric(G, X, P, Y, 0);
    }
  }

  /** Y = G^X mod P for a nonnegative exponent. */
  method ExptModPositive(G: MpInt, X: MpInt, P: MpInt, Y: MpInt) returns (err: Outcome)
    requires G.Valid() && X.Valid() && P.Valid() && Y.Valid() && 0 <= X.Value() && 0 <= P.Value()
    modifies Y
    ensures Y.Valid() && err == if old(P.Value()) == 0 then BadValue else Okay
    ensures err == Okay && !LosesDifference(old(P.Value())) ==>
      IsPower(Y.Value(), old(G.Value()), old(X.Value()), old(P.Value()))
    ensures LosesDifference(old(P.Value())) && old(G.Value()) == B && old(X.Value()) == 2 ==> Y.Value() == 0
    ensures err == Okay ==> RightIfSmall(Y.Value(), old(G.Value()), old(X.Value()), old(P.Value()))
    ensures err != Okay ==> Y.Value() == old(Y.Value())
  {
    ghost var g, x, p := G.Value(), X.Value(), P.Value();
    if LosesDifference(P.Value()) {
      LosesDifferenceMode(P);
    }
    var large := Is2kLarge(P);
    if large {
      DigitsOf(P);
      err := ExptModGeneric(G, X, P, Y, 1);
    } else {
      err := ExptModByShape(G, X, P, Y);
    }
    if err == Okay && (large || !LosesDifference(p)) {
      PowerIsSmall(Y.Value(), g, x, p);
    }
  }

  /** The power modulo P, for a negative exponent that of the inverse of the base,
      which for a negative base and an odd modulus has the wrong sign. */
  ghost predicate IsModularPower(y: int, g: int, x: int, p: int) {
    if 0 <= x then IsPower(y, g, x, p)
    else 0 < p && 0 <= y < p && Cong(y * Pow(g, -x), Pow(Inverse.InverseSign(g, p), -x), p)
  }

  /** What a modular power should be: for a negative exponent the inverse of the
      power of the base, and always in range. */
  ghost predicate IsTruePower(y: int, g: int, x: int, p: int) {
    && 0 <= y < p
    && if 0 <= x then Cong(y, Pow(g, x), p) else Cong(y * Pow(g, -x), 1, p)
  }

  /** The arguments for which it is: the power zero modulo 1 is not, and neither is an
      odd negative power of a negative base modulo an odd number above 1. */
  predicate ResultIsTrue(g: int, x: int, p: int) {
    if 0 <= x then 0 < x || 1 < p
    else 0 <= g || x % 2 == 0 || p % 2 == 0 || p == 1
  }

  /** The result is the modular power exactly for these arguments. */
  lemma {:induction false} TruePowerIff(y: int, g: int, x: int, p: int)
    requires IsModularPower(y, g, x, p)
    ensures IsTruePower(y, g, x, p) <==> ResultIsTrue(g, x, p)
  {
    if 0 <= x {
      IsPowerIff(y, g, x, p);
      ModIdem(Pow(g, x), p);
      if 0 <= y < p && Cong(y, Pow(g, x), p) {
        CongUnique(y, Pow(g, x), p);
      }
    } else {
      var v := y * Pow(g, -x);
      PowOne(-x);
      PowMinusOne(-x);
      if p == 1 {
        CongIntro(v, 1, v - 1, 1);
      } else if Inverse.InverseSign(g, p) == -1 && x % 2 != 0 {
        MinusOneIsNotOne(v, p);
      }
    }
  }

  lemma {:induction false} MinusOneIsNotOne(v: int, p: int)
    requires 1 < p && p % 2 == 1 && Cong(v, -1, p)
    ensures !Cong(v, 1, p)
  {
    if Cong(v, 1, p) {
      var k := CongQuotient(1, -1, p);
      if k <= 0 {
        MulLe(k, 0, p);
      } else {
        MulLe(1, k, p);
      }
    }
  }

  lemma {:induction false} PowOne(n: nat)
    ensures Pow(1, n) == 1
  {
    if n != 0 {
      PowOne(n - 1);
    }
  }

  lemma {:induction false} PowMinusOne(n: nat)
    ensures Pow(-1, n) == if n % 2 == 0 then 1 else -1
  {
    if n != 0 {
      PowMinusOne(n - 1);
    }
  }

  /** For one: (-1)^(-1) modulo 3 comes out as 1, and should be 2. */
  lemma {:induction false} WrongSign()
    ensures Defined(-1, -1, 3) && IsModularPower(1, -1, -1, 3)
    ensures !IsTruePower(1, -1, -1, 3) && IsTruePower(2, -1, -1, 3)
  {
    assert Pow(-1, 1) == -1;
    CongIntro(-1 * -1, 1, 0, 3);
    CongIntro(1 * -1, -1, 0, 3);
    CongIntro(2 * -1, 1, -1, 3);
    assert Cong(-1 * -1, 1, 3);
    TruePowerIff(1, -1, -1, 3);
  }

  lemma {:induction false} PowerOfInverse(y: int, g: int, c: int, x: int, p: int)
    requires x < 0 && IsPower(y, c, -x, p) && Inverse.IsInverse(c, g, p)
    ensures IsModularPower(y, g, x, p)
  {
    var s, n: nat := Inverse.InverseSign(g, p), -x;
    var u, v := Pow(c, n), Pow(g, n);
    ModIdem(u, p);
    CongMul(y, u, v, v, p);
    PowMul(g, c, n);
    CongPow(g * c, s, n, p);
    assert u * v == v * u;
  }

  /** Y = (1/G)^|X| mod P. */
  method ExptModNegative(G: MpInt, X: MpInt, P: MpInt, Y: MpInt) returns (err: Outcome)
    requires G.Valid() && X.Valid() && P.Valid() && Y.Valid() && X.Value() < 0 && 0 <= P.Value()
    modifies Y
    ensures Y.Valid() && (err == Okay <==> Defined(old(G.Value()), old(X.Value()), old(P.Value())))
    ensures err == Okay && !LosesDifference(old(P.Value())) ==>
      IsModularPower(Y.Value(), old(G.Value()), old(X.Value()), old(P.Value()))
    ensures err != Okay ==> Y.Value() == old(Y.Value())
  {
    hide Pow, Cong, IsModularPower, IsPower, RightIfSmall, LosesDifference, Inverse.IsInverse;
    ghost var g, x, p := G.Value(), X.Value(), P.Value();
    var inverse := new MpInt();
    var exponent := new MpInt.Of(-X.Value());
    err := Inverse.InvMod(G, P, inverse);
    assert err == Okay <==> Defined(g, x, p);
    hide Defined;
    if err == Okay {
      ghost var c := inverse.Value();
      err := ExptModPositive(inverse, exponent, P, Y);
      if !LosesDifference(p) {
        PowerOfInverse(Y.Value(), g, c, x, p);
      }
    }
  }

  /** Y = G^X mod P. */
  method ExptMod(G: MpInt, X: MpInt, P: MpInt, Y: MpInt) returns (err: Outcome)
    requires G.Valid() && X.Valid() && P.Valid() && Y.Valid()
    modifies Y
    ensures Y.Valid() && (err == Okay <==> Defined(old(G.Value()), old(X.Value()), old(P.Value())))
    ensures err == Okay && !LosesDifference(old(P.Value())) ==>
      IsModularPower(Y.Value(), old(G.Value()), old(X.Value()), old(P.Value()))
    ensures err == Okay && !LosesDifference(old(P.Value())) ==>
      (IsTruePower(Y.Value(), old(G.Value()), old(X.Value()), old(P.Value()))
       <==> ResultIsTrue(old(G.Value()), old(X.Value()), old(P.Value())))
    ensures LosesDifference(old(P.Value())) && old(G.Value()) == B && old(X.Value()) == 2 ==> Y.Value() == 0
    ensures err == Okay && 0 <= old(X.Value()) ==> RightIfSmall(Y.Value(), old(G.Value()), old(X.Value()), old(P.Value()))
    ensures err != Okay ==> Y.Value() == old(Y.Value())
  {
    hide Pow, IsTruePower, IsPower, RightIfSmall, LosesDifference;
    DigitsOf(P);
    DigitsOf(X);
    ghost var g, x, p := G.Value(), X.Value(), P.Value();
    if LosesDifference(p) {
      LosesDifferencePositive(p);
    }
    if P.sign == Neg {
      return BadValue;
    }
    if X.sign == Neg {
      err := ExptModNegative(G, X, P, Y);
    } else {
      err := ExptModPositive(G, X, P, Y);
    }
    if err == Okay && !LosesDifference(p) {
      TruePowerIff(Y.Value(), g, x, p);
    }
  }

  /** A modulus that loses its difference shows it at the square of the radix, an
      argument that any other modulus above 1 gets right. */
  lemma {:induction false} LossShows(p: int)
    requires LosesDifference(p)
    ensures 1 < p && ResultIsTrue(B, 2, p) && !IsTruePower(0, B, 2, p) && !IsModularPower(0, B, 2, p)
  {
    LosesDifferencePositive(p);
    var j: nat :| 2 <= j < DIGIT_BIT && p == (Pow(2, j) - 1) * B;
    SquareOfRadix(j);
    assert Pow(B, 2) == B * Pow(B, 1) && Pow(B, 1) == B * Pow(B, 0);
  }
}
