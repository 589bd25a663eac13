/** Division of a number by one digit, with its short cuts. */
module OneDigit {
  import opened Arith
  import opened Digits
  import opened MpInts
  import opened DivideDigit
  import opened Montgomery
  import T = TwosComplement

  // ----- the test for powers of two -----

  /** x & (x - 1) clears the lowest set bit. */
  predicate IsTwoPower(x: nat) {
    x != 0 && T.Bitwise(T.And, x, x - 1) == 0
  }

  ghost predicate HasLog(x: nat) {
    exists k: nat :: x == Pow(2, k)
  }

  /** It is zero for the powers of two only. */
  lemma {:induction false} TwoPowerIff(x: nat)
    ensures IsTwoPower(x) <==> HasLog(x)
    decreases x
  {
    if x == 0 {
      ZeroHasNoLog();
    } else if x % 2 == 0 {
      EvenTwoPower(x);
      TwoPowerIff(x / 2);
      HalfHasLog(x);
    } else {
      OddTwoPower(x);
      OddHasLog(x);
    }
  }

  lemma {:induction false} ZeroHasNoLog()
    ensures !HasLog(0)
  {
    if HasLog(0) {
      var k: nat :| 0 == Pow(2, k);
      PowPos(2, k);
      assert false;
    }
  }

  lemma {:induction false} HalfHasLog(x: nat)
    requires 0 < x && x % 2 == 0
    ensures HasLog(x / 2) <==> HasLog(x)
  {
    if HasLog(x / 2) {
      var k: nat :| x / 2 == Pow(2, k);
      OneMore(x, k);
    }
    if HasLog(x) {
      var k: nat :| x == Pow(2, k);
      OneLess(x, k);
    }
  }

  lemma {:induction false} OneMore(x: nat, k: nat)
    requires x % 2 == 0 && x / 2 == Pow(2, k)
    ensures HasLog(x)
  {
    assert x == Pow(2, k + 1);
  }

  lemma {:induction false} OneLess(x: nat, k: nat)
    requires x % 2 == 0 && x == Pow(2, k)
    ensures HasLog(x / 2)
  {
    assert Pow(2, 0) == 1;
    assert x / 2 == Pow(2, k - 1);
  }

  lemma {:induction false} OddHasLog(x: nat)
    requires x % 2 == 1
    ensures x == 1 <==> HasLog(x)
  {
    assert Pow(2, 0) == 1;
    if HasLog(x) {
      var k: nat :| x == Pow(2, k);
      OddIsOne(x, k);
    }
  }

  lemma {:induction false} OddIsOne(x: nat, k: nat)
    requires x % 2 == 1 && x == Pow(2, k)
    ensures x == 1
  {
  }

  lemma {:induction false} EvenTwoPower(x: nat)
    requires 0 < x && x % 2 == 0
    ensures IsTwoPower(x) <==> IsTwoPower(x / 2)
  {
    T.BitwiseStep(T.And, x, x - 1);
    assert (x - 1) / 2 == x / 2 - 1;
  }

  lemma {:induction false} OddTwoPower(x: nat)
    requires x % 2 == 1
    ensures IsTwoPower(x) <==> x == 1
  {
    T.BitwiseStep(T.And, x, x - 1);
    SameBits(x / 2);
  }

  lemma {:induction false} SameBits(x: nat)
    ensures T.Bitwise(T.And, x, x) == x
    decreases x
  {
    if x != 0 {
      SameBits(x / 2);
    }
  }

  /** The exponent of a power of two above 2, found by trying. */
  method Exponent(b: int) returns (ix: nat)
    requires 2 < b < B && IsTwoPower(b)
    ensures ix < DIGIT_BIT && b == Pow(2, ix)
  {
    TwoPowerIff(b);
    ghost var k: nat :| b == Pow(2, k);
    if DIGIT_BIT <= k {
      PowLe(2, DIGIT_BIT, k);
    }
    assert Pow(2, 0) == 1;
    ix := 1;
    while ix < DIGIT_BIT && b != Pow(2, ix)
      invariant 1 <= ix <= k
    {
      ix := ix + 1;
    }
  }

  /** c = a / b rounded towards zero, d = the remainder of the magnitudes, for one digit b. */
  method Div(a: MpInt, b: int, c: MpInt) returns (err: Outcome, d: int)
    requires a.Valid() && c.Valid() && 0 <= b < B
    modifies c
    ensures err == if b == 0 then BadValue else Okay
    ensures c.Valid()
    ensures err == Okay ==> c.Value() == Truncated(old(a.Value()), b) && d == old(Abs(a.Value())) % b
    ensures err != Okay ==> c.Value() == old(c.Value())
  {
    err, d := Okay, 0;
    if b == 0 {
      return BadValue, d;
    }
    DigitsOf(a);
    if b == 1 || a.dp == [] {
      QuickOut(a.Value(), b);
      c.Set(a.Value());
    } else if b == 2 {
      LowDigit(a.dp);
      d := LowestDigit(a.dp) % 2;
      Half(a, c);
    } else if IsTwoPower(b) {
      var ix := Exponent(b);
      LowBits(a.dp, ix);
      d := LowestDigit(a.dp) % Pow(2, ix);
      c.Set(Truncated(a.Value(), Pow(2, ix)));
    } else if b == 3 {
      d := DivThree(a, c);
    } else {
      d := LongDivision(a, b, c);
    }
  }

  lemma {:induction false} QuickOut(v: int, b: int)
    requires 0 < b && (b == 1 || v == 0)
    ensures Truncated(v, b) == v && Abs(v) % b == 0
  {
    if v == 0 {
      ModSmall(0, b);
    }
  }

  /** Digit by digit from the top. */
  method LongDivision(a: MpInt, b: int, c: MpInt) returns (d: int)
    requires a.Valid() && 0 < b < B
    modifies c
    ensures c.Valid() && c.Value() == Truncated(old(a.Value()), b) && d == old(Abs(a.Value())) % b
  {
    DigitsOf(a);
    ghost var v := a.Value();
    var digits, sign := a.dp, a.sign;
    var q := new int[|digits|];
    var w := 0;
    assert digits[|digits|..] == [] && q[|digits|..] == [];
    for ix := |digits| downto 0
      invariant DividedFrom(digits, q[..], b, w, ix)
    {
      ghost var before, w0 := q[..], w;
      var t: int;
      t, w := QuotientDigit(w, digits[ix], b);
      DivideStep(digits, before, b, w0, ix + 1, t, w);
      q[ix] := t;
      assert q[..] == before[ix := t];
    }
    DividedAll(digits, q[..], b, w);
    d := w;
    c.dp, c.sign := q[..], sign;
    c.Clamp();
    SignedQuotient(v, b, c);
  }

  /** The next digit joins the remainder, which stays a word, and is divided off. */
  method QuotientDigit(w0: int, x: int, b: int) returns (t: int, w: int)
    requires 0 <= w0 < b < B && 0 <= x < B
    ensures w0 * B + x == b * t + w && 0 <= t && 0 <= w < b
  {
    WordRoom(w0, x);
    var joined: Word := w0 * B + x;
    t, w := 0, joined;
    DivMod(w, b);
    DivNonNeg(w, b);
    if w >= b {
      t := w / b;
      w := w - t * b;
    }
  }

  lemma {:induction false} WordRoom(w: int, x: int)
    requires 0 <= w < B - 1 && 0 <= x < B
    ensures 0 <= w * B + x < WORD_LIMIT
  {
    RadixFacts();
    MulNonNeg(w, B);
    MulLe(w + 1, B, B);
    Distribute(w, 1, B);
    MulLe(1, MAX_COMBA, B * B);
  }
}
