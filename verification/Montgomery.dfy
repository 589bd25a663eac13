/** Montgomery reduction: setup, normalisation, and the two reducers. */
module Montgomery {
  import opened Arith
  import opened Digits
  import opened MpInts
  import opened DivideSchool
  import C = Comba
  import S = Schoolbook

  // ----- setup: minus the inverse of the low digit, by Newton's doubling -----

  /** The start value inverts any odd number modulo 16. */
  lemma {:induction false} InverseStart(b: int)
    requires b % 2 == 1
    ensures Cong((b + ((b + 2) / 4 % 2) * 8) * b, 1, Pow(2, 4))
  {
    var q, r, e := b / 8, b % 8, (b + 2) / 4 % 2;
    StartCorrection(b, r, e);
    EightfoldProduct(q, r, e);
    var low := SmallInverse(r, e);
    assert Pow(2, 4) == 16;
    CongIntro((b + e * 8) * b, 1, 4 * (q * q) + q * r + 4 * (q * e) + low, 16);
  }

  lemma {:induction false} StartCorrection(b: int, r: int, e: int)
    requires b % 2 == 1 && r == b % 8 && e == (b + 2) / 4 % 2
    ensures (r == 1 || r == 3 || r == 5 || r == 7) && e == if r == 3 || r == 5 then 1 else 0
  {
    var q, c := b / 8, (r + 2) / 4;
    assert b == 8 * q + r;
    assert r == 0 || r == 1 || r == 2 || r == 3 || r == 4 || r == 5 || r == 6 || r == 7;
    DivModUnique(b + 2, 4, 2 * q + c, (r + 2) % 4);
    CongIntro(2 * q + c, c, q, 2);
  }

  lemma {:induction false} SmallInverse(r: int, e: int) returns (low: int)
    requires (r == 1 || r == 3 || r == 5 || r == 7) && e == if r == 3 || r == 5 then 1 else 0
    ensures (r + e * 8) * r == 1 + low * 16
  {
    low := if r == 1 then 0 else if r == 3 then 2 else if r == 5 then 4 else 3;
  }

  lemma {:induction false} EightfoldProduct(q: int, r: int, e: int)
    ensures (8 * q + r + e * 8) * (8 * q + r) == (4 * (q * q) + q * r + 4 * (q * e)) * 16 + (r + e * 8) * r
  {
    var s := r + e * 8;
    Distribute(8 * q, s, 8 * q + r);
    Distribute(8 * q, r, 8 * q);
    Distribute(8 * q, r, s);
    Distribute(r, e * 8, q);
  }

  /** One step doubles the number of correct bits; working modulo a multiple is enough. */
  lemma {:induction false} InverseStep(b: int, x: int, k: nat, w: nat)
    requires 2 * k <= w && Cong(x * b, 1, (PowPos(2, k); Pow(2, k)))
    ensures 0 < Pow(2, w) && 0 < Pow(2, 2 * k)
    ensures Cong(((x * (2 - b * x)) % Pow(2, w)) * b, 1, Pow(2, 2 * k))
  {
    PowPos(2, k);
    PowPos(2, w);
    PowPos(2, 2 * k);
    PowAdd(2, k, k);
    PowAdd(2, 2 * k, w - 2 * k);
    PowPos(2, w - 2 * k);
    var j := CongQuotient(x * b, 1, Pow(2, k));
    var y := x * (2 - b * x);
    NewtonIdentity(b, x, j, Pow(2, k));
    CongIntro(y * b, 1, -(j * j), Pow(2, 2 * k));
    ModIdem(y, Pow(2, w));
    CongMul(y % Pow(2, w), y, b, b, Pow(2, w));
    CongFactor((y % Pow(2, w)) * b, y * b, Pow(2, 2 * k), Pow(2, w - 2 * k));
  }

  lemma {:induction false} NewtonIdentity(b: int, x: int, j: int, m: int)
    requires x * b == 1 + j * m
    ensures (x * (2 - b * x)) * b == 1 - (j * j) * (m * m)
  {
    var e := j * m;
    assert b * x == 1 + e;
    assert (x * (1 - e)) * b == (x * b) * (1 - e) by { Assoc(x, 1 - e, b); Assoc(x, b, 1 - e); }
    assert (1 + e) * (1 - e) == 1 - e * e by { Distribute(1, e, 1 - e); Distribute(1, e, e); }
    assert e * e == (j * j) * (m * m) by {
      Assoc(j, m, j * m);
      Assoc(m, j, m);
      Assoc(j, m, m);
      Assoc(j, j, m * m);
    }
  }

  /** rho times the low digit of `n` is -1 modulo the radix. */
  ghost predicate IsRho(rho: int, n: int) {
    0 <= rho < B && Cong(rho * n, -1, B)
  }

  /** The steps of the doubling: two for 16-bit digits, one more for 32, one more for 64. */
  method InverseModWord(b: int) returns (x: int)
    requires b % 2 == 1
    ensures Cong(x * b, 1, DIGIT_LIMIT)
  {
    InverseStart(b);
    x := (b + ((b + 2) / 4 % 2) * 8) % DIGIT_LIMIT;
    StartModWord(b, x);
    InverseStep(b, x, 4, DIGIT_WIDTH);
    x := (x * (2 - b * x)) % DIGIT_LIMIT;
    InverseStep(b, x, 8, DIGIT_WIDTH);
    x := (x * (2 - b * x)) % DIGIT_LIMIT;
    if CONFIG != Mp16Bit {
      InverseStep(b, x, 16, DIGIT_WIDTH);
      x := (x * (2 - b * x)) % DIGIT_LIMIT;
    }
    if CONFIG == Mp64Bit {
      InverseStep(b, x, 32, DIGIT_WIDTH);
      x := (x * (2 - b * x)) % DIGIT_LIMIT;
    }
  }

  lemma {:induction false} StartModWord(b: int, x: int)
    requires x == (b + ((b + 2) / 4 % 2) * 8) % DIGIT_LIMIT
    requires Cong((b + ((b + 2) / 4 % 2) * 8) * b, 1, Pow(2, 4))
    ensures Cong(x * b, 1, Pow(2, 4))
  {
    var y := b + ((b + 2) / 4 % 2) * 8;
    assert Pow(2, 4) == 16;
    PowAdd(2, 4, DIGIT_WIDTH - 4);
    PowPos(2, DIGIT_WIDTH - 4);
    ModIdem(y, DIGIT_LIMIT);
    CongMul(x, y, b, b, DIGIT_LIMIT);
    CongFactor(x * b, y * b, 16, Pow(2, DIGIT_WIDTH - 4));
  }

  /** The lowest digit, zero if there is none. */
  function LowestDigit(s: seq<int>): int {
    if s == [] then 0 else s[0]
  }

  /** The lowest digit tells the number modulo the radix, and its parity. */
  lemma {:induction false} LowDigit(s: seq<int>)
    requires AreDigits(s)
    ensures 0 <= LowestDigit(s) < B && Cong(Val(s), LowestDigit(s), B)
    ensures LowestDigit(s) % 2 == Val(s) % 2
  {
    if s != [] {
      var h := Val(s[1..]);
      CongIntro(Val(s), s[0], h, B);
      EvenMultiple(s[0], h);
    }
  }

  /** The low bits of the lowest digit are those of the number. */
  lemma {:induction false} LowBits(s: seq<int>, w: nat)
    requires AreDigits(s) && w <= DIGIT_BIT
    ensures 0 < Pow(2, w) && LowestDigit(s) % Pow(2, w) == Val(s) % Pow(2, w)
  {
    LowDigit(s);
    LowerModulus(LowestDigit(s), Val(s), w);
  }

  lemma {:induction false} LowerModulus(x: int, y: int, w: nat)
    requires Cong(x, y, B) && w <= DIGIT_BIT
    ensures 0 < Pow(2, w) && Cong(x, y, Pow(2, w))
  {
    PowPos(2, w);
    PowPos(2, DIGIT_BIT - w);
    PowAdd(2, w, DIGIT_BIT - w);
    CongFactor(x, y, Pow(2, w), Pow(2, DIGIT_BIT - w));
  }

  lemma {:induction false} EvenMultiple(x: int, h: int)
    ensures (x + B * h) % 2 == x % 2
  {
    RadixFacts();
    var p := Pow(2, DIGIT_BIT - 1);
    Assoc(2, p, h);
    CongIntro(x + B * h, x, p * h, 2);
  }

  lemma {:induction false} RhoFromInverse(b: int, x: int, n: int)
    requires Cong(x * b, 1, DIGIT_LIMIT) && Cong(n, b, B)
    ensures IsRho((B - x) % B, n)
  {
    PowAdd(2, DIGIT_BIT, DIGIT_WIDTH - DIGIT_BIT);
    PowPos(2, DIGIT_WIDTH - DIGIT_BIT);
    CongFactor(x * b, 1, B, Pow(2, DIGIT_WIDTH - DIGIT_BIT));
    MinusInverse(b, x, n, B);
  }

  lemma {:induction false} MinusInverse(b: int, x: int, n: int, m: int)
    requires 0 < m && Cong(x * b, 1, m) && Cong(n, b, m)
    ensures 0 <= (m - x) % m < m && Cong(((m - x) % m) * n, -1, m)
  {
    var rho := (m - x) % m;
    ModIdem(m - x, m);
    CongIntro(m - x, -x, 1, m);
    CongMul(rho, -x, n, b, m);
    CongAdd(0, 0, x * b, 1, m);
    assert (-x) * b == 0 - x * b;
  }

  /** Fails exactly for even numbers; otherwise gives minus the inverse modulo the radix. */
  method Setup(n: MpInt) returns (err: Outcome, rho: int)
    requires n.Valid() && 0 <= n.Value()
    ensures err == if n.Value() % 2 == 0 then BadValue else Okay
    ensures err == Okay ==> IsRho(rho, n.Value())
  {
    DigitsOf(n);
    LowDigit(n.dp);
    var b := LowestDigit(n.dp);
    rho := 0;
    if b % 2 == 0 {
      return BadValue, rho;
    }
    var x := InverseModWord(b);
    rho := (B - x) % B;
    RhoFromInverse(b, x, n.Value());
    return Okay, rho;
  }

  // ----- normalisation -----

  /** If x >= n then x = x - n. */
  method SubtractOnce(x: MpInt, n: MpInt)
    requires x.Valid() && n.Valid() && x != n && 0 <= x.Value() && 0 <= n.Value()
    modifies x
    ensures x.Valid() && x.Value() == if old(x.Value()) < n.Value() then old(x.Value()) else old(x.Value()) - n.Value()
  {
    var cmp := CmpMag(x, n);
    if cmp != Lt {
      DigitsOf(x);
      SubMagnitudes(x, n, x);
      DigitsOf(x);
    }
  }

  /** a = B^k mod b for an odd b of `k` digits, but 1 for b = 1: start just below the leading
      bit, then double and subtract. */
  method CalcNormalization(a: MpInt, b: MpInt)
    requires b.Valid() && a != b && 0 < b.Value() && b.Value() % 2 == 1
    modifies a
    ensures a.Valid() && a.Value() == if b.Value() == 1 then 1 else BP(|b.dp|) % b.Value()
  {
    DigitsOf(b);
    var n, k := b.Value(), |b.dp|;
    var bits := CountBits(b);
    if n == 1 {
      OneDigitOne(k);
    } else {
      StartExponent(n, k);
    }
    bits := bits % DIGIT_BIT;
    if k > 1 {
      a.Set(Pow(2, (k - 1) * DIGIT_BIT + bits - 1));
    } else {
      a.Set(1);
      bits := 1;
    }
    ghost var e := (k - 1) * DIGIT_BIT + bits - 1;
    for x := bits - 1 to DIGIT_BIT
      invariant a.Valid() && b.Valid() && b.Value() == n && 0 <= a.Value()
      invariant if n == 1 then a.Value() == 1 else a.Value() < n && Cong(a.Value(), Pow(2, e + x - bits + 1), n)
    {
      ghost var v := a.Value();
      Double(a, a);
      SubtractOnce(a, b);
      if n != 1 {
        DoubledResidue(v, a.Value(), e + x - bits + 1, n);
      }
    }
    if n != 1 {
      BPPow2(k);
      Distribute(k, -1, DIGIT_BIT);
      CongUnique(a.Value(), BP(k), n);
    }
  }

  lemma {:induction false} OneDigitOne(k: nat)
    requires k == Used(1)
    ensures k == 1 && 1 <= DIGIT_BIT
  {
    RadixFacts();
    UsedLe(1, 0);
    UsedLe(1, 1);
    BPSucc(0);
  }

  /** The exponent to start from: either the leading bit of b, or one place
      below when its top digit is full. */
  lemma {:induction false} StartExponent(n: nat, k: nat)
    requires 1 < n && n % 2 == 1 && k == Used(n)
    ensures 0 < k && 0 <= Bits(n) % DIGIT_BIT < DIGIT_BIT && 1 <= DIGIT_BIT
    ensures k == 1 ==> Pow(2, 0) == 1 < n
    ensures k > 1 ==> var e := (k - 1) * DIGIT_BIT + Bits(n) % DIGIT_BIT - 1;
      0 <= e && 0 < Pow(2, e) < n
  {
    RadixFacts();
    LeadingBit(n);
    BitsOfUsed(n);
    DivMod(Bits(n), DIGIT_BIT);
    if k > 1 {
      MulLe(1, k - 1, DIGIT_BIT);
      Distribute(k, -1, DIGIT_BIT);
      PowLe(2, (k - 1) * DIGIT_BIT + Bits(n) % DIGIT_BIT - 1, Bits(n) - 1);
    }
  }

  lemma {:induction false} DoubledResidue(v: int, r: int, e: nat, n: int)
    requires 0 < n && Cong(v, Pow(2, e), n) && (r == 2 * v || r == 2 * v - n)
    ensures Cong(r, Pow(2, e + 1), n)
  {
    CongMul(2, 2, v, Pow(2, e), n);
    CongIntro(r, 2 * v, if r == 2 * v then 0 else -1, n);
  }

  /** The leading bit of an odd number above 1 is below it. */
  lemma {:induction false} LeadingBit(n: nat)
    requires 1 < n && n % 2 == 1
    ensures 2 <= Bits(n) && Pow(2, Bits(n) - 1) < n
  {
    BitsBounds(n);
    assert Pow(2, Bits(n) - 1) == 2 * Pow(2, Bits(n) - 2);
  }

  /** The bits of a number of `k` digits. */
  lemma {:induction false} BitsOfUsed(n: nat)
    requires 0 < n
    ensures var k := Used(n);
      0 < k && 0 <= (k - 1) * DIGIT_BIT < Bits(n) <= k * DIGIT_BIT
    ensures var k := Used(n);
      Bits(n) == (k - 1) * DIGIT_BIT + Bits(n) % DIGIT_BIT || (Bits(n) == k * DIGIT_BIT && Bits(n) % DIGIT_BIT == 0)
  {
    RadixFacts();
    var k := Used(n);
    UsedBounds(n);
    BitsBounds(n);
    BPPow2(k);
    BPPow2(k - 1);
    Distribute(k, -1, DIGIT_BIT);
    MulNonNeg(k - 1, DIGIT_BIT);
    if Bits(n) <= (k - 1) * DIGIT_BIT {
      PowLe(2, Bits(n), DIGIT_BIT * (k - 1));
    }
    if k * DIGIT_BIT < Bits(n) {
      PowLe(2, DIGIT_BIT * k, Bits(n) - 1);
    }
    var rest := Bits(n) - (k - 1) * DIGIT_BIT;
    if rest < DIGIT_BIT {
      DivModUnique(Bits(n), DIGIT_BIT, k - 1, rest);
    } else {
      DivModUnique(Bits(n), DIGIT_BIT, k, 0);
    }
  }

  // ----- what both reducers compute -----

  /** `r` is `x` divided by B^k modulo n, in range. */
  ghost predicate IsReduced(r: int, x: int, n: int, k: nat)
    requires 0 < n
  {
    0 <= r < n && Cong(r * BP(k), x, n)
  }

  /** The multiplier of a digit makes it vanish. */
  lemma {:induction false} DigitVanishes(w: int, rho: int, n0: int, n: int)
    requires IsRho(rho, n) && Cong(n, n0, B)
    ensures var mu := ((w % B) * rho) % B;
      0 <= mu < B && (w + mu * n0) % B == 0
  {
    var mu := ((w % B) * rho) % B;
    ModIdem(w, B);
    ModIdem((w % B) * rho, B);
    CongMul(w % B, w, rho, rho, B);
    CongMul(mu, w * rho, n0, n, B);
    Assoc(w, rho, n);
    CongMul(w, w, rho * n, -1, B);
    CongAdd(w, w, mu * n0, -w, B);
  }

  /** From the exact quotient to the result, by one subtraction. */
  lemma {:induction false} FinalSubtraction(x: int, y: int, m: int, n: int, k: nat)
    requires 0 < n && 0 <= x < n * BP(k) && 0 <= m < BP(k)
    requires x + n * m == BP(k) * y
    ensures 0 <= y < 2 * n
    ensures IsReduced(if y < n then y else y - n, x, n, k)
  {
    var w := BP(k);
    MulLe(m, w, n);
    MulNonNeg(n, m);
    Assoc(2, n, w);
    MulCancelLt(y, 2 * n, w);
    if y < 0 {
      MulLe(y, -1, w);
    }
    var r := if y < n then y else y - n;
    var q := if y < n then m else m - w;
    Distribute(y, n, w);
    Distribute(m, w, n);
    CongIntro(r * w, x, q, n);
  }

  // ----- the baseline reducer -----

  /** After `ix` digits: a multiple of n was added that clears them. */
  ghost predicate Cleared(t: seq<int>, x: int, n: int, m: int, ix: nat)
    requires ix <= |t|
  {
    && AreDigits(t) && 0 <= m < BP(ix)
    && Val(t) == x + n * m
    && Val(t) == BP(ix) * Val(t[ix..])
  }

  /** Clearing one more digit. */
  lemma {:induction false} ClearStep(t: seq<int>, t': seq<int>, x: int, n: int, m: int, mu: int, ix: nat)
    requires ix < |t| == |t'| && Cleared(t, x, n, m, ix)
    requires AreDigits(t') && 0 <= mu < B && Val(t') == Val(t) + mu * n * BP(ix)
    requires (t[ix] + mu * n) % B == 0
    ensures Cleared(t', x, n, m + mu * BP(ix), ix + 1)
  {
    var w, h := BP(ix), Val(t[ix..]);
    assert t[ix..][1..] == t[ix + 1..];
    // the part from column ix on stays a multiple of the radix
    Distribute(h, mu * n, w);
    var c := (t[ix] + mu * n) / B + Val(t[ix + 1..]);
    DivMod(t[ix] + mu * n, B);
    Distribute((t[ix] + mu * n) / B, Val(t[ix + 1..]), B);
    assert h + mu * n == B * c;
    BPSucc(ix);
    Assoc(w, B, c);
    assert Val(t') == BP(ix + 1) * c;
    ValDivMod(t', ix + 1);
    DivModUnique(Val(t'), BP(ix + 1), c, 0);
    // bookkeeping of the multiple
    Distribute(m, mu * w, n);
    Assoc(mu, n, w);
    Assoc(mu, w, n);
    Assoc(n, mu, w);
    MultiplierGrows(m, mu, ix);
  }

  /** There is room for the carry: the sum stays below the weight of the top column. */
  lemma {:induction false} CarryRoom(x: int, n: int, m: int, mu: int, k: nat, ix: nat)
    requires 0 < n < BP(k) && x < n * BP(k) && ix < k
    requires 0 <= m < BP(ix) && 0 <= mu < B
    ensures x + n * (m + mu * BP(ix)) < BP(2 * k + 1)
  {
    MultiplierGrows(m, mu, ix);
    BPLe(ix + 1, k);
    RoomForSum(x, n, m + mu * BP(ix), BP(k));
    BPAdd(k, k);
    BPSucc(2 * k);
    MulLe(2, B, BP(2 * k));
  }

  lemma {:induction false} MultiplierGrows(m: int, mu: int, ix: nat)
    requires 0 <= m < BP(ix) && 0 <= mu < B
    ensures 0 <= m + mu * BP(ix) < BP(ix + 1)
  {
    BPSucc(ix);
    MulLe(mu + 1, B, BP(ix));
    Distribute(mu, 1, BP(ix));
    MulNonNeg(mu, BP(ix));
  }

  lemma {:induction false} RoomForSum(x: int, n: int, s: int, w: int)
    requires 0 < n < w && x < n * w && 0 <= s < w
    ensures x + n * s < 2 * (w * w)
  {
    MulLe(s, w, n);
    MulLe(n, w, w);
  }

  /** The digit loop, on the digits `t` of the number. */
  method ClearDigits(t: array<int>, n: seq<int>, rho: int, ghost x: int) returns (ghost m: int)
    requires AreDigits(n) && n != [] && 0 < Val(n) && IsRho(rho, Val(n))
    requires t.Length == 2 * |n| + 1 && AreDigits(t[..]) && Val(t[..]) == x < Val(n) * BP(|n|)
    modifies t
    ensures Cleared(t[..], x, Val(n), m, |n|)
  {
    m := 0;
    var k := |n|;
    ghost var v := Val(n);
    ValBound(n);
    LowDigit(n);
    assert t[..][0..] == t[..];
    for ix := 0 to k
      invariant Cleared(t[..], x, v, m, ix)
    {
      ghost var before := t[..];
      var mu := (t[ix] * rho) % B;
      ModSmall(t[ix], B);
      DigitVanishes(t[ix], rho, v, v);
      var u := S.MulAddRow(t, ix, mu, n, 0, k);
      assert n[0..k] == n;
      CarryRoom(x, v, m, mu, k, ix);
      Distribute(m, mu * BP(ix), v);
      Assoc(mu, v, BP(ix));
      Assoc(mu, BP(ix), v);
      S.PropagateCarry(t, ix + k, u);
      ClearStep(before, t[..], x, v, m, mu, ix);
      m := m + mu * BP(ix);
    }
  }

  /** x = x / B^k modulo n, in place, digit by digit. */
  method ReduceBaseline(x: MpInt, n: MpInt, rho: int)
    requires x.Valid() && n.Valid() && x != n && 0 < n.Value() && IsRho(rho, n.Value())
    requires 0 <= x.Value() < n.Value() * BP(|n.dp|)
    modifies x
    ensures x.Valid() && IsReduced(x.Value(), old(x.Value()), n.Value(), |n.dp|)
  {
    DigitsOf(x);
    DigitsOf(n);
    ghost var v := x.Value();
    var k := |n.dp|;
    InputSize(v, n.Value(), k);
    var digs := 2 * k + 1;
    var digits := Padded(x.Value(), digs);
    var t := new int[digs](i requires 0 <= i < digs => digits[i]);
    assert t[..] == digits;
    ghost var m := ClearDigits(t, n.dp, rho, v);
    // clamp and shift down by k digits
    FinalSubtraction(v, Val(t[k..]), m, n.Value(), k);
    assert t[..][k..] == t[k..];
    x.dp, x.sign := t[k..], Zpos;
    x.Clamp();
    DigitsOf(x);
    SubtractOnce(x, n);
  }

  lemma {:induction false} InputSize(x: nat, n: nat, k: nat)
    requires x < n * BP(k) && n < BP(k)
    ensures x < BP(2 * k) <= BP(2 * k + 1) && Used(x) <= 2 * k
  {
    MulLe(n, BP(k), BP(k));
    BPAdd(k, k);
    BPLe(2 * k, 2 * k + 1);
    UsedLe(x, 2 * k);
  }
}
