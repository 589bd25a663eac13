/** Bitwise AND, OR and XOR of signed numbers, as if in two's complement of
    unlimited width, on sign-magnitude digits. */
module TwosComplement {
  import opened Arith
  import opened Digits
  import opened MpInts

  // ----- the infinite two's complement operation -----

  datatype Operator = And | Or | Xor {
    /** The operation on one bit. */
    function OnBits(x: int, y: int): (z: int)
      ensures z == 0 || z == 1
    {
      match this
      case And => if x == 1 && y == 1 then 1 else 0
      case Or => if x == 1 || y == 1 then 1 else 0
      case Xor => if x != y then 1 else 0
    }
  }

  /** All bits equal: zero, or minus one. */
  predicate IsUniform(n: int) {
    n == 0 || n == -1
  }

  lemma {:induction false} HalfCloser(n: int)
    ensures !IsUniform(n) ==> Abs(n / 2) < Abs(n)
    ensures Abs(n / 2) <= Abs(n)
  {
  }

  /** The operation on all bits, the infinitely many leading ones included. */
  function Bitwise(op: Operator, a: int, b: int): int
    decreases Abs(a) + Abs(b)
  {
    HalfCloser(a);
    HalfCloser(b);
    if IsUniform(a) && IsUniform(b) then -op.OnBits(-a, -b)
    else 2 * Bitwise(op, a / 2, b / 2) + op.OnBits(a % 2, b % 2)
  }

  lemma {:induction false} BitwiseStep(op: Operator, a: int, b: int)
    ensures Bitwise(op, a, b) == 2 * Bitwise(op, a / 2, b / 2) + op.OnBits(a % 2, b % 2)
  {
  }

  /** Bit `i` of the two's complement. */
  function Bit(n: int, i: nat): int {
    PowPos(2, i);
    (n / Pow(2, i)) % 2
  }

  lemma {:induction false} BitOfHalf(n: int, i: nat)
    requires 0 < i
    ensures Bit(n, i) == Bit(n / 2, i - 1)
  {
    PowPos(2, i - 1);
    var w := Pow(2, i - 1);
    var q, r := (n / 2) / w, (n / 2) % w;
    DivMod(n / 2, w);
    Assoc(q, 2, w);
    Assoc(2, q, w);
    DivModUnique(n, 2 * w, q, 2 * r + n % 2);
  }

  /** What the operation means: every bit of the result is that of the operands' bits. */
  lemma {:induction false} BitsOfBitwise(op: Operator, a: int, b: int, i: nat)
    ensures Bit(Bitwise(op, a, b), i) == op.OnBits(Bit(a, i), Bit(b, i))
    decreases i
  {
    BitwiseStep(op, a, b);
    var c, half, z := Bitwise(op, a, b), Bitwise(op, a / 2, b / 2), op.OnBits(a % 2, b % 2);
    DivModUnique(c, 2, half, z);
    if i == 0 {
      assert Pow(2, 0) == 1;
    } else {
      BitOfHalf(a, i);
      BitOfHalf(b, i);
      BitOfHalf(c, i);
      BitsOfBitwise(op, a / 2, b / 2, i - 1);
    }
  }

  /** In numbers: AND carries, OR rounds up, XOR is the sum without carry. */
  lemma {:induction false} BitsInNumbers(op: Operator, a: int, b: int, i: nat)
    ensures var sum := Bit(a, i) + Bit(b, i);
      Bit(Bitwise(op, a, b), i) == match op case And => sum / 2 case Or => (sum + 1) / 2 case Xor => sum % 2
  {
    BitsOfBitwise(op, a, b, i);
    BitIsBit(a, i);
    BitIsBit(b, i);
  }

  lemma {:induction false} BitIsBit(n: int, i: nat)
    ensures Bit(n, i) == 0 || Bit(n, i) == 1
  {
  }

  /** The operation works on the low `k` bits `x`, `y` and on the rest `s`, `t` separately. */
  lemma {:induction false} BitwiseSplit(op: Operator, k: nat, x: int, y: int, s: int, t: int, a: int, b: int)
    requires 0 <= x < Pow(2, k) && 0 <= y < Pow(2, k)
    requires a == x + Pow(2, k) * s && b == y + Pow(2, k) * t
    ensures Bitwise(op, a, b) == Bitwise(op, x, y) + Pow(2, k) * Bitwise(op, s, t)
  {
    if k != 0 {
      var w, rest := Pow(2, k - 1), Bitwise(op, s, t);
      Assoc(2, w, s);
      Assoc(2, w, t);
      HalfOfSum(x, w * s);
      HalfOfSum(y, w * t);
      BitwiseStep(op, a, b);
      BitwiseStep(op, x, y);
      BitwiseSplit(op, k - 1, x / 2, y / 2, s, t, a / 2, b / 2);
      Assoc(2, w, rest);
    }
  }

  lemma {:induction false} HalfOfSum(x: int, h: int)
    ensures (x + 2 * h) / 2 == x / 2 + h && (x + 2 * h) % 2 == x % 2
  {
  }

  lemma {:induction false} BitwiseRange(op: Operator, k: nat, x: int, y: int)
    requires 0 <= x < Pow(2, k) && 0 <= y < Pow(2, k)
    ensures 0 <= Bitwise(op, x, y) < Pow(2, k)
  {
    if k != 0 {
      BitwiseStep(op, x, y);
      BitwiseRange(op, k - 1, x / 2, y / 2);
    }
  }

  /** On digits: one digit at a time. */
  lemma {:induction false} BitwiseSnoc(op: Operator, i: nat, x: int, y: int, d: int, e: int)
    requires 0 <= x < BP(i) && 0 <= y < BP(i)
    ensures Bitwise(op, x + BP(i) * d, y + BP(i) * e) == Bitwise(op, x, y) + BP(i) * Bitwise(op, d, e)
    ensures 0 <= Bitwise(op, x, y) < BP(i)
  {
    BPPow2(i);
    BitwiseSplit(op, DIGIT_BIT * i, x, y, d, e, x + BP(i) * d, y + BP(i) * e);
    BitwiseRange(op, DIGIT_BIT * i, x, y);
  }

  // ----- conversion, digit by digit -----

  /** Digit `i` of a magnitude, zero past its end. */
  function DigitAt(s: seq<int>, i: nat): int {
    if i < |s| then s[i] else 0
  }

  /** The low `i` digits of a magnitude as a number. */
  function LowPart(s: seq<int>, i: nat): int {
    Val(s[..Min(i, |s|)])
  }

  lemma {:induction false} LowPartSnoc(s: seq<int>, i: nat)
    requires AreDigits(s)
    ensures LowPart(s, i + 1) == LowPart(s, i) + BP(i) * DigitAt(s, i)
    ensures 0 <= LowPart(s, i) < BP(i)
  {
    var m := Min(i, |s|);
    ValBound(s[..m]);
    BPLe(m, i);
    if i < |s| {
      SliceSnoc(s, 0, i);
      ValSnoc(s[..i], s[i]);
    }
  }

  /** After `i` digits of a negation: the digits `x` and the carry stand for B^i less the magnitude. */
  ghost predicate Negated(x: int, carry: int, i: nat, magnitude: int) {
    0 <= x < BP(i) && 0 <= carry <= 1 && x + carry * BP(i) == BP(i) - magnitude
  }

  lemma {:induction false} NegateStep(x: int, carry: int, i: nat, magnitude: int, d: int)
    requires Negated(x, carry, i, magnitude) && 0 <= d < B
    ensures var t := carry + (B - 1 - d);
      && 0 <= t < DIGIT_LIMIT
      && Negated(x + BP(i) * (t % B), t / B, i + 1, magnitude + BP(i) * d)
  {
    var t := carry + (B - 1 - d);
    RadixFacts();
    DivMod(t, B);
    DivLt(t, B, 2);
    DivNonNeg(t, B);
    BPSucc(i);
    JoinDigits(x, t % B, i);
    Assoc(t / B, B, BP(i));
    Distribute((t / B) * B, t % B, BP(i));
    Distribute(carry + B - 1, d, BP(i));
    Distribute(carry + B, 1, BP(i));
    Distribute(carry, B, BP(i));
  }

  lemma {:induction false} JoinDigits(x: int, d: int, i: nat)
    requires 0 <= x < BP(i) && 0 <= d < B
    ensures 0 <= x + BP(i) * d < BP(i + 1)
  {
    BPSucc(i);
    MulLe(d + 1, B, BP(i));
    Distribute(d, 1, BP(i));
    MulNonNeg(d, BP(i));
  }

  /** One operand: its low `i` digits in two's complement are `x`. */
  ghost predicate Converted(neg: bool, s: seq<int>, x: int, carry: int, i: nat) {
    0 <= x < BP(i) && if neg then Negated(x, carry, i, LowPart(s, i)) else x == LowPart(s, i)
  }

  /** The next digit of an operand in two's complement, and the new carry. */
  method NextDigit(neg: bool, s: seq<int>, carry: int, i: nat, ghost x: int) returns (d: int, carry': int, ghost x': int)
    requires AreDigits(s) && Converted(neg, s, x, carry, i)
    ensures 0 <= d < B && x' == x + BP(i) * d && Converted(neg, s, x', carry', i + 1)
  {
    LowPartSnoc(s, i);
    d, carry' := DigitAt(s, i), carry;
    if neg {
      NegateStep(x, carry, i, LowPart(s, i), DigitAt(s, i));
      var t := carry + (B - 1 - d);
      DivMod(t, B);
      d, carry' := t % B, t / B;
    }
    JoinDigits(x, d, i);
    x' := x + BP(i) * d;
  }

  /** After the last digit the operand is the digits with the sign extended. */
  lemma {:induction false} SignExtended(neg: bool, s: seq<int>, x: int, carry: int, n: nat)
    requires AreDigits(s) && |s| < n && Converted(neg, s, x, carry, n) && (neg ==> 0 < Val(s))
    ensures (if neg then -Val(s) else Val(s)) == x + BP(n) * (if neg then -1 else 0)
    ensures neg ==> BP(n) - BP(n - 1) <= x
    ensures !neg ==> x < BP(n - 1)
  {
    assert s[..|s|] == s;
    ValBound(s);
    BPLe(|s|, n - 1);
  }

  /** Whether the result is negative. */
  function ResultNegative(op: Operator, a: bool, b: bool): bool {
    match op
    case And => a && b
    case Or => a || b
    case Xor => a != b
  }

  /** The result's digits so far: the low part `r` of the result, converted back if it is negative. */
  ghost predicate ResultSoFar(c: seq<int>, neg: bool, carry: int, i: nat, r: int)
  {
    && |c| == i && AreDigits(c) && 0 <= r < BP(i)
    && if neg then Negated(Val(c), carry, i, r) else Val(c) == r
  }

  /** The next digit of the result, converted back if the result is negative. */
  method PutDigit(c: seq<int>, neg: bool, cc: int, i: nat, z: int, ghost r: int) returns (c': seq<int>, cc': int)
    requires ResultSoFar(c, neg, cc, i, r) && 0 <= z < B
    ensures ResultSoFar(c', neg, cc', i + 1, r + BP(i) * z)
  {
    JoinDigits(r, z, i);
    var digit := z;
    cc' := cc;
    if neg {
      NegateStep(Val(c), cc, i, r, z);
      cc' := cc + (B - 1 - z);
      DivMod(cc', B);
      digit := cc' % B;
      cc' := cc' / B;
    }
    ValSnoc(c, digit);
    c' := c + [digit];
  }

  /** The result before it is converted back is not zero if it is negative:
      one digit beyond the operands is enough. */
  lemma {:induction false} ExtraDigitEnough(op: Operator, na: bool, nb: bool, x: int, y: int, n: nat)
    requires 0 < n && 0 <= x < BP(n) && 0 <= y < BP(n)
    requires if na then BP(n) - BP(n - 1) <= x else x < BP(n - 1)
    requires if nb then BP(n) - BP(n - 1) <= y else y < BP(n - 1)
    requires ResultNegative(op, na, nb)
    ensures 0 < Bitwise(op, x, y)
  {
    TopDigit(na, x, n);
    TopDigit(nb, y, n);
    var d, e := if na then B - 1 else 0, if nb then B - 1 else 0;
    TopBits(op, d, e);
    TopDominates(op, n - 1, x - BP(n - 1) * d, y - BP(n - 1) * e, d, e);
  }

  lemma {:induction false} TopDominates(op: Operator, i: nat, x: int, y: int, d: int, e: int)
    requires 0 <= x < BP(i) && 0 <= y < BP(i) && 0 < Bitwise(op, d, e)
    ensures 0 < Bitwise(op, x + BP(i) * d, y + BP(i) * e)
  {
    BitwiseSnoc(op, i, x, y, d, e);
    PositiveSum(Bitwise(op, x, y), BP(i), Bitwise(op, d, e), Bitwise(op, x + BP(i) * d, y + BP(i) * e));
  }

  lemma {:induction false} PositiveSum(p: int, w: int, z: int, r: int)
    requires 0 <= p && 0 < w && 0 < z && r == p + w * z
    ensures 0 < r
  {
    MulLt(0, z, w);
  }

  lemma {:induction false} TopDigit(neg: bool, x: int, n: nat)
    requires 0 < n && 0 <= x < BP(n)
    requires if neg then BP(n) - BP(n - 1) <= x else x < BP(n - 1)
    ensures 0 <= x - BP(n - 1) * (if neg then B - 1 else 0) < BP(n - 1)
  {
    BPSucc(n - 1);
    Distribute(B, 1, BP(n - 1));
  }

  lemma {:induction false} TopBits(op: Operator, d: int, e: int)
    requires (d == B - 1 || d == 0) && (e == B - 1 || e == 0)
    requires ResultNegative(op, d == B - 1, e == B - 1)
    ensures 0 < Bitwise(op, d, e)
  {
    RadixFacts();
    BitwiseRange(op, DIGIT_BIT, d, e);
    BitwiseStep(op, d, e);
  }

  lemma {:induction false} ResultSign(op: Operator, na: bool, nb: bool)
    ensures Bitwise(op, if na then -1 else 0, if nb then -1 else 0) == if ResultNegative(op, na, nb) then -1 else 0
  {
  }

  /** The signed result and its low part. */
  lemma {:induction false} ResultValue(op: Operator, a: int, b: int, x: int, y: int, n: nat)
    requires 0 < n && 0 <= x < BP(n) && 0 <= y < BP(n)
    requires a == x + BP(n) * (if a < 0 then -1 else 0) && b == y + BP(n) * (if b < 0 then -1 else 0)
    requires if a < 0 then BP(n) - BP(n - 1) <= x else x < BP(n - 1)
    requires if b < 0 then BP(n) - BP(n - 1) <= y else y < BP(n - 1)
    ensures Bitwise(op, a, b) == Bitwise(op, x, y) - if ResultNegative(op, a < 0, b < 0) then BP(n) else 0
    ensures ResultNegative(op, a < 0, b < 0) ==> 0 < Bitwise(op, x, y) < BP(n)
  {
    var d, e := if a < 0 then -1 else 0, if b < 0 then -1 else 0;
    BitwiseSnoc(op, n, x, y, d, e);
    ResultSign(op, a < 0, b < 0);
    if ResultNegative(op, a < 0, b < 0) {
      ExtraDigitEnough(op, a < 0, b < 0, x, y, n);
    }
  }

  /** All digits of the result, with one more than the longer operand has. */
  method CombineDigits(op: Operator, na: bool, nb: bool, s: seq<int>, t: seq<int>, used: nat)
    returns (c: seq<int>, ac: int, bc: int, cc: int, ghost x: int, ghost y: int)
    requires AreDigits(s) && AreDigits(t) && |s| < used && |t| < used
    ensures Converted(na, s, x, ac, used) && Converted(nb, t, y, bc, used)
    ensures ResultSoFar(c, ResultNegative(op, na, nb), cc, used, Bitwise(op, x, y))
  {
    var neg := ResultNegative(op, na, nb);
    ac, bc, cc, x, y, c := 1, 1, 1, 0, 0, [];
    ghost var r := 0;
    BPSucc(0);
    for i := 0 to used
      invariant Converted(na, s, x, ac, i) && Converted(nb, t, y, bc, i)
      invariant r == Bitwise(op, x, y) && ResultSoFar(c, neg, cc, i, r)
    {
      var d, e: int;
      ghost var x', y': int;
      d, ac, x' := NextDigit(na, s, ac, i, x);
      e, bc, y' := NextDigit(nb, t, bc, i, y);
      BitwiseRange(op, DIGIT_BIT, d, e);
      BitwiseSnoc(op, i, x, y, d, e);
      var z := Bitwise(op, d, e);
      c, cc := PutDigit(c, neg, cc, i, z, r);
      x, y, r := x', y', r + BP(i) * z;
    }
  }

  lemma {:induction false} CombinedValue(op: Operator, a: int, b: int, s: seq<int>, t: seq<int>, used: nat,
      c: seq<int>, ac: int, bc: int, cc: int, x: int, y: int)
    requires AreDigits(s) && AreDigits(t) && |s| < used && |t| < used && Val(s) == Abs(a) && Val(t) == Abs(b)
    requires Converted(a < 0, s, x, ac, used) && Converted(b < 0, t, y, bc, used)
    requires ResultSoFar(c, ResultNegative(op, a < 0, b < 0), cc, used, Bitwise(op, x, y))
    ensures Bitwise(op, a, b) == if ResultNegative(op, a < 0, b < 0) then -Val(c) else Val(c)
    ensures ResultNegative(op, a < 0, b < 0) ==> 0 < Val(c)
  {
    SignExtended(a < 0, s, x, ac, used);
    SignExtended(b < 0, t, y, bc, used);
    ResultValue(op, a, b, x, y, used);
  }

  /** c = a op b, for every pair of signed numbers. */
  method Combine(op: Operator, a: MpInt, b: MpInt, c: MpInt)
    requires a.Valid() && b.Valid()
    modifies c
    ensures c.Valid() && c.Value() == Bitwise(op, old(a.Value()), old(b.Value()))
  {
    DigitsOf(a);
    DigitsOf(b);
    var used := Max(|a.dp|, |b.dp|) + 1;
    var neg := ResultNegative(op, a.sign == Neg, b.sign == Neg);
    var digits, ac, bc, cc;
    ghost var x, y;
    digits, ac, bc, cc, x, y := CombineDigits(op, a.sign == Neg, b.sign == Neg, a.dp, b.dp, used);
    CombinedValue(op, a.Value(), b.Value(), a.dp, b.dp, used, digits, ac, bc, cc, x, y);
    c.dp, c.sign := digits, if neg then Neg else Zpos;
    c.Clamp();
    DigitsOf(c);
  }
}
