/** Division by a single digit, with its special cases. */
module DivideDigit {
  import opened Arith
  import opened Digits
  import opened MpInts

  /** The quotient digits from `ix` on, and the remainder, account for the digits of `a` from `ix` on. */
  ghost predicate DividedFrom(a: seq<int>, q: seq<int>, b: int, w: int, ix: nat)
    requires ix <= |a| == |q|
  {
    AreDigits(q[ix..]) && 0 <= w < b && Val(a[ix..]) == b * Val(q[ix..]) + w
  }

  /** One quotient digit: `w` takes in the next digit of `a`, `t` is the digit of `q`. */
  lemma {:induction false} DivideStep(a: seq<int>, q: seq<int>, b: int, w: int, ix: nat, t: int, r: int)
    requires 0 < ix <= |a| == |q| && DividedFrom(a, q, b, w, ix)
    requires 0 <= a[ix - 1] < B && 0 < b
    requires w * B + a[ix - 1] == b * t + r && 0 <= t && 0 <= r < b
    ensures t < B && DividedFrom(a, q[ix - 1 := t], b, r, ix - 1)
  {
    assert b * t < b * B by { MulLe(w, b - 1, B); Distribute(b, 1, B); }
    MulCancelLt(t, B, b);
    var q' := q[ix - 1 := t];
    assert a[ix - 1..][1..] == a[ix..] && q'[ix - 1..][1..] == q[ix..];
    var s := q'[ix - 1..];
    forall i | 0 <= i < |s|
      ensures 0 <= s[i] < B
    {
      if 0 < i {
        assert s[i] == q[ix..][i - 1];
      }
    }
    var h := Val(q[ix..]);
    Distribute(b * h, w, B);
    Distribute(t, B * h, b);
    assert b * (B * h) == (b * h) * B by { Assoc(b, h, B); }
  }

  lemma {:induction false} DividedAll(a: seq<int>, q: seq<int>, b: int, w: int)
    requires AreDigits(a) && |a| == |q| && 0 < b && DividedFrom(a, q, b, w, 0)
    ensures AreDigits(q) && Val(q) == Val(a) / b && w == Val(a) % b
  {
    assert a[0..] == a && q[0..] == q;
    DivModUnique(Val(a), b, Val(q), w);
  }

  /** The reciprocal estimate of a third is not too large. */
  lemma {:induction false} ThirdEstimate(w: int, b: int)
    requires 0 <= w && b == B / 3
    ensures 0 <= (w * b) / B && 3 * ((w * b) / B) <= w
  {
    var t := (w * b) / B;
    MulNonNeg(w, b);
    DivNonNeg(w * b, B);
    DivMod(w * b, B);
    MulLe(3 * b, B, w);
    Assoc(3, b, w);
    assert 3 * (w * b) <= w * B;
    Assoc(3, t, B);
    MulCancelLe(3 * t, w, B);
  }

  /** A third of `w`: the estimate, then the fix-up. */
  method Third(w0: int, b: int) returns (t: int, w: int)
    requires 0 <= w0 && b == B / 3
    ensures w0 == 3 * t + w && 0 <= t && 0 <= w < 3
  {
    t, w := 0, w0;
    if w >= 3 {
      ThirdEstimate(w, b);
      t := (w * b) / B;
      w := w - (t + t + t);
      while w >= 3
        invariant 0 <= t && 0 <= w && w0 == 3 * t + w
      {
        t := t + 1;
        w := w - 3;
      }
    }
  }

  /** `c` = `a` / 3 rounded towards zero and `d` the remainder of the
      magnitudes: each digit is estimated by multiplying with B / 3 and fixed up. */
  method DivThree(a: MpInt, c: MpInt) returns (d: int)
    requires a.Valid()
    modifies c
    ensures c.Valid() && c.Value() == Truncated(old(a.Value()), 3)
    ensures d == old(Abs(a.Value())) % 3
  {
    DigitsOf(a);
    ghost var v := a.Value();
    var digits, sign := a.dp, a.sign;
    var b := B / 3;
    var q := new int[|digits|];
    var w := 0;
    assert digits[|digits|..] == [] && q[|digits|..] == [];
    for ix := |digits| downto 0
      invariant DividedFrom(digits, q[..], 3, w, ix)
    {
      ghost var before, w0 := q[..], w;
      var t;
      t, w := Third(w * B + digits[ix], b);
      DivideStep(digits, before, 3, w0, ix + 1, t, w);
      q[ix] := t;
      assert q[..] == before[ix := t];
    }
    DividedAll(digits, q[..], 3, w);
    d := w;
    c.dp, c.sign := q[..], sign;
    c.Clamp();
    SignedQuotient(v, 3, c);
  }

  /** A number with the sign of `v` and its magnitude divided is the truncated quotient. */
  lemma {:induction false} SignedQuotient(v: int, n: int, c: MpInt)
    requires 0 < n && c.Valid() && Val(c.dp) == Abs(v) / n
    requires c.sign == if c.dp == [] then Zpos else if v < 0 then Neg else Zpos
    ensures c.Value() == Truncated(v, n)
  {
  }
}
