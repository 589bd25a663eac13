/** The schoolbook multipliers: a row at a time, every carry propagated at once. */
module Schoolbook {
  import opened Arith
  import opened Digits
  import opened MpInts
  import opened Columns
  import C = Comba

  // ----- one row -----

  /** A digit, a product of digits and a carry digit make a word whose high part is a digit. */
  lemma {:induction false} RowWord(t: int, x: int, y: int, u: int)
    requires 0 <= t < B && 0 <= x < B && 0 <= y < B && 0 <= u < B
    ensures 0 <= t + x * y + u < WORD_LIMIT && 0 <= (t + x * y + u) / B < B
  {
    C.DigitProduct(x, y);
    assert t + x * y + u < B * B by {
      assert C.PRODUCT_MAX == B * B - 2 * B + 1;
    }
    DivLt(t + x * y + u, B, B);
    DivNonNeg(t + x * y + u, B);
    RadixFacts();
    MulLe(1, MAX_COMBA, B * B);
  }

  /** Accounting for one digit of a row at weight `w`. */
  lemma {:induction false} RowStep(t: seq<int>, j: nat, x: int, low: seq<int>, y: int, u: int, sum: int, w: int)
    requires j < |t| && BP(j) == w * BP(|low|)
    requires Val(t) + u * BP(j) == sum + x * Val(low) * w
    ensures var r := t[j] + x * y + u;
      Val(t[j := r % B]) + (r / B) * BP(j + 1) == sum + x * Val(low + [y]) * w
  {
    var r := t[j] + x * y + u;
    DivMod(r, B);
    ValUpdate(t, j, r % B);
    ValSnoc(low, y);
    BPSucc(j);
    assert (r / B) * BP(j + 1) == (r / B) * B * BP(j) by { Assoc(r / B, B, BP(j)); }
    assert x * Val(low + [y]) * w == x * Val(low) * w + x * y * BP(j) by {
      Distribute(Val(low), BP(|low|) * y, x);
      Distribute(x * Val(low), x * (BP(|low|) * y), w);
      assert x * (BP(|low|) * y) * w == x * y * BP(j) by {
        Assoc(x, BP(|low|) * y, w);
        Assoc(BP(|low|), y, w);
        Assoc(y, BP(|low|), w);
        Assoc(x, y, BP(j));
      }
    }
    Distribute((r / B) * B, r % B, BP(j));
    Distribute(t[j] + x * y, u, BP(j));
    Distribute(t[j], x * y, BP(j));
    Distribute(r % B, t[j], BP(j));
  }

  /** Add `x` times digits `lo` to `hi` of `b` to `t`, in place, from column
      `at` + `lo` on; `u` is the carry that is left over. */
  method MulAddRow(t: array<int>, at: int, x: int, b: seq<int>, lo: nat, hi: nat) returns (u: int)
    requires AreDigits(t[..]) && AreDigits(b) && 0 <= x < B
    requires lo <= hi <= |b| && 0 <= at + lo && at + hi <= t.Length
    modifies t
    ensures AreDigits(t[..]) && 0 <= u < B
    ensures Val(t[..]) + u * BP(at + hi) == old(Val(t[..])) + x * Val(b[lo..hi]) * BP(at + lo)
    ensures forall j :: 0 <= j < at + lo || at + hi <= j < t.Length ==> t[j] == old(t[j])
  {
    ghost var sum := Val(t[..]);
    ghost var w := BP(at + lo);
    u := 0;
    assert b[lo..lo] == [];
    for iy := lo to hi
      invariant AreDigits(t[..]) && 0 <= u < B
      invariant Val(t[..]) + u * BP(at + iy) == sum + x * Val(b[lo..iy]) * w
      invariant forall j :: 0 <= j < at + lo || at + iy <= j < t.Length ==> t[j] == old(t[j])
    {
      ghost var before := t[..];
      var r := t[at + iy] + x * b[iy] + u;
      RowWord(t[at + iy], x, b[iy], u);
      BPAdd(at + lo, iy - lo);
      RowStep(before, at + iy, x, b[lo..iy], b[iy], u, sum, w);
      DivMod(r, B);
      t[at + iy] := r % B;
      u := r / B;
      assert t[..] == before[at + iy := r % B];
      SliceSnoc(b, lo, iy);
    }
  }

  /** Adding to one column changes the number by that column's weight. */
  lemma {:induction false} ValSet(t: seq<int>, j: nat, u: int)
    requires j < |t| && t[j] == 0
    ensures Val(t[j := u]) == Val(t) + u * BP(j)
  {
    ValUpdate(t, j, u);
  }

  // ----- the product, columns below digs -----

  /** What the truncated row leaves out of x * b is a multiple of the weight of column ix + pb. */
  lemma {:induction false} RowSplit(x: int, b: seq<int>, ix: nat, pb: nat)
    requires pb <= |b|
    ensures (BP(ix) * x) * Val(b) == x * Val(b[..pb]) * BP(ix) + (x * Val(b[pb..])) * BP(ix + pb)
  {
    ValSplit(b, pb);
    var low, h := Val(b[..pb]), Val(b[pb..]);
    BPAdd(ix, pb);
    Distribute(low, BP(pb) * h, BP(ix) * x);
    assert (BP(ix) * x) * low == x * low * BP(ix) by { Assoc(BP(ix), x, low); }
    assert (BP(ix) * x) * (BP(pb) * h) == (x * h) * BP(ix + pb) by {
      Assoc(BP(ix), x, BP(pb) * h);
      Assoc(x, BP(pb), h);
      Assoc(x, h, BP(pb));
      Assoc(BP(ix), BP(pb), x * h);
    }
  }

  lemma {:induction false} PrefixProduct(a: seq<int>, b: seq<int>, ix: nat)
    requires ix < |a|
    ensures Val(a[..ix + 1]) * Val(b) == Val(a[..ix]) * Val(b) + (BP(ix) * a[ix]) * Val(b)
  {
    assert a[..ix + 1] == a[..ix] + [a[ix]];
    ValSnoc(a[..ix], a[ix]);
    Distribute(Val(a[..ix]), BP(ix) * a[ix], Val(b));
  }

  lemma {:induction false} ProductRow(a: seq<int>, b: seq<int>, ix: nat, pb: nat, digs: nat,
                                      before: int, after: int, u: int)
    requires ix < |a| && pb <= |b| && (pb == |b| || ix + pb == digs)
    requires Cong(before, Val(a[..ix]) * Val(b), BP(digs))
    requires after + u * BP(ix + pb) == before + a[ix] * Val(b[..pb]) * BP(ix)
    ensures Cong(after + u * BP(ix + pb), Val(a[..ix + 1]) * Val(b), BP(digs))
    ensures ix + pb == digs ==> Cong(after, Val(a[..ix + 1]) * Val(b), BP(digs))
  {
    PrefixProduct(a, b, ix);
    RowSplit(a[ix], b, ix, pb);
    assert pb == |b| ==> Val(b[pb..]) == 0;
    CongRow(before, Val(a[..ix]) * Val(b), a[ix] * Val(b[..pb]) * BP(ix),
            a[ix] * Val(b[pb..]), BP(ix + pb), BP(digs));
    if ix + pb == digs {
      CongIntro(after, after + u * BP(digs), -u, BP(digs));
    }
  }

  /** Adding a row whose left-out part `k` is a multiple of the modulus, or nothing. */
  lemma {:induction false} CongRow(before: int, sum: int, row: int, k: int, w: int, m: int)
    requires 0 < m && Cong(before, sum, m) && (k == 0 || w == m)
    ensures Cong(before + row, sum + (row + k * w), m)
  {
    CongIntro(row, row + k * w, -k, m);
    CongAdd(before, sum, row, row + k * w, m);
  }

  /** After `ix` rows, `t` holds their sum up to multiples of the weight of column `digs`. */
  ghost predicate RowsDone(t: seq<int>, a: seq<int>, b: seq<int>, ix: nat)
    requires ix <= |a|
  {
    && AreDigits(t)
    && (forall j :: ix + |b| <= j < |t| ==> t[j] == 0)
    && Cong(Val(t), Val(a[..ix]) * Val(b), BP(|t|))
  }

  /** Row `ix` of the product, cut off at the length of `t`. */
  method AddProductRow(t: array<int>, a: seq<int>, b: seq<int>, ix: nat)
    requires AreDigits(a) && AreDigits(b) && ix < |a|
    requires RowsDone(t[..], a, b, ix)
    modifies t
    ensures RowsDone(t[..], a, b, ix + 1)
  {
    var pb := Min(|b|, t.Length - ix);
    if pb < 0 {
      // the row starts above the columns wanted
      RowAbove(a, b, ix, t.Length, Val(t[..]));
    } else {
      ghost var before := Val(t[..]);
      var u := MulAddRow(t, ix, a[ix], b, 0, pb);
      assert b[0..pb] == b[..pb];
      ProductRow(a, b, ix, pb, t.Length, before, Val(t[..]), u);
      if ix + pb < t.Length {
        ValSet(t[..], ix + pb, u);
        ghost var row := t[..];
        t[ix + pb] := u;
        assert t[..] == row[ix + pb := u];
      }
    }
  }

  /** `c` = |a| * |b|, columns below `digs` only. */
  method MulSchool(a: MpInt, b: MpInt, c: MpInt, digs: nat)
    requires a.Valid() && b.Valid()
    modifies c
    ensures c.Valid() && c.sign == Zpos
    ensures Val(c.dp) == (old(Val(a.dp)) * old(Val(b.dp))) % BP(digs)
  {
    DigitsOf(a);
    DigitsOf(b);
    var t := new int[digs](_ => 0);
    ValZeros(t[..]);
    var pa := |a.dp|;
    for ix := 0 to pa
      invariant unchanged(a) && unchanged(b) && RowsDone(t[..], a.dp, b.dp, ix)
    {
      AddProductRow(t, a.dp, b.dp, ix);
    }
    assert a.dp[..pa] == a.dp;
    ValBound(t[..]);
    CongUnique(Val(t[..]), Val(a.dp) * Val(b.dp), BP(digs));
    c.dp, c.sign := t[..], Zpos;
    c.Clamp();
  }

  lemma {:induction false} RowAbove(a: seq<int>, b: seq<int>, ix: nat, digs: nat, v: int)
    requires ix < |a| && digs <= ix && Cong(v, Val(a[..ix]) * Val(b), BP(digs))
    ensures Cong(v, Val(a[..ix + 1]) * Val(b), BP(digs))
  {
    PrefixProduct(a, b, ix);
    BPAdd(digs, ix - digs);
    var k := BP(ix - digs) * a[ix] * Val(b);
    assert (BP(ix) * a[ix]) * Val(b) == k * BP(digs) by {
      Assoc(BP(digs), BP(ix - digs), a[ix]);
      Assoc(BP(digs), BP(ix - digs) * a[ix], Val(b));
    }
    CongIntro(Val(a[..ix]) * Val(b), Val(a[..ix + 1]) * Val(b), -k, BP(digs));
  }

  // ----- the high columns only -----

  ghost predicate HighRowsDone(t: seq<int>, a: seq<int>, b: seq<int>, digs: nat, ix: nat)
    requires ix <= |a| <= digs + 1
  {
    && AreDigits(t)
    && (forall j :: ix + |b| <= j < |t| ==> t[j] == 0)
    && Val(t) == HighPart(a[..ix], b, digs) * BP(digs)
  }

  /** Row `ix` of the product, from column `digs` on. */
  method AddHighRow(t: array<int>, a: seq<int>, b: seq<int>, digs: nat, ix: nat)
    requires AreDigits(a) && AreDigits(b) && ix < |a| <= digs + 1
    requires t.Length == |a| + |b| + 1 && HighRowsDone(t[..], a, b, digs, ix)
    modifies t
    ensures HighRowsDone(t[..], a, b, digs, ix + 1)
  {
    var lo := digs - ix;
    var u := 0;
    ghost var before := Val(t[..]);
    assert b[|b|..|b|] == [];
    if lo < |b| {
      u := MulAddRow(t, ix, a[ix], b, lo, |b|);
    }
    HighRowSum(a, b, digs, ix, before);
    ValSet(t[..], ix + |b|, u);
    ghost var row := t[..];
    t[ix + |b|] := u;
    assert t[..] == row[ix + |b| := u];
  }

  lemma {:induction false} HighRowSum(a: seq<int>, b: seq<int>, digs: nat, ix: nat, before: int)
    requires ix < |a| <= digs + 1 && before == HighPart(a[..ix], b, digs) * BP(digs)
    ensures digs - ix < |b| ==>
      before + a[ix] * Val(b[digs - ix..|b|]) * BP(ix + (digs - ix)) == HighPart(a[..ix + 1], b, digs) * BP(digs)
    ensures digs - ix >= |b| ==> before == HighPart(a[..ix + 1], b, digs) * BP(digs)
  {
    HighPartSnoc(a, b, digs, ix);
    if digs - ix < |b| {
      assert b[digs - ix..|b|] == b[digs - ix..];
      Distribute(HighPart(a[..ix], b, digs), a[ix] * Val(b[digs - ix..]), BP(digs));
    } else {
      assert b[|b|..] == [];
      assert a[ix] * Val(b[|b|..]) == 0;
    }
  }

  /** `c` = |a| * |b| without the columns below `digs`. */
  method MulHighSchool(a: MpInt, b: MpInt, c: MpInt, digs: nat)
    requires a.Valid() && b.Valid() && |a.dp| <= digs + 1
    modifies c
    ensures c.Valid() && c.sign == Zpos
    ensures Val(c.dp) / BP(digs) == HighPart(old(a.dp), old(b.dp), digs)
  {
    DigitsOf(a);
    DigitsOf(b);
    var t := new int[|a.dp| + |b.dp| + 1](_ => 0);
    ValZeros(t[..]);
    var pa := |a.dp|;
    assert a.dp[..0] == [];
    for ix := 0 to pa
      invariant unchanged(a) && unchanged(b) && HighRowsDone(t[..], a.dp, b.dp, digs, ix)
    {
      AddHighRow(t, a.dp, b.dp, digs, ix);
    }
    assert a.dp[..pa] == a.dp;
    DivModUnique(Val(t[..]), BP(digs), HighPart(a.dp, b.dp, digs), 0);
    c.dp, c.sign := t[..], Zpos;
    c.Clamp();
  }

  // ----- carries -----

  lemma {:induction false} CarryStep(t: seq<int>, j: nat, u: int)
    requires AreDigits(t) && j <= |t| && 0 < u && Val(t) + u * BP(j) < BP(|t|)
    ensures j < |t| && 0 <= (t[j] + u) % B < B && 0 <= (t[j] + u) / B
    ensures Val(t[j := (t[j] + u) % B]) + ((t[j] + u) / B) * BP(j + 1) == Val(t) + u * BP(j)
  {
    ValBound(t);
    if j == |t| {
      MulLe(1, u, BP(j));
      assert false;
    }
    var r := t[j] + u;
    DivMod(r, B);
    DivNonNeg(r, B);
    ValUpdate(t, j, r % B);
    BPSucc(j);
    Assoc(r / B, B, BP(j));
    Distribute((r / B) * B, r % B, BP(j));
    Distribute(t[j], u, BP(j));
    Distribute(r % B, t[j], BP(j));
  }

  /** Propagate carry `carry` upwards from column `from`; it dies out inside `t`. */
  method PropagateCarry(t: array<int>, from: nat, carry: int)
    requires AreDigits(t[..]) && from <= t.Length && 0 <= carry
    requires Val(t[..]) + carry * BP(from) < BP(t.Length)
    modifies t
    ensures AreDigits(t[..]) && Val(t[..]) == old(Val(t[..])) + carry * BP(from)
    ensures forall i :: 0 <= i < from ==> t[i] == old(t[i])
  {
    var u, j := carry, from;
    while u != 0
      invariant from <= j <= t.Length && 0 <= u
      invariant AreDigits(t[..])
      invariant Val(t[..]) + u * BP(j) == old(Val(t[..])) + carry * BP(from)
      invariant forall i :: 0 <= i < from ==> t[i] == old(t[i])
      decreases t.Length - j
    {
      CarryStep(t[..], j, u);
      ghost var before := t[..];
      var r := t[j] + u;
      t[j] := r % B;
      assert t[..] == before[j := r % B];
      u := r / B;
      j := j + 1;
    }
  }

  // ----- squaring -----

  /** After `ix` rows the square lacks only the square of the digits from `ix` on. */
  ghost predicate SquareRowsDone(t: seq<int>, a: seq<int>, ix: nat)
    requires ix <= |a|
  {
    && AreDigits(t)
    && Val(t) + BP(2 * ix) * (Val(a[ix..]) * Val(a[ix..])) == Val(a) * Val(a)
  }

  /** Twice a product of digits, a digit and the carry still fit in a word. */
  lemma {:induction false} SquareWord(t: int, x: int, y: int, u: int)
    requires 0 <= t < B && 0 <= x < B && 0 <= y < B && 0 <= u < 2 * B
    ensures 0 <= x * y + x * y + t + u < WORD_LIMIT && 0 <= (x * y + x * y + t + u) / B < 2 * B
  {
    C.DigitProduct(x, y);
    var r := x * y + x * y + t + u;
    assert r < 2 * (B * B) by {
      assert C.PRODUCT_MAX == B * B - 2 * B + 1;
    }
    Assoc(2, B, B);
    DivLt(r, B, 2 * B);
    DivNonNeg(r, B);
    RadixFacts();
    MulLe(2, MAX_COMBA, B * B);
  }

  /** Add twice `x` times the digits of `a` from `ix` + 1 on, with carry `u0` coming in. */
  method DoubledRow(t: array<int>, a: seq<int>, ix: nat, u0: int) returns (u: int)
    requires AreDigits(t[..]) && AreDigits(a) && ix < |a| && ix + |a| <= t.Length
    requires 0 <= u0 < 2 * B
    modifies t
    ensures AreDigits(t[..]) && 0 <= u < 2 * B
    ensures Val(t[..]) + u * BP(ix + |a|)
         == old(Val(t[..])) + u0 * BP(2 * ix + 1) + 2 * a[ix] * Val(a[ix + 1..]) * BP(2 * ix + 1)
  {
    ghost var sum := Val(t[..]) + u0 * BP(2 * ix + 1);
    ghost var w := BP(2 * ix + 1);
    u := u0;
    var pa := |a|;
    assert a[ix + 1..ix + 1] == [];
    for iy := ix + 1 to pa
      invariant AreDigits(t[..]) && 0 <= u < 2 * B
      invariant Val(t[..]) + u * BP(ix + iy) == sum + 2 * a[ix] * Val(a[ix + 1..iy]) * w
    {
      ghost var before := t[..];
      SquareWord(t[ix + iy], a[ix], a[iy], u);
      var r := a[ix] * a[iy];
      r := t[ix + iy] + r + r + u;
      BPAdd(2 * ix + 1, iy - ix - 1);
      RowStep(before, ix + iy, 2 * a[ix], a[ix + 1..iy], a[iy], u, sum, w);
      Assoc(2, a[ix], a[iy]);
      DivMod(r, B);
      t[ix + iy] := r % B;
      u := r / B;
      assert t[..] == before[ix + iy := r % B];
      SliceSnoc(a, ix + 1, iy);
    }
    assert a[ix + 1..pa] == a[ix + 1..];
  }

  /** Splitting off one digit of a square. */
  lemma {:induction false} SquareSplit(a: seq<int>, ix: nat)
    requires ix < |a|
    ensures BP(2 * ix) * (Val(a[ix..]) * Val(a[ix..]))
         == a[ix] * a[ix] * BP(2 * ix) + 2 * a[ix] * Val(a[ix + 1..]) * BP(2 * ix + 1)
          + BP(2 * ix + 2) * (Val(a[ix + 1..]) * Val(a[ix + 1..]))
  {
    var x, h, w := a[ix], Val(a[ix + 1..]), BP(2 * ix);
    assert a[ix..][1..] == a[ix + 1..];
    BPSucc(2 * ix);
    BPSucc(2 * ix + 1);
    SquareExpand(x, h, w);
  }

  lemma {:induction false} SquareExpand(x: int, h: int, w: int)
    ensures w * ((x + B * h) * (x + B * h)) == x * x * w + 2 * x * h * (B * w) + (B * (B * w)) * (h * h)
  {
    var y := B * h;
    assert (x + y) * (x + y) == x * x + 2 * x * y + y * y by {
      Distribute(x, y, x + y);
      Distribute(x, y, x);
      Distribute(x, y, y);
    }
    Distribute(x * x + 2 * x * y, y * y, w);
    Distribute(x * x, 2 * x * y, w);
    assert w * (2 * x * y) == 2 * x * h * (B * w) by {
      Assoc(2 * x, B, h);
      Assoc(2 * x, h, B);
      Assoc(2 * x * h, B, w);
    }
    assert w * (y * y) == (B * (B * w)) * (h * h) by {
      Assoc(B, h, B * h);
      Assoc(h, B, h);
      Assoc(B, h, h);
      Assoc(B, B, h * h);
      Assoc(B, B, w);
      Assoc(B * B, w, h * h);
      Assoc(w, B * B, h * h);
    }
  }

  /** Row `ix` of the square: the square of its digit and twice its products with the digits above. */
  method AddSquareRow(t: array<int>, a: seq<int>, ix: nat)
    requires AreDigits(a) && ix < |a| && t.Length == 2 * |a| + 1
    requires SquareRowsDone(t[..], a, ix)
    modifies t
    ensures SquareRowsDone(t[..], a, ix + 1)
  {
    ghost var start := t[..];
    RowWord(t[2 * ix], a[ix], a[ix], 0);
    var r := t[2 * ix] + a[ix] * a[ix];
    SquareDigit(start, ix, a[ix]);
    t[2 * ix] := r % B;
    assert t[..] == start[2 * ix := r % B];
    DivMod(r, B);
    var u := DoubledRow(t, a, ix, r / B);
    SquareRowSum(start, a, ix, Val(t[..]) + u * BP(ix + |a|));
    PropagateCarry(t, ix + |a|, u);
  }

  /** What a row leaves, its carry included, and why there is room for it. */
  lemma {:induction false} SquareRowSum(t: seq<int>, a: seq<int>, ix: nat, sum: int)
    requires AreDigits(a) && ix < |a| && |t| == 2 * |a| + 1
    requires SquareRowsDone(t, a, ix)
    requires sum == Val(t) + a[ix] * a[ix] * BP(2 * ix) + 2 * a[ix] * Val(a[ix + 1..]) * BP(2 * ix + 1)
    ensures sum + BP(2 * (ix + 1)) * (Val(a[ix + 1..]) * Val(a[ix + 1..])) == Val(a) * Val(a)
    ensures sum < BP(|t|)
  {
    SquareSplit(a, ix);
    C.ProductBound(a, a);
    BPLe(2 * |a|, |t|);
    ValBound(a[ix + 1..]);
    MulNonNeg(Val(a[ix + 1..]), Val(a[ix + 1..]));
    MulNonNeg(BP(2 * ix + 2), Val(a[ix + 1..]) * Val(a[ix + 1..]));
  }

  lemma {:induction false} SquareDigit(t: seq<int>, ix: nat, x: int)
    requires 2 * ix < |t|
    ensures var r := t[2 * ix] + x * x;
      Val(t[2 * ix := r % B]) + (r / B) * BP(2 * ix + 1) == Val(t) + x * x * BP(2 * ix)
  {
    var r, w := t[2 * ix] + x * x, BP(2 * ix);
    DivMod(r, B);
    ValUpdate(t, 2 * ix, r % B);
    BPSucc(2 * ix);
    Assoc(r / B, B, w);
    Distribute((r / B) * B, r % B, w);
    Distribute(r % B, t[2 * ix], w);
    Distribute(t[2 * ix], x * x, w);
  }

  /** `b` = `a` squared. */
  method SqrSchool(a: MpInt, b: MpInt)
    requires a.Valid()
    modifies b
    ensures b.Valid() && b.sign == Zpos
    ensures Val(b.dp) == old(Val(a.dp)) * old(Val(a.dp))
  {
    DigitsOf(a);
    var pa := |a.dp|;
    var t := new int[2 * pa + 1](_ => 0);
    ValZeros(t[..]);
    assert a.dp[0..] == a.dp;
    for ix := 0 to pa
      invariant unchanged(a) && SquareRowsDone(t[..], a.dp, ix)
    {
      AddSquareRow(t, a.dp, ix);
    }
    assert Val(a.dp[pa..]) == 0;
    b.dp, b.sign := t[..], Zpos;
    b.Clamp();
  }
}
