/** Diminished Radix reduction: the modulus is B^m - k with one digit k, and the
    upper half of the number is folded into the lower half in place. */
module DiminishedRadix {
  import opened Arith
  import opened Digits
  import opened MpInts
  import opened DivideSchool
  import opened Columns
  import opened TwoK
  import opened Montgomery
  import S = Schoolbook

  /** All digits but the lowest are full, and there are at least two. */
  ghost predicate IsDr(n: seq<int>) {
    |n| >= 2 && forall i :: 1 <= i < |n| ==> n[i] == B - 1
  }

  /** Looks at the digits from the second up. */
  method IsModulus(a: MpInt) returns (r: bool)
    ensures r == IsDr(a.dp)
  {
    if |a.dp| < 2 {
      return false;
    }
    for ix := 1 to |a.dp|
      invariant forall i :: 1 <= i < ix ==> a.dp[i] == B - 1
    {
      if a.dp[ix] != B - 1 {
        return false;
      }
    }
    return true;
  }

  /** The amount by which the modulus misses B^m. */
  method Setup(a: MpInt) returns (k: int)
    requires a.Valid() && IsDr(a.dp)
    ensures 1 <= k <= B && k == B - a.dp[0] && Val(a.dp) == BP(|a.dp|) - k
  {
    DigitsOf(a);
    k := B - a.dp[0];
    FullDigits(a.dp[1..]);
    assert a.dp[1..][..] == a.dp[1..];
    BPSucc(|a.dp| - 1);
    Distribute(BP(|a.dp| - 1), -1, B);
  }

  lemma {:induction false} FullDigits(s: seq<int>)
    requires forall i :: 0 <= i < |s| ==> s[i] == B - 1
    ensures Val(s) == BP(|s|) - 1
  {
    if s != [] {
      FullDigits(s[1..]);
      BPSucc(|s| - 1);
      Distribute(BP(|s| - 1), -1, B);
    }
  }

  // ----- the top cell of a fold -----

  /** One fold of any number up to (n-1)^2 leaves at most m + 1 digits exactly
      when k is a digit or the modulus has two digits only.  Otherwise the top
      cell may come to hold the radix itself. */
  lemma {:induction false} FoldFitsIff(m: nat, k: int)
    requires 2 <= m && 1 <= k <= B
    ensures var n := BP(m) - k;
      (forall x: nat :: x <= (n - 1) * (n - 1) ==> Folded(x, BP(m), k) < BP(m + 1)) <==> (k < B || m == 2)
  {
    var n, w := BP(m) - k, BP(m);
    if k < B || m == 2 {
      forall x: nat | x <= (n - 1) * (n - 1)
        ensures Folded(x, w, k) < BP(m + 1)
      {
        FoldFits(x, m, k);
      }
    } else {
      FoldOverflows(m);
    }
  }

  lemma {:induction false} FoldFits(x: nat, m: nat, k: int)
    requires 2 <= m && 1 <= k <= B && (k < B || m == 2)
    requires x <= (BP(m) - k - 1) * (BP(m) - k - 1)
    ensures x < BP(2 * m) && Folded(x, BP(m), k) < BP(m + 1)
  {
    BPSucc(m);
    BPSucc(1);
    BPSucc(0);
    BPAdd(m, m);
    BPLe(2, m);
    SmallSquare(BP(m), k);
    if k < B {
      FitsWithDigit(x, BP(m), k);
    } else {
      FitsWithTwo(x, BP(m));
    }
  }

  lemma {:induction false} SmallSquare(w: int, k: int)
    requires 1 <= k <= B && B * B <= w
    ensures 0 <= (w - k - 1) * (w - k - 1) < w * w
  {
    MulLe(2, B, B);
    MulBothLe(w - k - 1, w - 1, w - k - 1, w - 1);
    MulNonNeg(w - k - 1, w - k - 1);
    SquareBelow(w, 1);
  }

  lemma {:induction false} FitsWithDigit(x: nat, w: int, k: int)
    requires 0 < w && 1 <= k < B && x < w * w
    ensures Folded(x, w, k) < B * w
  {
    DivMod(x, w);
    DivNonNeg(x, w);
    DivLt(x, w, w);
    MulBothLe(x / w, w - 1, k, B - 1);
    Distribute(w, -1, B - 1);
    Distribute(B, -1, w);
  }

  lemma {:induction false} FitsWithTwo(x: nat, w: int)
    requires w == B * B && x <= (w - B - 1) * (w - B - 1)
    ensures Folded(x, w, B) < B * w
  {
    var h := x / w;
    DivMod(x, w);
    Squares(w, B);
    MulLe(4, B, B);
    assert x < (w - 2 * B) * w by { Distribute(w, 2 * B, w); Assoc(2, B, w); }
    DivLt(x, w, w - 2 * B);
    MulLe(h, w - 2 * B - 1, B);
    Distribute(w, 2 * B + 1, B);
    Distribute(2 * B, 1, B);
    Assoc(2, B, B);
  }

  /** With k = B and three digits or more a number in range needs more than m + 1 digits. */
  lemma {:induction false} FoldOverflows(m: nat)
    requires 3 <= m
    ensures var w := BP(m);
      var x := (w - 2 * B - 3) * w + (w - 1);
      0 <= x <= (w - B - 1) * (w - B - 1) && Folded(x, w, B) >= BP(m + 1)
  {
    BPSucc(0);
    BPSucc(1);
    BPSucc(2);
    BPSucc(m);
    BPLe(3, m);
    MulLe(4, B, B * B);
    OverflowExample(BP(m));
  }

  lemma {:induction false} OverflowExample(w: int)
    requires 4 * (B * B) <= w
    ensures var x := (w - 2 * B - 3) * w + (w - 1);
      0 <= x <= (w - B - 1) * (w - B - 1) && Folded(x, w, B) >= B * w
  {
    var top := w - 2 * B - 3;
    MulLe(4, B, B);
    MulNonNeg(top, w);
    DivModUnique(top * w + (w - 1), w, top, w - 1);
    Linear(w, B, w);
    Linear(w, B, B);
    Squares(w, B);
  }

  lemma {:induction false} Linear(w: int, b: int, z: int)
    ensures (w - 2 * b - 3) * z == w * z - 2 * (b * z) - 3 * z
  {
    Distribute(w, 2 * b + 3, z);
    Distribute(2 * b, 3, z);
    Assoc(2, b, z);
  }

  lemma {:induction false} Squares(w: int, b: int)
    ensures w * w - 2 * (b * w) - 2 * w <= (w - b - 1) * (w - b - 1)
    ensures (w - b - 1) * (w - b - 1) == w * w - 2 * (b * w) - 2 * w + b * b + 2 * b + 1
  {
    SquareBelow(w, b + 1);
    Distribute(b, 1, w);
    SquareBelow(b, -1);
    MulNonNeg(Abs(b + 1), Abs(b + 1));
    Assoc(2, b + 1, w);
  }

  // ----- the fold in place -----

  lemma {:induction false} FoldWord(x: int, k: int, h: int, u: int)
    requires 0 <= x < B && 1 <= k <= B && 0 <= h < B && 0 <= u <= B
    ensures 0 <= x + k * h + u < WORD_LIMIT && 0 <= (x + k * h + u) / B <= B
  {
    MulBothLe(k, B, h, B - 1);
    MulNonNeg(k, h);
    Distribute(B, -1, B);
    var r := x + k * h + u;
    DivLt(r, B, B + 1);
    DivNonNeg(r, B);
    RadixFacts();
    MulLe(4, MAX_COMBA, B * B);
    MulLe(1, B, B);
  }

  /** The lower half takes in the upper half times k, digit by digit. */
  method FoldDigits(t: array<int>, m: nat, k: int) returns (mu: int)
    requires 1 <= m && t.Length == 2 * m && AreDigits(t[..]) && 1 <= k <= B
    modifies t
    ensures AreDigits(t[..m]) && 0 <= mu <= B
    ensures Val(t[..m]) + mu * BP(m) == old(Val(t[..m])) + k * old(Val(t[m..]))
  {
    ghost var start := t[..];
    ghost var high, sum := start[m..], Val(start[..m]);
    mu := 0;
    assert high[..0] == [];
    for i := 0 to m
      invariant 0 <= mu <= B && AreDigits(t[..m])
      invariant forall j :: m <= j < 2 * m ==> t[j] == start[j]
      invariant Val(t[..m]) + mu * BP(i) == sum + k * Val(high[..i]) * 1
    {
      ghost var before := t[..m];
      assert t[i + m] == high[i];
      FoldWord(t[i], k, high[i], mu);
      var r := t[i + m] * k + t[i] + mu;
      S.RowStep(before, i, k, high[..i], high[i], mu, sum, 1);
      DivMod(r, B);
      t[i] := r % B;
      mu := r / B;
      assert t[..m] == before[i := r % B];
      assert high[..i + 1] == high[..i] + [high[i]];
    }
    assert high[..m] == high;
  }

  /** (x mod B^m) + k * (x / B^m), in place on the 2m digits of x.  The top cell
      takes the last carry as it is, even if that is the radix. */
  method FoldPass(t: array<int>, m: nat, k: int)
    requires 1 <= m && t.Length == 2 * m && AreDigits(t[..]) && 1 <= k <= B
    modifies t
    ensures IsFolded(t[..], m) && Val(t[..]) == Folded(old(DigitsValue(t[..])), BP(m), k)
  {
    ghost var start := t[..];
    assert start[..m] == t[..m] && start[m..] == t[m..];
    var mu := FoldDigits(t, m, k);
    ghost var low := t[..m];
    ValDivMod(start, m);
    t[m] := mu;
    forall i | m + 1 <= i < t.Length {
      t[i] := 0;
    }
    assert t[..m] == low;
    FoldedValue(t[..], m);
  }

  /** Digits, a top cell that may hold the radix, and zeros above it. */
  ghost predicate IsFolded(t: seq<int>, m: nat) {
    && m < |t| && AreDigits(t[..m]) && 0 <= t[m] <= B
    && forall i :: m + 1 <= i < |t| ==> t[i] == 0
  }

  lemma {:induction false} FoldedValue(t: seq<int>, m: nat)
    requires IsFolded(t, m)
    ensures Val(t) == Val(t[..m]) + t[m] * BP(m)
    ensures t[m] < B ==> AreDigits(t)
  {
    SplitAt(t, m);
    ValZeros(t[m + 1..]);
    if t[m] < B {
      forall i | 0 <= i < |t|
        ensures 0 <= t[i] < B
      {
        if i < m {
          assert t[i] == t[..m][i];
        }
      }
    }
  }

  /** When the top cell holds the radix, what is below it is less than the modulus:
      the subtraction that follows borrows from the top cell. */
  lemma {:induction false} RadixOnTop(x: nat, m: nat, k: int, low: int)
    requires 2 <= m && 1 <= k <= B && x <= (BP(m) - k - 1) * (BP(m) - k - 1)
    requires Folded(x, BP(m), k) == low + B * BP(m) && 0 <= low
    ensures 3 <= m && k == B && low < BP(m) - k
  {
    BPSucc(m);
    if k < B || m == 2 {
      FoldFits(x, m, k);
      assert false;
    } else {
      BPSucc(0);
      BPSucc(1);
      BPSucc(2);
      BPLe(3, m);
      MulLe(4, B, B * B);
      BorrowsFromTop(x, BP(m));
    }
  }

  lemma {:induction false} BorrowsFromTop(x: nat, w: int)
    requires 4 * (B * B) <= w && x <= (w - B - 1) * (w - B - 1)
    ensures Folded(x, w, B) - B * w < w - B
  {
    var h := x / w;
    DivMod(x, w);
    Squares(w, B);
    MulLe(4, B, B);
    assert x < (w - 2 * B - 1) * w by {
      Distribute(w, 2 * B + 1, w);
      Distribute(2 * B, 1, w);
      Assoc(2, B, w);
    }
    DivLt(x, w, w - 2 * B - 1);
    MulLe(h, w - 2 * B - 2, B);
    Distribute(w, 2 * B + 2, B);
    Distribute(2 * B, 2, B);
    Assoc(2, B, B);
  }

  /** The value of digits, as a natural number. */
  ghost function DigitsValue(s: seq<int>): nat
    requires AreDigits(s)
  {
    ValBound(s);
    Val(s)
  }

  // ----- the subtraction, cell by cell -----

  /** One cell: machine digits wrap around, and the top bit is the borrow. */
  lemma {:induction false} CellDifference(c: int, d: int, u: int)
    requires 0 <= c <= B && 0 <= d < B && 0 <= u <= 1 && (c == B ==> 0 < d + u)
    ensures var r := (c - d - u) % DIGIT_LIMIT;
      0 < DIGIT_LIMIT / 2 && 0 <= r / (DIGIT_LIMIT / 2) <= 1 && r % B - (r / (DIGIT_LIMIT / 2)) * B == c - d - u
  {
    RadixFacts();
    var v, half := c - d - u, DIGIT_LIMIT / 2;
    LimitIsMultiple();
    if 0 <= v {
      ModSmall(v, DIGIT_LIMIT);
      ModSmall(v, half);
      ModSmall(v, B);
    } else {
      DivModUnique(v, DIGIT_LIMIT, -1, v + DIGIT_LIMIT);
      DivModUnique(v + DIGIT_LIMIT, half, 1, v + half);
      Distribute(DIGIT_LIMIT / B, 1, B);
      DivModUnique(v + DIGIT_LIMIT, B, DIGIT_LIMIT / B - 1, v + B);
    }
  }

  lemma {:induction false} LimitIsMultiple()
    ensures DIGIT_LIMIT == (DIGIT_LIMIT / B) * B && 2 * B <= DIGIT_LIMIT && DIGIT_LIMIT % 2 == 0
  {
    hide Pow;
    RadixFacts();
    PowPos(2, DIGIT_WIDTH - DIGIT_BIT);
    PowAdd(2, DIGIT_WIDTH - DIGIT_BIT, DIGIT_BIT);
    DivModUnique(DIGIT_LIMIT, B, Pow(2, DIGIT_WIDTH - DIGIT_BIT), 0);
    EvenPower(DIGIT_WIDTH);
  }

  lemma {:induction false} EvenPower(e: nat)
    requires 0 < e
    ensures Pow(2, e) % 2 == 0
  {
  }

  /** The low `i` cells are done, and `u` is borrowed from cell `i`. */
  ghost predicate Subtracted(a: seq<int>, start: seq<int>, b: seq<int>, i: nat, u: int) {
    && i <= |a| == |start| && 0 <= u <= 1
    && AreDigits(a[..i]) && a[i..] == start[i..]
    && Val(a[..i]) - u * BP(i) == Val(start[..i]) - Val(b[..Min(i, |b|)])
  }

  /** A cell of the number and what is taken from it. */
  method SubtractCell(a: array<int>, i: nat, d: int, u: int, ghost start: seq<int>, ghost b: seq<int>)
    returns (u': int)
    requires i < a.Length && Subtracted(a[..], start, b, i, u)
    requires 0 <= d < B && d == if i < |b| then b[i] else 0
    requires 0 <= a[i] <= B && (a[i] == B ==> 0 < d + u)
    modifies a
    ensures Subtracted(a[..], start, b, i + 1, u')
  {
    ghost var before := a[..];
    CellDifference(a[i], d, u);
    var r := (a[i] - d - u) % DIGIT_LIMIT;
    u' := r / (DIGIT_LIMIT / 2);
    a[i] := r % B;
    DivMod(r, B);
    CellDone(before, start, b, i, u, u', r % B, d);
    assert a[..] == before[i := r % B];
  }

  lemma {:induction false} CellDone(a: seq<int>, start: seq<int>, b: seq<int>, i: nat, u: int, u': int, c: int, d: int)
    requires i < |a| && Subtracted(a, start, b, i, u) && d == if i < |b| then b[i] else 0
    requires 0 <= c < B && 0 <= u' <= 1 && c - u' * B == a[i] - d - u
    ensures Subtracted(a[i := c], start, b, i + 1, u')
  {
    var a' := a[i := c];
    assert a'[..i + 1] == a[..i] + [c] && a'[i + 1..] == a[i..][1..] && start[i + 1..] == start[i..][1..];
    assert a[i] == a[i..][0] == start[i..][0] == start[i];
    assert start[..i + 1] == start[..i] + [start[i]];
    ValSnoc(a[..i], c);
    ValSnoc(start[..i], start[i]);
    if i < |b| {
      assert b[..i + 1] == b[..i] + [b[i]];
      ValSnoc(b[..i], b[i]);
    }
    CellWeights(c, u', start[i], d, u, BP(i));
  }

  lemma {:induction false} CellWeights(c: int, u': int, x: int, d: int, u: int, w: int)
    requires c - u' * B == x - d - u
    ensures w * c - u' * (B * w) == w * x - w * d - u * w
  {
    Assoc(u', B, w);
    Distribute(c, u' * B, w);
    Distribute(x, d, w);
    Distribute(x - d, u, w);
  }

  /** The cells are digits, but the top one may hold the radix if the subtraction
      of `b` borrows from it. */
  ghost predicate CanSubtract(a: seq<int>, b: seq<int>) {
    && AreDigits(b) && |b| <= |a| && Val(b) <= Val(a)
    && forall i :: 0 <= i < |a| ==> 0 <= a[i] <= B && (a[i] == B ==> |b| <= i && i == |a| - 1 && Val(a[..i]) < Val(b))
  }

  /** a = a - b in place: the cells of both, then those of `a` alone. */
  method SubtractDigits(a: array<int>, b: seq<int>)
    requires CanSubtract(a[..], b)
    modifies a
    ensures AreDigits(a[..]) && Val(a[..]) == old(Val(a[..])) - Val(b)
  {
    ghost var start := a[..];
    var u, i := 0, 0;
    while i < |b|
      invariant 0 <= i <= |b| && Subtracted(a[..], start, b, i, u)
    {
      assert a[i] == a[..][i..][0] == start[i];
      u := SubtractCell(a, i, b[i], u, start, b);
      i := i + 1;
    }
    while i < a.Length
      invariant |b| <= i <= a.Length && Subtracted(a[..], start, b, i, u)
    {
      assert a[i] == a[..][i..][0] == start[i];
      TopBorrow(a[..], start, b, i, u);
      u := SubtractCell(a, i, 0, u, start, b);
      i := i + 1;
    }
    NoBorrowLeft(a[..], start, b, u);
  }

  /** A top cell that holds the radix is borrowed from. */
  lemma {:induction false} TopBorrow(a: seq<int>, start: seq<int>, b: seq<int>, i: nat, u: int)
    requires Subtracted(a, start, b, i, u) && CanSubtract(start, b) && |b| <= i < |a|
    ensures start[i] == B ==> u == 1
  {
    assert b[..|b|] == b;
    ValBound(a[..i]);
  }

  lemma {:induction false} NoBorrowLeft(a: seq<int>, start: seq<int>, b: seq<int>, u: int)
    requires Subtracted(a, start, b, |a|, u) && |b| <= |a| && Val(b) <= Val(start)
    ensures AreDigits(a) && Val(a) == Val(start) - Val(b)
  {
    assert a[..|a|] == a && start[..|a|] == start && b[..|b|] == b;
    ValBound(a);
  }

  // ----- the loop -----

  /** x = x mod n, in place: fold, and subtract, until the number is small. */
  method Reduce(x: MpInt, n: MpInt, k: int)
    requires x.Valid() && n.Valid() && x != n && IsDr(n.dp)
    requires 1 <= k <= B && n.Value() == BP(|n.dp|) - k
    requires 0 <= x.Value() <= (n.Value() - 1) * (n.Value() - 1)
    modifies x
    ensures x.Valid() && x.Value() == old(x.Value()) % n.Value()
  {
    ModulusPositive(|n.dp|, k);
    ReduceDigits(x, n, |n.dp|, k);
  }

  lemma {:induction false} ModulusPositive(m: nat, k: int)
    requires 2 <= m && k <= B
    ensures 0 < BP(m) - k
  {
    BPSucc(0);
    BPSucc(1);
    BPLe(2, m);
    MulLe(2, B, B);
  }

  /** The loop, for a modulus of `m` digits. */
  method ReduceDigits(x: MpInt, n: MpInt, m: nat, k: int)
    requires x.Valid() && n.Valid() && x != n && 2 <= m
    requires 1 <= k <= B && 0 < n.Value() == BP(m) - k && |n.dp| == m
    requires 0 <= x.Value() <= (n.Value() - 1) * (n.Value() - 1)
    modifies x
    ensures x.Valid() && n.Valid() && x.Value() == old(x.Value()) % n.Value()
  {
    ghost var v: nat, q: nat, w := x.Value(), n.Value(), BP(m);
    FoldIsMod(v, q, w, k);
    var small := false;
    while !small
      invariant x.Valid() && n.Valid() && n.Value() == q && |n.dp| == m && 0 <= x.Value() <= v
      invariant !small ==> FoldResult(v, q, w, k) == FoldResult(x.Value(), q, w, k)
      invariant small ==> FoldResult(v, q, w, k) == x.Value()
      decreases !small, x.Value()
    {
      FoldedShrinks(x.Value(), w, k);
      small := FoldOnce(x, n, m, k);
    }
  }

  /** One pass: fold, clamp, compare, and subtract unless the number is small. */
  method FoldOnce(x: MpInt, n: MpInt, m: nat, k: int) returns (small: bool)
    requires x.Valid() && n.Valid() && x != n && 2 <= m
    requires 1 <= k <= B && 0 < n.Value() == BP(m) - k && |n.dp| == m
    requires 0 <= x.Value() <= (n.Value() - 1) * (n.Value() - 1)
    modifies x
    ensures x.Valid()
    ensures var r := Folded(old(x.Value()), BP(m), k);
      small == (r < n.Value()) && x.Value() == if small then r else r - n.Value()
  {
    var v: nat := x.Value();
    RoomBelowSquare(v, m, k);
    var digits := Padded(v, 2 * m);
    var t := new int[2 * m](i requires 0 <= i < 2 * m => digits[i]);
    assert t[..] == digits;
    FoldPass(t, m, k);
    DigitsOf(n);
    ClampedCells(v, t[..], n.dp, m, k);
    var s := Clamped(t[..]);
    var cmp := CompareMagnitudes(s, n.dp);
    small := cmp == Lt;
    if small {
      x.dp, x.sign := s, Zpos;
    } else {
      var a := new int[|s|](i requires 0 <= i < |s| => s[i]);
      assert a[..] == s;
      SubtractDigits(a, n.dp);
      x.dp, x.sign := a[..], Zpos;
    }
    x.Clamp();
  }

  lemma {:induction false} RoomBelowSquare(x: nat, m: nat, k: int)
    requires 2 <= m && 1 <= k <= B && x <= (BP(m) - k - 1) * (BP(m) - k - 1)
    ensures x < BP(2 * m)
  {
    BPSucc(0);
    BPSucc(1);
    BPLe(2, m);
    BPAdd(m, m);
    SmallSquare(BP(m), k);
  }

  /** The longer of the two is the larger, digits compare, and the larger can be subtracted from. */
  ghost predicate OrderedByLength(s: seq<int>, n: seq<int>) {
    && (|s| < |n| ==> Val(s) < Val(n)) && (|s| > |n| ==> Val(s) > Val(n))
    && (|s| <= |n| ==> AreDigits(s)) && (Val(n) <= Val(s) ==> CanSubtract(s, n))
  }

  /** What the comparison sees after a fold, and that the subtraction is possible. */
  lemma {:induction false} ClampedCells(x: nat, t: seq<int>, n: seq<int>, m: nat, k: int)
    requires 2 <= m && 1 <= k <= B && x <= (BP(m) - k - 1) * (BP(m) - k - 1)
    requires IsFolded(t, m) && Val(t) == Folded(x, BP(m), k)
    requires AreDigits(n) && |n| == m && n[m - 1] != 0 && Val(n) == BP(m) - k
    ensures Val(Clamped(t)) == Val(t) && OrderedByLength(Clamped(t), n)
  {
    FoldedValue(t, m);
    ClampedAt(t, m);
    if t[m] < B {
      ClampedDigits(t, n);
    } else {
      var low := t[..m];
      ValBound(low);
      RadixOnTop(x, m, k, Val(low));
      assert Clamped(t) == t[..m + 1];
      OversizedCells(t, n, m);
    }
  }

  lemma {:induction false} ClampedAt(t: seq<int>, m: nat)
    requires IsFolded(t, m)
    ensures t[m] != 0 ==> Clamped(t) == t[..m + 1]
    decreases |t|
  {
    if t[m] != 0 {
      if |t| == m + 1 {
        assert t[..m + 1] == t;
      } else {
        var r := t[..|t| - 1];
        assert r[..m] == t[..m];
        ClampedAt(r, m);
        assert r[..m + 1] == t[..m + 1];
      }
    }
  }

  lemma {:induction false} ClampedDigits(t: seq<int>, n: seq<int>)
    requires AreDigits(t) && AreDigits(n) && n != [] && n[|n| - 1] != 0
    ensures Val(Clamped(t)) == Val(t) && OrderedByLength(Clamped(t), n)
  {
    ClampedFacts(t);
    var s := Clamped(t);
    ToDigitsFacts(Val(t));
    ValBound(s);
    ValBound(n);
    ValTop(n);
    if |s| < |n| {
      BPLe(|s|, |n| - 1);
    } else if |s| > |n| {
      ValTop(s);
      BPLe(|n|, |s| - 1);
    }
  }

  lemma {:induction false} OversizedCells(t: seq<int>, n: seq<int>, m: nat)
    requires IsFolded(t, m) && t[m] == B && AreDigits(n) && |n| == m && Val(t[..m]) < Val(n)
    ensures Val(t[..m + 1]) == Val(t) && OrderedByLength(t[..m + 1], n)
  {
    var s := t[..m + 1];
    assert s[..m] == t[..m];
    FoldedValue(t, m);
    FoldedValue(s, m);
    ValBound(t[..m]);
    ValBound(n);
    MulLe(1, B, BP(m));
    forall i | 0 <= i < |s|
      ensures 0 <= s[i] <= B && (s[i] == B ==> m <= i && i == |s| - 1 && Val(s[..i]) < Val(n))
    {
      if i < m {
        assert s[i] == t[..m][i];
      }
    }
  }
}
