/** Montgomery reduction column by column: products pile up in word-wide
    columns, and only one carry is passed on per digit cleared. */
module MontgomeryComba {
  import opened Arith
  import opened Digits
  import opened MpInts
  import opened DivideSchool
  import opened Comba
  import opened Montgomery

  /** The columns from `ix` on, in units of column `ix`, with `ix` rows added:
      a multiple of n was added that clears the columns below. */
  ghost predicate ColumnsCleared(W: seq<int>, x: int, n: int, m: int, ix: nat)
    requires ix < |W|
  {
    0 <= m < BP(ix) && x + n * m == BP(ix) * Val(W[ix..])
  }

  /** Column `ix` may hold a carry and `rows` products, the ones above it products only. */
  ghost predicate ColumnsInRoom(W: seq<int>, ix: nat, rows: nat)
    requires ix < |W|
  {
    && InRoom(W[ix], rows)
    && (forall j :: ix < j < |W| ==> 0 <= W[j] <= rows * PRODUCT_MAX)
  }

  // ----- adding a row -----

  lemma {:induction false} RowColumn(W: seq<int>, ix: nat, j: nat, v: int, sum: int, mu: int, low: seq<int>, y: int)
    requires ix <= j < |W| && |low| == j - ix
    requires Val(W[ix..]) == sum + mu * Val(low)
    requires v == W[j] + mu * y
    ensures Val(W[j := v][ix..]) == sum + mu * Val(low + [y])
  {
    hide Val, BP;
    ValUpdate(W[ix..], j - ix, v);
    assert W[j := v][ix..] == W[ix..][j - ix := v];
    ValSnoc(low, y);
    Distribute(Val(low), BP(|low|) * y, mu);
    Assoc(mu, y, BP(|low|));
  }

  /** Add `mu` times `n` to the columns from `ix` on; no column overflows a word. */
  method AddRow(W: array<int>, ix: nat, mu: int, n: seq<int>)
    requires 0 <= mu < B && AreDigits(n) && ix + |n| < W.Length
    requires |n| < MAX_COMBA && ix < |n| && ColumnsInRoom(W[..], ix, ix + 1)
    modifies W
    ensures ColumnsInRoom(W[..], ix, ix + 2)
    ensures Val(W[..][ix..]) == old(Val(W[..][ix..])) + mu * Val(n)
    ensures W[ix] == old(W[ix]) + mu * n[0]
  {
    ghost var start := W[..];
    ghost var sum := Val(start[ix..]);
    MoreRoom(start, ix);
    assert n[..0] == [];
    var k := |n|;
    for iy := 0 to k
      invariant |W[..]| == |start| && ColumnsInRoom(W[..], ix, ix + 2)
      invariant forall j :: ix + iy <= j < W.Length ==> W[j] == start[j]
      invariant iy != 0 ==> W[ix] == start[ix] + mu * n[0]
      invariant Val(W[..][ix..]) == sum + mu * Val(n[..iy])
    {
      ghost var before := W[..];
      DigitProduct(mu, n[iy]);
      OneColumn(start, ix, iy, mu * n[iy]);
      var v: Word := W[ix + iy] + mu * n[iy];
      RowColumn(before, ix, ix + iy, v, sum, mu, n[..iy], n[iy]);
      W[ix + iy] := v;
      assert W[..] == before[ix + iy := v];
      assert n[..iy + 1] == n[..iy] + [n[iy]];
    }
    assert n[..k] == n;
  }

  lemma {:induction false} MoreRoom(W: seq<int>, ix: nat)
    requires ix < |W| && ColumnsInRoom(W, ix, ix + 1) && ix + 2 <= MAX_COMBA
    ensures ColumnsInRoom(W, ix, ix + 2)
  {
    Distribute(ix + 1, 1, PRODUCT_MAX);
    assert 0 <= PRODUCT_MAX;
  }

  /** A column takes one more product without overflow. */
  lemma {:induction false} OneColumn(W: seq<int>, ix: nat, iy: nat, p: int)
    requires ix + iy < |W| && ColumnsInRoom(W, ix, ix + 1) && ix + 2 <= MAX_COMBA
    requires 0 <= p <= PRODUCT_MAX
    ensures 0 <= W[ix + iy] + p < WORD_LIMIT
    ensures iy == 0 ==> InRoom(W[ix] + p, ix + 2)
    ensures iy != 0 ==> W[ix + iy] + p <= (ix + 2) * PRODUCT_MAX
  {
    Distribute(ix + 1, 1, PRODUCT_MAX);
    MulNonNeg(MAX_COMBA, B);
    ColumnRoom(W[ix + iy] + p, ix + 2);
  }

  // ----- passing the carry on -----

  lemma {:induction false} CarryOn(W: seq<int>, x: int, n: int, m: int, mu: int, ix: nat, start: seq<int>)
    requires ix + 1 < |W| == |start| && ColumnsCleared(start, x, n, m, ix)
    requires 0 <= mu < B && Val(W[ix..]) == Val(start[ix..]) + mu * n && W[ix] % B == 0
    ensures ColumnsCleared(W[ix + 1 := W[ix + 1] + W[ix] / B], x, n, m + mu * BP(ix), ix + 1)
  {
    var W' := W[ix + 1 := W[ix + 1] + W[ix] / B];
    assert W[ix..][1..] == W[ix + 1..];
    assert W'[ix + 1..] == W[ix + 1..][0 := W[ix + 1] + W[ix] / B];
    ValUpdate(W[ix + 1..], 0, W[ix + 1] + W[ix] / B);
    DivMod(W[ix], B);
    Distribute(W[ix] / B, Val(W[ix + 1..]), B);
    assert Val(W[ix..]) == B * Val(W'[ix + 1..]);
    MultiplierGrows(m, mu, ix);
    BPSucc(ix);
    Assoc(BP(ix), B, Val(W'[ix + 1..]));
    Distribute(Val(start[ix..]), mu * n, BP(ix));
    Distribute(m, mu * BP(ix), n);
    Assoc(mu, n, BP(ix));
    Assoc(n, mu, BP(ix));
  }

  lemma {:induction false} CarryInRoom(W: seq<int>, ix: nat, rows: nat)
    requires ix + 1 < |W| && ColumnsInRoom(W, ix, rows)
    ensures 0 <= W[ix + 1] + W[ix] / B < WORD_LIMIT
    ensures ColumnsInRoom(W[ix + 1 := W[ix + 1] + W[ix] / B], ix + 1, rows)
  {
    ColumnRoom(W[ix], rows);
    DivNonNeg(W[ix], B);
    ColumnRoom(W[ix + 1] + W[ix] / B, rows);
  }

  /** Clear the low columns one after the other. */
  method ClearColumns(W: array<int>, n: seq<int>, rho: int, ghost x: int) returns (ghost m: int)
    requires AreDigits(n) && n != [] && |n| < MAX_COMBA && IsRho(rho, Val(n))
    requires W.Length == 2 * |n| + 1 && AreDigits(W[..]) && Val(W[..]) == x
    modifies W
    ensures ColumnsCleared(W[..], x, Val(n), m, |n|) && ColumnsInRoom(W[..], |n|, |n| + 1)
  {
    m := 0;
    var k := |n|;
    ghost var v := Val(n);
    LowDigit(n);
    FirstColumns(W[..]);
    for ix := 0 to k
      invariant ColumnsCleared(W[..], x, v, m, ix) && ColumnsInRoom(W[..], ix, ix + 1)
    {
      ghost var start := W[..];
      var mu := ((W[ix] % B) * rho) % B;
      DigitVanishes(W[ix], rho, n[0], v);
      AddRow(W, ix, mu, n);
      CarryOn(W[..], x, v, m, mu, ix, start);
      CarryInRoom(W[..], ix, ix + 2);
      ghost var added := W[..];
      var c: Word := W[ix + 1] + W[ix] / B;
      W[ix + 1] := c;
      assert W[..] == added[ix + 1 := c];
      m := m + mu * BP(ix);
    }
  }

  lemma {:induction false} FirstColumns(W: seq<int>)
    requires AreDigits(W) && W != []
    ensures ColumnsInRoom(W, 0, 1) && W[0..] == W
  {
    MulLe(1, B - 1, B - 1);
    MulNonNeg(MAX_COMBA, B);
  }

  // ----- the high columns -----

  /** `low` are the digits of the columns already passed, and with the columns
      from `j` on they make up `y`. */
  ghost predicate Propagated(W: seq<int>, low: seq<int>, j: nat, y: int)
    requires j < |W|
  {
    AreDigits(low) && y == Val(low) + BP(|low|) * Val(W[j..])
  }

  /** Column `j` reduced to a digit, its carry in the next one. */
  lemma {:induction false} PropagateStep(W: seq<int>, low: seq<int>, j: nat, y: int)
    requires j + 1 < |W| && Propagated(W, low, j, y)
    ensures Propagated(W[j + 1 := W[j + 1] + W[j] / B], low + [W[j] % B], j + 1, y)
  {
    var c := W[j] / B;
    var W' := W[j + 1 := W[j + 1] + c];
    assert W[j..][1..] == W[j + 1..];
    assert W'[j + 1..] == W[j + 1..][0 := W[j + 1] + c];
    ValUpdate(W[j + 1..], 0, W[j + 1] + c);
    DivMod(W[j], B);
    ValSnoc(low, W[j] % B);
    var h := Val(W'[j + 1..]);
    Distribute(c, Val(W[j + 1..]), B);
    assert Val(W[j..]) == W[j] % B + B * h;
    Distribute(W[j] % B, B * h, BP(|low|));
    BPSucc(|low|);
    Assoc(BP(|low|), B, h);
  }

  /** Carry through the high columns; their low parts are then the digits of `y`. */
  method PropagateColumns(W: array<int>, k: nat, ghost y: int) returns (ghost low: seq<int>)
    requires W.Length == 2 * k + 1 && ColumnsInRoom(W[..], k, k + 1)
    requires y == Val(W[..][k..]) && y < 2 * BP(k)
    modifies W
    ensures AreDigits(low) && Val(low) == y && |low| == k + 1
    ensures forall i :: 0 <= i <= k ==> low[i] == W[k + i] % B
  {
    low := [];
    for ix := k to 2 * k
      invariant ColumnsInRoom(W[..], ix, k + 1)
      invariant |low| == ix - k && Propagated(W[..], low, ix, y)
      invariant forall i :: 0 <= i < |low| ==> low[i] == W[k + i] % B
    {
      ghost var before := W[..];
      PropagateStep(before, low, ix, y);
      CarryInRoom(before, ix, k + 1);
      var c: Word := W[ix + 1] + W[ix] / B;
      W[ix + 1] := c;
      assert W[..] == before[ix + 1 := c];
      low := low + [W[ix] % B];
    }
    TopColumn(W[..], low, k, y);
    low := low + [W[2 * k]];
  }

  /** The top column is a digit already. */
  lemma {:induction false} TopColumn(W: seq<int>, low: seq<int>, k: nat, y: int)
    requires |W| == 2 * k + 1 && 0 <= W[2 * k] && y < 2 * BP(k)
    requires |low| == k && Propagated(W, low, 2 * k, y)
    ensures AreDigits(low + [W[2 * k]]) && Val(low + [W[2 * k]]) == y
    ensures W[2 * k] % B == W[2 * k]
  {
    ValBound(low);
    assert W[2 * k..] == [W[2 * k]];
    ValOne(W[2 * k]);
    MulCancelLt(W[2 * k], 2, BP(k));
    ModSmall(W[2 * k], B);
    ValSnoc(low, W[2 * k]);
  }

  // ----- the reducer -----

  /** The digits of the reduced number before the last subtraction. */
  method ReducedDigits(x: nat, n: seq<int>, rho: int) returns (digits: seq<int>)
    requires AreDigits(n) && n != [] && |n| < MAX_COMBA && IsRho(rho, Val(n))
    requires 0 < Val(n) && x < Val(n) * BP(|n|)
    ensures AreDigits(digits)
    ensures IsReduced(if Val(digits) < Val(n) then Val(digits) else Val(digits) - Val(n), x, Val(n), |n|)
  {
    hide Val, BP;
    var k := |n|;
    ValBound(n);
    InputSize(x, Val(n), k);
    var padded := Padded(x, 2 * k + 1);
    var W := new int[2 * k + 1](i requires 0 <= i < 2 * k + 1 => padded[i]);
    assert W[..] == padded;
    ghost var m := ClearColumns(W, n, rho, x);
    ghost var y := Val(W[..][k..]);
    FinalSubtraction(x, y, m, Val(n), k);
    MulLt(Val(n), BP(k), 2);
    ghost var low := PropagateColumns(W, k, y);
    digits := [];
    for ix := 0 to k + 1
      invariant |digits| == ix && digits == low[..ix]
    {
      digits := digits + [W[k + ix] % B];
    }
    assert digits == low;
  }

  /** x = x / B^k modulo n by columns. */
  method ReduceComba(x: MpInt, n: MpInt, rho: int)
    requires x.Valid() && n.Valid() && x != n && 0 < n.Value() && IsRho(rho, n.Value())
    requires 0 <= x.Value() < n.Value() * BP(|n.dp|) && |n.dp| < MAX_COMBA
    modifies x
    ensures x.Valid() && IsReduced(x.Value(), old(x.Value()), n.Value(), |n.dp|)
  {
    DigitsOf(n);
    var digits := ReducedDigits(x.Value(), n.dp, rho);
    x.dp, x.sign := digits, Zpos;
    x.Clamp();
    DigitsOf(x);
    SubtractOnce(x, n);
  }

  // ----- the choice -----

  /** Montgomery reduction: columns when they are wide enough, digits otherwise. */
  method Reduce(x: MpInt, n: MpInt, rho: int)
    requires x.Valid() && n.Valid() && x != n && 0 < n.Value() && IsRho(rho, n.Value())
    requires 0 <= x.Value() < n.Value() * BP(|n.dp|)
    modifies x
    ensures x.Valid() && IsReduced(x.Value(), old(x.Value()), n.Value(), |n.dp|)
  {
    if 2 * |n.dp| + 1 < WARRAY && |x.dp| <= WARRAY && |n.dp| < MAX_COMBA {
      ReduceComba(x, n, rho);
    } else {
      ReduceBaseline(x, n, rho);
    }
  }
}
