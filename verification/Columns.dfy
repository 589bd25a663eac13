/** Products column by column: the identity that every comba multiplier rests on. */
module Columns {
  import opened Arith
  import opened Digits

  /** Column `k` of the product of `a` and `b`: the sum of a[i] * b[k - i]. */
  ghost function Column(a: seq<int>, b: seq<int>, k: int): int {
    if a == [] || k < 0 then 0
    else (if k < |b| then a[0] * b[k] else 0) + Column(a[1..], b, k - 1)
  }

  ghost function AllColumns(a: seq<int>, b: seq<int>, n: nat): seq<int> {
    seq(n, k requires 0 <= k => Column(a, b, k))
  }

  // ----- linear combinations of column sequences -----

  ghost function Plus(s: seq<int>, t: seq<int>): seq<int>
    requires |s| == |t|
  {
    seq(|s|, i requires 0 <= i < |s| => s[i] + t[i])
  }

  ghost function Scale(c: int, s: seq<int>): seq<int> {
    seq(|s|, i requires 0 <= i < |s| => c * s[i])
  }

  ghost function Zeros(n: nat): seq<int> {
    seq(n, _ => 0)
  }

  lemma {:induction false} ValPlus(s: seq<int>, t: seq<int>)
    requires |s| == |t|
    ensures Val(Plus(s, t)) == Val(s) + Val(t)
  {
    if s != [] {
      ValPlus(s[1..], t[1..]);
      assert Plus(s, t)[1..] == Plus(s[1..], t[1..]);
      Distribute(Val(s[1..]), Val(t[1..]), B);
    }
  }

  lemma {:induction false} ValScale(c: int, s: seq<int>)
    ensures Val(Scale(c, s)) == c * Val(s)
  {
    if s != [] {
      ValScale(c, s[1..]);
      assert Scale(c, s)[1..] == Scale(c, s[1..]);
      Distribute(s[0], B * Val(s[1..]), c);
      Assoc(B, c, Val(s[1..]));
      Assoc(c, B, Val(s[1..]));
    }
  }

  lemma {:induction false} ValPadded(s: seq<int>, n: nat)
    ensures Val(s + Zeros(n)) == Val(s)
  {
    ValConcat(s, Zeros(n));
    ValZeros(Zeros(n));
  }

  /** The columns together are the whole product. */
  lemma {:induction false} ColumnsAreProduct(a: seq<int>, b: seq<int>, n: nat)
    requires |a| + |b| <= n
    ensures Val(AllColumns(a, b, n)) == Val(a) * Val(b)
  {
    if a == [] {
      ValZeros(AllColumns(a, b, n));
    } else {
      var first := Scale(a[0], b) + Zeros(n - |b|);
      var rest := [0] + AllColumns(a[1..], b, n - 1);
      assert AllColumns(a, b, n) == Plus(first, rest) by {
        forall k | 0 <= k < n
          ensures AllColumns(a, b, n)[k] == Plus(first, rest)[k]
        {
          if k == 0 {
            assert Column(a[1..], b, -1) == 0;
          }
        }
      }
      ValPlus(first, rest);
      ValPadded(Scale(a[0], b), n - |b|);
      ValScale(a[0], b);
      assert rest[1..] == AllColumns(a[1..], b, n - 1);
      ColumnsAreProduct(a[1..], b, n - 1);
      Distribute(a[0], B * Val(a[1..]), Val(b));
      Assoc(B, Val(a[1..]), Val(b));
    }
  }

  /** Only rows whose partner column exists contribute. */
  lemma {:induction false} ColumnSkip(a: seq<int>, b: seq<int>, k: int, t: nat)
    requires t <= |a| && (t != 0 ==> |b| <= k - t + 1)
    ensures Column(a, b, k) == Column(a[t..], b, k - t)
    decreases t
  {
    if t != 0 {
      ColumnSkip(a[1..], b, k - 1, t - 1);
      assert a[1..][t - 1..] == a[t..];
    }
  }

  lemma {:induction false} ColumnStep(a: seq<int>, b: seq<int>, x: nat, y: nat)
    requires x < |a| && y < |b|
    ensures Column(a[x..], b, y) == a[x] * b[y] + Column(a[x + 1..], b, y - 1)
  {
    assert a[x..][1..] == a[x + 1..];
  }

  lemma {:induction false} ColumnEmpty(a: seq<int>, b: seq<int>, k: int)
    requires a == [] || k < 0
    ensures Column(a, b, k) == 0
  {
  }

  // ----- the high part of a product -----

  /** The rows of the product without their digits below column `digs`, in
      units of that column. */
  ghost function HighPart(a: seq<int>, b: seq<int>, digs: int): int
    requires |a| <= digs + 1
  {
    if a == [] then 0
    else a[0] * Val(b[Min(digs, |b|)..]) + HighPart(a[1..], b, digs - 1)
  }

  lemma {:induction false} HighPartZero(a: seq<int>, b: seq<int>, digs: nat)
    requires |a| + |b| <= digs
    ensures HighPart(a, b, digs) == 0
  {
    if a != [] {
      HighPartZero(a[1..], b, digs - 1);
    }
  }

  /** The columns from `digs` on are the high part. */
  lemma {:induction false} HighColumns(a: seq<int>, b: seq<int>, n: nat, digs: nat)
    requires |a| + |b| <= n && digs <= n && |a| <= digs + 1
    ensures Val(AllColumns(a, b, n)[digs..]) == HighPart(a, b, digs)
  {
    if a == [] {
      ValZeros(AllColumns(a, b, n)[digs..]);
    } else if digs == 0 {
      ColumnsAreProduct(a, b, n);
      assert AllColumns(a, b, n)[0..] == AllColumns(a, b, n);
      assert b[0..] == b && a[1..] == [] && a == [a[0]];
      ValOne(a[0]);
    } else {
      var k := Min(digs, |b|);
      var first := Scale(a[0], b[k..]) + Zeros(n - digs - |b[k..]|);
      var rest := AllColumns(a[1..], b, n - 1)[digs - 1..];
      assert AllColumns(a, b, n)[digs..] == Plus(first, rest);
      ValPlus(first, rest);
      ValPadded(Scale(a[0], b[k..]), n - digs - |b[k..]|);
      ValScale(a[0], b[k..]);
      HighColumns(a[1..], b, n - 1, digs - 1);
    }
  }

  /** What dropping the low columns loses: less than one unit of column
      `digs + 1` for each row that starts below column `digs`. */
  lemma {:induction false} HighPartBound(a: seq<int>, b: seq<int>, digs: int)
    requires AreDigits(a) && AreDigits(b) && -1 <= digs && |a| <= digs + 1
    ensures 0 <= HighPart(a, b, digs)
    ensures 0 <= digs ==> HighPart(a, b, digs) * BP(digs) <= Val(a) * Val(b)
    ensures 0 <= digs ==> Val(a) * Val(b) <= HighPart(a, b, digs) * BP(digs) + Min(digs, |a|) * (B - 1) * BP(digs)
  {
    if a != [] {
      var k := Min(digs, |b|);
      var h := Val(b[k..]);
      var h' := HighPart(a[1..], b, digs - 1);
      HighPartBound(a[1..], b, digs - 1);
      HighRow(a[0], b, digs);
      MulNonNeg(a[0], h);
      if digs == 0 {
        assert a == [a[0]];
        ValOne(a[0]);
        assert a[1..] == [];
      } else {
        BPSucc(digs - 1);
        HighStep(a[0], Val(a[1..]), Val(b), h, h', BP(digs - 1), Min(digs - 1, |a| - 1));
      }
    }
  }

  /** One row more than the bound below it. */
  lemma {:induction false} HighStep(x: int, va: int, vb: int, h: int, h': int, w: int, rows: int)
    requires x * h * (B * w) <= x * vb <= x * h * (B * w) + (B - 1) * (B * w)
    requires h' * w <= va * vb <= h' * w + rows * (B - 1) * w
    ensures (x * h + h') * (B * w) <= (x + B * va) * vb
    ensures (x + B * va) * vb <= (x * h + h') * (B * w) + (rows + 1) * (B - 1) * (B * w)
  {
    var v := B * w;
    HighRest(va * vb, h', w, rows);
    Distribute(x, B * va, vb);
    Assoc(B, va, vb);
    Distribute(x * h, h', v);
    Distribute(rows, 1, B - 1);
    Distribute(rows * (B - 1), B - 1, v);
  }

  /** One row: its digits below column `digs` are worth less than B - 1 units of it. */
  lemma {:induction false} HighRow(x: int, b: seq<int>, digs: nat)
    requires 0 <= x < B && AreDigits(b)
    ensures 0 <= Val(b[Min(digs, |b|)..])
    ensures x * Val(b[Min(digs, |b|)..]) * BP(digs) <= x * Val(b)
    ensures x * Val(b) <= x * Val(b[Min(digs, |b|)..]) * BP(digs) + (B - 1) * BP(digs)
    ensures digs == 0 ==> x * Val(b) == x * Val(b[Min(digs, |b|)..]) * BP(digs)
  {
    var k := Min(digs, |b|);
    var low, h := Val(b[..k]), Val(b[k..]);
    ValSplit(b, k);
    ValBound(b[..k]);
    ValBound(b[k..]);
    BPLe(k, digs);
    HighSplit(b, k, digs);
    HighRowValue(x, low, h, BP(digs), Val(b));
    if digs == 0 {
      assert b[..0] == [];
    }
  }

  lemma {:induction false} HighSplit(b: seq<int>, k: nat, digs: nat)
    requires k == Min(digs, |b|)
    ensures Val(b) == Val(b[..k]) + Val(b[k..]) * BP(digs)
  {
    ValSplit(b, k);
    if k < digs {
      assert b[k..] == [];
    }
  }

  lemma {:induction false} HighRowValue(x: int, low: int, h: int, w: int, v: int)
    requires 0 <= x < B && 0 <= low <= w && v == low + h * w
    ensures x * h * w <= x * v <= x * h * w + (B - 1) * w
    ensures low == 0 ==> x * v == x * h * w
  {
    Distribute(low, h * w, x);
    Assoc(x, h, w);
    MulNonNeg(x, low);
    MulBothLe(x, B - 1, low, w);
  }

  lemma {:induction false} HighRest(p: int, h: int, w: int, rows: int)
    requires h * w <= p <= h * w + rows * (B - 1) * w
    ensures h * (B * w) <= B * p <= h * (B * w) + rows * (B - 1) * (B * w)
  {
    MulLe(h * w, p, B);
    MulLe(p, h * w + rows * (B - 1) * w, B);
    Assoc(h, w, B);
    Assoc(rows * (B - 1), w, B);
    Distribute(h * w, rows * (B - 1) * w, B);
  }

  /** The high part row by row. */
  lemma {:induction false} HighPartSnoc(a: seq<int>, b: seq<int>, digs: int, ix: nat)
    requires ix < |a| <= digs + 1
    ensures HighPart(a[..ix + 1], b, digs) == HighPart(a[..ix], b, digs) + a[ix] * Val(b[Min(digs - ix, |b|)..])
    decreases ix
  {
    if ix == 0 {
      assert a[..1] == [a[0]] && a[..0] == [];
      assert [a[0]][1..] == [];
      assert HighPart([], b, digs - 1) == 0;
    } else {
      HighPartSnoc(a[1..], b, digs - 1, ix - 1);
      assert a[..ix + 1][1..] == a[1..][..ix];
      assert a[..ix][1..] == a[1..][..ix - 1];
    }
  }
}
