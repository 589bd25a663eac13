/** The left-to-right sliding window shared by the two modular exponentiations:
    the reducers behind one interface, the table of powers, and the machine that
    reads the exponent bit by bit. */
module ExptWindow {
  import opened Arith
  import opened Digits
  import opened MpInts
  import Multiply
  import Montgomery
  import MontgomeryComba
  import Barrett
  import Divide
  import DR = DiminishedRadix
  import TwoK

  // ----- the interchangeable reducers -----

  /** The reducer in use, with what its setup computed. */
  datatype Reducer =
    | MontgomeryBy(rho: int, comba: bool)
    | DiminishedBy(k: int)
    | TwoKBy(d: int)
    | BarrettBy(mu: int)
    | TwoKLargeBy(d: int)

  /** What the setups leave; the one-digit difference may be cut short. */
  ghost predicate Ready(red: Reducer, P: MpInt)
    reads P
  {
    && P.Valid() && 0 < P.Value()
    && match red
       case MontgomeryBy(rho, comba) =>
         && P.Value() % 2 == 1 && Montgomery.IsRho(rho, P.Value())
         && (comba ==> |P.dp| < MAX_COMBA)
       case DiminishedBy(k) =>
         DR.IsDr(P.dp) && 1 <= k <= B && P.Value() == BP(|P.dp|) - k
       case TwoKBy(d) => 0 <= d <= TwoK.PowerAbove(P.Value()) - P.Value()
       case BarrettBy(mu) => Barrett.IsReciprocal(mu, P.Value())
       case TwoKLargeBy(d) => d == TwoK.PowerAbove(P.Value()) - P.Value()
  }

  /** The reducer computes residues; only the one-digit 2k form may fail to. */
  ghost predicate Exact(red: Reducer, p: nat) {
    red.TwoKBy? ==>
      red.d == TwoK.PowerAbove(p) - p || (red.d == 0 && TwoK.PowerAbove(p) == 2 * p)
  }

  /** The factor by which a reducer divides. */
  function Radix(red: Reducer, k: nat): (r: Positive) {
    if red.MontgomeryBy? then BP(k) else 1
  }

  /** Products of two residues; for p = 1 the start value 1 is none. */
  function Room(p: int): int {
    Max(p - 1, 1) * Max(p - 1, 1)
  }

  /** x = x / radix modulo P, the radix being above 1. */
  method ReduxMontgomery(x: MpInt, P: MpInt, red: Reducer)
    requires x.Valid() && x != P && Ready(red, P) && red.MontgomeryBy? && 0 <= x.Value() <= Room(P.Value())
    modifies x
    ensures x.Valid() && 0 <= x.Value() < P.Value() && 1 < Radix(red, |P.dp|)
    ensures Cong(x.Value() * Radix(red, |P.dp|), old(x.Value()), P.Value())
  {
    hide Pow;
    DigitsOf(P);
    RadixAboveOne(|P.dp|);
    RoomForMontgomery(x.Value(), P.Value(), BP(|P.dp|));
    if red.comba {
      MontgomeryComba.ReduceComba(x, P, red.rho);
    } else {
      MontgomeryComba.Reduce(x, P, red.rho);
    }
  }

  /** x = x / radix modulo P, for every reducer. */
  method Redux(x: MpInt, P: MpInt, red: Reducer)
    requires x.Valid() && x != P && Ready(red, P) && 0 <= x.Value() <= Room(P.Value())
    modifies x
    ensures x.Valid() && 0 <= x.Value() < P.Value()
    ensures Exact(red, P.Value()) ==> Cong(x.Value() * Radix(red, |P.dp|), old(x.Value()), P.Value())
    ensures red.TwoKBy? ==>
      x.Value() == TwoK.FoldResult(old(x.Value()), P.Value(), TwoK.PowerAbove(P.Value()), red.d)
    ensures Radix(red, |P.dp|) == 1 && old(x.Value()) < P.Value() ==> x.Value() == old(x.Value())
  {
    hide Pow, BP, TwoK.FoldResult, TwoK.PowerAbove;
    ghost var v: nat, p: nat := x.Value(), P.Value();
    ResidueServes(v, p);
    if red.MontgomeryBy? {
      ReduxMontgomery(x, P, red);
    } else if red.DiminishedBy? {
      DR.ModulusPositive(|P.dp|, red.k);
      RoomForResidues(v, p, |P.dp|, red.k);
      DR.Reduce(x, P, red.k);
    } else if red.TwoKBy? {
      ReduxOneDigit(x, P, red);
    } else if red.BarrettBy? {
      var reciprocal := new MpInt.Of(red.mu);
      DigitsOf(P);
      RoomInSquare(p);
      Barrett.SquareInRange(v, p);
      Barrett.Reduce(x, P, reciprocal);
    } else {
      var difference := new MpInt.Of(red.d);
      TwoK.ReduceLarge(x, P, difference);
    }
  }

  /** x modulo P by one digit of the difference. */
  method ReduxOneDigit(x: MpInt, P: MpInt, red: Reducer)
    requires x.Valid() && x != P && Ready(red, P) && red.TwoKBy? && 0 <= x.Value() <= Room(P.Value())
    modifies x
    ensures x.Valid() && 0 <= x.Value() < P.Value()
    ensures Exact(red, P.Value()) ==> Cong(x.Value() * 1, old(x.Value()), P.Value())
    ensures x.Value() == TwoK.FoldResult(old(x.Value()), P.Value(), TwoK.PowerAbove(P.Value()), red.d)
    ensures old(x.Value()) < P.Value() ==> x.Value() == old(x.Value())
  {
    hide Pow, TwoK.FoldResult, TwoK.PowerAbove;
    ghost var v: nat, p: nat := x.Value(), P.Value();
    TwoK.Reduce(x, P, red.d);
    FoldExact(v, p, TwoK.PowerAbove(p), red.d);
    FoldSmall(v, p, TwoK.PowerAbove(p), red.d);
  }

  lemma {:induction false} ResidueServes(v: nat, p: int)
    requires 0 < p
    ensures 0 <= v % p < p && Cong((v % p) * 1, v, p) && (v < p ==> v % p == v)
  {
    ModIdem(v, p);
    SmallStays(v, p);
  }

  lemma {:induction false} SmallStays(v: nat, p: int)
    requires 0 < p
    ensures v < p ==> v % p == v
  {
    if v < p {
      ModSmall(v, p);
    }
  }

  lemma {:induction false} RadixAboveOne(k: nat)
    requires 0 < k
    ensures 1 < BP(k)
  {
    BPSucc(0);
    BPLe(1, k);
  }

  lemma {:induction false} RoomInSquare(p: int)
    requires 0 < p
    ensures Room(p) <= p * p
  {
    MulBothLe(Max(p - 1, 1), p, Max(p - 1, 1), p);
  }

  lemma {:induction false} RoomForMontgomery(v: int, p: int, w: int)
    requires 0 < p < w && v <= Room(p)
    ensures v < p * w
  {
    MulLt(p, w, p);
    RoomInSquare(p);
  }

  lemma {:induction false} RoomForResidues(v: int, p: int, m: nat, k: int)
    requires 2 <= m && k <= B && p == BP(m) - k && v <= Room(p)
    ensures v <= (p - 1) * (p - 1)
  {
    BPSucc(0);
    BPSucc(1);
    BPLe(2, m);
    MulLe(2, B, B);
  }

  /** The one-digit loop leaves a residue, and the right one if the difference is exact. */
  lemma {:induction false} FoldExact(v: nat, p: nat, w: int, d: nat)
    requires 0 < p < w && d <= w - p
    ensures 0 <= TwoK.FoldResult(v, p, w, d) < p
    ensures d == w - p || (d == 0 && w == 2 * p) ==> Cong(TwoK.FoldResult(v, p, w, d) * 1, v, p)
  {
    FoldInRange(v, p, w, d);
    ModIdem(v, p);
    if d == w - p {
      TwoK.FoldIsMod(v, p, w, d);
    } else if d == 0 && w == 2 * p {
      TwoK.FoldWithZero(v, p, w);
      DivMod(v, w);
      Assoc(v / w, 2, p);
      CongIntro(v % w, v, -(v / w) * 2, p);
    }
  }

  lemma {:induction false} FoldSmall(v: nat, p: nat, w: int, d: nat)
    requires 0 < p < w && d <= w
    ensures v < p ==> TwoK.FoldResult(v, p, w, d) == v
  {
    SmallStays(v, w);
  }

  lemma {:induction false} FoldInRange(v: nat, p: nat, w: int, d: nat)
    requires 0 < p < w && d <= w
    ensures 0 <= TwoK.FoldResult(v, p, w, d) < p
    decreases v
  {
    TwoK.FoldedShrinks(v, w, d);
    var r := TwoK.Folded(v, w, d);
    if p <= r {
      FoldInRange(r - p, p, w, d);
    }
  }

  // ----- residues that stand for powers -----

  /** What a run computes with: the modulus, the factor every residue carries,
      the base, and whether the reducer is exact. */
  datatype Ring = Ring(p: Positive, r: Positive, g: int, exact: bool) {

    /** `v` stands for the power `e` of the base; only the start value may be
        out of range, when the modulus is 1. */
    ghost predicate Holds(v: int, e: nat) {
      match this
      case Ring(p, r, g, exact) =>
        && 0 <= v && (v < p || (v == 1 && e == 0))
        && (exact ==> Cong(v, Pow(g, e) * r, p))
        && (r == 1 && Pow(g % p, e) < p ==> v == Pow(g % p, e))
    }

    /** The carried factor can be cancelled. */
    ghost predicate Cancels() {
      forall a: int, b: int :: Cong(a * r, b * r, p) ==> Cong(a, b, p)
    }

    lemma {:induction false} Fits(u: int, v: int, d: nat, e: nat)
      requires Holds(u, d) && Holds(v, e)
      ensures 0 <= u * v <= Room(p)
    {
      MulNonNeg(u, v);
      MulBothLe(u, Max(p - 1, 1), v, Max(p - 1, 1));
    }

    /** A product, reduced, stands for the sum of the exponents. */
    lemma {:induction false} ProductHolds(u: int, v: int, d: nat, e: nat, x: int)
      requires Cancels() && Holds(u, d) && Holds(v, e) && 0 <= x < p
      requires exact ==> Cong(x * r, u * v, p)
      requires r == 1 && u * v < p ==> x == u * v
      ensures Holds(x, d + e)
    {
      if Pow(g % p, d + e) < p {
        SmallFactors(g % p, d, e, p);
      }
      if exact {
        PowAdd(g, d, e);
        var s, t := Pow(g, d), Pow(g, e);
        CongMul(u, s * r, v, t * r, p);
        assert (s * r) * (t * r) == ((s * t) * r) * r by {
          Assoc(s, r, t * r);
          Assoc(r, t, r);
          Assoc(t, r, r);
          Assoc(s, t, r * r);
          Assoc(s * t, r, r);
        }
        assert Cong(x * r, ((s * t) * r) * r, p);
      }
    }
  }

  /** A power below the modulus is the product of such powers, unless one of them is zero. */
  lemma {:induction false} SmallFactors(h: nat, d: nat, e: nat, p: int)
    requires Pow(h, d + e) < p
    ensures Pow(h, d + e) == Pow(h, d) * Pow(h, e)
    ensures (Pow(h, d) < p && Pow(h, e) < p) || Pow(h, d) == 0 < p || Pow(h, e) == 0 < p
  {
    PowAdd(h, d, e);
    if h == 0 {
      assert Pow(0, 0) == 1;
    } else {
      PowLe(h, d, d + e);
      PowLe(h, e, d + e);
    }
  }

  /** A run of the reducer `red` modulo P with base `g`. */
  ghost function RingOf(red: Reducer, P: MpInt, g: int): Ring
    requires Ready(red, P)
    reads P
  {
    Ring(P.Value(), Radix(red, |P.dp|), g, Exact(red, P.Value()))
  }

  lemma {:induction false} RadixCancels(red: Reducer, P: MpInt, g: int)
    requires Ready(red, P)
    ensures RingOf(red, P, g).Cancels()
  {
    var ring := RingOf(red, P, g);
    forall a: int, b: int | Cong(a * ring.r, b * ring.r, ring.p)
      ensures Cong(a, b, ring.p)
    {
      if red.MontgomeryBy? {
        BPPow2(|P.dp|);
        PowersOfTwoCancel(a, b, DIGIT_BIT * |P.dp|, ring.p);
      }
    }
  }

  /** The reducer is set up for P, and `ring` describes the run. */
  ghost predicate Running(red: Reducer, P: MpInt, ring: Ring)
    reads P
  {
    match ring
    case Ring(_, _, g, _) => Ready(red, P) && ring == RingOf(red, P, g) && ring.Cancels()
  }

  // ----- squarings and multiplications -----

  /** The inexact reducer loses the square of `v` altogether. */
  ghost predicate SquareVanishes(red: Reducer, v: int, p: nat) {
    && red.TwoKBy? && 0 < p && 0 <= v * v && 0 <= red.d <= TwoK.PowerAbove(p)
    && TwoK.FoldResult(v * v, p, TwoK.PowerAbove(p), red.d) == 0
  }

  /** res = res * m, reduced. */
  method Times(res: MpInt, m: MpInt, P: MpInt, red: Reducer, ghost ring: Ring, ghost d: nat, ghost e: nat)
    requires res.Valid() && m.Valid() && res != P && Running(red, P, ring)
    requires ring.Holds(res.Value(), d) && ring.Holds(m.Value(), e)
    modifies res
    ensures res.Valid() && 0 <= res.Value() < ring.p && ring.Holds(res.Value(), d + e)
    ensures red.TwoKBy? && (old(res.Value()) == 0 || old(m.Value()) == 0) ==> res.Value() == 0
    ensures res == m && SquareVanishes(red, old(res.Value()), ring.p) ==> res.Value() == 0
  {
    hide Pow, Ring.Holds, TwoK.FoldResult, TwoK.PowerAbove;
    ghost var u, v := res.Value(), m.Value();
    ring.Fits(u, v, d, e);
    Multiply.Mul(res, m, res);
    Redux(res, P, red);
    ring.ProductHolds(u, v, d, e, res.Value());
    if red.TwoKBy? {
      FoldOfZero(ring.p, TwoK.PowerAbove(ring.p), red.d);
    }
  }

  lemma {:induction false} FoldOfZero(p: nat, w: int, d: nat)
    requires 0 < p < w && d <= w
    ensures TwoK.FoldResult(0, p, w, d) == 0
  {
    ModSmall(0, w);
  }

  /** res = res^(2^n), reduced at every step. */
  method SquareTimes(res: MpInt, n: nat, P: MpInt, red: Reducer, ghost ring: Ring, ghost e: nat)
    requires res.Valid() && res != P && Running(red, P, ring) && ring.Holds(res.Value(), e)
    modifies res
    ensures 0 < Pow(2, n) && res.Valid() && ring.Holds(res.Value(), e * Pow(2, n))
    ensures red.TwoKBy? && old(res.Value()) == 0 ==> res.Value() == 0
    ensures 0 < n && SquareVanishes(red, old(res.Value()), ring.p) ==> res.Value() == 0
  {
    PowPos(2, n);
    ghost var v := res.Value();
    for x := 0 to n
      invariant Running(red, P, ring)
      invariant 0 < Pow(2, x) && 0 <= e * Pow(2, x)
      invariant res.Valid() && ring.Holds(res.Value(), e * Pow(2, x))
      invariant red.TwoKBy? && v == 0 ==> res.Value() == 0
      invariant x == 0 ==> res.Value() == v
      invariant 0 < x && SquareVanishes(red, v, ring.p) ==> res.Value() == 0
    {
      ghost var f: nat := e * Pow(2, x);
      Times(res, res, P, red, ring, f, f);
      Assoc(2, e, Pow(2, x));
      Assoc(e, 2, Pow(2, x));
    }
  }

  // ----- the table of powers -----

  const TAB_SIZE := 256

  /** The window size for an exponent of `x` bits. */
  function WindowSize(x: nat): (w: nat)
    ensures 2 <= w <= 8
  {
    if x <= 7 then 2
    else if x <= 36 then 3
    else if x <= 140 then 4
    else if x <= 450 then 5
    else if x <= 1303 then 6
    else if x <= 3529 then 7
    else 8
  }

  /** An initialised entry that holds the power `e` (and is zero when that was lost). */
  ghost predicate IsEntry(m: MpInt?, e: nat, ring: Ring, zero: bool)
    reads m
  {
    m != null && m.Valid() && ring.Holds(m.Value(), e) && (zero ==> m.Value() == 0)
  }

  /** The entries from `lo` up to `hi` are initialised, none of them is the object
      `res`, and they hold the powers of their index. */
  ghost predicate Filled(t: seq<MpInt?>, lo: nat, hi: nat, ring: Ring, zero: bool, res: MpInt)
    reads t
  {
    hi <= |t| && forall i :: lo <= i < hi ==> t[i] != res && IsEntry(t[i], i, ring, zero)
  }

  lemma {:induction false} FilledSnoc(t: seq<MpInt?>, lo: nat, hi: nat, ring: Ring, zero: bool, res: MpInt, m: MpInt)
    requires lo <= hi < |t| && Filled(t, lo, hi, ring, zero, res) && m != res && IsEntry(m, hi, ring, zero)
    ensures Filled(t[hi := m], lo, hi + 1, ring, zero, res)
  {
    var u := t[hi := m];
    forall i | lo <= i < hi + 1
      ensures u[i] != res && IsEntry(u[i], i, ring, zero)
    {
    }
  }

  lemma {:induction false} TableSizes(ws: nat)
    requires 2 <= ws <= 8
    ensures 2 <= Pow(2, ws - 1) && Pow(2, ws) == 2 * Pow(2, ws - 1) <= TAB_SIZE
  {
    assert Pow(2, 1) == 2 && Pow(2, 8) == 256;
    PowLe(2, 1, ws - 1);
    PowLe(2, ws, 8);
  }

  /** The entry half way: the first entry squared ws - 1 times. */
  method HalfwayEntry(first: MpInt, P: MpInt, red: Reducer, ws: nat, ghost ring: Ring) returns (entry: MpInt)
    requires 2 <= ws && Running(red, P, ring) && IsEntry(first, 1, ring, false)
    ensures fresh(entry) && 0 <= Pow(2, ws - 1)
    ensures IsEntry(entry, Pow(2, ws - 1), ring, SquareVanishes(red, first.Value(), ring.p))
  {
    entry := new MpInt.Copy(first);
    SquareTimes(entry, ws - 1, P, red, ring, 1);
  }

  /** The entry after `previous`: one more factor. */
  method NextEntry(previous: MpInt, first: MpInt, P: MpInt, red: Reducer, ghost ring: Ring, ghost e: nat,
                   ghost zero: bool) returns (entry: MpInt)
    requires Running(red, P, ring) && IsEntry(first, 1, ring, false)
    requires IsEntry(previous, e, ring, zero) && (zero ==> red.TwoKBy?)
    ensures fresh(entry) && IsEntry(entry, e + 1, ring, zero)
  {
    entry := new MpInt.Copy(previous);
    Times(entry, first, P, red, ring, e, 1);
  }

  /** Initialise and compute entry `x` from the one before. */
  method ExtendTable(M: array<MpInt?>, x: nat, P: MpInt, red: Reducer, ghost lo: nat, ghost ring: Ring,
                     ghost zero: bool, ghost res: MpInt)
    requires 2 <= lo < x < M.Length && Running(red, P, ring) && (zero ==> red.TwoKBy?)
    requires M[1] != null && IsEntry(M[1], 1, ring, false) && Filled(M[..], lo, x, ring, zero, res)
    modifies M
    ensures M[1] == old(M[1]) && Filled(M[..], lo, x + 1, ring, zero, res)
  {
    ghost var before := M[..];
    assert before[x - 1] == M[x - 1];
    var entry := NextEntry(M[x - 1], M[1], P, red, ring, x - 1, zero);
    FilledSnoc(before, lo, x, ring, zero, res, entry);
    M[x] := entry;
    assert M[..] == before[x := entry];
  }

  /** Fill the upper half of the table; below it only entry 1 is used. */
  method BuildTable(M: array<MpInt?>, first: MpInt, P: MpInt, red: Reducer, ws: nat, ghost ring: Ring, ghost res: MpInt)
    requires M.Length == TAB_SIZE && 2 <= ws <= 8
    requires Running(red, P, ring) && IsEntry(first, 1, ring, false)
    modifies M
    ensures M[1] == first
    ensures 0 <= Pow(2, ws - 1) && 0 <= Pow(2, ws)
    ensures Filled(M[..], Pow(2, ws - 1), Pow(2, ws), ring, SquareVanishes(red, first.Value(), ring.p), res)
  {
    TableSizes(ws);
    ghost var zero := SquareVanishes(red, first.Value(), ring.p);
    var half: nat, size: nat := Pow(2, ws - 1), Pow(2, ws);
    M[1] := first;
    var entry := HalfwayEntry(first, P, red, ws, ring);
    FilledSnoc(M[..], half, half, ring, zero, res, entry);
    ghost var before := M[..];
    M[half] := entry;
    assert M[..] == before[half := entry];
    for x := half + 1 to size
      invariant M[1] == first && IsEntry(first, 1, ring, false)
      invariant Running(red, P, ring)
      invariant Filled(M[..], half, x, ring, zero, res)
    {
      ExtendTable(M, x, P, red, half, ring, zero, res);
    }
  }

  // ----- reading the exponent, from the top bit down -----

  /** After `prefix` was read: `c` bits are still unread in `buf`, their value is
      `rem`, and so are the digits below `idx`. */
  ghost predicate Unread(xs: seq<int>, buf: int, c: nat, idx: nat, prefix: nat, rem: int) {
    && c <= DIGIT_BIT && idx <= |xs| && 0 <= rem < Pow(2, c)
    && 0 <= buf && buf % B == rem * Pow(2, DIGIT_BIT - c)
    && Val(xs) == (prefix * Pow(2, c) + rem) * BP(idx) + Val(xs[..idx])
  }

  lemma {:induction false} NextDigit(xs: seq<int>, buf: int, idx: nat, prefix: nat, rem: int)
    requires AreDigits(xs) && 0 < idx && Unread(xs, buf, 0, idx, prefix, rem)
    ensures Unread(xs, xs[idx - 1], DIGIT_BIT, idx - 1, prefix, xs[idx - 1])
  {
    var d := idx - 1;
    SliceSnoc(xs, 0, d);
    ValSnoc(xs[..d], xs[d]);
    BPSucc(d);
    ModSmall(xs[d], B);
    JoinDigit(prefix, B, xs[d], BP(d));
  }

  lemma {:induction false} JoinDigit(prefix: int, b: int, x: int, w: int)
    ensures (prefix * b + x) * w == prefix * (b * w) + w * x
  {
    Distribute(prefix * b, x, w);
    Assoc(prefix, b, w);
  }

  /** The top bit of `c` unread ones stands at place DIGIT_BIT - 1 of the buffer. */
  lemma {:induction false} TopBit(xs: seq<int>, buf: int, c: nat, idx: nat, prefix: nat, rem: int)
    requires 0 < c && Unread(xs, buf, c, idx, prefix, rem)
    ensures 0 < Pow(2, DIGIT_BIT - 1) && 0 < Pow(2, c - 1)
    ensures var y := (buf / Pow(2, DIGIT_BIT - 1)) % 2;
      && 0 <= y <= 1 && y <= rem / Pow(2, c - 1)
      && Unread(xs, (2 * buf) % DIGIT_LIMIT, c - 1, idx, 2 * prefix + y, rem - y * Pow(2, c - 1))
  {
    var t, s, h := Pow(2, c - 1), Pow(2, DIGIT_BIT - c), Pow(2, DIGIT_BIT - 1);
    PowPos(2, c - 1);
    PowPos(2, DIGIT_BIT - c);
    PowPos(2, DIGIT_BIT - 1);
    PowAdd(2, c - 1, DIGIT_BIT - c);
    RadixFacts();
    var y := (buf / h) % 2;
    HighBit(buf, rem, t, s);
    var rest := rem - y * t;
    assert (2 * prefix + y) * t + rest == prefix * (2 * t) + rem by {
      Distribute(2 * prefix, y, t);
      Assoc(prefix, 2, t);
      Assoc(2, prefix, t);
    }
    ModIdem(2 * buf, DIGIT_LIMIT);
    ShiftedBuffer(buf, rem, y, t, s);
    assert Pow(2, DIGIT_BIT - (c - 1)) == 2 * s;
  }

  lemma {:induction false} HighBit(buf: int, rem: int, t: int, s: int)
    requires 0 < t && 0 < s && B == 2 * (t * s) && 0 <= rem < 2 * t && buf % B == rem * s
    ensures 0 < t * s && (buf / (t * s)) % 2 == rem / t && 0 <= rem / t <= 1
  {
    var h := t * s;
    MulLt(0, t, s);
    DivMod(buf, B);
    DivMod(rem, t);
    DivLt(rem, t, 2);
    DivNonNeg(rem, t);
    var q, y, rest := buf / B, rem / t, rem % t;
    Distribute(y * t, rest, s);
    Assoc(y, t, s);
    MulLt(rest, t, s);
    MulNonNeg(rest, s);
    Assoc(q, 2, h);
    Distribute(2 * q, y, h);
    Assoc(2, q, h);
    DivModUnique(buf, h, 2 * q + y, rest * s);
    DivModUnique(2 * q + y, 2, q, y);
  }

  lemma {:induction false} ShiftedBuffer(buf: int, rem: int, y: int, t: int, s: int)
    requires 0 < t && 0 < s && B == 2 * (t * s) && 0 <= rem < 2 * t && buf % B == rem * s && y == rem / t
    ensures 0 <= rem - y * t < t && ((2 * buf) % DIGIT_LIMIT) % B == (rem - y * t) * (2 * s)
  {
    DivMod(rem, t);
    DivMod(buf, B);
    var rest, q := rem - y * t, buf / B;
    PowAdd(2, DIGIT_BIT, DIGIT_WIDTH - DIGIT_BIT);
    PowPos(2, DIGIT_WIDTH - DIGIT_BIT);
    ModIdem(2 * buf, DIGIT_LIMIT);
    CongFactor((2 * buf) % DIGIT_LIMIT, 2 * buf, B, Pow(2, DIGIT_WIDTH - DIGIT_BIT));
    Distribute(y * t, rest, s);
    Assoc(y, t, s);
    Assoc(y, 2, t * s);
    Assoc(2, y, t * s);
    Assoc(2, rest, s);
    Assoc(rest, 2, s);
    Assoc(2, q, B);
    Distribute(2 * q, y, B);
    MulLt(rest, t, 2 * s);
    Assoc(t, 2, s);
    Assoc(2, t, s);
    MulNonNeg(rest, 2 * s);
    DivModUnique(2 * buf, B, 2 * q + y, rest * (2 * s));
  }

  /** The next bit, or the end of the exponent. */
  method NextBit(xs: seq<int>, buf: int, bitcnt: nat, digidx: int, ghost prefix: nat, ghost rem: int)
    returns (done: bool, y: int, buf': int, bitcnt': nat, digidx': int, ghost prefix': nat, ghost rem': int)
    requires AreDigits(xs) && 1 <= bitcnt && -1 <= digidx
    requires Unread(xs, buf, bitcnt - 1, digidx + 1, prefix, rem)
    ensures done ==> prefix' == prefix == Val(xs)
    ensures bitcnt == 1 && digidx == -1 ==> done
    ensures !done ==> 0 <= y <= 1 && 1 <= bitcnt' && -1 <= digidx'
    ensures !done ==> prefix' == 2 * prefix + y && Unread(xs, buf', bitcnt' - 1, digidx' + 1, prefix', rem')
    ensures !done ==> digidx' < digidx || (digidx' == digidx && bitcnt' < bitcnt)
  {
    buf', bitcnt', digidx', prefix', rem', y := buf, bitcnt - 1, digidx, prefix, rem, 0;
    if bitcnt' == 0 {
      if digidx == -1 {
        BPSucc(0);
        return true, y, buf', bitcnt', digidx', prefix', rem';
      }
      NextDigit(xs, buf, digidx + 1, prefix, rem);
      buf', rem', digidx', bitcnt' := xs[digidx], xs[digidx], digidx - 1, DIGIT_BIT;
    }
    TopBit(xs, buf', bitcnt', digidx' + 1, prefix, rem');
    y := (buf' / Pow(2, DIGIT_BIT - 1)) % 2;
    buf' := (2 * buf') % DIGIT_LIMIT;
    prefix', rem' := 2 * prefix + y, rem' - y * Pow(2, bitcnt' - 1);
    done := false;
  }

  // ----- the window machine -----

  /** The exponent bits read so far, split between the power `e` already in the
      result and the `bitcpy` bits `w` that wait, left aligned, in the window. */
  ghost predicate InWindow(ws: nat, mode: int, bitcpy: nat, bitbuf: int, prefix: int, e: nat, w: int) {
    && 0 <= mode <= 2 && bitcpy < ws
    && bitbuf == w * Pow(2, ws - bitcpy) && prefix == e * Pow(2, bitcpy) + w
    && (mode == 0 ==> e == 0)
    && (mode != 2 ==> bitcpy == 0 && w == 0)
    && (mode == 2 ==> 0 < bitcpy && Pow(2, bitcpy - 1) <= w < Pow(2, bitcpy))
  }

  /** One more bit in the window: its place is free, and the first one is set. */
  lemma {:induction false} AppendBit(ws: nat, mode: int, bitcpy: nat, bitbuf: int, prefix: int, e: nat, w: int, y: int)
    requires InWindow(ws, mode, bitcpy, bitbuf, prefix, e, w) && 0 <= y <= 1 && (mode != 2 ==> y == 1)
    ensures 2 * prefix + y == e * Pow(2, bitcpy + 1) + (2 * w + y)
    ensures bitbuf + y * Pow(2, ws - bitcpy - 1) == (2 * w + y) * Pow(2, ws - bitcpy - 1)
    ensures Pow(2, bitcpy) <= 2 * w + y < Pow(2, bitcpy + 1)
  {
    var s := Pow(2, ws - bitcpy - 1);
    assert Pow(2, ws - bitcpy) == 2 * s;
    Assoc(w, 2, s);
    Assoc(2, w, s);
    Distribute(2 * w, y, s);
    Assoc(e, 2, Pow(2, bitcpy));
    Assoc(2, e, Pow(2, bitcpy));
  }

  lemma {:induction false} WindowBit(w: nat, bitcpy: nat, ws: nat, x: nat, bitbuf: nat)
    requires x < bitcpy < ws && w < Pow(2, bitcpy)
    requires bitbuf == w * Pow(2, ws - bitcpy) * Pow(2, x)
    ensures 0 < Pow(2, ws) && 0 < Pow(2, bitcpy - x) && 0 < Pow(2, bitcpy - x - 1)
    ensures var bit := ((2 * bitbuf) / Pow(2, ws)) % 2;
      w / Pow(2, bitcpy - x - 1) == 2 * (w / Pow(2, bitcpy - x)) + bit
  {
    var low, up := Pow(2, bitcpy - x - 1), Pow(2, ws - bitcpy + x + 1);
    PowPos(2, ws);
    PowPos(2, bitcpy - x - 1);
    PowPos(2, ws - bitcpy + x + 1);
    PowAdd(2, bitcpy - x - 1, ws - bitcpy + x + 1);
    PowAdd(2, ws - bitcpy, x);
    assert up == 2 * (Pow(2, ws - bitcpy) * Pow(2, x));
    Assoc(w, Pow(2, ws - bitcpy), Pow(2, x));
    assert 2 * bitbuf == w * up by {
      Assoc(2, w, Pow(2, ws - bitcpy) * Pow(2, x));
      Assoc(w, 2, Pow(2, ws - bitcpy) * Pow(2, x));
    }
    Divide.ScaledDivision(w, low, up);
    HalvedQuotient(w, low);
  }

  lemma {:induction false} HalvedQuotient(w: nat, low: int)
    requires 0 < low
    ensures w / low == 2 * (w / (2 * low)) + (w / low) % 2
  {
    var q := w / low;
    DivMod(w, low);
    DivNonNeg(w, low);
    Assoc(q / 2, 2, low);
    Assoc(2, q / 2, low);
    Distribute(2 * (q / 2), q % 2, low);
    MulLe(q % 2, 1, low);
    MulNonNeg(q % 2, low);
    DivModUnique(w, 2 * low, q / 2, (q % 2) * low + w % low);
  }

  /** Square, and multiply if the bit is set. */
  method SquareAndMultiply(res: MpInt, first: MpInt, bit: int, P: MpInt, red: Reducer, ghost ring: Ring, ghost f: nat)
    requires res.Valid() && res != P && res != first && Running(red, P, ring) && 0 <= bit <= 1
    requires ring.Holds(res.Value(), f) && IsEntry(first, 1, ring, false)
    modifies res
    ensures res.Valid() && ring.Holds(res.Value(), 2 * f + bit)
    ensures red.TwoKBy? && old(res.Value()) == 0 ==> res.Value() == 0
  {
    Times(res, res, P, red, ring, f, f);
    if bit != 0 {
      Times(res, first, P, red, ring, 2 * f, 1);
    }
  }

  lemma {:induction false} FlushExponent(w: nat, bitcpy: nat, ws: nat, x: nat, bitbuf: nat, e: nat, f: nat)
    requires x < bitcpy < ws && w < Pow(2, bitcpy)
    requires bitbuf == w * Pow(2, ws - bitcpy) * Pow(2, x)
    requires 0 < Pow(2, bitcpy - x) && f == e * Pow(2, x) + w / Pow(2, bitcpy - x)
    ensures 0 < Pow(2, ws) && 0 < Pow(2, bitcpy - x - 1)
    ensures 2 * bitbuf == w * Pow(2, ws - bitcpy) * Pow(2, x + 1)
    ensures 2 * f + ((2 * bitbuf) / Pow(2, ws)) % 2 == e * Pow(2, x + 1) + w / Pow(2, bitcpy - x - 1)
  {
    WindowBit(w, bitcpy, ws, x, bitbuf);
    Assoc(e, 2, Pow(2, x));
    Assoc(2, e, Pow(2, x));
    Assoc(w * Pow(2, ws - bitcpy), 2, Pow(2, x));
    Assoc(2, w * Pow(2, ws - bitcpy), Pow(2, x));
  }

  /** The bits left in the window, one by one. */
  method Flush(res: MpInt, first: MpInt, P: MpInt, red: Reducer, ws: nat, bitcpy: nat, bitbuf: nat,
               ghost ring: Ring, ghost e: nat, ghost w: nat, ghost total: nat)
    requires res.Valid() && res != P && res != first && Running(red, P, ring)
    requires ring.Holds(res.Value(), e) && IsEntry(first, 1, ring, false)
    requires bitcpy < ws && w < Pow(2, bitcpy) && bitbuf == w * Pow(2, ws - bitcpy)
    requires total == e * Pow(2, bitcpy) + w
    modifies res
    ensures res.Valid() && ring.Holds(res.Value(), total)
    ensures red.TwoKBy? && old(res.Value()) == 0 ==> res.Value() == 0
  {
    PowPos(2, bitcpy);
    ghost var zero := red.TwoKBy? && res.Value() == 0;
    ghost var f: nat := e;
    var buf: nat := bitbuf;
    ModSmall(w, Pow(2, bitcpy));
    for x := 0 to bitcpy
      invariant Running(red, P, ring) && IsEntry(first, 1, ring, false)
      invariant res.Valid() && ring.Holds(res.Value(), f) && (zero ==> res.Value() == 0)
      invariant buf == w * Pow(2, ws - bitcpy) * Pow(2, x)
      invariant 0 < Pow(2, bitcpy - x) && f == e * Pow(2, x) + w / Pow(2, bitcpy - x)
    {
      FlushExponent(w, bitcpy, ws, x, buf, e, f);
      buf := 2 * buf;
      var bit := (buf / Pow(2, ws)) % 2;
      SquareAndMultiply(res, first, bit, P, red, ring, f);
      f := 2 * f + bit;
    }
    assert Pow(2, 0) == 1 && f == total;
  }

  /** What a run needs of the table: entry 1 and the filled upper half. */
  ghost predicate TableReady(t: seq<MpInt?>, ws: nat, ring: Ring, zero: bool, res: MpInt)
    reads t
  {
    && 2 <= ws <= 8 && |t| == TAB_SIZE
    && t[1] != res && IsEntry(t[1], 1, ring, false)
    && 0 <= Pow(2, ws - 1) && 0 <= Pow(2, ws)
    && Filled(t, Pow(2, ws - 1), Pow(2, ws), ring, zero, res)
  }

  /** A full window has its first bit set, so its entry is an initialised one. */
  lemma {:induction false} EntryOfWindow(t: seq<MpInt?>, ws: nat, ring: Ring, zero: bool, res: MpInt, w: int)
    requires TableReady(t, ws, ring, zero, res) && Pow(2, ws - 1) <= w < Pow(2, ws)
    ensures 0 <= w < |t| && t[w] != res && IsEntry(t[w], w, ring, zero)
  {
  }

  /** The state of a run: the result stands for the power `e`; when the table was
      lost, so is every result after a multiplication by it. */
  ghost predicate Armed(res: MpInt, t: seq<MpInt?>, P: MpInt, red: Reducer, ws: nat, ring: Ring, zero: bool, e: nat)
    reads res, t, P
  {
    match ring
    case Ring(_, _, _, _) =>
      && res.Valid() && res != P && Running(red, P, ring) && ring.Holds(res.Value(), e)
      && TableReady(t, ws, ring, zero, res)
      && (zero ==> red.TwoKBy?) && (zero && 0 < e ==> res.Value() == 0)
  }

  /** The window is full: square past it and multiply by its entry of the table. */
  method MultiplyWindow(res: MpInt, M: array<MpInt?>, P: MpInt, red: Reducer, ws: nat, bitbuf: int,
                        ghost ring: Ring, ghost zero: bool, ghost e: nat, ghost total: nat)
    requires Armed(res, M[..], P, red, ws, ring, zero, e)
    requires Pow(2, ws - 1) <= bitbuf < Pow(2, ws) && total == e * Pow(2, ws) + bitbuf
    modifies res
    ensures Armed(res, M[..], P, red, ws, ring, zero, total)
  {
    EntryOfWindow(M[..], ws, ring, zero, res, bitbuf);
    var entry := M[bitbuf];
    assert entry == M[..][bitbuf];
    PowPos(2, ws);
    MulNonNeg(e, Pow(2, ws));
    ghost var f: nat := e * Pow(2, ws);
    SquareTimes(res, ws, P, red, ring, e);
    Times(res, entry, P, red, ring, f, bitbuf);
  }

  /** A zero bit outside the window: square. */
  method SquareOnly(res: MpInt, M: array<MpInt?>, P: MpInt, red: Reducer, ws: nat,
                    ghost ring: Ring, ghost zero: bool, ghost e: nat)
    requires Armed(res, M[..], P, red, ws, ring, zero, e)
    modifies res
    ensures Armed(res, M[..], P, red, ws, ring, zero, 2 * e)
  {
    Times(res, res, P, red, ring, e, e);
  }

  /** Put one bit in the window. */
  method AddToWindow(ws: nat, y: int, mode: int, bitcpy: nat, bitbuf: int,
                     ghost prefix: nat, ghost next: nat, ghost e: nat, ghost w: int)
    returns (bitcpy': nat, bitbuf': int, ghost w': int)
    requires 0 <= y <= 1 && InWindow(ws, mode, bitcpy, bitbuf, prefix, e, w) && (mode != 2 ==> y == 1)
    requires next == 2 * prefix + y
    ensures bitcpy' == bitcpy + 1
    ensures bitcpy' != ws ==> InWindow(ws, 2, bitcpy', bitbuf', next, e, w')
    ensures bitcpy' == ws ==>
      0 < ws && Pow(2, ws - 1) <= bitbuf' < Pow(2, ws) && next == e * Pow(2, ws) + bitbuf'
  {
    AppendBit(ws, mode, bitcpy, bitbuf, prefix, e, w, y);
    bitcpy' := bitcpy + 1;
    bitbuf' := bitbuf + y * Pow(2, ws - bitcpy');
    w' := 2 * w + y;
  }

  lemma {:induction false} OutsideWindow(ws: nat, mode: int, bitcpy: nat, bitbuf: int, prefix: int, e: nat, w: int)
    requires InWindow(ws, mode, bitcpy, bitbuf, prefix, e, w) && mode != 2
    ensures InWindow(ws, mode, bitcpy, bitbuf, 2 * prefix, 2 * e, w)
    ensures mode == 0 ==> prefix == 0
  {
    assert Pow(2, bitcpy) == 1;
  }

  lemma {:induction false} EmptyWindow(ws: nat, e: nat)
    requires 0 < ws
    ensures InWindow(ws, 1, 0, 0, e, e, 0)
  {
  }

  /** Take in one bit of the exponent. */
  method Absorb(res: MpInt, M: array<MpInt?>, P: MpInt, red: Reducer, ws: nat, y: int,
                mode: int, bitcpy: nat, bitbuf: int,
                ghost ring: Ring, ghost zero: bool, ghost prefix: nat, ghost next: nat, ghost e: nat, ghost w: int)
    returns (mode': int, bitcpy': nat, bitbuf': int, ghost e': nat, ghost w': int)
    requires 0 <= y <= 1 && InWindow(ws, mode, bitcpy, bitbuf, prefix, e, w) && next == 2 * prefix + y
    requires Armed(res, M[..], P, red, ws, ring, zero, e)
    modifies res
    ensures InWindow(ws, mode', bitcpy', bitbuf', next, e', w')
    ensures Armed(res, M[..], P, red, ws, ring, zero, e')
  {
    mode', bitcpy', bitbuf', e', w' := mode, bitcpy, bitbuf, e, w;
    if mode == 0 && y == 0 {
      OutsideWindow(ws, mode, bitcpy, bitbuf, prefix, e, w);
    } else if mode == 1 && y == 0 {
      OutsideWindow(ws, mode, bitcpy, bitbuf, prefix, e, w);
      SquareOnly(res, M, P, red, ws, ring, zero, e);
      e' := 2 * e;
    } else {
      bitcpy', bitbuf', w' := AddToWindow(ws, y, mode, bitcpy, bitbuf, prefix, next, e, w);
      mode' := 2;
      if bitcpy' == ws {
        e' := next;
        MultiplyWindow(res, M, P, red, ws, bitbuf', ring, zero, e, e');
        mode', bitcpy', bitbuf', w' := 1, 0, 0, 0;
        EmptyWindow(ws, e');
      }
    }
  }

  /** The whole exponent, from the start value to the power. */
  method Slide(res: MpInt, M: array<MpInt?>, xs: seq<int>, P: MpInt, red: Reducer, ws: nat,
               ghost ring: Ring, ghost zero: bool)
    requires AreDigits(xs) && Armed(res, M[..], P, red, ws, ring, zero, 0)
    modifies res
    ensures 0 <= Val(xs) && res.Valid() && ring.Holds(res.Value(), Val(xs))
    ensures 0 <= Pow(2, ws - 1) && (zero && Pow(2, ws - 1) <= Val(xs) ==> res.Value() == 0)
    ensures xs == [] ==> res.Value() == old(res.Value())
  {
    hide Ring.Holds;
    var mode, bitcnt, buf, digidx, bitcpy, bitbuf := 0, 1, 0, |xs| - 1, 0, 0;
    ghost var prefix: nat, e: nat, w, rem := 0, 0, 0, 0;
    ModSmall(0, B);
    assert xs[..|xs|] == xs;
    while true
      invariant 1 <= bitcnt && -1 <= digidx && Unread(xs, buf, bitcnt - 1, digidx + 1, prefix, rem)
      invariant InWindow(ws, mode, bitcpy, bitbuf, prefix, e, w)
      invariant Armed(res, M[..], P, red, ws, ring, zero, e)
      invariant xs == [] ==> bitcnt == 1 && digidx == -1 && mode == 0 && res.Value() == old(res.Value())
      decreases digidx + 1, bitcnt
    {
      ghost var before := prefix;
      var done, y: int;
      done, y, buf, bitcnt, digidx, prefix, rem := NextBit(xs, buf, bitcnt, digidx, prefix, rem);
      if done {
        break;
      }
      mode, bitcpy, bitbuf, e, w := Absorb(res, M, P, red, ws, y, mode, bitcpy, bitbuf, ring, zero, before, prefix, e, w);
    }
    Finish(res, M, P, red, ws, mode, bitcpy, bitbuf, ring, zero, prefix, e, w);
  }

  lemma {:induction false} LeftInWindow(ws: nat, mode: int, bitcpy: nat, bitbuf: int, prefix: int, e: nat, w: int)
    requires 2 <= ws && InWindow(ws, mode, bitcpy, bitbuf, prefix, e, w)
    ensures 0 <= w < Pow(2, bitcpy) && 0 <= bitbuf && 0 <= Pow(2, ws - 1)
    ensures mode != 2 ==> prefix == e
    ensures Pow(2, ws - 1) <= prefix ==> 0 < e
  {
    PowLe(2, bitcpy, ws - 1);
    PowPos(2, ws - bitcpy);
    assert Pow(2, 0) == 1;
    if mode == 2 {
      PowPos(2, bitcpy - 1);
    }
    MulNonNeg(w, Pow(2, ws - bitcpy));
  }

  /** After the last bit: the window may still hold some. */
  method Finish(res: MpInt, M: array<MpInt?>, P: MpInt, red: Reducer, ws: nat, mode: int, bitcpy: nat, bitbuf: int,
                ghost ring: Ring, ghost zero: bool, ghost prefix: nat, ghost e: nat, ghost w: int)
    requires InWindow(ws, mode, bitcpy, bitbuf, prefix, e, w)
    requires Armed(res, M[..], P, red, ws, ring, zero, e)
    modifies res
    ensures res.Valid() && ring.Holds(res.Value(), prefix)
    ensures 0 <= Pow(2, ws - 1) && (zero && Pow(2, ws - 1) <= prefix ==> res.Value() == 0)
    ensures mode != 2 ==> res.Value() == old(res.Value())
  {
    LeftInWindow(ws, mode, bitcpy, bitbuf, prefix, e, w);
    if mode == 2 && bitcpy > 0 {
      assert M[..][1] == M[1];
      Flush(res, M[1], P, red, ws, bitcpy, bitbuf, ring, e, w, prefix);
    }
  }
}
