/** Export to and import from words of bytes, in either word order and byte
    order, with unused bits ("nails") at the top of every word. */
module Packing {
  import opened Arith
  import opened Digits
  import opened MpInts
  import opened Montgomery
  import opened ModulusShape

  datatype WordOrder = MsbFirst | LsbFirst

  /** The native order is one of the two. */
  datatype Endian = LittleEndian | BigEndian

  datatype Layout = Layout(order: WordOrder, size: nat, endian: Endian, nails: nat) {
    predicate Valid() {
      1 <= size && nails < 8 * size
    }

    /** The bytes of a word that hold data. */
    function Bytes(): (n: nat)
      requires Valid()
      ensures 1 <= n <= size
    {
      size - nails / 8
    }

    /** The data bits of byte `j` of a word; the top one may have nails. */
    function Width(j: nat): (w: nat)
      requires Valid()
      ensures 1 <= w <= 8
    {
      if j == Bytes() - 1 then 8 - nails % 8 else 8
    }

    function WordBits(): (n: nat)
      requires Valid()
      ensures 1 <= n == 8 * size - nails
    {
      8 * size - nails
    }

    /** The data bits of a word below byte `j`. */
    function BitsBelow(j: nat): (n: nat)
      requires Valid() && j <= Bytes()
      ensures n <= WordBits()
    {
      if j < Bytes() then 8 * j else WordBits()
    }

    lemma {:induction false} BitsBelowNext(j: nat)
      requires Valid() && j < Bytes()
      ensures BitsBelow(j + 1) == BitsBelow(j) + Width(j) && BitsBelow(0) == 0
    {
    }

    /** Where byte `j` of word `i` stands, both counted from the least significant. */
    function Place(count: nat, i: nat, j: nat): (p: nat)
      requires Valid() && i < count && j < size
      ensures p < count * size
    {
      var word, byte := if order == LsbFirst then i else count - 1 - i, if endian == LittleEndian then j else size - 1 - j;
      MulLe(word + 1, count, size);
      Distribute(word, 1, size);
      MulNonNeg(word, size);
      word * size + byte
    }

    /** Different bytes stand in different places. */
    lemma {:induction false} PlaceInjective(count: nat, i: nat, j: nat, k: nat, l: nat)
      requires Valid() && i < count && j < size && k < count && l < size
      requires Place(count, i, j) == Place(count, k, l)
      ensures i == k && j == l
    {
      var w, b := if order == LsbFirst then i else count - 1 - i, if endian == LittleEndian then j else size - 1 - j;
      var x, c := if order == LsbFirst then k else count - 1 - k, if endian == LittleEndian then l else size - 1 - l;
      DivModUnique(w * size + b, size, w, b);
      DivModUnique(x * size + c, size, x, c);
    }
  }

  // ----- what a buffer stands for -----

  /** The data of word `i` from byte `j` up. */
  function WordFrom(buf: seq<int>, f: Layout, count: nat, i: nat, j: nat): int
    requires f.Valid() && count * f.size <= |buf| && i < count && j <= f.Bytes()
    decreases f.Bytes() - j
  {
    if j == f.Bytes() then 0
    else
      PowPos(2, f.Width(j));
      buf[f.Place(count, i, j)] % Pow(2, f.Width(j)) + Pow(2, f.Width(j)) * WordFrom(buf, f, count, i, j + 1)
  }

  /** The number in the words from `i` up. */
  function NumberFrom(buf: seq<int>, f: Layout, count: nat, i: nat): int
    requires f.Valid() && count * f.size <= |buf| && i <= count
    decreases count - i
  {
    if i == count then 0 else WordFrom(buf, f, count, i, 0) + Pow(2, f.WordBits()) * NumberFrom(buf, f, count, i + 1)
  }

  // ----- the number of words -----

  /** The words `v` needs: enough for all bits, and no more. */
  function PackCount(bits: nat, wordBits: nat): nat
    requires 0 < wordBits
  {
    DivNonNeg(bits, wordBits);
    bits / wordBits + if bits % wordBits != 0 then 1 else 0
  }

  lemma {:induction false} PackCountIff(v: nat, wordBits: nat, count: nat)
    requires 0 < wordBits
    ensures 0 <= count * wordBits
    ensures v < Pow(2, count * wordBits) <==> PackCount(Bits(v), wordBits) <= count
  {
    MulNonNeg(count, wordBits);
    BitsAtMost(v, count * wordBits);
    CeilingIff(Bits(v), wordBits, count);
  }

  lemma {:induction false} BitsAtMost(v: nat, m: nat)
    ensures v < Pow(2, m) <==> Bits(v) <= m
  {
    BitsBounds(v);
    if Bits(v) <= m {
      PowLe(2, Bits(v), m);
    } else {
      PowLe(2, m, Bits(v) - 1);
    }
  }

  lemma {:induction false} CeilingIff(bits: nat, w: nat, count: nat)
    requires 0 < w
    ensures bits <= count * w <==> PackCount(bits, w) <= count
  {
    var c := PackCount(bits, w);
    DivMod(bits, w);
    Distribute(bits / w, 1, w);
    if c <= count {
      MulLe(c, count, w);
    } else {
      MulLe(count, c - 1, w);
      Distribute(c, 1, w);
    }
  }

  // ----- export -----

  /** Byte `j` of word `i` of the number `v`; nails are zero. */
  function Chunk(v: int, f: Layout, i: nat, j: nat): int
    requires f.Valid() && j < f.size
  {
    if j < f.Bytes() then
      MulNonNeg(i, f.WordBits());
      PowPos(2, i * f.WordBits() + f.BitsBelow(j));
      PowPos(2, f.Width(j));
      (v / Pow(2, i * f.WordBits() + f.BitsBelow(j))) % Pow(2, f.Width(j))
    else 0
  }

  /** The bytes before byte `j` of word `i` hold the number. */
  ghost predicate PackedBelow(buf: seq<int>, f: Layout, count: nat, v: int, i: nat, j: nat)
    requires f.Valid() && count * f.size <= |buf|
  {
    forall k: nat, l: nat :: k < count && l < f.size && (k < i || (k == i && l < j)) ==>
      buf[f.Place(count, k, l)] == Chunk(v, f, k, l)
  }

  lemma {:induction false} PackedNext(buf: seq<int>, f: Layout, count: nat, v: int, i: nat, j: nat, b: int)
    requires f.Valid() && count * f.size <= |buf| && i < count && j < f.size
    requires PackedBelow(buf, f, count, v, i, j) && b == Chunk(v, f, i, j)
    ensures PackedBelow(buf[f.Place(count, i, j) := b], f, count, v, i, j + 1)
  {
    var next := buf[f.Place(count, i, j) := b];
    forall k: nat, l: nat | k < count && l < f.size && (k < i || (k == i && l < j + 1))
      ensures next[f.Place(count, k, l)] == Chunk(v, f, k, l)
    {
      if f.Place(count, k, l) == f.Place(count, i, j) {
        f.PlaceInjective(count, k, l, i, j);
      }
    }
  }

  lemma {:induction false} PackedWord(buf: seq<int>, f: Layout, count: nat, v: int, i: nat)
    requires f.Valid() && count * f.size <= |buf| && PackedBelow(buf, f, count, v, i, f.size)
    ensures PackedBelow(buf, f, count, v, i + 1, 0)
  {
  }

  /** Cut the low bits of a number of either sign. */
  method CutBits(t: MpInt, w: nat) returns (b: int)
    requires t.Valid() && 1 <= w <= 8
    modifies t
    ensures 0 < Pow(2, w) && b == old(Abs(t.Value())) % Pow(2, w)
    ensures t.Valid() && Abs(t.Value()) == old(Abs(t.Value())) / Pow(2, w)
  {
    DigitsOf(t);
    RadixFacts();
    LowBits(t.dp, w);
    b := LowestDigit(t.dp) % Pow(2, w);
    DivNonNeg(Abs(t.Value()), Pow(2, w));
    t.Set(Truncated(t.Value(), Pow(2, w)));
  }

  /** The bits of `v` above the first `e`. */
  function Above(v: nat, e: nat): int {
    PowPos(2, e);
    v / Pow(2, e)
  }

  lemma {:induction false} AboveNext(v: nat, e: nat, w: nat)
    ensures 0 < Pow(2, w) && 0 <= Above(v, e) && Above(v, e) / Pow(2, w) == Above(v, e + w)
  {
    PowPos(2, e);
    PowPos(2, w);
    PowAdd(2, e, w);
    DivDiv(v, Pow(2, e), Pow(2, w));
    DivNonNeg(v, Pow(2, e));
  }

  /** Where the number is cut before byte `j` of word `i`. */
  function CutAt(f: Layout, i: nat, j: nat): nat
    requires f.Valid()
  {
    MulNonNeg(i, f.WordBits());
    i * f.WordBits() + f.BitsBelow(Min(j, f.Bytes()))
  }

  /** Byte `j` of a word, from the bits that are left. */
  method PackByte(t: MpInt, f: Layout, ghost v: nat, ghost i: nat, j: nat) returns (b: int)
    requires f.Valid() && t.Valid() && j < f.size && Abs(t.Value()) == Above(v, CutAt(f, i, j))
    modifies t
    ensures b == Chunk(v, f, i, j)
    ensures t.Valid() && Abs(t.Value()) == Above(v, CutAt(f, i, j + 1))
  {
    b := 0;
    if j < f.Bytes() {
      f.BitsBelowNext(j);
      AboveNext(v, CutAt(f, i, j), f.Width(j));
      b := CutBits(t, f.Width(j));
    }
  }

  /** The bytes of word `i`. */
  method PackWord(rop: array<int>, t: MpInt, f: Layout, count: nat, i: nat, ghost v: nat)
    requires f.Valid() && count * f.size <= rop.Length && i < count
    requires t.Valid() && Abs(t.Value()) == Above(v, CutAt(f, i, 0))
    requires PackedBelow(rop[..], f, count, v, i, 0)
    modifies rop, t
    ensures t.Valid() && Abs(t.Value()) == Above(v, CutAt(f, i, f.size))
    ensures PackedBelow(rop[..], f, count, v, i, f.size)
  {
    for j := 0 to f.size
      invariant t.Valid() && Abs(t.Value()) == Above(v, CutAt(f, i, j))
      invariant PackedBelow(rop[..], f, count, v, i, j)
    {
      var b := PackByte(t, f, v, i, j);
      ghost var before := rop[..];
      PackedNext(before, f, count, v, i, j, b);
      rop[f.Place(count, i, j)] := b;
      assert rop[..] == before[f.Place(count, i, j) := b];
    }
  }

  /** Write |op| into at most `maxcount` words. */
  method Pack(rop: array<int>, maxcount: nat, f: Layout, op: MpInt) returns (err: Outcome, written: nat)
    requires f.Valid() && op.Valid() && maxcount * f.size <= rop.Length
    modifies rop
    ensures err == if PackCount(Bits(Abs(op.Value())), f.WordBits()) > maxcount then NoRoom else Okay
    ensures err == Okay ==>
      && written == PackCount(Bits(Abs(op.Value())), f.WordBits()) && written * f.size <= rop.Length
      && PackedBelow(rop[..], f, written, Abs(op.Value()), written, 0)
    ensures err != Okay ==> rop[..] == old(rop[..])
  {
    var bits := CountBits(op);
    var count := PackCount(bits, f.WordBits());
    written := 0;
    if count > maxcount {
      return NoRoom, written;
    }
    MulLe(count, maxcount, f.size);
    ghost var v: nat := Abs(op.Value());
    var t := new MpInt.Copy(op);
    assert Pow(2, 0) == 1;
    for i := 0 to count
      invariant t.Valid() && Abs(t.Value()) == Above(v, CutAt(f, i, 0))
      invariant PackedBelow(rop[..], f, count, v, i, 0)
    {
      PackWord(rop, t, f, count, i, v);
      PackedWord(rop[..], f, count, v, i);
      Distribute(i, 1, f.WordBits());
    }
    return Okay, count;
  }

  // ----- import -----

  /** The bits of a word from byte `j` up. */
  function BitsFrom(f: Layout, j: nat): nat
    requires f.Valid() && j <= f.Bytes()
  {
    f.WordBits() - f.BitsBelow(j)
  }

  /** The value read before byte `j` of word `i`: the words above, and the bytes from `j` up. */
  ghost function ReadBefore(buf: seq<int>, f: Layout, count: nat, i: nat, j: nat): int
    requires f.Valid() && count * f.size <= |buf| && i < count && j <= f.Bytes()
  {
    WordFrom(buf, f, count, i, j) + Pow(2, BitsFrom(f, j)) * NumberFrom(buf, f, count, i + 1)
  }

  lemma {:induction false} ReadNext(buf: seq<int>, f: Layout, count: nat, i: nat, j: nat)
    requires f.Valid() && count * f.size <= |buf| && i < count && j < f.Bytes()
    ensures 0 < Pow(2, f.Width(j))
    ensures ReadBefore(buf, f, count, i, j) ==
      ReadBefore(buf, f, count, i, j + 1) * Pow(2, f.Width(j)) + buf[f.Place(count, i, j)] % Pow(2, f.Width(j))
  {
    var w, e := f.Width(j), BitsFrom(f, j + 1);
    PowPos(2, w);
    f.BitsBelowNext(j);
    PowAdd(2, e, w);
    JoinRead(buf[f.Place(count, i, j)] % Pow(2, w), Pow(2, w), WordFrom(buf, f, count, i, j + 1), Pow(2, e),
             NumberFrom(buf, f, count, i + 1));
  }

  lemma {:induction false} JoinRead(low: int, w: int, rest: int, p: int, up: int)
    ensures (low + w * rest) + (p * w) * up == (rest + p * up) * w + low
  {
    Distribute(rest, p * up, w);
    Assoc(p, w, up);
    Assoc(p, up, w);
  }

  /** The bytes of word `word`, from the most significant down, added to the words above it. */
  method UnpackWord(rop: MpInt, count: nat, word: nat, f: Layout, op: array<int>)
    requires f.Valid() && rop.Valid() && count * f.size <= op.Length && word < count
    requires rop.Value() == ReadBefore(op[..], f, count, word, f.Bytes())
    modifies rop
    ensures rop.Valid() && rop.Value() == ReadBefore(op[..], f, count, word, 0)
  {
    for j := 0 to f.Bytes()
      invariant rop.Valid() && rop.Value() == ReadBefore(op[..], f, count, word, f.Bytes() - j)
    {
      var at := f.Bytes() - 1 - j;
      ReadNext(op[..], f, count, word, at);
      var w := if j == 0 then 8 - f.nails % 8 else 8;
      var byte := op[f.Place(count, word, at)];
      rop.Set(rop.Value() * Pow(2, w));
      rop.Set(rop.Value() + byte % Pow(2, w));
    }
  }

  lemma {:induction false} WordBoundaries(buf: seq<int>, f: Layout, count: nat, i: nat)
    requires f.Valid() && count * f.size <= |buf| && i < count
    ensures ReadBefore(buf, f, count, i, f.Bytes()) == NumberFrom(buf, f, count, i + 1)
    ensures ReadBefore(buf, f, count, i, 0) == NumberFrom(buf, f, count, i)
  {
    f.BitsBelowNext(0);
    assert Pow(2, 0) == 1;
  }

  /** rop = the number in the words. */
  method Unpack(rop: MpInt, count: nat, f: Layout, op: array<int>)
    requires f.Valid() && rop.Valid() && count * f.size <= op.Length
    modifies rop
    ensures rop.Valid() && rop.Value() == NumberFrom(op[..], f, count, 0)
  {
    rop.Set(0);
    for i := 0 to count
      invariant rop.Valid() && rop.Value() == NumberFrom(op[..], f, count, count - i)
    {
      WordBoundaries(op[..], f, count, count - 1 - i);
      UnpackWord(rop, count, count - 1 - i, f, op);
    }
  }

  // ----- the round trip -----

  /** The fields of a packed number, put together from the top, are its bits. */
  lemma {:induction false} FieldsJoin(buf: seq<int>, f: Layout, count: nat, v: nat, i: nat, j: nat)
    requires f.Valid() && count * f.size <= |buf| && i < count && j <= f.Bytes()
    requires PackedBelow(buf, f, count, v, count, 0)
    requires NumberFrom(buf, f, count, i + 1) == Above(v, CutAt(f, i + 1, 0))
    ensures ReadBefore(buf, f, count, i, j) == Above(v, CutAt(f, i, j))
    decreases f.Bytes() - j
  {
    if j == f.Bytes() {
      Distribute(i, 1, f.WordBits());
      assert Pow(2, 0) == 1;
    } else {
      FieldsJoin(buf, f, count, v, i, j + 1);
      f.BitsBelowNext(j);
      ReadNext(buf, f, count, i, j);
      AboveNext(v, CutAt(f, i, j), f.Width(j));
      ChunkIsLow(v, f, i, j);
      DivMod(Above(v, CutAt(f, i, j)), Pow(2, f.Width(j)));
      assert buf[f.Place(count, i, j)] == Chunk(v, f, i, j);
    }
  }

  lemma {:induction false} ChunkIsLow(v: nat, f: Layout, i: nat, j: nat)
    requires f.Valid() && j < f.Bytes()
    ensures 0 < Pow(2, f.Width(j))
    ensures Chunk(v, f, i, j) == Above(v, CutAt(f, i, j)) % Pow(2, f.Width(j))
    ensures Chunk(v, f, i, j) % Pow(2, f.Width(j)) == Chunk(v, f, i, j)
  {
    PowPos(2, f.Width(j));
    ModIdem(Above(v, CutAt(f, i, j)), Pow(2, f.Width(j)));
  }

  lemma {:induction false} WordsJoin(buf: seq<int>, f: Layout, count: nat, v: nat, i: nat)
    requires f.Valid() && count * f.size <= |buf| && i <= count
    requires PackedBelow(buf, f, count, v, count, 0)
    requires 0 <= count * f.WordBits() && v < Pow(2, count * f.WordBits())
    ensures NumberFrom(buf, f, count, i) == Above(v, CutAt(f, i, 0))
    decreases count - i
  {
    f.BitsBelowNext(0);
    if i == count {
      ModSmall(v, Pow(2, count * f.WordBits()));
    } else {
      WordsJoin(buf, f, count, v, i + 1);
      FieldsJoin(buf, f, count, v, i, 0);
    }
  }

  /** Unpacking what was packed gives the number back, for every layout. */
  lemma {:induction false} RoundTrip(buf: seq<int>, f: Layout, count: nat, v: nat)
    requires f.Valid() && count * f.size <= |buf|
    requires count == PackCount(Bits(v), f.WordBits()) && PackedBelow(buf, f, count, v, count, 0)
    ensures NumberFrom(buf, f, count, 0) == v
  {
    PackCountIff(v, f.WordBits(), count);
    WordsJoin(buf, f, count, v, 0);
    f.BitsBelowNext(0);
    assert Pow(2, 0) == 1;
  }

  // ----- where the bytes stand -----

  /** Plain words, least significant first: byte p is the p-th of the number; the
      other way round it is the p-th from the end. */
  lemma {:induction false} PlainBytes(buf: seq<int>, f: Layout, count: nat, v: nat, p: nat)
    requires f.Valid() && count * f.size <= |buf| && PackedBelow(buf, f, count, v, count, 0)
    requires f.nails == 0 && p < count * f.size
    ensures f.order == LsbFirst && f.endian == LittleEndian ==> buf[p] == ByteOf(v, p)
    ensures f.order == MsbFirst && f.endian == BigEndian ==> buf[p] == ByteOf(v, count * f.size - 1 - p)
  {
    var w, b := p / f.size, p % f.size;
    DivMod(p, f.size);
    DivNonNeg(p, f.size);
    DivLt(p, f.size, count);
    if f.order == LsbFirst && f.endian == LittleEndian {
      assert f.Place(count, w, b) == p;
      PlainChunk(v, f, w, b);
    }
    if f.order == MsbFirst && f.endian == BigEndian {
      var i, j := count - 1 - w, f.size - 1 - b;
      assert f.Place(count, i, j) == p;
      PlainChunk(v, f, i, j);
      Distribute(count - 1, w, f.size);
      Distribute(count, 1, f.size);
    }
  }

  /** Byte `p` of a number, from the least significant. */
  function ByteOf(v: nat, p: nat): int {
    PowPos(2, 8 * p);
    (v / Pow(2, 8 * p)) % 256
  }

  lemma {:induction false} PlainChunk(v: nat, f: Layout, i: nat, j: nat)
    requires f.Valid() && f.nails == 0 && j < f.size
    ensures 0 <= i * f.size && Chunk(v, f, i, j) == ByteOf(v, i * f.size + j)
  {
    MulNonNeg(i, f.size);
    assert Pow(2, 8) == 256;
    Assoc(i, f.size, 8);
    assert i * (f.size * 8) == i * (8 * f.size);
  }

  // ----- the other layouts -----

  /** The words in the other order. */
  function WordsTurned(buf: seq<int>, count: nat, size: nat): (r: seq<int>)
    requires 0 < size && count * size <= |buf|
  {
    MulNonNeg(count, size);
    seq(count * size, p requires 0 <= p < count * size => buf[TurnedWord(count, size, p)])
  }

  function TurnedWord(count: nat, size: nat, p: nat): (q: nat)
    requires 0 < size && p < count * size
    ensures q < count * size
  {
    TurnedInside(count, size, p);
    (count - 1 - p / size) * size + p % size
  }

  /** The bytes of every word in the other order. */
  function BytesTurned(buf: seq<int>, count: nat, size: nat): (r: seq<int>)
    requires 0 < size && count * size <= |buf|
  {
    MulNonNeg(count, size);
    seq(count * size, p requires 0 <= p < count * size => buf[TurnedByte(count, size, p)])
  }

  function TurnedByte(count: nat, size: nat, p: nat): (q: nat)
    requires 0 < size && p < count * size
    ensures q < count * size
  {
    TurnedInside(count, size, p);
    (p / size) * size + (size - 1 - p % size)
  }

  lemma {:induction false} TurnedInside(count: nat, size: nat, p: nat)
    requires 0 < size && p < count * size
    ensures 0 <= p / size < count && 0 <= p % size < size
    ensures 0 <= (count - 1 - p / size) * size <= (count - 1) * size == count * size - size
    ensures 0 <= (p / size) * size <= (count - 1) * size
  {
    DivMod(p, size);
    DivNonNeg(p, size);
    DivLt(p, size, count);
    MulLe(count - 1 - p / size, count - 1, size);
    MulNonNeg(count - 1 - p / size, size);
    MulLe(p / size, count - 1, size);
    MulNonNeg(p / size, size);
    Distribute(count, 1, size);
  }

  function OtherOrder(f: Layout): Layout {
    f.(order := if f.order == MsbFirst then LsbFirst else MsbFirst)
  }

  function OtherEndian(f: Layout): Layout {
    f.(endian := if f.endian == BigEndian then LittleEndian else BigEndian)
  }

  /** Turning the words, or the bytes of the words, leads from one layout to the other,
      for what is written and for what is read. */
  lemma {:induction false} LayoutsTurned(buf: seq<int>, f: Layout, count: nat, v: int)
    requires f.Valid() && |buf| == count * f.size
    ensures var words := WordsTurned(buf, count, f.size);
      && (PackedBelow(buf, f, count, v, count, 0) <==> PackedBelow(words, OtherOrder(f), count, v, count, 0))
      && NumberFrom(buf, f, count, 0) == NumberFrom(words, OtherOrder(f), count, 0)
    ensures var bytes := BytesTurned(buf, count, f.size);
      && (PackedBelow(buf, f, count, v, count, 0) <==> PackedBelow(bytes, OtherEndian(f), count, v, count, 0))
      && NumberFrom(buf, f, count, 0) == NumberFrom(bytes, OtherEndian(f), count, 0)
  {
    var words, bytes := WordsTurned(buf, count, f.size), BytesTurned(buf, count, f.size);
    forall i: nat, j: nat | i < count && j < f.size
      ensures buf[f.Place(count, i, j)] == words[OtherOrder(f).Place(count, i, j)]
      ensures buf[f.Place(count, i, j)] == bytes[OtherEndian(f).Place(count, i, j)]
    {
      SameByteTurned(buf, f, count, i, j);
    }
    SamePacked(buf, f, words, OtherOrder(f), count, v);
    SamePacked(buf, f, bytes, OtherEndian(f), count, v);
    SameNumber(buf, f, words, OtherOrder(f), count, 0);
    SameNumber(buf, f, bytes, OtherEndian(f), count, 0);
  }

  /** Buffers that hold the same bytes, each in its layout. */
  ghost predicate SameCells(buf: seq<int>, f: Layout, buf': seq<int>, g: Layout, count: nat) {
    && f.Valid() && g.Valid() && g.size == f.size && g.nails == f.nails
    && count * f.size <= |buf| && count * f.size <= |buf'|
    && forall i: nat, j: nat :: i < count && j < f.size ==> buf[f.Place(count, i, j)] == buf'[g.Place(count, i, j)]
  }

  lemma {:induction false} SamePacked(buf: seq<int>, f: Layout, buf': seq<int>, g: Layout, count: nat, v: int)
    requires SameCells(buf, f, buf', g, count)
    ensures PackedBelow(buf, f, count, v, count, 0) <==> PackedBelow(buf', g, count, v, count, 0)
  {
    hide Layout.Place;
    forall i: nat, j: nat | j < f.size
      ensures Chunk(v, f, i, j) == Chunk(v, g, i, j)
    {
    }
  }

  lemma {:induction false} SameWord(buf: seq<int>, f: Layout, buf': seq<int>, g: Layout, count: nat, i: nat, j: nat)
    requires SameCells(buf, f, buf', g, count) && i < count && j <= f.Bytes()
    ensures WordFrom(buf, f, count, i, j) == WordFrom(buf', g, count, i, j)
    decreases f.Bytes() - j
  {
    hide Layout.Place;
    if j < f.Bytes() {
      SameWord(buf, f, buf', g, count, i, j + 1);
    }
  }

  lemma {:induction false} SameNumber(buf: seq<int>, f: Layout, buf': seq<int>, g: Layout, count: nat, i: nat)
    requires SameCells(buf, f, buf', g, count) && i <= count
    ensures NumberFrom(buf, f, count, i) == NumberFrom(buf', g, count, i)
    decreases count - i
  {
    hide Layout.Place;
    if i < count {
      SameWord(buf, f, buf', g, count, i, 0);
      SameNumber(buf, f, buf', g, count, i + 1);
    }
  }

  lemma {:induction false} SameByteTurned(buf: seq<int>, f: Layout, count: nat, i: nat, j: nat)
    requires f.Valid() && |buf| == count * f.size && i < count && j < f.size
    ensures buf[f.Place(count, i, j)] == WordsTurned(buf, count, f.size)[OtherOrder(f).Place(count, i, j)]
    ensures buf[f.Place(count, i, j)] == BytesTurned(buf, count, f.size)[OtherEndian(f).Place(count, i, j)]
  {
    var size := f.size;
    var word, byte := if f.order == LsbFirst then i else count - 1 - i, if f.endian == LittleEndian then j else size - 1 - j;
    var p, q := OtherOrder(f).Place(count, i, j), OtherEndian(f).Place(count, i, j);
    DivModUnique(p, size, count - 1 - word, byte);
    DivModUnique(q, size, word, size - 1 - byte);
    assert TurnedWord(count, size, p) == f.Place(count, i, j);
    assert TurnedByte(count, size, q) == f.Place(count, i, j);
  }

  // ----- words with nails -----

  /** The number of bytes, least significant first. */
  function LittleValue(s: seq<int>): int {
    if s == [] then 0 else s[0] + 256 * LittleValue(s[1..])
  }

  /** The bytes of word `i` when the words and their bytes go up. */
  function WordBytes(buf: seq<int>, size: nat, i: nat): (s: seq<int>)
    requires (i + 1) * size <= |buf|
    ensures |s| == size
  {
    Distribute(i, 1, size);
    MulNonNeg(i, size);
    buf[i * size..(i + 1) * size]
  }

  predicate GoesUp(f: Layout) {
    f.Valid() && f.order == LsbFirst && f.endian == LittleEndian
  }

  lemma {:induction false} LittleNext(s: seq<int>, j: nat)
    requires j < |s|
    ensures LittleValue(s[j..]) == s[j] + 256 * LittleValue(s[j + 1..])
  {
    assert s[j..][1..] == s[j + 1..];
  }

  lemma {:induction false} WordByteAt(buf: seq<int>, f: Layout, count: nat, i: nat, j: nat)
    requires GoesUp(f) && count * f.size <= |buf| && i < count && j < f.size
    ensures (i + 1) * f.size <= |buf| && WordBytes(buf, f.size, i)[j] == buf[f.Place(count, i, j)]
  {
    MulLe(i + 1, count, f.size);
  }

  /** Reading a word takes its bytes as one number and drops the nails, whatever they hold. */
  lemma {:induction false} WordReadsLow(buf: seq<int>, f: Layout, count: nat, i: nat, j: nat)
    requires GoesUp(f) && count * f.size <= |buf| && i < count && j <= f.Bytes()
    requires forall p :: 0 <= p < |buf| ==> 0 <= buf[p] < 256
    ensures 0 < Pow(2, BitsFrom(f, j)) && (i + 1) * f.size <= |buf|
    ensures WordFrom(buf, f, count, i, j) == LittleValue(WordBytes(buf, f.size, i)[j..]) % Pow(2, BitsFrom(f, j))
    decreases f.Bytes() - j
  {
    hide Layout.Place, LittleValue, Pow, WordFrom;
    MulLe(i + 1, count, f.size);
    PowPos(2, BitsFrom(f, j));
    WordFromNext(buf, f, count, i, j);
    var s := WordBytes(buf, f.size, i);
    if j < f.Bytes() {
      WordReadsLow(buf, f, count, i, j + 1);
      WordByteAt(buf, f, count, i, j);
      LittleNext(s, j);
      f.BitsBelowNext(j);
      LowOfWord(s[j], LittleValue(s[j + 1..]), f.Width(j), BitsFrom(f, j + 1));
    }
  }

  lemma {:induction false} WordFromNext(buf: seq<int>, f: Layout, count: nat, i: nat, j: nat)
    requires f.Valid() && count * f.size <= |buf| && i < count && j <= f.Bytes()
    ensures j == f.Bytes() ==> WordFrom(buf, f, count, i, j) == 0 && Pow(2, BitsFrom(f, j)) == 1
    ensures j < f.Bytes() ==>
      && 0 < Pow(2, f.Width(j))
      && WordFrom(buf, f, count, i, j) ==
        buf[f.Place(count, i, j)] % Pow(2, f.Width(j)) + Pow(2, f.Width(j)) * WordFrom(buf, f, count, i, j + 1)
  {
    if j < f.Bytes() {
      PowPos(2, f.Width(j));
    }
  }

  /** The low w + e bits of a byte with others above it, where only the last byte is narrow. */
  lemma {:induction false} LowOfWord(b: int, up: int, w: nat, e: nat)
    requires 0 <= b < 256 && 1 <= w <= 8 && (w == 8 || e == 0)
    ensures 0 < Pow(2, w) && 0 < Pow(2, e) && 0 < Pow(2, w + e)
    ensures (b + 256 * up) % Pow(2, w + e) == b % Pow(2, w) + Pow(2, w) * (up % Pow(2, e))
  {
    PowPos(2, w);
    PowPos(2, e);
    PowAdd(2, e, w);
    assert Pow(2, 8) == 256 && Pow(2, 0) == 1;
    hide Pow;
    if w == 8 {
      ModSmall(b, 256);
      WideByte(b, up, Pow(2, e));
    } else {
      PowAdd(2, 8 - w, w);
      NarrowByte(b, up, Pow(2, w), Pow(2, 8 - w));
    }
  }

  lemma {:induction false} WideByte(b: int, up: int, p: int)
    requires 0 <= b < 256 && 0 < p
    ensures (b + 256 * up) % (p * 256) == b + 256 * (up % p)
  {
    DivMod(up, p);
    var q, r := up / p, up % p;
    Assoc(q, p, 256);
    DivModUnique(b + 256 * up, p * 256, q, b + 256 * r);
  }

  lemma {:induction false} NarrowByte(b: int, up: int, p: int, q: int)
    requires 0 < p && q * p == 256
    ensures (b + 256 * up) % p == b % p
  {
    DivMod(b, p);
    Assoc(up, q, p);
    Distribute(up * q, b / p, p);
    DivModUnique(b + 256 * up, p, up * q + b / p, b % p);
  }

  /** A packed word, taken as one number, is the next WordBits bits: the nails are on top, and zero. */
  lemma {:induction false} WordHoldsBits(buf: seq<int>, f: Layout, count: nat, v: nat, i: nat)
    requires GoesUp(f) && count * f.size <= |buf| && i < count && PackedBelow(buf, f, count, v, count, 0)
    ensures 0 < Pow(2, f.WordBits()) && (i + 1) * f.size <= |buf| && 0 <= i * f.WordBits()
    ensures LittleValue(WordBytes(buf, f.size, i)) == Above(v, i * f.WordBits()) % Pow(2, f.WordBits())
  {
    MulLe(i + 1, count, f.size);
    PowPos(2, f.WordBits());
    MulNonNeg(i, f.WordBits());
    f.BitsBelowNext(0);
    PackedTail(buf, f, count, v, i, 0);
    assert WordBytes(buf, f.size, i)[0..] == WordBytes(buf, f.size, i);
  }

  lemma {:induction false} PackedTail(buf: seq<int>, f: Layout, count: nat, v: nat, i: nat, j: nat)
    requires GoesUp(f) && count * f.size <= |buf| && i < count && j <= f.Bytes()
    requires PackedBelow(buf, f, count, v, count, 0)
    ensures 0 < Pow(2, BitsFrom(f, j)) && (i + 1) * f.size <= |buf|
    ensures LittleValue(WordBytes(buf, f.size, i)[j..]) == Above(v, CutAt(f, i, j)) % Pow(2, BitsFrom(f, j))
    decreases f.Bytes() - j
  {
    hide Layout.Place, Chunk;
    MulLe(i + 1, count, f.size);
    PowPos(2, BitsFrom(f, j));
    var s := WordBytes(buf, f.size, i);
    if j == f.Bytes() {
      NailBytes(buf, f, count, v, i, j);
      assert Pow(2, 0) == 1;
    } else {
      PackedTail(buf, f, count, v, i, j + 1);
      WordByteAt(buf, f, count, i, j);
      LittleNext(s, j);
      f.BitsBelowNext(j);
      ChunkIsLow(v, f, i, j);
      AboveNext(v, CutAt(f, i, j), f.Width(j));
      SplitLow(Above(v, CutAt(f, i, j)), f.Width(j), BitsFrom(f, j + 1));
      if j + 1 == f.Bytes() {
        NailBytes(buf, f, count, v, i, j + 1);
      } else {
        assert Pow(2, 8) == 256;
      }
    }
  }

  lemma {:induction false} NailBytes(buf: seq<int>, f: Layout, count: nat, v: nat, i: nat, j: nat)
    requires GoesUp(f) && count * f.size <= |buf| && i < count && f.Bytes() <= j <= f.size
    requires PackedBelow(buf, f, count, v, count, 0)
    ensures (i + 1) * f.size <= |buf| && LittleValue(WordBytes(buf, f.size, i)[j..]) == 0
    decreases f.size - j
  {
    hide Layout.Place;
    MulLe(i + 1, count, f.size);
    if j < f.size {
      NailBytes(buf, f, count, v, i, j + 1);
      WordByteAt(buf, f, count, i, j);
      LittleNext(WordBytes(buf, f.size, i), j);
    }
  }

  /** The low w + e bits, cut after the first w. */
  lemma {:induction false} SplitLow(n: nat, w: nat, e: nat)
    ensures 0 < Pow(2, w) && 0 < Pow(2, e) && 0 < Pow(2, w + e)
    ensures n % Pow(2, w + e) == n % Pow(2, w) + Pow(2, w) * ((n / Pow(2, w)) % Pow(2, e))
  {
    PowPos(2, w);
    PowPos(2, e);
    PowAdd(2, e, w);
    var p, r := Pow(2, w), Pow(2, e);
    var m := n / p;
    DivMod(n, p);
    DivMod(m, r);
    var q, x := m / r, m % r;
    Assoc(q, r, p);
    Distribute(q * r, x, p);
    MulLe(x + 1, r, p);
    Distribute(x, 1, p);
    MulNonNeg(x, p);
    DivModUnique(n, r * p, q, x * p + n % p);
  }
}
