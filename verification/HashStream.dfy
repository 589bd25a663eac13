/** Hashing a message that comes in pieces. The code of the two hashes is the same
    up to the compression function and the number of words. */
module HashStream {
  import opened Bytes
  import Arith
  import ModulusShape
  import W = Words
  import Sha1
  import Sha256

  // ----- sections 5 and 6 of FIPS 180-4 -----

  datatype Algorithm = SHA1 | SHA256 {
    /** The number of words of a hash value. */
    function Size(): nat {
      match this
      case SHA1 => 5
      case SHA256 => 8
    }

    function Init(): (h: seq<W.Word>)
      ensures |h| == Size()
    {
      match this
      case SHA1 => [0x67452301, 0xEFCDAB89, 0x98BADCFE, 0x10325476, 0xC3D2E1F0]
      case SHA256 => [0x6A09E667, 0xBB67AE85, 0x3C6EF372, 0xA54FF53A, 0x510E527F, 0x9B05688C, 0x1F83D9AB, 0x5BE0CD19]
    }

    function Compress(h: seq<W.Word>, block: seq<Byte>): (r: seq<W.Word>)
      requires |h| == Size() && |block| == 64
      ensures |r| == Size()
    {
      match this
      case SHA1 => Sha1.Compress(h, block)
      case SHA256 => Sha256.Compress(h, block)
    }

    /** The hash value after the blocks of `s`. */
    function Fold(s: seq<Byte>): (h: seq<W.Word>)
      requires |s| % 64 == 0
      ensures |h| == Size()
    {
      if s == [] then Init() else Compress(Fold(s[..|s| - 64]), s[|s| - 64..])
    }

    lemma {:induction false} FoldOneMore(s: seq<Byte>, block: seq<Byte>)
      requires |s| % 64 == 0 && |block| == 64
      ensures Fold(s + block) == Compress(Fold(s), block)
    {
      hide Compress;
      assert (s + block)[..|s|] == s && (s + block)[|s|..] == block;
    }

    /** The hash of a whole message. */
    function Digest(m: seq<Byte>): (out: seq<Byte>)
      ensures |out| == 4 * Size()
    {
      PaddedLength(m);
      BytesOfWords(Fold(Padded(m)))
    }
  }

  function BytesOfWords(h: seq<W.Word>): (s: seq<Byte>)
    ensures |s| == 4 * |h|
  {
    if h == [] then [] else BytesOfWords(h[..|h| - 1]) + W.WordBytes(h[|h| - 1])
  }

  const LENGTHS: int := 0x1_0000_0000_0000_0000

  /** The number of bits of a message, in eight bytes. */
  function LengthField(n: nat): (s: seq<Byte>)
    ensures |s| == 8
  {
    var bits := (8 * n) % LENGTHS;
    W.WordBytes(bits / W.WORD) + W.WordBytes(bits % W.WORD)
  }

  /** The number that the field holds. */
  function FieldValue(f: seq<Byte>): nat
    requires |f| == 8
  {
    W.WORD * W.WordAt(f, 0) + W.WordAt(f, 4)
  }

  lemma {:induction false} FieldHolds(n: nat)
    ensures FieldValue(LengthField(n)) == (8 * n) % LENGTHS
  {
    hide W.WordAt, W.WordBytes;
    var bits := (8 * n) % LENGTHS;
    var u, v := W.WordBytes(bits / W.WORD), W.WordBytes(bits % W.WORD);
    WordInField(u, v);
    W.WordOfBytes(bits / W.WORD);
    W.WordOfBytes(bits % W.WORD);
  }

  /** Byte `j` of a number of `n` bytes, the highest first. */
  function HighByte(x: nat, n: nat, j: nat): int
    requires j < n
  {
    Arith.PowPos(256, n - 1 - j);
    (x / Arith.Pow(256, n - 1 - j)) % 256
  }

  lemma {:induction false} Powers256()
    ensures Arith.Pow(256, 0) == 1 && Arith.Pow(256, 1) == 0x100
    ensures Arith.Pow(256, 2) == 0x1_0000 && Arith.Pow(256, 3) == 0x100_0000
  {
    assert Arith.Pow(256, 1) == 0x100;
    assert Arith.Pow(256, 2) == 0x1_0000;
  }

  lemma {:induction false} WordByte(x: W.Word, j: nat)
    requires j < 4
    ensures W.WordBytes(x)[j] == HighByte(x, 4, j)
  {
    Powers256();
    if j == 3 {
    } else if j == 2 {
    } else if j == 1 {
    }
  }

  lemma {:induction false} FieldByte(n: nat, j: nat)
    requires j < 8
    ensures LengthField(n)[j] == HighByte((8 * n) % LENGTHS, 8, j)
  {
    hide W.WordBytes, HighByte;
    var bits := (8 * n) % LENGTHS;
    Arith.DivMod(bits, W.WORD);
    if j < 4 {
      WordByte(bits / W.WORD, j);
      HighPart(bits, j);
    } else {
      WordByte(bits % W.WORD, j - 4);
      LowPart(bits, j - 4);
    }
  }

  lemma {:induction false} HighPart(x: nat, j: nat)
    requires j < 4
    ensures 0 <= x / W.WORD && HighByte(x / W.WORD, 4, j) == HighByte(x, 8, j)
  {
    Powers256();
    Arith.PowPos(256, 3 - j);
    Arith.PowAdd(256, 3 - j, 4);
    assert Arith.Pow(256, 4) == W.WORD;
    ModulusShape.DivDiv(x, W.WORD, Arith.Pow(256, 3 - j));
    Arith.DivNonNeg(x, W.WORD);
  }

  lemma {:induction false} LowPart(x: nat, j: nat)
    requires j < 4
    ensures HighByte(x % W.WORD, 4, j) == HighByte(x, 8, 4 + j)
  {
    Powers256();
    Arith.DivMod(x, W.WORD);
    var p, v, q, r := Arith.Pow(256, 3 - j), Arith.Pow(256, j), x / W.WORD, x % W.WORD;
    Arith.PowPos(256, 3 - j);
    Arith.PowAdd(256, 3 - j, j);
    Arith.DivMod(r, p);
    Arith.Assoc(q, 256 * v, p);
    assert v * p == 0x100_0000;
    assert (256 * v) * p == W.WORD by {
      Arith.Assoc(256, v, p);
    }
    Arith.Distribute(q * (256 * v), r / p, p);
    Arith.DivModUnique(x, p, q * (256 * v) + r / p, r % p);
    Arith.Assoc(q, v, 256);
    Arith.DivMod(r / p, 256);
    Arith.DivModUnique(q * (256 * v) + r / p, 256, q * v + (r / p) / 256, (r / p) % 256);
  }

  /** It is the number of bits exactly below 2^61 bytes. */
  lemma {:induction false} FieldExactIff(n: nat)
    ensures FieldValue(LengthField(n)) == 8 * n <==> n < 0x2000_0000_0000_0000
  {
    hide FieldValue, LengthField;
    FieldHolds(n);
    Arith.DivMod(8 * n, LENGTHS);
  }

  lemma {:induction false} WordInField(u: seq<Byte>, v: seq<Byte>)
    requires |u| == |v| == 4
    ensures W.WordAt(u + v, 0) == W.WordAt(u, 0) && W.WordAt(u + v, 4) == W.WordAt(v, 0)
  {
  }

  function Zeros(n: nat): (s: seq<Byte>)
    ensures |s| == n
  {
    seq(n, _ => 0)
  }

  /** The number of zero bytes: the fewest that leave eight bytes in the last block. */
  function ZeroCount(n: nat): nat {
    (119 - n % 64) % 64
  }

  /** A one bit, zeros, and the number of bits. */
  function Padded(m: seq<Byte>): seq<Byte> {
    m + ([0x80] + Zeros(ZeroCount(|m|))) + LengthField(|m|)
  }

  lemma {:induction false} PaddedLength(m: seq<Byte>)
    ensures |Padded(m)| % 64 == 0
  {
    WholeBlocks(|m|);
  }

  lemma {:induction false} WholeBlocks(n: nat)
    ensures (n + 1 + ZeroCount(n) + 8) % 64 == 0
  {
  }

  /** No fewer zeros would do. */
  lemma {:induction false} FewestZeros(n: nat, k: nat)
    requires (n + 1 + k + 8) % 64 == 0
    ensures ZeroCount(n) <= k
  {
  }

  /** Where the parts of a padded message stand, and what they are. */
  lemma {:induction false} PaddedParts(m: seq<Byte>)
    ensures var p := Padded(m);
      && |p| % 64 == 0 && |m| + 9 <= |p| < |m| + 73
      && p[..|m|] == m && p[|m|] == 0x80
      && (forall i :: |m| < i < |p| - 8 ==> p[i] == 0)
      && FieldValue(p[|p| - 8..]) == (8 * |m|) % LENGTHS
      && forall j: nat :: j < 8 ==> p[|p| - 8 + j] == HighByte((8 * |m|) % LENGTHS, 8, j)
  {
    hide LengthField, FieldValue, HighByte;
    var p := Padded(m);
    PaddedLength(m);
    assert p[|p| - 8..] == LengthField(|m|);
    FieldHolds(|m|);
    forall j: nat | j < 8
      ensures p[|p| - 8 + j] == HighByte((8 * |m|) % LENGTHS, 8, j)
    {
      FieldByte(|m|, j);
    }
  }

  /** Messages whose number of bits fits the field are equal if they are padded alike. */
  lemma {:induction false} PaddedInjective(m: seq<Byte>, n: seq<Byte>)
    requires |m| < 0x2000_0000_0000_0000 && |n| < 0x2000_0000_0000_0000
    requires Padded(m) == Padded(n)
    ensures m == n
  {
    hide Padded, FieldValue;
    PaddedParts(m);
    PaddedParts(n);
    Arith.ModSmall(8 * |m|, LENGTHS);
    Arith.ModSmall(8 * |n|, LENGTHS);
  }

  /** Only the padded message has these parts. */
  lemma {:induction false} PaddedUnique(m: seq<Byte>, p: seq<Byte>)
    requires |p| % 64 == 0 && |m| + 9 <= |p| < |m| + 73 && p[..|m|] == m && p[|m|] == 0x80
    requires forall i :: |m| < i < |p| - 8 ==> p[i] == 0
    requires forall j: nat :: j < 8 ==> p[|p| - 8 + j] == HighByte((8 * |m|) % LENGTHS, 8, j)
    ensures p == Padded(m)
  {
    hide Padded, HighByte, FieldValue;
    var q := Padded(m);
    PaddedParts(m);
    SameLength(|m|, |p|, |q|);
    forall i | 0 <= i < |p|
      ensures p[i] == q[i]
    {
      if i < |m| {
        assert p[..|m|][i] == q[..|m|][i];
      } else if |p| - 8 <= i {
        var j: nat := i - (|p| - 8);
        assert p[|p| - 8 + j] == HighByte((8 * |m|) % LENGTHS, 8, j);
        assert q[|q| - 8 + j] == HighByte((8 * |m|) % LENGTHS, 8, j);
      }
    }
  }

  lemma {:induction false} SameLength(n: nat, k: nat, l: nat)
    requires k % 64 == 0 && l % 64 == 0 && n + 9 <= k < n + 73 && n + 9 <= l < n + 73
    ensures k == l
  {
  }

  /** Byte `j` of word `k`, the highest first, is byte 4k + j of the digest. */
  lemma {:induction false} DigestBytes(h: seq<W.Word>, k: nat, j: nat)
    requires k < |h| && j < 4
    ensures BytesOfWords(h)[4 * k + j] == HighByte(h[k], 4, j)
  {
    hide HighByte;
    if k < |h| - 1 {
      DigestBytes(h[..|h| - 1], k, j);
    } else {
      assert BytesOfWords(h)[4 * k + j] == W.WordBytes(h[k])[j];
      WordByte(h[k], j);
    }
  }

  /** Hash values that lead from the start value over the blocks of `p`. */
  ghost predicate IsRun(alg: Algorithm, p: seq<Byte>, v: seq<seq<W.Word>>) {
    && |v| * 64 == |p| + 64 && v[0] == alg.Init()
    && forall i: nat :: i < |v| - 1 ==> LeadsTo(alg, v, p, i)
  }

  /** Value i + 1 is the one after value `i` and block `i`. */
  predicate LeadsTo(alg: Algorithm, v: seq<seq<W.Word>>, p: seq<Byte>, i: nat)
    requires i + 1 < |v|
  {
    && 64 * (i + 1) <= |p| && |v[i]| == alg.Size()
    && v[i + 1] == alg.Compress(v[i], p[64 * i..64 * (i + 1)])
  }

  /** A run over the padded message ends in the words of the digest. */
  lemma {:induction false} StandardHash(alg: Algorithm, m: seq<Byte>, v: seq<seq<W.Word>>, k: nat, j: nat)
    requires IsRun(alg, Padded(m), v) && k < alg.Size() && j < 4
    ensures |v[|v| - 1]| == alg.Size() && alg.Digest(m)[4 * k + j] == HighByte(v[|v| - 1][k], 4, j)
  {
    hide Padded, HighByte, LeadsTo, Algorithm.Fold, Algorithm.Size, BytesOfWords;
    PaddedLength(m);
    RunOfBlocks(alg, Padded(m), v, |v| - 1);
    assert Padded(m)[..|Padded(m)|] == Padded(m);
    DigestBytes(v[|v| - 1], k, j);
  }

  lemma {:induction false} RunOfBlocks(alg: Algorithm, p: seq<Byte>, v: seq<seq<W.Word>>, n: nat)
    requires IsRun(alg, p, v) && n < |v|
    ensures 64 * n <= |p| && v[n] == alg.Fold(p[..64 * n])
  {
    hide Algorithm.Compress, Algorithm.Fold, Algorithm.Init;
    if n == 0 {
      FoldOfNothing(alg);
      assert p[..0] == [];
    } else {
      RunOfBlocks(alg, p, v, n - 1);
      assert LeadsTo(alg, v, p, n - 1);
      FoldNext(alg, p, 64 * (n - 1), p[64 * (n - 1)..64 * n]);
    }
  }

  lemma {:induction false} FoldOfNothing(alg: Algorithm)
    ensures alg.Fold([]) == alg.Init()
  {
  }

  // ----- the context -----

  /** The bytes of whole blocks. */
  function Whole(n: nat): (w: nat)
    ensures w <= n < w + 64 && w % 64 == 0 && n - w == n % 64
  {
    n - n % 64
  }

  lemma {:induction false} WholeIs(n: nat, k: nat)
    requires k <= n < k + 64 && k % 64 == 0
    ensures Whole(n) == k && n % 64 == n - k
  {
  }

  /** Compresses one block. */
  method Process(alg: Algorithm, h: seq<W.Word>, block: seq<Byte>) returns (h': seq<W.Word>)
    requires |h| == alg.Size() && |block| == 64
    ensures h' == alg.Compress(h, block)
  {
    match alg
    case SHA1 => h' := Sha1.Process(h, block);
    case SHA256 => h' := Sha256.Process(h, block);
  }

  /** Adds to the byte count, which is kept in two words. */
  method AddTotal(t0: W.Word, t1: W.Word, n: W.Word, ghost len: nat) returns (t0': W.Word, t1': W.Word)
    requires t0 + W.WORD * t1 == len % LENGTHS
    ensures t0' + W.WORD * t1' == (len + n) % LENGTHS
  {
    t0', t1' := W.Add(t0, n), t1;
    if t0' < n {
      t1' := W.Add(t1, 1);
    }
    SumOfTotals(len, n);
  }

  lemma {:induction false} SumOfTotals(len: nat, n: nat)
    ensures (len + n) % LENGTHS == (len % LENGTHS + n) % LENGTHS
  {
  }

  lemma {:induction false} LeftIs(t0: W.Word, t1: W.Word, len: nat)
    requires t0 + W.WORD * t1 == len % LENGTHS
    ensures t0 % 64 == len % 64
  {
  }

  /** The count in bits. */
  method Lengths(t0: W.Word, t1: W.Word, ghost len: nat) returns (msglen: seq<Byte>)
    requires t0 + W.WORD * t1 == len % LENGTHS
    ensures msglen == LengthField(len)
  {
    var high := W.Or(W.ShiftRight(t0, 29), W.ShiftLeft(t1, 3));
    var low := W.ShiftLeft(t0, 3);
    LengthWords(t0, t1, len);
    msglen := W.WordBytes(high) + W.WordBytes(low);
  }

  lemma {:induction false} LengthWords(t0: W.Word, t1: W.Word, len: nat)
    requires t0 + W.WORD * t1 == len % LENGTHS
    ensures W.Or(W.ShiftRight(t0, 29), W.ShiftLeft(t1, 3)) == ((8 * len) % LENGTHS) / W.WORD
    ensures W.ShiftLeft(t0, 3) == ((8 * len) % LENGTHS) % W.WORD
  {
    Powers();
    W.DisjointOr(t0 / 0x2000_0000, t1 % 0x2000_0000, 3);
    LengthParts(t0, t1, len);
  }

  lemma {:induction false} Powers()
    ensures Arith.Pow(2, 3) == 8 && Arith.Pow(2, 29) == 0x2000_0000
  {
    assert Arith.Pow(2, 5) == 32;
    assert Arith.Pow(2, 8) == 256;
    Arith.PowAdd(2, 8, 8);
    Arith.PowAdd(2, 16, 8);
    Arith.PowAdd(2, 24, 5);
  }

  lemma {:induction false} LengthParts(t0: W.Word, t1: W.Word, len: nat)
    requires t0 + W.WORD * t1 == len % LENGTHS
    ensures (t1 * 8) % W.WORD == (t1 % 0x2000_0000) * 8
    ensures ((8 * len) % LENGTHS) / W.WORD == t0 / 0x2000_0000 + (t1 % 0x2000_0000) * 8
    ensures ((8 * len) % LENGTHS) % W.WORD == (t0 * 8) % W.WORD
  {
    var q := len / LENGTHS;
    Arith.DivMod(len, LENGTHS);
    var a, b, c, d := t0 / 0x2000_0000, t0 % 0x2000_0000, t1 / 0x2000_0000, t1 % 0x2000_0000;
    var high, low := a + 8 * d, 8 * b;
    Arith.DivModUnique(8 * len, LENGTHS, 8 * q + c, high * W.WORD + low);
    Arith.DivModUnique(high * W.WORD + low, W.WORD, high, low);
    Arith.DivModUnique(t1 * 8, W.WORD, c, d * 8);
    Arith.DivModUnique(t0 * 8, W.WORD, a, low);
  }

  class Context {
    const alg: Algorithm
    var h: seq<W.Word>
    var total0: W.Word
    var total1: W.Word
    const buffer: array<Byte>
    ghost var msg: seq<Byte>

    /** The first `k` bytes of `m`, whole blocks, are in `h`. */
    ghost predicate Hashed(m: seq<Byte>, k: nat)
      reads this`h
    {
      k <= |m| && k % 64 == 0 && h == alg.Fold(m[..k])
    }

    /** The whole blocks of the message so far are in `h`, the rest is in the buffer. */
    ghost predicate Valid()
      reads this, buffer
    {
      && buffer.Length == 64
      && total0 + W.WORD * total1 == |msg| % LENGTHS
      && Hashed(msg, Whole(|msg|))
      && buffer[..|msg| % 64] == msg[Whole(|msg|)..]
    }

    constructor (alg: Algorithm)
      ensures Valid() && this.alg == alg && msg == [] && fresh(buffer)
    {
      this.alg := alg;
      h, total0, total1, msg := alg.Init(), 0, 0, [];
      buffer := new Byte[64];
    }

    /** Copies bytes into the buffer. */
    method Put(left: nat, piece: seq<Byte>)
      requires left + |piece| <= buffer.Length
      modifies buffer
      ensures buffer[..left + |piece|] == old(buffer[..left]) + piece
    {
      forall k | 0 <= k < |piece| {
        buffer[left + k] := piece[k];
      }
    }

    /** Adds a piece to the message. */
    method Update(data: seq<Byte>)
      requires Valid() && |data| < W.WORD
      modifies this, buffer
      ensures Valid() && msg == old(msg) + data
    {
      hide Algorithm.Fold, Whole;
      if |data| == 0 {
        assert msg + data == msg;
        return;
      }
      LeftIs(total0, total1, |msg|);
      var left := total0 % 64;
      total0, total1 := AddTotal(total0, total1, |data|, |msg|);
      Absorb(left, data);
      msg := msg + data;
    }

    /** Takes the whole blocks that the data completes, and keeps the rest. */
    method Absorb(left0: nat, data: seq<Byte>)
      requires buffer.Length == 64 && Hashed(msg, Whole(|msg|))
      requires left0 == |msg| % 64 && buffer[..left0] == msg[Whole(|msg|)..]
      modifies this`h, buffer
      ensures Hashed(msg + data, Whole(|msg + data|))
      ensures buffer[..|msg + data| % 64] == (msg + data)[Whole(|msg + data|)..]
    {
      hide Algorithm.Fold, Algorithm.Compress;
      var left, at := left0, 0;
      var fill := 64 - left;
      ghost var n, m, k := |msg|, msg + data, Whole(|msg|);
      Joined(msg, data, k);
      if left != 0 && |data| >= fill {
        JoinedPart(msg, data, k, fill);
        FillBlock(left, data[..fill], m, k);
        at, left := fill, 0;
      }
      if left == 0 {
        at := TakeBlocks(data, at, m, n);
        k := n + at;
        assert m[k..] == m[n..][at..];
      }
      assert buffer[..left] + data[at..] == m[k..];
      Keep(data[at..], left, m, k);
    }

    /** Completes the block in the buffer. */
    method FillBlock(left: nat, piece: seq<Byte>, ghost m: seq<Byte>, ghost k: nat)
      requires buffer.Length == 64 && left + |piece| == 64 && k + 64 <= |m|
      requires Hashed(m, k) && buffer[..left] + piece == m[k..k + 64]
      modifies this`h, buffer
      ensures Hashed(m, k + 64)
    {
      hide Algorithm.Fold, Algorithm.Compress;
      Put(left, piece);
      assert buffer[..] == buffer[..64];
      FoldNext(alg, m, k, buffer[..]);
      h := Process(alg, h, buffer[..]);
    }

    /** Takes whole blocks from the data. */
    method TakeBlocks(data: seq<Byte>, at0: nat, ghost m: seq<Byte>, ghost n: nat) returns (at: nat)
      requires at0 <= |data| && |m| == n + |data| && m[n..] == data && Hashed(m, n + at0)
      modifies this`h
      ensures at <= |data| < at + 64 && Hashed(m, n + at)
    {
      hide Algorithm.Fold, Algorithm.Compress;
      at := at0;
      while |data| - at >= 64
        invariant 0 <= at <= |data| && Hashed(m, n + at)
      {
        assert m[n + at..n + at + 64] == m[n..][at..at + 64];
        FoldNext(alg, m, n + at, data[at..at + 64]);
        h := Process(alg, h, data[at..at + 64]);
        at := at + 64;
      }
    }

    /** Keeps what is not a whole block. */
    method Keep(rest: seq<Byte>, left: nat, ghost m: seq<Byte>, ghost k: nat)
      requires buffer.Length == 64 && Hashed(m, k) && |m| < k + 64
      requires k + left + |rest| == |m| && buffer[..left] + rest == m[k..]
      modifies buffer
      ensures k == Whole(|m|) && buffer[..|m| % 64] == m[k..]
    {
      hide Algorithm.Fold;
      if |rest| > 0 {
        Put(left, rest);
      }
      WholeIs(|m|, k);
    }

    /** Pads the message and gives its hash. */
    method Final() returns (out: seq<Byte>)
      requires Valid()
      modifies this, buffer
      ensures out == alg.Digest(old(msg))
    {
      hide Algorithm.Fold, W.WordBytes, Zeros, LengthField, PADDING;
      var msglen := Lengths(total0, total1, |msg|);
      LeftIs(total0, total1, |msg|);
      var last := total0 % 64;
      var padn := if last < 56 then 56 - last else 120 - last;
      ghost var m := msg;
      PaddingPart(|m|);
      PaddedLength(m);
      Update(PADDING[..padn]);
      Update(msglen);
      assert msg[..|msg|] == msg;
      out := BytesOfWords(h);
    }
  }

  lemma {:induction false} FoldNext(alg: Algorithm, m: seq<Byte>, n: nat, block: seq<Byte>)
    requires n % 64 == 0 && n + 64 <= |m| && block == m[n..n + 64]
    ensures alg.Fold(m[..n + 64]) == alg.Compress(alg.Fold(m[..n]), block)
  {
    alg.FoldOneMore(m[..n], block);
    assert m[..n + 64] == m[..n] + block;
  }

  lemma {:induction false} Joined<T>(a: seq<T>, b: seq<T>, k: nat)
    requires k <= |a|
    ensures (a + b)[..k] == a[..k] && (a + b)[|a|..] == b && (a + b)[k..] == a[k..] + b
  {
  }

  lemma {:induction false} JoinedPart<T>(a: seq<T>, b: seq<T>, k: nat, j: nat)
    requires k <= |a| && j <= |b|
    ensures (a + b)[k..|a| + j] == a[k..] + b[..j]
  {
  }

  /** A one bit and zeros. */
  const PADDING: seq<Byte> := [0x80] + Zeros(63)

  lemma {:induction false} PaddingPart(n: nat)
    ensures var padn := if n % 64 < 56 then 56 - n % 64 else 120 - n % 64;
            0 < padn <= |PADDING| == 64 && PADDING[..padn] == [0x80] + Zeros(ZeroCount(n))
  {
    FirstZeros(ZeroCount(n));
  }

  lemma {:induction false} FirstZeros(k: nat)
    requires k < 64
    ensures |PADDING| == 64 && PADDING[..k + 1] == [0x80] + Zeros(k)
  {
  }

  // ----- whole runs -----

  function Flatten(pieces: seq<seq<Byte>>): seq<Byte> {
    if pieces == [] then [] else Flatten(pieces[..|pieces| - 1]) + pieces[|pieces| - 1]
  }

  /** However a message is cut into pieces, its hash is that of the whole. */
  method HashPieces(alg: Algorithm, pieces: seq<seq<Byte>>) returns (out: seq<Byte>)
    requires forall i :: 0 <= i < |pieces| ==> |pieces[i]| < W.WORD
    ensures out == alg.Digest(Flatten(pieces))
  {
    hide Algorithm.Digest;
    var ctx := new Context(alg);
    var i := 0;
    assert pieces[..0] == [];
    while i < |pieces|
      invariant 0 <= i <= |pieces| && ctx.Valid() && ctx.alg == alg && fresh(ctx) && fresh(ctx.buffer)
      invariant ctx.msg == Flatten(pieces[..i])
    {
      ctx.Update(pieces[i]);
      assert pieces[..i + 1][..i] == pieces[..i];
      i := i + 1;
    }
    assert pieces[..|pieces|] == pieces;
    out := ctx.Final();
  }

  /** The whole message at once. */
  method Hash(alg: Algorithm, data: seq<Byte>) returns (out: seq<Byte>)
    requires |data| < W.WORD
    ensures out == alg.Digest(data)
  {
    hide Algorithm.Digest;
    var ctx := new Context(alg);
    ctx.Update(data);
    assert [] + data == data;
    out := ctx.Final();
  }
}
