/** Key derivation in counter mode: the counter is spliced into the fixed input
    at any bit, and the key is cut from the outputs of the pseudorandom function. */
module Kbkdf {
  import opened Arith
  import opened Bytes
  import opened BitStrings
  import W = Words

  /** The longest counter, in bytes. */
  const RLEN := 4

  datatype Status = Ok | Fail

  // ----- what the key is -----

  /** The input of the function for block `i`: the fixed input with the lowest 8 * rlen
      bits of the block number put in at bit `pos`. */
  function Message(fixed: seq<Byte>, pos: nat, rlen: nat, i: nat): seq<Byte>
    requires pos <= 8 * |fixed|
  {
    BytesOf(Splice(fixed, pos, rlen, i))
  }

  function Splice(fixed: seq<Byte>, pos: nat, rlen: nat, i: nat): (b: seq<int>)
    requires pos <= 8 * |fixed|
    ensures |b| == 8 * (|fixed| + rlen)
  {
    BitsOfBytes(fixed)[..pos] + BitString(i, 8 * rlen) + BitsOfBytes(fixed)[pos..]
  }

  /** The first `n` outputs one after the other. */
  function Stream(mac: Prf, fixed: seq<Byte>, pos: nat, rlen: nat, n: nat): (s: seq<Byte>)
    requires mac.Valid() && pos <= 8 * |fixed|
    ensures |s| == n * mac.size
  {
    if n == 0 then []
    else
      Distribute(n - 1, 1, mac.size);
      Stream(mac, fixed, pos, rlen, n - 1) + mac.prf(Fed(fixed, pos, rlen, n))
  }

  /** What is fed to the function: with no counter at a place inside a byte, that byte is lost. */
  function Fed(fixed: seq<Byte>, pos: nat, rlen: nat, i: nat): seq<Byte>
    requires pos <= 8 * |fixed|
  {
    if rlen == 0 then fixed[..pos / 8] + fixed[RestAt(pos)..] else Message(fixed, pos, rlen, i)
  }

  /** The first byte behind the place of the counter. */
  function RestAt(pos: nat): (r: nat)
    ensures r == (pos + 7) / 8
  {
    pos / 8 + if pos % 8 > 0 then 1 else 0
  }

  /** The splice is what is fed exactly when there is a counter, or its place is between bytes. */
  lemma {:induction false} FedIsSpliceIff(fixed: seq<Byte>, pos: nat, rlen: nat, i: nat)
    requires pos <= 8 * |fixed|
    ensures Fed(fixed, pos, rlen, i) == Message(fixed, pos, rlen, i) <==> 0 < rlen || pos % 8 == 0
  {
    hide BitString, BitsOfBytes, BytesOf;
    if rlen == 0 {
      assert Splice(fixed, pos, 0, i) == BitsOfBytes(fixed);
      BytesOfBits(fixed);
      if pos % 8 == 0 {
        assert fixed[..pos / 8] + fixed[pos / 8..] == fixed;
      } else {
        assert |Fed(fixed, pos, 0, i)| == |fixed| - 1;
      }
    }
  }

  // ----- the pseudorandom function -----

  /** A keyed function on byte strings with outputs of `size` bytes. */
  datatype Prf = Prf(prf: seq<Byte> -> seq<Byte>, size: nat) {
    ghost predicate Valid() {
      0 < size <= 64 && forall m :: |prf(m)| == size
    }
  }

  /** The callbacks that compute it piece by piece. */
  class Mac {
    const f: Prf
    var fed: seq<Byte>

    constructor (f: Prf)
      ensures this.f == f && fed == []
    {
      this.f := f;
      fed := [];
    }

    method Init()
      modifies this
      ensures fed == []
    {
      fed := [];
    }

    method Update(data: seq<Byte>)
      modifies this
      ensures fed == old(fed) + data
    {
      fed := fed + data;
    }

    method Final() returns (out: seq<Byte>)
      ensures out == f.prf(fed)
    {
      out := f.prf(fed);
    }
  }

  // ----- the counter and its place -----

  /** Shifts part of an array to the right by some bits; `carry` holds the bits that
      come in on the left, in the leftmost places. */
  method ShiftArrayRight(a: array<Byte>, from: nat, length: nat, shift: nat, carry0: Byte, ghost r0: nat)
    requires 1 <= shift <= 7 && from + length <= a.Length
    requires r0 < Pow(2, shift) && carry0 == Pow(2, 8 - shift) * r0
    modifies a
    ensures a[..from] == old(a[..from]) && a[from + length..] == old(a[from + length..])
    ensures BitsOfBytes(a[from..from + length]) == (BitString(r0, shift) + BitsOfBytes(old(a[from..from + length])))[..8 * length]
  {
    hide BitString;
    ghost var whole, s := a[..], a[from..from + length];
    ghost var r: nat := r0;
    var carry, i := carry0, 0;
    while i < length
      invariant 0 <= i <= length && r < Pow(2, shift) && carry == Pow(2, 8 - shift) * r
      invariant a[..from] == whole[..from] && a[from + i..] == whole[from + i..]
      invariant BitsOfBytes(a[from..from + i]) + BitString(r, shift) == BitString(r0, shift) + BitsOfBytes(s[..i])
    {
      assert a[from + i] == whole[from + i..][0];
      ghost var rest := a[from + i + 1..];
      assert rest == whole[from + i..][1..];
      carry, r := ShiftOne(a, from, i, shift, carry, r, r0, s);
      i := i + 1;
    }
    assert s[..length] == s;
    var all := BitsOfBytes(a[from..from + length]) + BitString(r, shift);
    assert BitsOfBytes(a[from..from + length]) == all[..8 * length];
  }

  /** One byte of the shift: `r` came in, the last bits of the byte go out. */
  method ShiftOne(a: array<Byte>, from: nat, i: nat, shift: nat, carry0: Byte, ghost r: nat, ghost r0: nat, ghost s: seq<Byte>)
    returns (carry: Byte, ghost r': nat)
    requires 1 <= shift <= 7 && from + i < a.Length && i < |s| && a[from + i] == s[i]
    requires r < Pow(2, shift) && carry0 == Pow(2, 8 - shift) * r
    requires BitsOfBytes(a[from..from + i]) + BitString(r, shift) == BitString(r0, shift) + BitsOfBytes(s[..i])
    modifies a
    ensures r' < Pow(2, shift) && carry == Pow(2, 8 - shift) * r'
    ensures a[..from] == old(a[..from]) && a[from + i + 1..] == old(a[from + i + 1..])
    ensures BitsOfBytes(a[from..from + i + 1]) + BitString(r', shift) == BitString(r0, shift) + BitsOfBytes(s[..i + 1])
  {
    hide BitString, BitsOfBytes;
    var temp := a[from + i];
    ghost var t := a[from..from + i];
    ShiftedByte(temp, shift, r, carry0);
    a[from + i] := Or(ShiftRight(temp, shift), carry0);
    assert a[from..from + i + 1] == t + [a[from + i]];
    ShiftMore(t, s, i, r0, r, shift, a[from + i]);
    carry, r' := ShiftLeft(temp, 8 - shift), temp % Pow(2, shift);
  }

  lemma {:induction false} ShiftMore(t: seq<Byte>, s: seq<Byte>, i: nat, r0: nat, r: nat, m: nat, y: Byte)
    requires i < |s| && |t| == i && 1 <= m <= 7
    requires BitsOfBytes(t) + BitString(r, m) == BitString(r0, m) + BitsOfBytes(s[..i])
    requires 0 < Pow(2, m) && 0 <= s[i] % Pow(2, m)
    requires BitString(r, m) + BitString(s[i], 8) == BitString(y, 8) + BitString(s[i] % Pow(2, m), m)
    ensures BitsOfBytes(t + [y]) + BitString(s[i] % Pow(2, m), m) == BitString(r0, m) + BitsOfBytes(s[..i + 1])
  {
    hide BitString;
    assert (t + [y])[..i] == t;
    assert s[..i + 1][..i] == s[..i];
    Regroup(BitsOfBytes(t), BitString(y, 8), BitString(s[i] % Pow(2, m), m));
    Regroup(BitsOfBytes(t), BitString(r, m), BitString(s[i], 8));
    Regroup(BitString(r0, m), BitsOfBytes(s[..i]), BitString(s[i], 8));
  }

  lemma {:induction false} Regroup<T>(a: seq<T>, b: seq<T>, c: seq<T>)
    ensures (a + b) + c == a + (b + c)
  {
  }

  /** Byte `j` of a number, from the right. */
  function ByteAt(n: nat, j: nat): Byte {
    if j == 0 then n % 256 else ByteAt(n / 256, j - 1)
  }

  /** The four bytes of a word, most significant first. */
  method PutWord(n: W.Word, b: array<Byte>)
    requires 4 <= b.Length
    modifies b
    ensures b[..4] == W.WordBytes(n) && b[4..] == old(b[4..])
  {
    b[0] := W.WordBytes(n)[0];
    b[1] := W.WordBytes(n)[1];
    b[2] := W.WordBytes(n)[2];
    b[3] := W.WordBytes(n)[3];
  }

  lemma {:induction false} BytesOfWord(n: W.Word)
    ensures forall k :: 0 <= k <= 4 ==> BitsOfBytes(W.WordBytes(n)[4 - k..]) == BitString(n, 8 * k)
  {
    hide BitsOfBytes, BitString;
    var s := W.WordBytes(n);
    assert s[0] == ByteAt(n, 3) && s[1] == ByteAt(n, 2) && s[2] == ByteAt(n, 1) && s[3] == ByteAt(n, 0) by {
      Hundreds(n);
    }
    forall k | 0 <= k <= 4
      ensures BitsOfBytes(s[4 - k..]) == BitString(n, 8 * k)
    {
      BigEndian(s[4 - k..], n);
    }
  }

  lemma {:induction false} Hundreds(n: nat)
    ensures ByteAt(n, 0) == n % 256 && ByteAt(n, 1) == (n / 0x100) % 256
    ensures ByteAt(n, 2) == (n / 0x10000) % 256 && ByteAt(n, 3) == (n / 0x1000000) % 256
  {
    var a, b, c := n / 0x100, n / 0x10000, n / 0x1000000;
    assert a / 0x100 == b && b / 0x100 == c;
    assert ByteAt(n, 1) == ByteAt(a, 0);
    assert ByteAt(n, 2) == ByteAt(a, 1) == ByteAt(b, 0);
    assert ByteAt(n, 3) == ByteAt(a, 2) == ByteAt(b, 1) == ByteAt(c, 0);
  }

  lemma {:induction false} BigEndian(s: seq<Byte>, n: nat)
    requires forall j: nat :: j < |s| ==> s[|s| - 1 - j] == ByteAt(n, j)
    ensures BitsOfBytes(s) == BitString(n, 8 * |s|)
  {
    hide BitString;
    if s != [] {
      var t := s[..|s| - 1];
      forall j: nat | j < |t|
        ensures t[|t| - 1 - j] == ByteAt(n / 256, j)
      {
        assert s[|s| - 1 - (j + 1)] == ByteAt(n, j + 1);
      }
      BigEndian(t, n / 256);
      assert s[|s| - 1 - 0] == ByteAt(n, 0);
      assert Pow(2, 8) == 256;
      BitsConcat(8 * |t|, n / 256, n % 256, 8);
    }
  }

  /** The counter, with a zero byte behind it. */
  method LoadCounter(ctr: array<Byte>, i: W.Word, rlen: nat) returns (ghost c: seq<Byte>)
    requires ctr.Length == RLEN + 1 && 1 <= rlen <= RLEN
    modifies ctr
    ensures ctr[RLEN - rlen..] == c + [0] && ctr[RLEN - rlen..RLEN] == c
    ensures BitsOfBytes(c) == BitString(i, 8 * rlen)
  {
    hide BitString, BitsOfBytes;
    PutWord(i, ctr);
    ctr[4] := 0;
    c := ctr[RLEN - rlen..RLEN];
    BytesOfWord(i);
    assert c == W.WordBytes(i)[4 - rlen..];
  }

  /** The bytes around the counter: at a place inside byte `f`, its first m bits, the
      counter, and its other bits. */
  method PlaceCounter(ctr: array<Byte>, i: W.Word, rlen: nat, m: nat, f: Byte)
    requires ctr.Length == RLEN + 1 && 1 <= rlen <= RLEN && m < 8
    modifies ctr
    ensures m == 0 ==> BitsOfBytes(ctr[RLEN - rlen..RLEN]) == BitString(i, 8 * rlen)
    ensures m != 0 ==> BitsOfBytes(ctr[RLEN - rlen..]) == BitString(f, 8)[..m] + BitString(i, 8 * rlen) + BitString(f, 8)[m..]
  {
    hide BitString, BitsOfBytes;
    ghost var c := LoadCounter(ctr, i, rlen);
    if m > 0 {
      MaskedLeft(f, m);
      MaskedRight(f, 8 - m);
      SplitByte(f, m);
      assert ctr[RLEN - rlen..RLEN - rlen + (rlen + 1)] == ctr[RLEN - rlen..];
      ShiftArrayRight(ctr, RLEN - rlen, rlen + 1, m, And(f, BIT_MASK_LEFT[m]), f / Pow(2, 8 - m));
      ghost var t := ctr[RLEN - rlen..RLEN];
      ghost var y := ctr[4];
      assert ctr[RLEN - rlen..RLEN - rlen + (rlen + 1)] == t + [y];
      ctr[4] := Or(ctr[4], And(f, BIT_MASK_RIGHT[8 - m]));
      assert ctr[RLEN - rlen..] == t + [ctr[4]];
      Placed(c, t, y, And(f, BIT_MASK_RIGHT[8 - m]), f / Pow(2, 8 - m), m);
    }
  }

  lemma {:induction false} Placed(c: seq<Byte>, t: seq<Byte>, y: Byte, l: Byte, h: nat, m: nat)
    requires |c| == |t| && 1 <= m <= 7 && l < Pow(2, 8 - m)
    requires BitsOfBytes(t + [y]) == (BitString(h, m) + BitsOfBytes(c + [0]))[..8 * (|c| + 1)]
    ensures BitsOfBytes(t + [Or(y, l)]) == BitString(h, m) + BitsOfBytes(c) + BitString(l, 8 - m)
  {
    hide BitString, BitsOfBytes;
    LastByte(t, y);
    LastByte(t, Or(y, l));
    LastByte(c, 0);
    ZeroBits(8);
    ZeroBits(8 - m);
    var whole := BitString(h, m) + BitsOfBytes(c) + BitString(0, 8);
    assert whole == BitString(h, m) + BitsOfBytes(c + [0]);
    var n := 8 * |c|;
    assert BitString(y, 8) == whole[..n + 8][n..];
    assert BitString(y, 8)[m..] == BitString(0, 8 - m);
    assert BitsOfBytes(t) + BitString(y, 8)[..m] == whole[..n + m];
    assert whole[..n + m] == BitString(h, m) + BitsOfBytes(c);
    FilledByte(y, l, 8 - m);
    Regroup(BitsOfBytes(t), BitString(y, 8)[..m], BitString(l, 8 - m));
  }

  lemma {:induction false} ZeroBits(w: nat)
    ensures forall i :: 0 <= i < w ==> BitString(0, w)[i] == 0
  {
    if w != 0 {
      ZeroBits(w - 1);
    }
  }

  // ----- feeding the function -----

  /** Feeds the input of block `i`. */
  method Feed(mac: Mac, ctr: array<Byte>, fixed: seq<Byte>, pos: nat, rlen: nat, i: W.Word)
    requires ctr.Length == RLEN + 1 && rlen <= RLEN && pos <= 8 * |fixed|
    modifies mac, ctr
    ensures mac.fed == Fed(fixed, pos, rlen, i)
  {
    hide BitString, BitsOfBytes;
    var m, rpos := pos % 8, pos / 8;
    mac.Init();
    if rpos > 0 {
      mac.Update(fixed[..rpos]);
    }
    assert mac.fed == fixed[..rpos];
    ghost var middle: seq<Byte> := [];
    if rlen > 0 {
      PlaceCounter(ctr, i, rlen, m, if m > 0 then fixed[rpos] else 0);
      middle := ctr[RLEN - rlen..RLEN + if m > 0 then 1 else 0];
      assert m > 0 ==> middle == ctr[RLEN - rlen..];
      mac.Update(ctr[RLEN - rlen..RLEN - rlen + (rlen + if m > 0 then 1 else 0)]);
    }
    if RestAt(pos) != |fixed| {
      mac.Update(fixed[RestAt(pos)..]);
    }
    assert mac.fed == fixed[..rpos] + middle + fixed[RestAt(pos)..];
    if rlen > 0 {
      Spliced(fixed, pos, rlen, i, middle);
    }
  }

  lemma {:induction false} Spliced(fixed: seq<Byte>, pos: nat, rlen: nat, i: nat, middle: seq<Byte>)
    requires pos <= 8 * |fixed| && 0 < rlen
    requires pos % 8 == 0 ==> BitsOfBytes(middle) == BitString(i, 8 * rlen)
    requires pos % 8 != 0 ==>
               BitsOfBytes(middle) == BitString(fixed[pos / 8], 8)[..pos % 8] + BitString(i, 8 * rlen)
                                      + BitString(fixed[pos / 8], 8)[pos % 8..]
    ensures fixed[..pos / 8] + middle + fixed[RestAt(pos)..] == Message(fixed, pos, rlen, i)
  {
    hide BitString, BitsOfBytes;
    var rpos, m := pos / 8, pos % 8;
    var front, rest := fixed[..rpos], fixed[RestAt(pos)..];
    var all := front + middle + rest;
    BitsOfConcat(front + middle, rest);
    BitsOfConcat(front, middle);
    BitsOfConcat(front, fixed[rpos..]);
    assert front + fixed[rpos..] == fixed;
    if m == 0 {
      assert BitsOfBytes(all) == Splice(fixed, pos, rlen, i);
    } else {
      var f := fixed[rpos];
      assert [f] + rest == fixed[rpos..];
      BitsOfConcat([f], rest);
      BitsOfOne(f);
      assert BitsOfBytes(fixed)[..pos] == BitsOfBytes(front) + BitString(f, 8)[..m];
      assert BitsOfBytes(fixed)[pos..] == BitString(f, 8)[m..] + BitsOfBytes(rest);
      assert BitsOfBytes(all) == Splice(fixed, pos, rlen, i);
    }
    BytesOfBits(all);
  }

  /** The bits of a message are those of the fixed input with the counter in between. */
  lemma {:induction false} MessageBits(fixed: seq<Byte>, pos: nat, rlen: nat, i: nat)
    requires pos <= 8 * |fixed|
    ensures BitsOfBytes(Message(fixed, pos, rlen, i)) ==
      BitsOfBytes(fixed)[..pos] + BitString(i, 8 * rlen) + BitsOfBytes(fixed)[pos..]
  {
    BytesAreBits(fixed);
    BitsAreBits(i, 8 * rlen);
    BitsOfBytesOf(Splice(fixed, pos, rlen, i));
  }

  // ----- the key -----

  /** The bytes written for a key of so many bits. */
  function KeyBytes(bits: nat): nat {
    bits / 8 + if bits % 8 > 1 then 1 else 0
  }

  /** The last byte of a key that is not whole bytes loses its last bits. */
  function Masked(s: seq<Byte>, bits: nat): seq<Byte>
    requires |s| == KeyBytes(bits)
  {
    if bits % 8 > 1 then s[|s| - 1 := And(s[|s| - 1], BIT_MASK_LEFT[bits % 8])] else s
  }

  /** Blocks enough for `n` bytes. */
  function Blocks(n: nat, size: nat): (b: nat)
    requires 0 < size
    ensures n <= b * size < n + size
  {
    DivMod(n, size);
    DivNonNeg(n, size);
    Distribute(n / size, 1, size);
    n / size + if n % size > 0 then 1 else 0
  }

  function Key(f: Prf, fixed: seq<Byte>, pos: nat, rlen: nat, bits: nat): (s: seq<Byte>)
    requires f.Valid() && pos <= 8 * |fixed|
    ensures |s| == KeyBytes(bits)
  {
    var n := KeyBytes(bits);
    Masked(Stream(f, fixed, pos, rlen, Blocks(n, f.size))[..n], bits)
  }

  /** Derives a key of `bits` bits. */
  method Counter(mac: Mac, fixed: seq<Byte>, keyOut: array<Byte>, bits: nat, rlen: nat, pos: nat) returns (err: Status)
    requires mac.f.Valid() && pos <= 8 * |fixed| && bits < W.WORD && KeyBytes(bits) <= keyOut.Length
    modifies mac, keyOut
    ensures err == if RLEN < rlen then Fail else Ok
    ensures err == Fail ==> keyOut[..] == old(keyOut[..])
    ensures err == Ok ==> keyOut[..] == Key(mac.f, fixed, pos, rlen, bits) + old(keyOut[KeyBytes(bits)..])
  {
    hide BitString, BitsOfBytes, Stream;
    if rlen > RLEN {
      return Fail;
    }
    err := Ok;
    var n := KeyBytes(bits);
    Fill(mac, fixed, keyOut, n, rlen, pos);
    ghost var s := Stream(mac.f, fixed, pos, rlen, Blocks(n, mac.f.size))[..n];
    if bits % 8 > 1 {
      keyOut[n - 1] := And(keyOut[n - 1], BIT_MASK_LEFT[bits % 8]);
    }
    assert keyOut[..n] == Masked(s, bits);
    assert keyOut[..] == keyOut[..n] + keyOut[n..];
  }

  /** Writes the first `n` bytes of the stream: whole blocks, and part of one more. */
  method Fill(mac: Mac, fixed: seq<Byte>, keyOut: array<Byte>, n: nat, rlen: nat, pos: nat)
    requires mac.f.Valid() && rlen <= RLEN && pos <= 8 * |fixed| && n <= keyOut.Length && n < W.WORD - 1
    modifies mac, keyOut
    ensures keyOut[..n] == Stream(mac.f, fixed, pos, rlen, Blocks(n, mac.f.size))[..n]
    ensures keyOut[n..] == old(keyOut[n..])
  {
    hide BitString, BitsOfBytes, Fed;
    var f, ctr := mac.f, new Byte[RLEN + 1];
    var full, leftover := n / f.size, n % f.size;
    DivMod(n, f.size);
    DivNonNeg(n, f.size);
    var at := FullBlocks(mac, ctr, fixed, keyOut, full, rlen, pos);
    ghost var whole := Stream(f, fixed, pos, rlen, full);
    if leftover > 0 {
      Feed(mac, ctr, fixed, pos, rlen, full + 1);
      var last := mac.Final();
      CopyTo(last[..leftover], keyOut, at);
      assert (whole + last)[..n] == whole + last[..leftover];
    } else {
      assert whole[..n] == whole;
    }
  }

  /** Writes bytes into the key buffer. */
  method CopyTo(out: seq<Byte>, key: array<Byte>, at: nat)
    requires at + |out| <= key.Length
    modifies key
    ensures key[..at + |out|] == old(key[..at]) + out && key[at + |out|..] == old(key[at + |out|..])
  {
    forall k | 0 <= k < |out| {
      key[at + k] := out[k];
    }
  }

  /** The blocks that are used whole, written one after the other. */
  method FullBlocks(mac: Mac, ctr: array<Byte>, fixed: seq<Byte>, keyOut: array<Byte>, full: nat, rlen: nat, pos: nat)
    returns (at: nat)
    requires mac.f.Valid() && ctr != keyOut && ctr.Length == RLEN + 1 && rlen <= RLEN && pos <= 8 * |fixed|
    requires full * mac.f.size <= keyOut.Length && full < W.WORD - 1
    modifies mac, ctr, keyOut
    ensures at == full * mac.f.size
    ensures keyOut[..at] == Stream(mac.f, fixed, pos, rlen, full) && keyOut[at..] == old(keyOut[at..])
  {
    hide BitString, BitsOfBytes, Fed;
    var f, i := mac.f, 1;
    at := 0;
    while i <= full
      invariant 1 <= i <= full + 1 && at == (i - 1) * f.size <= keyOut.Length
      invariant keyOut[..at] == Stream(f, fixed, pos, rlen, i - 1) && keyOut[at..] == old(keyOut[at..])
    {
      Feed(mac, ctr, fixed, pos, rlen, i);
      var out := mac.Final();
      Distribute(i - 1, 1, f.size);
      MulLe(i, full, f.size);
      CopyTo(out, keyOut, at);
      at, i := at + f.size, i + 1;
    }
  }

  // ----- what the key delivers -----

  /** Block `j` of the stream. */
  lemma {:induction false} StreamBlock(f: Prf, fixed: seq<Byte>, pos: nat, rlen: nat, n: nat, j: nat)
    requires f.Valid() && pos <= 8 * |fixed| && j < n
    ensures 0 <= j * f.size <= (j + 1) * f.size <= n * f.size
    ensures Stream(f, fixed, pos, rlen, n)[j * f.size..(j + 1) * f.size] == f.prf(Fed(fixed, pos, rlen, j + 1))
  {
    hide Fed;
    MulNonNeg(j, f.size);
    Distribute(j, 1, f.size);
    MulLe(j + 1, n, f.size);
    var head := Stream(f, fixed, pos, rlen, n - 1);
    Distribute(n - 1, 1, f.size);
    if j + 1 < n {
      MulLe(j + 1, n - 1, f.size);
      StreamBlock(f, fixed, pos, rlen, n - 1, j);
      SliceOfHead(head, f.prf(Fed(fixed, pos, rlen, n)), j * f.size, (j + 1) * f.size);
    } else {
      Halves(head, f.prf(Fed(fixed, pos, rlen, n)));
    }
  }

  lemma {:induction false} SliceOfHead<T>(a: seq<T>, b: seq<T>, i: nat, j: nat)
    requires i <= j <= |a|
    ensures (a + b)[i..j] == a[i..j]
  {
  }

  /** The key holds the first `bits` bits of the stream, with zeros behind them. */
  ghost predicate Delivers(key: seq<Byte>, stream: seq<Byte>, bits: nat) {
    && bits <= 8 * |key| && bits <= 8 * |stream|
    && BitsOfBytes(key)[..bits] == BitsOfBytes(stream)[..bits]
    && forall i :: bits <= i < 8 * |key| ==> BitsOfBytes(key)[i] == 0
  }

  /** A key is delivered in full exactly when its length is not one above whole bytes;
      then the last bit is missing. */
  lemma {:induction false} DeliversIff(f: Prf, fixed: seq<Byte>, pos: nat, rlen: nat, bits: nat)
    requires f.Valid() && pos <= 8 * |fixed|
    ensures var stream := Stream(f, fixed, pos, rlen, Blocks(KeyBytes(bits), f.size));
            && (Delivers(Key(f, fixed, pos, rlen, bits), stream, bits) <==> bits % 8 != 1)
            && (bits % 8 == 1 ==> Delivers(Key(f, fixed, pos, rlen, bits), stream, bits - 1))
  {
    hide BitString, BitsOfBytes, Stream;
    var n := KeyBytes(bits);
    var stream := Stream(f, fixed, pos, rlen, Blocks(n, f.size));
    var s, key := stream[..n], Key(f, fixed, pos, rlen, bits);
    BitsOfConcat(s, stream[n..]);
    assert s + stream[n..] == stream;
    if bits % 8 > 1 {
      MaskedKey(s, bits);
    }
  }

  lemma {:induction false} MaskedKey(s: seq<Byte>, bits: nat)
    requires |s| == KeyBytes(bits) && bits % 8 > 1
    ensures BitsOfBytes(Masked(s, bits))[..bits] == BitsOfBytes(s)[..bits]
    ensures forall i :: bits <= i < 8 * |s| ==> BitsOfBytes(Masked(s, bits))[i] == 0
  {
    hide BitString, BitsOfBytes;
    var k, t, x := bits % 8, s[..|s| - 1], s[|s| - 1];
    var y := And(x, BIT_MASK_LEFT[k]);
    assert s == t + [x] && Masked(s, bits) == t + [y];
    LastByte(t, x);
    LastByte(t, y);
    MaskedByte(x, k);
    assert bits == 8 * |t| + k;
    SamePrefix(BitsOfBytes(t), BitString(x, 8), BitString(y, 8), k);
    ZeroBits(8 - k);
    ZeroTail(BitsOfBytes(t), BitString(y, 8), k);
  }

  lemma {:induction false} ZeroTail(a: seq<int>, b: seq<int>, k: nat)
    requires k <= |b| && forall i :: 0 <= i < |b| - k ==> b[k..][i] == 0
    ensures forall i :: |a| + k <= i < |a + b| ==> (a + b)[i] == 0
  {
    forall i | |a| + k <= i < |a + b|
      ensures (a + b)[i] == 0
    {
      assert (a + b)[i] == b[k..][i - |a| - k];
    }
  }

  lemma {:induction false} MaskedByte(x: Byte, k: nat)
    requires k < 8
    ensures BitString(And(x, BIT_MASK_LEFT[k]), 8)[..k] == BitString(x, 8)[..k]
    ensures BitString(And(x, BIT_MASK_LEFT[k]), 8)[k..] == BitString(0, 8 - k)
  {
    hide BitString;
    MaskedLeft(x, k);
    SplitByte(x, k);
    PowPos(2, 8 - k);
    BitsConcat(k, x / Pow(2, 8 - k), 0, 8 - k);
    Halves(BitString(x / Pow(2, 8 - k), k), BitString(0, 8 - k));
  }

  lemma {:induction false} SamePrefix<T>(a: seq<T>, b: seq<T>, c: seq<T>, k: nat)
    requires k <= |b| == |c| && b[..k] == c[..k]
    ensures (a + b)[..|a| + k] == (a + c)[..|a| + k]
  {
    assert (a + b)[..|a| + k] == a + b[..k];
    assert (a + c)[..|a| + k] == a + c[..k];
  }
}
