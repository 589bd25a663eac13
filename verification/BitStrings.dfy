/** Byte strings read as bit strings, most significant bit first, and the
    operations of C on single bytes in these terms. */
module BitStrings {
  import opened Arith
  import opened Bytes
  import T = TwosComplement

  // ----- bit strings -----

  /** The lowest `w` bits of a number. */
  function BitString(v: nat, w: nat): (s: seq<int>)
    ensures |s| == w
  {
    if w == 0 then [] else BitString(v / 2, w - 1) + [v % 2]
  }

  /** The bits of the bytes one after the other. */
  function BitsOfBytes(s: seq<Byte>): (b: seq<int>)
    ensures |b| == 8 * |s|
  {
    if s == [] then [] else BitsOfBytes(s[..|s| - 1]) + BitString(s[|s| - 1], 8)
  }

  /** Appending digits of `w` bits appends bits. */
  lemma {:induction false} BitsConcat(u: nat, v: nat, x: nat, w: nat)
    requires x < Pow(2, w)
    ensures 0 <= v * Pow(2, w) && BitString(v * Pow(2, w) + x, u + w) == BitString(v, u) + BitString(x, w)
    decreases w
  {
    PowPos(2, w);
    MulNonNeg(v, Pow(2, w));
    if w == 0 {
      assert v * Pow(2, 0) + x == v;
      assert BitString(v, u) + BitString(x, 0) == BitString(v, u);
    } else {
      PowPos(2, w - 1);
      MulNonNeg(v, Pow(2, w - 1));
      BitsConcat(u, v, x / 2, w - 1);
      var n, h := v * Pow(2, w) + x, v * Pow(2, w - 1);
      HalfOfConcat(v, Pow(2, w - 1), x);
      assert n / 2 == h + x / 2 && n % 2 == x % 2;
      assert (BitString(v, u) + BitString(x / 2, w - 1)) + [x % 2] == BitString(v, u) + BitString(x, w);
    }
  }

  lemma {:induction false} HalfOfConcat(v: int, p: int, x: int)
    ensures (v * (2 * p) + x) / 2 == v * p + x / 2 && (v * (2 * p) + x) % 2 == x % 2
  {
    Assoc(v, 2, p);
    Assoc(2, v, p);
    assert v * (2 * p) == 2 * (v * p);
  }

  lemma {:induction false} BitsOfConcat(s: seq<Byte>, t: seq<Byte>)
    ensures BitsOfBytes(s + t) == BitsOfBytes(s) + BitsOfBytes(t)
  {
    hide BitString;
    if t == [] {
      assert s + t == s;
      assert BitsOfBytes(s) + [] == BitsOfBytes(s);
    } else {
      var t' := t[..|t| - 1];
      BitsOfConcat(s, t');
      assert (s + t)[..|s + t| - 1] == s + t';
      assert BitsOfBytes(s) + (BitsOfBytes(t') + BitString(t[|t| - 1], 8))
             == (BitsOfBytes(s) + BitsOfBytes(t')) + BitString(t[|t| - 1], 8);
    }
  }

  lemma {:induction false} LastByte(t: seq<Byte>, y: Byte)
    ensures BitsOfBytes(t + [y]) == BitsOfBytes(t) + BitString(y, 8)
  {
    Halves(t, [y]);
  }

  /** The two parts of a concatenation. */
  lemma {:induction false} Halves<T>(a: seq<T>, b: seq<T>)
    ensures (a + b)[..|a|] == a && (a + b)[|a|..] == b
  {
  }

  lemma {:induction false} BitsOfOne(x: Byte)
    ensures BitsOfBytes([x]) == BitString(x, 8)
  {
    assert BitsOfBytes([x][..0]) == [];
    assert [] + BitString(x, 8) == BitString(x, 8);
  }

  /** The bytes with given bits. */
  function BytesOf(b: seq<int>): (s: seq<Byte>)
    requires |b| % 8 == 0
    ensures |s| == |b| / 8
  {
    if b == [] then [] else BytesOf(b[..|b| - 8]) + [Number(b[|b| - 8..]) % 256]
  }

  lemma {:induction false} LastBits(b: seq<int>, c: seq<int>)
    requires |b| % 8 == 0 && |c| == 8
    ensures BytesOf(b + c) == BytesOf(b) + [Number(c) % 256]
  {
    Halves(b, c);
  }

  function Number(b: seq<int>): nat {
    if b == [] then 0 else 2 * Number(b[..|b| - 1]) + if b[|b| - 1] == 0 then 0 else 1
  }

  lemma {:induction false} NumberOfBits(v: nat, w: nat)
    requires v < Pow(2, w)
    ensures Number(BitString(v, w)) == v
  {
    if w != 0 {
      NumberOfBits(v / 2, w - 1);
      assert BitString(v, w)[..w - 1] == BitString(v / 2, w - 1);
    }
  }

  /** A byte string is given by its bits. */
  lemma {:induction false} BytesOfBits(s: seq<Byte>)
    ensures BytesOf(BitsOfBytes(s)) == s
  {
    hide BitString, Number, Pow;
    if s != [] {
      var t, x := s[..|s| - 1], s[|s| - 1];
      BytesOfBits(t);
      Powers();
      NumberOfBits(x, 8);
      Halves(BitsOfBytes(t), BitString(x, 8));
      Halves(t, [x]);
      LastBits(BitsOfBytes(t), BitString(x, 8));
    }
  }

  ghost predicate AreBits(b: seq<int>) {
    forall i :: 0 <= i < |b| ==> b[i] == 0 || b[i] == 1
  }

  lemma {:induction false} BitsAreBits(v: nat, w: nat)
    ensures AreBits(BitString(v, w))
  {
    if w != 0 {
      BitsAreBits(v / 2, w - 1);
    }
  }

  lemma {:induction false} BytesAreBits(s: seq<Byte>)
    ensures AreBits(BitsOfBytes(s))
  {
    if s != [] {
      BytesAreBits(s[..|s| - 1]);
      BitsAreBits(s[|s| - 1], 8);
    }
  }

  lemma {:induction false} BitsOfNumber(b: seq<int>)
    requires AreBits(b)
    ensures BitString(Number(b), |b|) == b && Number(b) < Pow(2, |b|)
  {
    if b != [] {
      BitsOfNumber(b[..|b| - 1]);
    }
  }

  /** Every string of whole bytes is the bits of its bytes. */
  lemma {:induction false} BitsOfBytesOf(b: seq<int>)
    requires |b| % 8 == 0 && AreBits(b)
    ensures BitsOfBytes(BytesOf(b)) == b
  {
    hide BitString, Number, Pow;
    if b != [] {
      var h, t := b[..|b| - 8], b[|b| - 8..];
      BitsOfBytesOf(h);
      Powers();
      BitsOfNumber(t);
      LastByte(BytesOf(h), Number(t) % 256);
    }
  }

  // ----- operations on single bytes -----

  function Or(x: Byte, y: Byte): Byte {
    assert Pow(2, 8) == 256;
    T.BitwiseRange(T.Or, 8, x, y);
    T.Bitwise(T.Or, x, y)
  }

  function And(x: Byte, y: Byte): Byte {
    assert Pow(2, 8) == 256;
    T.BitwiseRange(T.And, 8, x, y);
    T.Bitwise(T.And, x, y)
  }

  /** A shift to the right fills up with zeros. */
  function ShiftRight(x: Byte, k: nat): Byte {
    PowPos(2, k);
    DivNonNeg(x, Pow(2, k));
    x / Pow(2, k)
  }

  /** A shift to the left loses what leaves the byte. */
  function ShiftLeft(x: Byte, k: nat): Byte {
    (x * Pow(2, k)) % 256
  }

  /** The masks for the k leftmost bits ... */
  const BIT_MASK_LEFT: seq<Byte> := [
    0,
    0x80,
    0x80 + 0x40,
    0x80 + 0x40 + 0x20,
    0x80 + 0x40 + 0x20 + 0x10,
    0x80 + 0x40 + 0x20 + 0x10 + 0x08,
    0x80 + 0x40 + 0x20 + 0x10 + 0x08 + 0x04,
    0x80 + 0x40 + 0x20 + 0x10 + 0x08 + 0x04 + 0x02,
    0x80 + 0x40 + 0x20 + 0x10 + 0x08 + 0x04 + 0x02 + 0x01]

  /** ... and for the k rightmost. */
  const BIT_MASK_RIGHT: seq<Byte> := [
    0,
    0x01,
    0x02 + 0x01,
    0x04 + 0x02 + 0x01,
    0x08 + 0x04 + 0x02 + 0x01,
    0x10 + 0x08 + 0x04 + 0x02 + 0x01,
    0x20 + 0x10 + 0x08 + 0x04 + 0x02 + 0x01,
    0x40 + 0x20 + 0x10 + 0x08 + 0x04 + 0x02 + 0x01,
    0x80 + 0x40 + 0x20 + 0x10 + 0x08 + 0x04 + 0x02 + 0x01]

  lemma {:induction false} MaskValues(k: nat)
    requires k <= 8
    ensures BIT_MASK_LEFT[k] == Pow(2, 8 - k) * (Pow(2, k) - 1)
    ensures BIT_MASK_RIGHT[k] == Pow(2, k) - 1
  {
    Powers();
    assert k == 0 || k == 1 || k == 2 || k == 3 || k == 4 || k == 5 || k == 6 || k == 7 || k == 8;
  }

  lemma {:induction false} Powers()
    ensures Pow(2, 0) == 1 && Pow(2, 1) == 2 && Pow(2, 2) == 4 && Pow(2, 3) == 8 && Pow(2, 4) == 16
    ensures Pow(2, 5) == 32 && Pow(2, 6) == 64 && Pow(2, 7) == 128 && Pow(2, 8) == 256
  {
    assert Pow(2, 3) == 8;
    assert Pow(2, 5) == 32;
    assert Pow(2, 7) == 128;
  }

  lemma {:induction false} WithZero(x: nat)
    ensures T.Bitwise(T.Or, x, 0) == x && T.Bitwise(T.And, x, 0) == 0
    ensures T.Bitwise(T.Or, 0, x) == x && T.Bitwise(T.And, 0, x) == 0
    decreases x
  {
    if x != 0 {
      WithZero(x / 2);
      T.BitwiseStep(T.Or, x, 0);
      T.BitwiseStep(T.And, x, 0);
      T.BitwiseStep(T.Or, 0, x);
      T.BitwiseStep(T.And, 0, x);
    }
  }

  lemma {:induction false} WithOnes(x: nat, k: nat)
    requires x < Pow(2, k)
    ensures T.Bitwise(T.And, x, Pow(2, k) - 1) == x
    decreases k
  {
    if k != 0 {
      PowPos(2, k - 1);
      WithOnes(x / 2, k - 1);
      T.BitwiseStep(T.And, x, Pow(2, k) - 1);
    }
  }

  /** The left mask keeps the k leftmost bits in their place. */
  lemma {:induction false} MaskedLeft(x: Byte, k: nat)
    requires k <= 8
    ensures 0 < Pow(2, 8 - k) && x / Pow(2, 8 - k) < Pow(2, k)
    ensures And(x, BIT_MASK_LEFT[k]) == Pow(2, 8 - k) * (x / Pow(2, 8 - k))
  {
    var w := Pow(2, 8 - k);
    PowPos(2, 8 - k);
    PowPos(2, k);
    PowAdd(2, 8 - k, k);
    Powers();
    MaskValues(k);
    DivMod(x, w);
    DivNonNeg(x, w);
    DivLt(x, w, Pow(2, k));
    T.BitwiseSplit(T.And, 8 - k, x % w, 0, x / w, Pow(2, k) - 1, x, BIT_MASK_LEFT[k]);
    WithZero(x % w);
    WithOnes(x / w, k);
  }

  /** The right mask keeps the k rightmost bits. */
  lemma {:induction false} MaskedRight(x: Byte, k: nat)
    requires k <= 8
    ensures 0 < Pow(2, k) && And(x, BIT_MASK_RIGHT[k]) == x % Pow(2, k)
  {
    var w := Pow(2, k);
    PowPos(2, k);
    MaskValues(k);
    DivMod(x, w);
    DivNonNeg(x, w);
    T.BitwiseSplit(T.And, k, x % w, w - 1, x / w, 0, x, w - 1);
    WithZero(x / w);
    WithOnes(x % w, k);
  }

  /** OR of bits that do not meet is a sum. */
  lemma {:induction false} OrAdds(x: Byte, y: Byte, k: nat, t: nat)
    requires x < Pow(2, k) && y == Pow(2, k) * t
    ensures Or(x, y) == x + y && Or(y, x) == x + y
  {
    PowPos(2, k);
    T.BitwiseSplit(T.Or, k, x, 0, 0, t, x, y);
    T.BitwiseSplit(T.Or, k, 0, x, t, 0, y, x);
    WithZero(x);
    WithZero(t);
  }

  /** One byte of a shift to the right: `r` comes in, the last m bits go out. */
  lemma {:induction false} ShiftedByte(x: Byte, m: nat, r: nat, carry: Byte)
    requires 1 <= m <= 7 && r < Pow(2, m) && carry == Pow(2, 8 - m) * r
    ensures 0 < Pow(2, m) && 0 <= x % Pow(2, m)
    ensures BitString(r, m) + BitString(x, 8) == BitString(Or(ShiftRight(x, m), carry), 8) + BitString(x % Pow(2, m), m)
    ensures ShiftLeft(x, 8 - m) == Pow(2, 8 - m) * (x % Pow(2, m))
  {
    hide BitString;
    var w, v := Pow(2, m), Pow(2, 8 - m);
    PowPos(2, m);
    PowPos(2, 8 - m);
    PowAdd(2, 8 - m, m);
    Powers();
    DivMod(x, w);
    DivNonNeg(x, w);
    DivLt(x, w, v);
    OrAdds(x / w, carry, 8 - m, r);
    ShiftedNumber(x, w, v, r);
    BitsConcat(m, r, x, 8);
    BitsConcat(8, x / w + v * r, x % w, m);
    LostBits(x, w, v);
  }

  lemma {:induction false} ShiftedNumber(x: int, w: int, v: int, r: int)
    requires 0 < w && v * w == 256
    ensures r * 256 + x == (x / w + v * r) * w + x % w
  {
    DivMod(x, w);
    Distribute(x / w, v * r, w);
    Assoc(v, r, w);
    Assoc(r, v, w);
  }

  lemma {:induction false} LostBits(x: int, w: int, v: int)
    requires 0 < w && 0 < v && v * w == 256
    ensures (x * v) % 256 == v * (x % w)
  {
    DivMod(x, w);
    var q, r := x / w, x % w;
    Distribute(q * w, r, v);
    Assoc(q, w, v);
    MulLt(r, w, v);
    MulNonNeg(r, v);
    DivModUnique(x * v, 256, q, v * r);
  }

  /** OR puts bits where there were zeros. */
  lemma {:induction false} FilledByte(y: Byte, l: Byte, k: nat)
    requires k <= 8 && l < Pow(2, k) && BitString(y, 8)[8 - k..] == BitString(0, k)
    ensures BitString(Or(y, l), 8) == BitString(y, 8)[..8 - k] + BitString(l, k)
  {
    hide BitString;
    var w := Pow(2, k);
    PowPos(2, k);
    DivMod(y, w);
    DivNonNeg(y, w);
    BitsConcat(8 - k, y / w, y % w, k);
    assert BitString(y, 8) == BitString(y / w, 8 - k) + BitString(y % w, k);
    assert BitString(y, 8)[8 - k..] == BitString(y % w, k);
    NumberOfBits(y % w, k);
    NumberOfBits(0, k);
    OrAdds(l, y, k, y / w);
    BitsConcat(8 - k, y / w, l, k);
  }

  /** The bits of a byte before and after a place. */
  lemma {:induction false} SplitByte(x: Byte, m: nat)
    requires m <= 8
    ensures 0 < Pow(2, 8 - m) && 0 <= x / Pow(2, 8 - m) && 0 <= x % Pow(2, 8 - m)
    ensures BitString(x, 8)[..m] == BitString(x / Pow(2, 8 - m), m)
    ensures BitString(x, 8)[m..] == BitString(x % Pow(2, 8 - m), 8 - m)
  {
    var w := Pow(2, 8 - m);
    PowPos(2, 8 - m);
    DivMod(x, w);
    DivNonNeg(x, w);
    BitsConcat(m, x / w, x % w, 8 - m);
  }
}
