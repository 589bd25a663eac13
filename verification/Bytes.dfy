/** Bytes and their exclusive or. */
module Bytes {
  import opened Arith
  import T = TwosComplement

  type Byte = n: int | 0 <= n < 256

  function Xor(x: Byte, y: Byte): Byte {
    assert Pow(2, 8) == 256;
    T.BitwiseRange(T.Xor, 8, x, y);
    T.Bitwise(T.Xor, x, y)
  }

  /** Bit `i` of a byte. */
  function Bit(x: Byte, i: nat): (b: int)
    ensures b == 0 || b == 1
    decreases i
  {
    if i == 0 then x % 2 else Bit(x / 2, i - 1)
  }

  lemma {:induction false} SameBit(x: Byte, i: nat)
    ensures Bit(x, i) == T.Bit(x, i)
    decreases i
  {
    if i == 0 {
      assert Pow(2, 0) == 1;
    } else {
      T.BitOfHalf(x, i);
      SameBit(x / 2, i - 1);
    }
  }

  /** The bits of an exclusive or add up modulo two. */
  lemma {:induction false} XorBit(x: Byte, y: Byte, i: nat)
    ensures (Bit(Xor(x, y), i) + Bit(x, i) + Bit(y, i)) % 2 == 0
  {
    T.BitsOfBitwise(T.Xor, x, y, i);
    SameBit(x, i);
    SameBit(y, i);
    SameBit(Xor(x, y), i);
  }

  /** Bytes with bits of the same parity are equal. */
  lemma {:induction false} SameByte(x: Byte, y: Byte)
    requires forall i: nat :: i < 8 ==> (Bit(x, i) + Bit(y, i)) % 2 == 0
    ensures x == y
  {
    assert Pow(2, 8) == 256;
    BitsDetermine(x, y, 8);
  }

  /** A number below 2^k is given by its bits below k. */
  lemma {:induction false} BitsDetermine(x: Byte, y: Byte, k: nat)
    requires x < Pow(2, k) && y < Pow(2, k)
    requires forall i: nat :: i < k ==> (Bit(x, i) + Bit(y, i)) % 2 == 0
    ensures x == y
  {
    if k != 0 {
      forall i: nat | i < k - 1
        ensures (Bit(x / 2, i) + Bit(y / 2, i)) % 2 == 0
      {
        assert (Bit(x, i + 1) + Bit(y, i + 1)) % 2 == 0;
      }
      BitsDetermine(x / 2, y / 2, k - 1);
      assert (Bit(x, 0) + Bit(y, 0)) % 2 == 0;
    }
  }

  /** The bits of a byte, lowest first. */
  type Bits = s: seq<int> | |s| == 8 && forall i :: 0 <= i < 8 ==> 0 <= s[i] <= 1 witness seq(8, _ => 0)

  function BitsOf(x: Byte): Bits {
    seq(8, i requires 0 <= i => Bit(x, i))
  }

  lemma {:induction false} SameBits(x: Byte, y: Byte)
    requires BitsOf(x) == BitsOf(y)
    ensures x == y
  {
    forall i: nat | i < 8
      ensures (Bit(x, i) + Bit(y, i)) % 2 == 0
    {
      assert BitsOf(x)[i] == BitsOf(y)[i];
    }
    SameByte(x, y);
  }

  /** Bit by bit, `z` is the sum of `x` and `y` modulo two. */
  ghost predicate Adds(z: Bits, x: Bits, y: Bits) {
    forall i :: 0 <= i < 8 ==> (z[i] + x[i] + y[i]) % 2 == 0
  }

  lemma {:induction false} XorAdds(x: Byte, y: Byte)
    ensures Adds(BitsOf(Xor(x, y)), BitsOf(x), BitsOf(y))
  {
    var z := BitsOf(Xor(x, y));
    forall i | 0 <= i < 8
      ensures (z[i] + BitsOf(x)[i] + BitsOf(y)[i]) % 2 == 0
    {
      XorBit(x, y, i);
    }
  }

  lemma {:induction false} XorAssoc(x: Byte, y: Byte, z: Byte)
    ensures Xor(Xor(x, y), z) == Xor(x, Xor(y, z))
  {
    hide Xor, Bit;
    var l, r := Xor(Xor(x, y), z), Xor(x, Xor(y, z));
    forall i: nat | i < 8
      ensures (Bit(l, i) + Bit(r, i)) % 2 == 0
    {
      XorBit(x, y, i);
      XorBit(Xor(x, y), z, i);
      XorBit(y, z, i);
      XorBit(x, Xor(y, z), i);
    }
    SameByte(l, r);
  }

  lemma {:induction false} ZeroBit(i: nat)
    ensures Bit(0, i) == 0
    decreases i
  {
    if i != 0 {
      ZeroBit(i - 1);
    }
  }

  lemma {:induction false} XorZero(x: Byte)
    ensures Xor(x, 0) == x && Xor(0, x) == x
  {
    var l, r := Xor(x, 0), Xor(0, x);
    forall i: nat | i < 8
      ensures (Bit(l, i) + Bit(x, i)) % 2 == 0 && (Bit(r, i) + Bit(x, i)) % 2 == 0
    {
      XorBit(x, 0, i);
      XorBit(0, x, i);
      ZeroBit(i);
    }
    SameByte(l, x);
    SameByte(r, x);
  }

  /** The same byte twice cancels. */
  lemma {:induction false} XorCancel(x: Byte, k: Byte)
    ensures Xor(Xor(x, k), k) == x
  {
    var l := Xor(Xor(x, k), k);
    forall i: nat | i < 8
      ensures (Bit(l, i) + Bit(x, i)) % 2 == 0
    {
      XorBit(x, k, i);
      XorBit(Xor(x, k), k, i);
    }
    SameByte(l, x);
  }
}
