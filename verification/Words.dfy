/** Words of 32 bits: the operations of C on them, and what the hash standards call them. */
module Words {
  import opened Arith
  import opened Bytes
  import T = TwosComplement

  const WORD: int := 0x1_0000_0000

  type Word = n: int | 0 <= n < 0x1_0000_0000

  // ----- C on words -----

  function Add(x: int, y: int): Word {
    (x + y) % WORD
  }

  function And(x: Word, y: Word): Word {
    WordRange(T.And, x, y);
    T.Bitwise(T.And, x, y)
  }

  function Or(x: Word, y: Word): Word {
    WordRange(T.Or, x, y);
    T.Bitwise(T.Or, x, y)
  }

  function Xor(x: Word, y: Word): Word {
    WordRange(T.Xor, x, y);
    T.Bitwise(T.Xor, x, y)
  }

  lemma {:induction false} WordRange(op: T.Operator, x: Word, y: Word)
    ensures 0 <= T.Bitwise(op, x, y) < WORD
  {
    WordPower();
    T.BitwiseRange(op, 32, x, y);
  }

  lemma {:induction false} WordPower()
    ensures Pow(2, 32) == WORD
  {
    assert Pow(2, 8) == 256;
    PowAdd(2, 8, 8);
    PowAdd(2, 16, 16);
  }

  function ShiftRight(x: Word, k: nat): Word {
    PowPos(2, k);
    DivNonNeg(x, Pow(2, k));
    x / Pow(2, k)
  }

  function ShiftLeft(x: Word, k: nat): Word {
    (x * Pow(2, k)) % WORD
  }

  /** Rotations as the code writes them. */
  function RotatedLeft(x: Word, n: nat): Word
    requires n <= 32
  {
    Or(ShiftLeft(x, n), ShiftRight(x, 32 - n))
  }

  function RotatedRight(x: Word, n: nat): Word
    requires n <= 32
  {
    Or(ShiftRight(x, n), ShiftLeft(x, 32 - n))
  }

  // ----- sections 3.2 and 4.1 of FIPS 180-4 -----

  /** The k lowest bits become the highest. */
  function RotR(x: Word, k: nat): Word
    requires k <= 32
  {
    RotRange(x, k);
    x / Pow(2, k) + (x % Pow(2, k)) * Pow(2, 32 - k)
  }

  lemma {:induction false} RotRange(x: Word, k: nat)
    requires k <= 32
    ensures 0 < Pow(2, k) && 0 <= x / Pow(2, k) + (x % Pow(2, k)) * Pow(2, 32 - k) < WORD
  {
    var w, v := Pow(2, k), Pow(2, 32 - k);
    PowPos(2, k);
    PowPos(2, 32 - k);
    PowAdd(2, 32 - k, k);
    WordPower();
    DivNonNeg(x, w);
    DivLt(x, w, v);
    MulNonNeg(x % w, v);
    MulLe(x % w, w - 1, v);
    Distribute(w, 1, v);
  }

  /** The k highest bits become the lowest. */
  function RotL(x: Word, k: nat): Word
    requires k <= 32
  {
    RotR(x, 32 - k)
  }

  /** The two shifts of a rotation do not meet. */
  lemma {:induction false} RotatedIs(x: Word, k: nat)
    requires k <= 32
    ensures RotatedRight(x, k) == RotR(x, k) && RotatedLeft(x, 32 - k) == RotR(x, k)
  {
    var w, v := Pow(2, k), Pow(2, 32 - k);
    PowPos(2, k);
    PowPos(2, 32 - k);
    PowAdd(2, 32 - k, k);
    WordPower();
    DivMod(x, w);
    DivNonNeg(x, w);
    DivLt(x, w, v);
    LostBits(x, w, v);
    DisjointOr(x / w, x % w, 32 - k);
  }

  lemma {:induction false} LostBits(x: int, w: int, v: int)
    requires 0 < w && 0 < v && v * w == WORD
    ensures (x * v) % WORD == (x % w) * v
  {
    DivMod(x, w);
    var q, r := x / w, x % w;
    Distribute(q * w, r, v);
    Assoc(q, w, v);
    MulLt(r, w, v);
    MulNonNeg(r, v);
    DivModUnique(x * v, WORD, q, r * v);
  }

  /** OR of bits that do not meet is a sum. */
  lemma {:induction false} DisjointOr(x: nat, t: nat, k: nat)
    requires x < Pow(2, k)
    ensures T.Bitwise(T.Or, t * Pow(2, k), x) == x + t * Pow(2, k)
    ensures T.Bitwise(T.Or, x, t * Pow(2, k)) == x + t * Pow(2, k)
  {
    PowPos(2, k);
    T.BitwiseSplit(T.Or, k, 0, x, t, 0, t * Pow(2, k), x);
    T.BitwiseSplit(T.Or, k, x, 0, 0, t, x, t * Pow(2, k));
    OrZero(x);
    OrZero(t);
  }

  lemma {:induction false} OrZero(x: nat)
    ensures T.Bitwise(T.Or, x, 0) == x && T.Bitwise(T.Or, 0, x) == x
    decreases x
  {
    if x != 0 {
      OrZero(x / 2);
      T.BitwiseStep(T.Or, x, 0);
      T.BitwiseStep(T.Or, 0, x);
    }
  }

  /** Choose: where x has a one the bit of y, elsewhere that of z. */
  function Ch(x: Word, y: Word, z: Word): Word {
    Xor(And(x, y), And(WORD - 1 - x, z))
  }

  function Parity(x: Word, y: Word, z: Word): Word {
    Xor(Xor(x, y), z)
  }

  /** Majority. */
  function Maj(x: Word, y: Word, z: Word): Word {
    Xor(Xor(And(x, y), And(x, z)), And(y, z))
  }

  /** Choose with three operations. */
  function ShortCh(x: Word, y: Word, z: Word): Word {
    Xor(z, And(x, Xor(y, z)))
  }

  /** Majority with four operations. */
  function ShortMaj(x: Word, y: Word, z: Word): Word {
    Or(And(x, y), And(z, Or(x, y)))
  }

  lemma {:induction false} ShortChIs(x: Word, y: Word, z: Word)
    ensures ShortCh(x, y, z) == Ch(x, y, z)
  {
    WordPower();
    ChBits(x, y, z, 32);
  }

  lemma {:induction false} ChBits(x: nat, y: nat, z: nat, k: nat)
    requires x < Pow(2, k) && y < Pow(2, k) && z < Pow(2, k)
    ensures T.Bitwise(T.Xor, z, T.Bitwise(T.And, x, T.Bitwise(T.Xor, y, z)))
            == T.Bitwise(T.Xor, T.Bitwise(T.And, x, y), T.Bitwise(T.And, Pow(2, k) - 1 - x, z))
    decreases k
  {
    hide T.Bitwise;
    if k == 0 {
      BothZero();
    } else {
      var n := Pow(2, k) - 1 - x;
      ChBits(x / 2, y / 2, z / 2, k - 1);
      assert n / 2 == Pow(2, k - 1) - 1 - x / 2 && n % 2 == 1 - x % 2;
      HalfAndLast(T.Xor, y, z);
      HalfAndLast(T.And, x, T.Bitwise(T.Xor, y, z));
      HalfAndLast(T.Xor, z, T.Bitwise(T.And, x, T.Bitwise(T.Xor, y, z)));
      HalfAndLast(T.And, x, y);
      HalfAndLast(T.And, n, z);
      HalfAndLast(T.Xor, T.Bitwise(T.And, x, y), T.Bitwise(T.And, n, z));
    }
  }

  lemma {:induction false} BothZero()
    ensures T.Bitwise(T.And, 0, 0) == 0 && T.Bitwise(T.Or, 0, 0) == 0 && T.Bitwise(T.Xor, 0, 0) == 0
  {
  }

  lemma {:induction false} HalfAndLast(op: T.Operator, a: int, b: int)
    ensures T.Bitwise(op, a, b) / 2 == T.Bitwise(op, a / 2, b / 2) && T.Bitwise(op, a, b) % 2 == op.OnBits(a % 2, b % 2)
  {
    T.BitwiseStep(op, a, b);
  }

  lemma {:induction false} ShortMajIs(x: Word, y: Word, z: Word)
    ensures ShortMaj(x, y, z) == Maj(x, y, z)
  {
    MajBits(x, y, z);
  }

  lemma {:induction false} MajBits(x: nat, y: nat, z: nat)
    ensures T.Bitwise(T.Or, T.Bitwise(T.And, x, y), T.Bitwise(T.And, z, T.Bitwise(T.Or, x, y)))
            == T.Bitwise(T.Xor, T.Bitwise(T.Xor, T.Bitwise(T.And, x, y), T.Bitwise(T.And, x, z)), T.Bitwise(T.And, y, z))
    decreases x + y + z
  {
    hide T.Bitwise;
    if x + y + z == 0 {
      BothZero();
    } else {
      MajBits(x / 2, y / 2, z / 2);
      var xy, xz, yz, o := T.Bitwise(T.And, x, y), T.Bitwise(T.And, x, z), T.Bitwise(T.And, y, z), T.Bitwise(T.Or, x, y);
      HalfAndLast(T.And, x, y);
      HalfAndLast(T.And, x, z);
      HalfAndLast(T.And, y, z);
      HalfAndLast(T.Or, x, y);
      HalfAndLast(T.And, z, o);
      HalfAndLast(T.Or, xy, T.Bitwise(T.And, z, o));
      HalfAndLast(T.Xor, xy, xz);
      HalfAndLast(T.Xor, T.Bitwise(T.Xor, xy, xz), yz);
    }
  }

  // ----- what the operations mean, bit by bit -----

  /** Bits of two numbers, one above the other. */
  lemma {:induction false} BitOfJoin(x: nat, t: nat, m: nat, i: nat)
    requires x < Pow(2, m)
    ensures T.Bit(x + t * Pow(2, m), i) == if i < m then T.Bit(x, i) else T.Bit(t, i - m)
    decreases i
  {
    if m == 0 {
      assert Pow(2, 0) == 1;
    } else {
      var w := Pow(2, m - 1);
      Assoc(t, 2, w);
      Assoc(2, t, w);
      var n := x + t * (2 * w);
      assert n == x + 2 * (t * w);
      assert n / 2 == x / 2 + t * w && n % 2 == x % 2;
      if i == 0 {
        assert Pow(2, 0) == 1;
      } else {
        T.BitOfHalf(n, i);
        T.BitOfHalf(x, i);
        BitOfJoin(x / 2, t, m - 1, i - 1);
      }
    }
  }

  /** A shift to the right, and what is cut off. */
  lemma {:induction false} BitOfCut(x: nat, k: nat, i: nat)
    ensures 0 < Pow(2, k)
    ensures T.Bit(x / Pow(2, k), i) == T.Bit(x, i + k)
    ensures i < k ==> T.Bit(x % Pow(2, k), i) == T.Bit(x, i)
  {
    PowPos(2, k);
    DivMod(x, Pow(2, k));
    DivNonNeg(x, Pow(2, k));
    BitOfJoin(x % Pow(2, k), x / Pow(2, k), k, i + k);
    BitOfJoin(x % Pow(2, k), x / Pow(2, k), k, i);
  }

  /** Bits move down, and those that fall out come back at the top. */
  lemma {:induction false} RotRBit(x: Word, k: nat, i: nat)
    requires k <= 32 && i < 32
    ensures T.Bit(RotR(x, k), i) == T.Bit(x, (i + k) % 32)
    ensures T.Bit(RotL(x, k), (i + k) % 32) == T.Bit(x, i)
  {
    hide T.Bit, RotR;
    RotRBitBelow(x, k, i);
    RotRBitBelow(x, 32 - k, (i + k) % 32);
    assert ((i + k) % 32 + (32 - k)) % 32 == i;
  }

  lemma {:induction false} RotRBitBelow(x: Word, k: nat, i: nat)
    requires k <= 32 && i < 32
    ensures T.Bit(RotR(x, k), i) == T.Bit(x, (i + k) % 32)
  {
    hide T.Bit, Pow;
    PowPos(2, k);
    PowAdd(2, 32 - k, k);
    WordPower();
    DivNonNeg(x, Pow(2, k));
    DivLt(x, Pow(2, k), Pow(2, 32 - k));
    BitOfJoin(x / Pow(2, k), x % Pow(2, k), 32 - k, i);
    if i < 32 - k {
      BitOfCut(x, k, i);
    } else {
      BitOfCut(x, k, i + k - 32);
    }
  }

  lemma {:induction false} ChBit(x: Word, y: Word, z: Word, i: nat)
    ensures T.Bit(Ch(x, y, z), i) == if T.Bit(x, i) == 1 then T.Bit(y, i) else T.Bit(z, i)
  {
    hide T.Bitwise, T.Bit, Ch;
    ShortChIs(x, y, z);
    T.BitsInNumbers(T.Xor, y, z, i);
    T.BitsInNumbers(T.And, x, Xor(y, z), i);
    T.BitsInNumbers(T.Xor, z, And(x, Xor(y, z)), i);
    T.BitIsBit(x, i);
    T.BitIsBit(y, i);
    T.BitIsBit(z, i);
  }

  lemma {:induction false} ParityBit(x: Word, y: Word, z: Word, i: nat)
    ensures T.Bit(Parity(x, y, z), i) == (T.Bit(x, i) + T.Bit(y, i) + T.Bit(z, i)) % 2
  {
    hide T.Bitwise, T.Bit;
    T.BitsInNumbers(T.Xor, x, y, i);
    T.BitsInNumbers(T.Xor, Xor(x, y), z, i);
  }

  lemma {:induction false} MajBit(x: Word, y: Word, z: Word, i: nat)
    ensures T.Bit(Maj(x, y, z), i) == (T.Bit(x, i) + T.Bit(y, i) + T.Bit(z, i)) / 2
  {
    hide T.Bitwise, T.Bit;
    T.BitsInNumbers(T.And, x, y, i);
    T.BitsInNumbers(T.And, x, z, i);
    T.BitsInNumbers(T.And, y, z, i);
    T.BitsInNumbers(T.Xor, And(x, y), And(x, z), i);
    T.BitsInNumbers(T.Xor, Xor(And(x, y), And(x, z)), And(y, z), i);
    T.BitIsBit(x, i);
    T.BitIsBit(y, i);
    T.BitIsBit(z, i);
  }

  // ----- sums, cut once -----

  /** The remainder modulo 2^32. */
  function Cut(n: int): Word {
    n % 0x1_0000_0000
  }

  lemma {:induction false} FourSum(a: int, b: int, c: int, d: int)
    ensures Add(Add(Add(a, b), c), d) == Cut(a + b + c + d)
  {
    ModSum(a + b, c);
    ModSum(a + b + c, d);
  }

  lemma {:induction false} ModSum(a: int, b: int)
    ensures (a % WORD + b) % WORD == (a + b) % WORD && (b + a % WORD) % WORD == (b + a) % WORD
  {
  }

  lemma {:induction false} FiveSum(a: int, b: int, c: int, d: int, e: int)
    ensures Add(Add(Add(Add(a, b), c), d), e) == Cut(a + b + c + d + e)
  {
    FourSum(a, b, c, d);
    ModSum(a + b + c + d, e);
  }

  // ----- words and bytes -----

  /** Four bytes as a number, the highest first. */
  function BigEndian(a: int, b: int, c: int, d: int): int {
    ((a * 256 + b) * 256 + c) * 256 + d
  }

  /** The bytes of a word, most significant first. */
  function WordBytes(n: Word): (s: seq<Byte>)
    ensures |s| == 4
  {
    [(n / 0x1000000) % 256, (n / 0x10000) % 256, (n / 0x100) % 256, n % 256]
  }

  function WordAt(s: seq<Byte>, i: nat): Word
    requires i + 4 <= |s|
  {
    var a: int, b: int, c: int, d: int := s[i], s[i + 1], s[i + 2], s[i + 3];
    a * 0x1000000 + b * 0x10000 + c * 0x100 + d
  }

  lemma {:induction false} WordOfBytes(n: Word)
    ensures WordAt(WordBytes(n), 0) == n
  {
    var a, b, c := n / 0x100, n / 0x10000, n / 0x1000000;
    assert a / 0x100 == b && b / 0x100 == c;
  }
}
