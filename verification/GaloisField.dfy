/** Multiplication in GF(2^8), and the column mix with its inverse. */
module GaloisField {
  import opened Arith
  import opened Bytes
  import ModulusShape
  import P = Polynomials
  import T = TwosComplement

  /** Multiplication by x: shift, and fold the bit that falls out. */
  function Xtime(x: Byte): Byte {
    Xor((2 * x) % 256, (x / 128) * 0x1b)
  }

  /** The bits of 0x1b. */
  predicate Folds(i: nat) {
    i == 0 || i == 1 || i == 3 || i == 4
  }

  lemma {:induction false} ShiftedBit(x: Byte, i: nat)
    requires i < 8
    ensures Bit((2 * x) % 256, i) == if i == 0 then 0 else Bit(x, i - 1)
  {
    assert Pow(2, 7) == 128;
    if i != 0 {
      assert ((2 * x) % 256) / 2 == x % 128;
      LowBitKept(x, i - 1, 7);
    }
  }

  lemma {:induction false} LowBitKept(x: Byte, i: nat, k: nat)
    requires i < k
    ensures 0 < Pow(2, k) && 0 <= x % Pow(2, k) < 256 && Bit(x % Pow(2, k), i) == Bit(x, i)
    decreases i
  {
    PowPos(2, k);
    DivMod(x, Pow(2, k));
    DivNonNeg(x, Pow(2, k));
    MulNonNeg(x / Pow(2, k), Pow(2, k));
    HalfOfRemainder(x, k);
    if i != 0 {
      LowBitKept(x / 2, i - 1, k - 1);
    }
  }

  lemma {:induction false} HalfOfRemainder(x: nat, k: nat)
    requires 0 < k
    ensures 0 < Pow(2, k) && 0 < Pow(2, k - 1)
    ensures (x % Pow(2, k)) / 2 == (x / 2) % Pow(2, k - 1) && (x % Pow(2, k)) % 2 == x % 2
  {
    PowPos(2, k - 1);
    var w := Pow(2, k - 1);
    var q, r := (x / 2) / w, (x / 2) % w;
    DivMod(x / 2, w);
    Assoc(q, 2, w);
    Assoc(2, q, w);
    DivModUnique(x, 2 * w, q, 2 * r + x % 2);
  }

  lemma {:induction false} TopBit(x: Byte, k: nat)
    requires x < 2 * Pow(2, k)
    ensures 0 < Pow(2, k) && Bit(x, k) == x / Pow(2, k)
    decreases k
  {
    PowPos(2, k);
    if k != 0 {
      TopBit(x / 2, k - 1);
      PowPos(2, k - 1);
      ModulusShape.DivDiv(x, 2, Pow(2, k - 1));
    }
  }

  lemma {:induction false} FoldBit(x: Byte, i: nat)
    requires i < 8
    ensures 0 <= (x / 128) * 0x1b < 256
    ensures Bit((x / 128) * 0x1b, i) == if Folds(i) then Bit(x, 7) else 0
  {
    assert Pow(2, 7) == 128;
    ZeroBit(i);
    TopBit(x, 7);
    assert i == 0 || i == 1 || i == 2 || i == 3 || i == 4 || i == 5 || i == 6 || i == 7;
  }

  lemma {:induction false} XtimeBit(x: Byte, i: nat)
    requires i < 8
    ensures (Bit(Xtime(x), i) + (if i == 0 then 0 else Bit(x, i - 1)) + (if Folds(i) then Bit(x, 7) else 0)) % 2 == 0
  {
    ShiftedBit(x, i);
    FoldBit(x, i);
    XorBit((2 * x) % 256, (x / 128) * 0x1b, i);
  }

  // ----- products -----

  /** The product in the field, by the bits of `a` from the lowest up. */
  function Product(a: Byte, b: Byte): Byte
    decreases a
  {
    if a == 0 then 0 else Xor(if a % 2 == 1 then b else 0, Product(a / 2, Xtime(b)))
  }

  // ----- what the product is -----

  lemma {:induction false} SumOfBytes(x: Byte, y: Byte)
    ensures Xor(x, y) == P.Add(x, y)
  {
  }

  /** Multiplication by x before the fold differs by a multiple of the modulus. */
  lemma {:induction false} XtimeFolds(b: Byte)
    ensures 2 * b == P.Add(Xtime(b), P.Times(b / 128, P.MODULUS))
  {
    hide P.Add, P.Times, T.Bitwise, Xor;
    var u, t := (2 * b) % 256, b / 128;
    SumOfBytes(u, t * 0x1b);
    OneBitTimes(t);
    FoldedSum(u, t * 0x1b, t);
    P.AddCancels(2 * b, t * 0x1b + 256 * t);
  }

  lemma {:induction false} OneBitTimes(t: nat)
    requires t <= 1
    ensures P.Times(t, P.MODULUS) == t * 0x1b + 256 * t
  {
    hide P.Times;
    P.ZeroTimes(P.MODULUS);
    P.TimesOne(P.MODULUS);
    P.TimesCommutes(1, P.MODULUS);
  }

  lemma {:induction false} FoldedSum(u: nat, f: nat, t: nat)
    requires u < 256 && f < 256
    ensures P.Add(u + 256 * t, f + 256 * t) == P.Add(u, f)
  {
    hide T.Bitwise;
    P.PowerOfNine();
    T.BitwiseSplit(T.Xor, 8, u, f, t, t, u + 256 * t, f + 256 * t);
    P.AddSelf(t);
  }

  /** The product differs from the product of polynomials by a multiple of the
      modulus; `q` is the quotient. */
  lemma {:induction false} ProductDiffers(a: Byte, b: Byte) returns (q: nat)
    ensures P.Differs(Product(a, b), P.Times(a, b), q)
    decreases a
  {
    hide P.Add, P.Times, Xtime, Xor;
    if a == 0 {
      q := 0;
      P.ZeroTimes(b);
      P.ZeroTimes(P.MODULUS);
      P.AddNothing();
    } else {
      var p := ProductDiffers(a / 2, Xtime(b));
      q := P.Add(p, P.Times(a / 2, b / 128));
      OneMoreBit(a, b, p);
    }
  }

  lemma {:induction false} OneMoreBit(a: Byte, b: Byte, p: nat)
    requires P.Differs(Product(a / 2, Xtime(b)), P.Times(a / 2, Xtime(b)), p)
    ensures P.Differs(Product(a, b), P.Times(a, b), P.Add(p, P.Times(a / 2, b / 128)))
  {
    hide P.Add, P.Times, Xtime, Xor, Product;
    var h, x, t := a / 2, Xtime(b), b / 128;
    var low, rest, w := P.Lowest(a, b), Product(h, x), P.Times(h, t);
    var u, v := P.Times(p, P.MODULUS), P.Times(w, P.MODULUS);
    ProductStep(a, b);
    SumOfBytes(low, rest);
    P.TimesStep(a, b);
    P.TimesDouble(h, b);
    XtimeFolds(b);
    P.TimesSum(h, x, P.Times(t, P.MODULUS));
    BitInFront(h, t);
    P.AddAssociates(rest, u, v);
    P.AddAssociates(low, rest, P.Add(u, v));
    P.SumTimes(p, w, P.MODULUS);
  }

  lemma {:induction false} BitInFront(h: nat, t: nat)
    requires t <= 1
    ensures P.Times(h, P.Times(t, P.MODULUS)) == P.Times(P.Times(h, t), P.MODULUS)
  {
    hide P.Times;
    P.TimesOne(h);
    P.ZeroTimes(P.MODULUS);
    OneBitTimes(t);
  }

  /** The product in the field is the one remainder of the product of polynomials. */
  lemma {:induction false} ProductIff(a: Byte, b: Byte, r: nat)
    ensures r == Product(a, b) <==> P.IsRemainder(r, P.Times(a, b))
  {
    var q := ProductDiffers(a, b);
    if P.IsRemainder(r, P.Times(a, b)) {
      P.RemainderUnique(r, Product(a, b), P.Times(a, b));
    }
  }

  lemma {:induction false} ProductCommutes(a: Byte, b: Byte)
    ensures Product(a, b) == Product(b, a)
  {
    P.TimesCommutes(a, b);
    ProductIff(a, b, Product(b, a));
    ProductIff(b, a, Product(b, a));
  }

  lemma {:induction false} ProductDistributes(a: Byte, b: Byte, c: Byte)
    ensures Product(a, Xor(b, c)) == Xor(Product(a, b), Product(a, c))
  {
    hide P.Add, P.Times, Xor, Product;
    var p := ProductDiffers(a, b);
    var q := ProductDiffers(a, c);
    var r := Xor(Product(a, b), Product(a, c));
    SumOfBytes(b, c);
    SumOfBytes(Product(a, b), Product(a, c));
    P.TimesSum(a, b, c);
    P.AddExchange(Product(a, b), P.Times(p, P.MODULUS), Product(a, c), P.Times(q, P.MODULUS));
    P.SumTimes(p, q, P.MODULUS);
    assert P.Differs(r, P.Times(a, Xor(b, c)), P.Add(p, q));
    ProductIff(a, Xor(b, c), r);
  }

  /** Multiplication bit by bit, always eight of them. */
  method GfMult(a0: Byte, b: Byte) returns (c: Byte)
    ensures c == Product(a0, b) && P.IsRemainder(c, P.Times(a0, b))
  {
    ProductIff(a0, b, Product(a0, b));
    var a: Byte, d: Byte := a0, b;
    c := 0;
    XorZero(Product(a, d));
    assert Pow(2, 8) == 256;
    for i := 0 to 8
      invariant a < Pow(2, 8 - i) && Xor(c, Product(a, d)) == Product(a0, b)
    {
      MultiplyStep(c, a, d, Product(a0, b));
      HalvedBound(a, 8 - i);
      if a % 2 == 1 {
        c := Xor(c, d);
      }
      a := a / 2;
      d := Xtime(d);
    }
    XorZero(c);
  }

  lemma {:induction false} HalvedBound(a: nat, m: nat)
    requires 0 < m && a < Pow(2, m)
    ensures a / 2 < Pow(2, m - 1)
  {
  }

  lemma {:induction false} MultiplyStep(c: Byte, a: Byte, d: Byte, total: Byte)
    requires Xor(c, Product(a, d)) == total
    ensures Xor(if a % 2 == 1 then Xor(c, d) else c, Product(a / 2, Xtime(d))) == total
  {
    var rest := Product(a / 2, Xtime(d));
    ProductStep(a, d);
    XorAssoc(c, d, rest);
    XorZero(rest);
  }

  lemma {:induction false} ProductStep(a: Byte, b: Byte)
    ensures Product(a, b) == Xor(if a % 2 == 1 then b else 0, Product(a / 2, Xtime(b)))
  {
    if a == 0 {
      XorZero(0);
    }
  }

  lemma {:induction false} SmallProducts(x: Byte)
    ensures Product(1, x) == x && Product(2, x) == Xtime(x) && Product(3, x) == Xor(x, Xtime(x))
  {
    XorZero(x);
    XorZero(Xtime(x));
    assert Product(0, Xtime(x)) == 0 && Product(0, Xtime(Xtime(x))) == 0;
    assert Product(1, x) == Xor(x, Product(0, Xtime(x)));
    assert Product(1, Xtime(x)) == Xor(Xtime(x), Product(0, Xtime(Xtime(x))));
    assert Product(2, x) == Xor(0, Product(1, Xtime(x)));
    assert Product(3, x) == Xor(x, Product(1, Xtime(x)));
  }

  /** The products with the coefficients of the inverse, by the multiples of x. */
  lemma {:induction false} LargeProducts(x: Byte)
    ensures var x1 := Xtime(x); var x2 := Xtime(x1); var x3 := Xtime(x2);
      && Product(0x0e, x) == Xor(x1, Xor(x2, x3)) && Product(0x0b, x) == Xor(x, Xor(x1, x3))
      && Product(0x0d, x) == Xor(x, Xor(x2, x3)) && Product(0x09, x) == Xor(x, x3)
  {
    var x1 := Xtime(x);
    var x2 := Xtime(x1);
    var x3 := Xtime(x2);
    SmallProducts(x2);
    XorZero(x3);
    XorZero(Xor(x2, x3));
    XorZero(Xor(x1, Xor(x2, x3)));
    ProductStep(4, x1);
    ProductStep(5, x1);
    ProductStep(6, x1);
    ProductStep(7, x1);
    ProductStep(0x0e, x);
    ProductStep(0x0b, x);
    ProductStep(0x0d, x);
    ProductStep(0x09, x);
  }

  // ----- sums, bit by bit -----

  /** `t` is the sum of five bytes. */
  ghost predicate Sum5(t: Bits, p: Bits, q: Bits, r: Bits, s: Bits, u: Bits) {
    forall i :: 0 <= i < 8 ==> (t[i] + p[i] + q[i] + r[i] + s[i] + u[i]) % 2 == 0
  }

  /** The bit that comes to place `i` when a byte is shifted. */
  function Below(x: Bits, i: int): int
    requires 0 <= i < 8
  {
    if i == 0 then 0 else x[i - 1]
  }

  /** The bits of `y` are those of x times the byte. */
  ghost predicate IsXtime(x: Bits, y: Bits) {
    forall i :: 0 <= i < 8 ==> (y[i] + Below(x, i) + (if Folds(i) then x[7] else 0)) % 2 == 0
  }

  lemma {:induction false} XtimeBits(x: Byte)
    ensures IsXtime(BitsOf(x), BitsOf(Xtime(x)))
  {
    var y := BitsOf(Xtime(x));
    forall i | 0 <= i < 8
      ensures (y[i] + Below(BitsOf(x), i) + (if Folds(i) then BitsOf(x)[7] else 0)) % 2 == 0
    {
      XtimeBit(x, i);
    }
  }

  /** Multiplication by x keeps sums. */
  lemma {:induction false} XtimeSum(t: Bits, p: Bits, q: Bits, r: Bits, s: Bits, u: Bits,
      t': Bits, p': Bits, q': Bits, r': Bits, s': Bits, u': Bits)
    requires IsXtime(t, t') && IsXtime(p, p') && IsXtime(q, q') && IsXtime(r, r') && IsXtime(s, s') && IsXtime(u, u')
    requires Sum5(t, p, q, r, s, u)
    ensures Sum5(t', p', q', r', s', u')
  {
    forall i | 0 <= i < 8
      ensures (t'[i] + p'[i] + q'[i] + r'[i] + s'[i] + u'[i]) % 2 == 0
    {
      var f := if Folds(i) then 1 else 0;
      assert (t[7] + p[7] + q[7] + r[7] + s[7] + u[7]) % 2 == 0;
      assert i != 0 ==> (t[i - 1] + p[i - 1] + q[i - 1] + r[i - 1] + s[i - 1] + u[i - 1]) % 2 == 0;
      AddColumns(t'[i], Below(t, i), f * t[7], p'[i], Below(p, i), f * p[7], q'[i], Below(q, i), f * q[7],
                 r'[i], Below(r, i), f * r[7], s'[i], Below(s, i), f * s[7], u'[i], Below(u, i), f * u[7]);
    }
  }

  lemma {:induction false} AddColumns(a: int, b: int, c: int, d: int, e: int, f: int, g: int, h: int, i: int,
      j: int, k: int, l: int, m: int, n: int, o: int, p: int, q: int, r: int)
    requires (a + b + c) % 2 == 0 && (d + e + f) % 2 == 0 && (g + h + i) % 2 == 0
    requires (j + k + l) % 2 == 0 && (m + n + o) % 2 == 0 && (p + q + r) % 2 == 0
    requires (b + e + h + k + n + q) % 2 == 0 && (c + f + i + l + o + r) % 2 == 0
    ensures (a + d + g + j + m + p) % 2 == 0
  {
  }

  // ----- columns -----

  type Column = c: seq<Byte> | |c| == 4 witness [0, 0, 0, 0]

  const MIX: Column := [0x02, 0x01, 0x01, 0x03]
  const INV_MIX: Column := [0x0e, 0x09, 0x0d, 0x0b]

  function Sum4(p: Byte, q: Byte, r: Byte, s: Byte): Byte {
    Xor(Xor(Xor(p, q), r), s)
  }

  /** The product of a column with the circulant matrix of `a`. */
  function CoefMult(a: Column, b: Column): Column {
    [ Sum4(Product(a[0], b[0]), Product(a[3], b[1]), Product(a[2], b[2]), Product(a[1], b[3])),
      Sum4(Product(a[1], b[0]), Product(a[0], b[1]), Product(a[3], b[2]), Product(a[2], b[3])),
      Sum4(Product(a[2], b[0]), Product(a[1], b[1]), Product(a[0], b[2]), Product(a[3], b[3])),
      Sum4(Product(a[3], b[0]), Product(a[2], b[1]), Product(a[1], b[2]), Product(a[0], b[3]))]
  }

  /** `t` is the sum of four bytes. */
  ghost predicate AddsFour(t: Bits, p: Bits, q: Bits, r: Bits, s: Bits) {
    forall i :: 0 <= i < 8 ==> (t[i] + p[i] + q[i] + r[i] + s[i]) % 2 == 0
  }

  lemma {:induction false} Sum4Adds(p: Byte, q: Byte, r: Byte, s: Byte)
    ensures AddsFour(BitsOf(Sum4(p, q, r, s)), BitsOf(p), BitsOf(q), BitsOf(r), BitsOf(s))
  {
    XorAdds(p, q);
    XorAdds(Xor(p, q), r);
    XorAdds(Xor(Xor(p, q), r), s);
    AddsChain(BitsOf(p), BitsOf(q), BitsOf(r), BitsOf(s), BitsOf(Xor(p, q)), BitsOf(Xor(Xor(p, q), r)), BitsOf(Sum4(p, q, r, s)));
  }

  lemma {:induction false} AddsChain(p: Bits, q: Bits, r: Bits, s: Bits, x: Bits, y: Bits, z: Bits)
    requires Adds(x, p, q) && Adds(y, x, r) && Adds(z, y, s)
    ensures AddsFour(z, p, q, r, s)
  {
    forall i | 0 <= i < 8
      ensures (z[i] + p[i] + q[i] + r[i] + s[i]) % 2 == 0
    {
      assert (x[i] + p[i] + q[i]) % 2 == 0 && (y[i] + x[i] + r[i]) % 2 == 0 && (z[i] + y[i] + s[i]) % 2 == 0;
    }
  }

  /** A sum of four where one term is a sum itself. */
  lemma {:induction false} SumOfSum(t: Bits, p: Bits, q: Bits, a: Bits, b: Bits, c: Bits, d: Bits)
    requires AddsFour(t, p, q, c, d) && Adds(q, a, b)
    ensures Sum5(t, p, a, b, c, d)
  {
    forall i | 0 <= i < 8
      ensures (t[i] + p[i] + a[i] + b[i] + c[i] + d[i]) % 2 == 0
    {
      assert (t[i] + p[i] + q[i] + c[i] + d[i]) % 2 == 0 && (q[i] + a[i] + b[i]) % 2 == 0;
    }
  }

  // ----- the mixed column -----

  /** The first byte of the mix of a column that starts with `x`. */
  ghost predicate IsMixed(t: Byte, x: Byte, y: Byte, z: Byte, u: Byte) {
    Sum5(BitsOf(t), BitsOf(Xtime(x)), BitsOf(y), BitsOf(Xtime(y)), BitsOf(z), BitsOf(u))
  }

  lemma {:induction false} MixedFromSum(t: Byte, x: Byte, y: Byte, z: Byte, u: Byte)
    requires AddsFour(BitsOf(t), BitsOf(Xtime(x)), BitsOf(Xor(y, Xtime(y))), BitsOf(z), BitsOf(u))
    ensures IsMixed(t, x, y, z, u)
  {
    XorAdds(y, Xtime(y));
    SumOfSum(BitsOf(t), BitsOf(Xtime(x)), BitsOf(Xor(y, Xtime(y))), BitsOf(y), BitsOf(Xtime(y)), BitsOf(z), BitsOf(u));
  }

  /** A sum of four bytes, taken from the second on. */
  lemma {:induction false} TurnAdds(t: Bits, p: Bits, q: Bits, r: Bits, s: Bits)
    requires AddsFour(t, p, q, r, s)
    ensures AddsFour(t, q, r, s, p)
  {
    forall i | 0 <= i < 8
      ensures (t[i] + q[i] + r[i] + s[i] + p[i]) % 2 == 0
    {
      assert (t[i] + p[i] + q[i] + r[i] + s[i]) % 2 == 0;
    }
  }

  /** The terms of the sum in the order of the byte that leads. */
  lemma {:induction false} SumFrom(p: Byte, q: Byte, r: Byte, s: Byte)
    ensures var t := BitsOf(Sum4(p, q, r, s));
      && AddsFour(t, BitsOf(p), BitsOf(q), BitsOf(r), BitsOf(s)) && AddsFour(t, BitsOf(q), BitsOf(r), BitsOf(s), BitsOf(p))
      && AddsFour(t, BitsOf(r), BitsOf(s), BitsOf(p), BitsOf(q)) && AddsFour(t, BitsOf(s), BitsOf(p), BitsOf(q), BitsOf(r))
  {
    var t := BitsOf(Sum4(p, q, r, s));
    Sum4Adds(p, q, r, s);
    TurnAdds(t, BitsOf(p), BitsOf(q), BitsOf(r), BitsOf(s));
    TurnAdds(t, BitsOf(q), BitsOf(r), BitsOf(s), BitsOf(p));
    TurnAdds(t, BitsOf(r), BitsOf(s), BitsOf(p), BitsOf(q));
  }

  /** A mixed column, without the products by 1, 2 and 3. */
  function Mixed(b: Column): Column {
    [ Sum4(Xtime(b[0]), Xor(b[1], Xtime(b[1])), b[2], b[3]),
      Sum4(b[0], Xtime(b[1]), Xor(b[2], Xtime(b[2])), b[3]),
      Sum4(b[0], b[1], Xtime(b[2]), Xor(b[3], Xtime(b[3]))),
      Sum4(Xor(b[0], Xtime(b[0])), b[1], b[2], Xtime(b[3]))]
  }

  lemma {:induction false} MixIsMixed(b: Column)
    ensures CoefMult(MIX, b) == Mixed(b)
  {
    SmallProducts(b[0]);
    SmallProducts(b[1]);
    SmallProducts(b[2]);
    SmallProducts(b[3]);
  }

  lemma {:induction false} MixedRows(b: Column)
    ensures var t := Mixed(b);
      && IsMixed(t[0], b[0], b[1], b[2], b[3]) && IsMixed(t[1], b[1], b[2], b[3], b[0])
      && IsMixed(t[2], b[2], b[3], b[0], b[1]) && IsMixed(t[3], b[3], b[0], b[1], b[2])
  {
    MixedRow0(b);
    MixedRow1(b);
    MixedRow2(b);
    MixedRow3(b);
  }

  lemma {:induction false} MixedRow0(b: Column)
    ensures IsMixed(Mixed(b)[0], b[0], b[1], b[2], b[3])
  {
    SumFrom(Xtime(b[0]), Xor(b[1], Xtime(b[1])), b[2], b[3]);
    MixedFromSum(Mixed(b)[0], b[0], b[1], b[2], b[3]);
  }

  lemma {:induction false} MixedRow1(b: Column)
    ensures IsMixed(Mixed(b)[1], b[1], b[2], b[3], b[0])
  {
    SumFrom(b[0], Xtime(b[1]), Xor(b[2], Xtime(b[2])), b[3]);
    MixedFromSum(Mixed(b)[1], b[1], b[2], b[3], b[0]);
  }

  lemma {:induction false} MixedRow2(b: Column)
    ensures IsMixed(Mixed(b)[2], b[2], b[3], b[0], b[1])
  {
    SumFrom(b[0], b[1], Xtime(b[2]), Xor(b[3], Xtime(b[3])));
    MixedFromSum(Mixed(b)[2], b[2], b[3], b[0], b[1]);
  }

  lemma {:induction false} MixedRow3(b: Column)
    ensures IsMixed(Mixed(b)[3], b[3], b[0], b[1], b[2])
  {
    SumFrom(Xor(b[0], Xtime(b[0])), b[1], b[2], Xtime(b[3]));
    MixedFromSum(Mixed(b)[3], b[3], b[0], b[1], b[2]);
  }

  /** Mixing commutes with the multiplication by x. */
  lemma {:induction false} MixedTimes(t: Byte, x: Byte, y: Byte, z: Byte, u: Byte)
    requires IsMixed(t, x, y, z, u)
    ensures IsMixed(Xtime(t), Xtime(x), Xtime(y), Xtime(z), Xtime(u))
  {
    XtimeBits(t);
    XtimeBits(Xtime(x));
    XtimeBits(y);
    XtimeBits(Xtime(y));
    XtimeBits(z);
    XtimeBits(u);
    XtimeSum(BitsOf(t), BitsOf(Xtime(x)), BitsOf(y), BitsOf(Xtime(y)), BitsOf(z), BitsOf(u),
             BitsOf(Xtime(t)), BitsOf(Xtime(Xtime(x))), BitsOf(Xtime(y)), BitsOf(Xtime(Xtime(y))),
             BitsOf(Xtime(z)), BitsOf(Xtime(u)));
  }

  // ----- the inverse -----

  /** The bits of a byte and of its multiples by x, x^2, x^3, x^4. */
  datatype Multiples = Multiples(m0: Bits, m1: Bits, m2: Bits, m3: Bits, m4: Bits)

  function MultiplesOf(x: Byte): Multiples {
    Multiples(BitsOf(x), BitsOf(Xtime(x)), BitsOf(Xtime(Xtime(x))), BitsOf(Xtime(Xtime(Xtime(x)))),
              BitsOf(Xtime(Xtime(Xtime(Xtime(x))))))
  }

  ghost predicate MixedAll(t: Multiples, x: Multiples, y: Multiples, z: Multiples, u: Multiples) {
    && Sum5(t.m0, x.m1, y.m0, y.m1, z.m0, u.m0) && Sum5(t.m1, x.m2, y.m1, y.m2, z.m1, u.m1)
    && Sum5(t.m2, x.m3, y.m2, y.m3, z.m2, u.m2) && Sum5(t.m3, x.m4, y.m3, y.m4, z.m3, u.m3)
  }

  lemma {:induction false} MixedMultiples(t: Byte, x: Byte, y: Byte, z: Byte, u: Byte)
    requires IsMixed(t, x, y, z, u)
    ensures MixedAll(MultiplesOf(t), MultiplesOf(x), MultiplesOf(y), MultiplesOf(z), MultiplesOf(u))
  {
    MixedTimes(t, x, y, z, u);
    MixedTimes(Xtime(t), Xtime(x), Xtime(y), Xtime(z), Xtime(u));
    MixedTimes(Xtime(Xtime(t)), Xtime(Xtime(x)), Xtime(Xtime(y)), Xtime(Xtime(z)), Xtime(Xtime(u)));
  }

  /** `t` is the sum of three bytes. */
  ghost predicate AddsThree(t: Bits, p: Bits, q: Bits, r: Bits) {
    forall i :: 0 <= i < 8 ==> (t[i] + p[i] + q[i] + r[i]) % 2 == 0
  }

  lemma {:induction false} XorThree(p: Byte, q: Byte, r: Byte)
    ensures AddsThree(BitsOf(Xor(p, Xor(q, r))), BitsOf(p), BitsOf(q), BitsOf(r))
  {
    XorAdds(q, r);
    XorAdds(p, Xor(q, r));
    AddsTwice(BitsOf(Xor(p, Xor(q, r))), BitsOf(Xor(q, r)), BitsOf(p), BitsOf(q), BitsOf(r));
  }

  lemma {:induction false} AddsTwice(t: Bits, s: Bits, a: Bits, b: Bits, c: Bits)
    requires Adds(t, a, s) && Adds(s, b, c)
    ensures AddsThree(t, a, b, c)
  {
    forall i | 0 <= i < 8
      ensures (t[i] + a[i] + b[i] + c[i]) % 2 == 0
    {
      assert (t[i] + a[i] + s[i]) % 2 == 0 && (s[i] + b[i] + c[i]) % 2 == 0;
    }
  }

  /** The products with the inverse coefficients, by multiples. */
  lemma {:induction false} InverseProducts(t: Byte)
    ensures var m := MultiplesOf(t);
      && AddsThree(BitsOf(Product(INV_MIX[0], t)), m.m1, m.m2, m.m3)
      && AddsThree(BitsOf(Product(INV_MIX[3], t)), m.m0, m.m1, m.m3)
      && AddsThree(BitsOf(Product(INV_MIX[2], t)), m.m0, m.m2, m.m3) && Adds(BitsOf(Product(INV_MIX[1], t)), m.m0, m.m3)
  {
    LargeProducts(t);
    var t1 := Xtime(t);
    var t2 := Xtime(t1);
    var t3 := Xtime(t2);
    XorThree(t1, t2, t3);
    XorThree(t, t1, t3);
    XorThree(t, t2, t3);
    XorAdds(t, t3);
  }

  /** The four terms of a row of the inverse at bit `i`, as sums of multiples of the column's bytes. */
  function FirstSum(a: Multiples, b: Multiples, c: Multiples, d: Multiples, i: int): int
    requires 0 <= i < 8
  {
    a.m2[i] + a.m3[i] + a.m4[i] + b.m1[i] + b.m4[i] + c.m1[i] + c.m2[i] + c.m3[i] + d.m1[i] + d.m2[i] + d.m3[i]
  }

  function SecondSum(a: Multiples, b: Multiples, c: Multiples, d: Multiples, i: int): int
    requires 0 <= i < 8
  {
    a.m0[i] + a.m1[i] + a.m3[i] + b.m1[i] + b.m2[i] + b.m4[i] + c.m0[i] + c.m2[i] + c.m3[i] + c.m4[i]
    + d.m0[i] + d.m1[i] + d.m3[i]
  }

  function ThirdSum(a: Multiples, b: Multiples, c: Multiples, d: Multiples, i: int): int
    requires 0 <= i < 8
  {
    a.m0[i] + a.m2[i] + a.m3[i] + b.m0[i] + b.m2[i] + b.m3[i] + c.m1[i] + c.m3[i] + c.m4[i]
    + d.m0[i] + d.m1[i] + d.m2[i] + d.m4[i]
  }

  function FourthSum(a: Multiples, b: Multiples, c: Multiples, d: Multiples, i: int): int
    requires 0 <= i < 8
  {
    a.m0[i] + a.m1[i] + a.m3[i] + a.m4[i] + b.m0[i] + b.m3[i] + c.m0[i] + c.m3[i] + d.m1[i] + d.m4[i]
  }

  ghost predicate FirstTerm(e: Bits, a: Multiples, b: Multiples, c: Multiples, d: Multiples) {
    forall i :: 0 <= i < 8 ==> (e[i] + FirstSum(a, b, c, d, i)) % 2 == 0
  }

  ghost predicate SecondTerm(f: Bits, a: Multiples, b: Multiples, c: Multiples, d: Multiples) {
    forall i :: 0 <= i < 8 ==> (f[i] + SecondSum(a, b, c, d, i)) % 2 == 0
  }

  ghost predicate ThirdTerm(g: Bits, a: Multiples, b: Multiples, c: Multiples, d: Multiples) {
    forall i :: 0 <= i < 8 ==> (g[i] + ThirdSum(a, b, c, d, i)) % 2 == 0
  }

  ghost predicate FourthTerm(h: Bits, a: Multiples, b: Multiples, c: Multiples, d: Multiples) {
    forall i :: 0 <= i < 8 ==> (h[i] + FourthSum(a, b, c, d, i)) % 2 == 0
  }

  /** Together they leave the leading byte, all else appears an even number of times. */
  lemma {:induction false} SumsLeaveOne(a: Multiples, b: Multiples, c: Multiples, d: Multiples, i: int) returns (twice: int)
    requires 0 <= i < 8
    ensures FirstSum(a, b, c, d, i) + SecondSum(a, b, c, d, i) + ThirdSum(a, b, c, d, i) + FourthSum(a, b, c, d, i)
      == a.m0[i] + 2 * twice
  {
    twice := a.m0[i] + a.m1[i] + a.m2[i] + 2 * a.m3[i] + a.m4[i] + b.m0[i] + b.m1[i] + b.m2[i] + b.m3[i] + b.m4[i]
      + c.m0[i] + c.m1[i] + c.m2[i] + 2 * c.m3[i] + c.m4[i] + d.m0[i] + 2 * d.m1[i] + d.m2[i] + d.m3[i] + d.m4[i];
  }

  lemma {:induction false} FirstTermSum(e: Bits, p: Multiples, a: Multiples, b: Multiples, c: Multiples, d: Multiples)
    requires AddsThree(e, p.m1, p.m2, p.m3) && MixedAll(p, a, b, c, d)
    ensures FirstTerm(e, a, b, c, d)
  {
    forall i | 0 <= i < 8
      ensures (e[i] + FirstSum(a, b, c, d, i)) % 2 == 0
    {
      JoinThree(e[i], p.m1[i], p.m2[i], p.m3[i], a.m2[i] + b.m1[i] + b.m2[i] + c.m1[i] + d.m1[i],
                a.m3[i] + b.m2[i] + b.m3[i] + c.m2[i] + d.m2[i], a.m4[i] + b.m3[i] + b.m4[i] + c.m3[i] + d.m3[i],
                e[i] + FirstSum(a, b, c, d, i), b.m2[i] + b.m3[i]);
    }
  }

  lemma {:induction false} SecondTermSum(f: Bits, q: Multiples, a: Multiples, b: Multiples, c: Multiples, d: Multiples)
    requires AddsThree(f, q.m0, q.m1, q.m3) && MixedAll(q, b, c, d, a)
    ensures SecondTerm(f, a, b, c, d)
  {
    forall i | 0 <= i < 8
      ensures (f[i] + SecondSum(a, b, c, d, i)) % 2 == 0
    {
      JoinThree(f[i], q.m0[i], q.m1[i], q.m3[i], b.m1[i] + c.m0[i] + c.m1[i] + d.m0[i] + a.m0[i],
                b.m2[i] + c.m1[i] + c.m2[i] + d.m1[i] + a.m1[i], b.m4[i] + c.m3[i] + c.m4[i] + d.m3[i] + a.m3[i],
                f[i] + SecondSum(a, b, c, d, i), c.m1[i]);
    }
  }

  lemma {:induction false} ThirdTermSum(g: Bits, r: Multiples, a: Multiples, b: Multiples, c: Multiples, d: Multiples)
    requires AddsThree(g, r.m0, r.m2, r.m3) && MixedAll(r, c, d, a, b)
    ensures ThirdTerm(g, a, b, c, d)
  {
    forall i | 0 <= i < 8
      ensures (g[i] + ThirdSum(a, b, c, d, i)) % 2 == 0
    {
      JoinThree(g[i], r.m0[i], r.m2[i], r.m3[i], c.m1[i] + d.m0[i] + d.m1[i] + a.m0[i] + b.m0[i],
                c.m3[i] + d.m2[i] + d.m3[i] + a.m2[i] + b.m2[i], c.m4[i] + d.m3[i] + d.m4[i] + a.m3[i] + b.m3[i],
                g[i] + ThirdSum(a, b, c, d, i), d.m3[i]);
    }
  }

  lemma {:induction false} FourthTermSum(h: Bits, s: Multiples, a: Multiples, b: Multiples, c: Multiples, d: Multiples)
    requires Adds(h, s.m0, s.m3) && MixedAll(s, d, a, b, c)
    ensures FourthTerm(h, a, b, c, d)
  {
    forall i | 0 <= i < 8
      ensures (h[i] + FourthSum(a, b, c, d, i)) % 2 == 0
    {
      JoinThree(h[i], s.m0[i], s.m3[i], 0, d.m1[i] + a.m0[i] + a.m1[i] + b.m0[i] + c.m0[i],
                d.m4[i] + a.m3[i] + a.m4[i] + b.m3[i] + c.m3[i], 0,
                h[i] + FourthSum(a, b, c, d, i), 0);
    }
  }

  /** A sum of three, each a sum itself; `twice` appears two times. */
  lemma {:induction false} JoinThree(e: int, p: int, q: int, r: int, x: int, y: int, z: int, total: int, twice: int)
    requires (e + p + q + r) % 2 == 0 && (p + x) % 2 == 0 && (q + y) % 2 == 0 && (r + z) % 2 == 0
    requires total + 2 * twice == e + x + y + z
    ensures total % 2 == 0
  {
  }

  /** One row of the inverse, applied to the mixed column, leaves the leading byte. */
  lemma {:induction false} Cancels(a: Multiples, b: Multiples, c: Multiples, d: Multiples,
                                   e: Bits, f: Bits, g: Bits, h: Bits, z: Bits)
    requires FirstTerm(e, a, b, c, d) && SecondTerm(f, a, b, c, d) && ThirdTerm(g, a, b, c, d) && FourthTerm(h, a, b, c, d)
    requires AddsFour(z, e, f, g, h)
    ensures z == a.m0
  {
    forall i | 0 <= i < 8
      ensures z[i] == a.m0[i]
    {
      var twice := SumsLeaveOne(a, b, c, d, i);
      JoinFour(z[i], e[i], f[i], g[i], h[i], FirstSum(a, b, c, d, i), SecondSum(a, b, c, d, i),
               ThirdSum(a, b, c, d, i), FourthSum(a, b, c, d, i), a.m0[i], twice);
    }
  }

  lemma {:induction false} JoinFour(t: int, e: int, f: int, g: int, h: int, x: int, y: int, z: int, u: int, a: int, twice: int)
    requires 0 <= t <= 1 && 0 <= a <= 1 && (t + e + f + g + h) % 2 == 0
    requires (e + x) % 2 == 0 && (f + y) % 2 == 0 && (g + z) % 2 == 0 && (h + u) % 2 == 0
    requires x + y + z + u == a + 2 * twice
    ensures t == a
  {
    assert (t + a) % 2 == 0;
  }

  /** One byte of the restored column. */
  lemma {:induction false} RowUndone(w: Byte, x: Byte, y: Byte, z: Byte, u: Byte, p: Byte, q: Byte, r: Byte, s: Byte)
    requires IsMixed(p, x, y, z, u) && IsMixed(q, y, z, u, x) && IsMixed(r, z, u, x, y) && IsMixed(s, u, x, y, z)
    requires AddsFour(BitsOf(w), BitsOf(Product(INV_MIX[0], p)), BitsOf(Product(INV_MIX[3], q)),
                      BitsOf(Product(INV_MIX[2], r)), BitsOf(Product(INV_MIX[1], s)))
    ensures w == x
  {
    MixedMultiples(p, x, y, z, u);
    MixedMultiples(q, y, z, u, x);
    MixedMultiples(r, z, u, x, y);
    MixedMultiples(s, u, x, y, z);
    InverseProducts(p);
    InverseProducts(q);
    InverseProducts(r);
    InverseProducts(s);
    var e, f := BitsOf(Product(INV_MIX[0], p)), BitsOf(Product(INV_MIX[3], q));
    var g, h := BitsOf(Product(INV_MIX[2], r)), BitsOf(Product(INV_MIX[1], s));
    var a, b, c, d := MultiplesOf(x), MultiplesOf(y), MultiplesOf(z), MultiplesOf(u);
    FirstTermSum(e, MultiplesOf(p), a, b, c, d);
    SecondTermSum(f, MultiplesOf(q), a, b, c, d);
    ThirdTermSum(g, MultiplesOf(r), a, b, c, d);
    FourthTermSum(h, MultiplesOf(s), a, b, c, d);
    Cancels(a, b, c, d, e, f, g, h, BitsOf(w));
    SameBits(w, x);
  }

  /** The rows of a column product, each from its leading term on. */
  lemma {:induction false} ProductRows(a: Column, t: Column)
    ensures var w := CoefMult(a, t);
      && AddsFour(BitsOf(w[0]), BitsOf(Product(a[0], t[0])), BitsOf(Product(a[3], t[1])),
                  BitsOf(Product(a[2], t[2])), BitsOf(Product(a[1], t[3])))
      && AddsFour(BitsOf(w[1]), BitsOf(Product(a[0], t[1])), BitsOf(Product(a[3], t[2])),
                  BitsOf(Product(a[2], t[3])), BitsOf(Product(a[1], t[0])))
      && AddsFour(BitsOf(w[2]), BitsOf(Product(a[0], t[2])), BitsOf(Product(a[3], t[3])),
                  BitsOf(Product(a[2], t[0])), BitsOf(Product(a[1], t[1])))
      && AddsFour(BitsOf(w[3]), BitsOf(Product(a[0], t[3])), BitsOf(Product(a[3], t[0])),
                  BitsOf(Product(a[2], t[1])), BitsOf(Product(a[1], t[2])))
  {
    SumFrom(Product(a[0], t[0]), Product(a[3], t[1]), Product(a[2], t[2]), Product(a[1], t[3]));
    SumFrom(Product(a[1], t[0]), Product(a[0], t[1]), Product(a[3], t[2]), Product(a[2], t[3]));
    SumFrom(Product(a[2], t[0]), Product(a[1], t[1]), Product(a[0], t[2]), Product(a[3], t[3]));
    SumFrom(Product(a[3], t[0]), Product(a[2], t[1]), Product(a[1], t[2]), Product(a[0], t[3]));
  }

  lemma {:induction false} RestoredBytes(b: Column, t: Column, w: Column)
    requires IsMixed(t[0], b[0], b[1], b[2], b[3]) && IsMixed(t[1], b[1], b[2], b[3], b[0])
    requires IsMixed(t[2], b[2], b[3], b[0], b[1]) && IsMixed(t[3], b[3], b[0], b[1], b[2])
    requires w == CoefMult(INV_MIX, t)
    ensures w == b
  {
    ProductRows(INV_MIX, t);
    RowUndone(w[0], b[0], b[1], b[2], b[3], t[0], t[1], t[2], t[3]);
    RowUndone(w[1], b[1], b[2], b[3], b[0], t[1], t[2], t[3], t[0]);
    RowUndone(w[2], b[2], b[3], b[0], b[1], t[2], t[3], t[0], t[1]);
    RowUndone(w[3], b[3], b[0], b[1], b[2], t[3], t[0], t[1], t[2]);
    SameColumn(w, b);
  }

  lemma {:induction false} SameColumn(w: Column, b: Column)
    requires w[0] == b[0] && w[1] == b[1] && w[2] == b[2] && w[3] == b[3]
    ensures w == b
  {
  }

  /** The two column products undo each other. */
  lemma {:induction false} ColumnRestored(b: Column)
    ensures CoefMult(INV_MIX, CoefMult(MIX, b)) == b
  {
    MixIsMixed(b);
    MixedRows(b);
    RestoredBytes(b, Mixed(b), CoefMult(INV_MIX, Mixed(b)));
  }
}
