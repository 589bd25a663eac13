/** The compression function of SHA-256: rounds with renamed registers. */
module Sha256 {
  import Bytes
  import opened Words
  import T = TwosComplement

  const K_TMP: seq<Word> :=
    [0x428A2F98, 0x71374491, 0xB5C0FBCF, 0xE9B5DBA5, 0x3956C25B, 0x59F111F1, 0x923F82A4, 0xAB1C5ED5,
     0xD807AA98, 0x12835B01, 0x243185BE, 0x550C7DC3, 0x72BE5D74, 0x80DEB1FE, 0x9BDC06A7, 0xC19BF174] +
    [0xE49B69C1, 0xEFBE4786, 0x0FC19DC6, 0x240CA1CC, 0x2DE92C6F, 0x4A7484AA, 0x5CB0A9DC, 0x76F988DA,
     0x983E5152, 0xA831C66D, 0xB00327C8, 0xBF597FC7, 0xC6E00BF3, 0xD5A79147, 0x06CA6351, 0x14292967] +
    [0x27B70A85, 0x2E1B2138, 0x4D2C6DFC, 0x53380D13, 0x650A7354, 0x766A0ABB, 0x81C2C92E, 0x92722C85,
     0xA2BFE8A1, 0xA81A664B, 0xC24B8B70, 0xC76C51A3, 0xD192E819, 0xD6990624, 0xF40E3585, 0x106AA070] +
    [0x19A4C116, 0x1E376C08, 0x2748774C, 0x34B0BCB5, 0x391C0CB3, 0x4ED8AA4A, 0x5B9CCA4F, 0x682E6FF3,
     0x748F82EE, 0x78A5636F, 0x84C87814, 0x8CC70208, 0x90BEFFFA, 0xA4506CEB, 0xBEF9A3F7, 0xC67178F2]

  // ----- sections 4.1.2 and 6.2.2 of FIPS 180-4 -----

  /** The rotations and shifts come in threes, added bit by bit. */
  function BigSigma0(x: Word): Word {
    Parity(RotR(x, 2), RotR(x, 13), RotR(x, 22))
  }

  function BigSigma1(x: Word): Word {
    Parity(RotR(x, 6), RotR(x, 11), RotR(x, 25))
  }

  function SmallSigma0(x: Word): Word {
    Parity(RotR(x, 7), RotR(x, 18), ShiftRight(x, 3))
  }

  function SmallSigma1(x: Word): Word {
    Parity(RotR(x, 17), RotR(x, 19), ShiftRight(x, 10))
  }

  /** The bits that are added in the four functions; a shift adds none beyond the top. */
  lemma {:induction false} SigmaBits(x: Word, i: nat)
    requires i < 32
    ensures T.Bit(BigSigma0(x), i) == (T.Bit(x, (i + 2) % 32) + T.Bit(x, (i + 13) % 32) + T.Bit(x, (i + 22) % 32)) % 2
    ensures T.Bit(BigSigma1(x), i) == (T.Bit(x, (i + 6) % 32) + T.Bit(x, (i + 11) % 32) + T.Bit(x, (i + 25) % 32)) % 2
    ensures T.Bit(SmallSigma0(x), i) == (T.Bit(x, (i + 7) % 32) + T.Bit(x, (i + 18) % 32) + T.Bit(x, i + 3)) % 2
    ensures T.Bit(SmallSigma1(x), i) == (T.Bit(x, (i + 17) % 32) + T.Bit(x, (i + 19) % 32) + T.Bit(x, i + 10)) % 2
  {
    hide T.Bit, RotR, Parity, ShiftRight;
    BigBits(x, 2, 13, 22, i);
    BigBits(x, 6, 11, 25, i);
    SmallBits(x, 7, 18, 3, i);
    SmallBits(x, 17, 19, 10, i);
  }

  lemma {:induction false} BigBits(x: Word, k: nat, l: nat, m: nat, i: nat)
    requires i < 32 && k <= 32 && l <= 32 && m <= 32
    ensures T.Bit(Parity(RotR(x, k), RotR(x, l), RotR(x, m)), i)
            == (T.Bit(x, (i + k) % 32) + T.Bit(x, (i + l) % 32) + T.Bit(x, (i + m) % 32)) % 2
  {
    hide T.Bit, RotR, Parity;
    ParityBit(RotR(x, k), RotR(x, l), RotR(x, m), i);
    RotRBit(x, k, i);
    RotRBit(x, l, i);
    RotRBit(x, m, i);
  }

  lemma {:induction false} SmallBits(x: Word, k: nat, l: nat, m: nat, i: nat)
    requires i < 32 && k <= 32 && l <= 32
    ensures T.Bit(Parity(RotR(x, k), RotR(x, l), ShiftRight(x, m)), i)
            == (T.Bit(x, (i + k) % 32) + T.Bit(x, (i + l) % 32) + T.Bit(x, i + m)) % 2
  {
    hide T.Bit, RotR, Parity;
    ParityBit(RotR(x, k), RotR(x, l), ShiftRight(x, m), i);
    RotRBit(x, k, i);
    RotRBit(x, l, i);
    BitOfCut(x, m, i);
  }

  /** Word `t` of the message schedule. */
  function Schedule(block: seq<Bytes.Byte>, t: nat): Word
    requires |block| == 64
  {
    if t < 16 then WordAt(block, 4 * t)
    else Add(Add(Add(SmallSigma1(Schedule(block, t - 2)), Schedule(block, t - 7)),
                 SmallSigma0(Schedule(block, t - 15))), Schedule(block, t - 16))
  }

  lemma {:induction false} NextWord(block: seq<Bytes.Byte>, t: nat)
    requires |block| == 64 && 16 <= t
    ensures Schedule(block, t)
            == Add(Add(Add(SmallSigma1(Schedule(block, t - 2)), Schedule(block, t - 7)),
                       SmallSigma0(Schedule(block, t - 15))), Schedule(block, t - 16))
  {
  }

  datatype Registers = Registers(a: Word, b: Word, c: Word, d: Word, e: Word, f: Word, g: Word, h: Word) {
    /** One round with its constant and its word of the schedule. */
    function Round(k: Word, w: Word): Registers {
      var t1 := Add(Add(Add(Add(h, BigSigma1(e)), Ch(e, f, g)), k), w);
      var t2 := Add(BigSigma0(a), Maj(a, b, c));
      Registers(Add(t1, t2), a, b, c, Add(d, t1), e, f, g)
    }
  }

  const ROUNDS: nat := 64

  function KTmp(t: nat): Word {
    if t < 64 then K_TMP[t] else 0
  }

  /** The registers after `t` rounds. */
  function Rounds(r: Registers, block: seq<Bytes.Byte>, t: nat): Registers
    requires |block| == 64
  {
    if t == 0 then r else Rounds(r, block, t - 1).Round(KTmp(t - 1), Schedule(block, t - 1))
  }

  lemma {:induction false} NoRounds(r: Registers, block: seq<Bytes.Byte>)
    requires |block| == 64
    ensures Rounds(r, block, 0) == r
  {
  }

  function Load(h: seq<Word>): Registers
    requires |h| == 8
  {
    Registers(h[0], h[1], h[2], h[3], h[4], h[5], h[6], h[7])
  }

  /** The hash value after one more block. */
  function Compress(h: seq<Word>, block: seq<Bytes.Byte>): (r: seq<Word>)
    requires |h| == 8 && |block| == 64
    ensures |r| == 8
  {
    Sums(h, Rounds(Load(h), block, ROUNDS))
  }

  function Sums(h: seq<Word>, r: Registers): (s: seq<Word>)
    requires |h| == 8
    ensures |s| == 8
  {
    [Add(h[0], r.a), Add(h[1], r.b), Add(h[2], r.c), Add(h[3], r.d),
      Add(h[4], r.e), Add(h[5], r.f), Add(h[6], r.g), Add(h[7], r.h)]
  }

  // ----- any run of the equations gives the hash value -----

  /** One round: all registers move on, two of them are added to, modulo 2^32. */
  ghost predicate RoundEquations(r: Registers, k: Word, w: Word, n: Registers) {
    && n.b == r.a && n.c == r.b && n.d == r.c && n.f == r.e && n.g == r.f && n.h == r.g
    && n.a == Cut(r.h + BigSigma1(r.e) + Ch(r.e, r.f, r.g) + k + w + BigSigma0(r.a) + Maj(r.a, r.b, r.c))
    && n.e == Cut(r.d + r.h + BigSigma1(r.e) + Ch(r.e, r.f, r.g) + k + w)
  }

  ghost predicate RoundEquation(v: seq<Registers>, W: seq<Word>, t: nat)
    requires |W| == 64 && |v| == 65 && t < 64
  {
    RoundEquations(v[t], KTmp(t), W[t], v[t + 1])
  }

  /** Word `t` of the schedule. */
  predicate ScheduleEquation(block: seq<Bytes.Byte>, W: seq<Word>, t: nat)
    requires |block| == 64 && |W| == 64 && t < 64
  {
    W[t] == if t < 16 then BigEndian(block[4 * t], block[4 * t + 1], block[4 * t + 2], block[4 * t + 3])
            else Cut(SmallSigma1(W[t - 2]) + W[t - 7] + SmallSigma0(W[t - 15]) + W[t - 16])
  }

  /** Schedule words and registers that meet the equations of section 6.2.2 lead to the hash value. */
  lemma {:induction false} StandardRun(h: seq<Word>, block: seq<Bytes.Byte>, W: seq<Word>, v: seq<Registers>)
    requires |h| == 8 && |block| == 64 && |W| == 64 && |v| == 65
    requires forall t: nat :: t < 64 ==> ScheduleEquation(block, W, t)
    requires v[0] == Registers(h[0], h[1], h[2], h[3], h[4], h[5], h[6], h[7])
    requires forall t: nat :: t < 64 ==> RoundEquation(v, W, t)
    ensures Compress(h, block) == [
      Cut(h[0] + v[64].a), Cut(h[1] + v[64].b), Cut(h[2] + v[64].c), Cut(h[3] + v[64].d),
      Cut(h[4] + v[64].e), Cut(h[5] + v[64].f), Cut(h[6] + v[64].g), Cut(h[7] + v[64].h)]
  {
    hide Rounds, ScheduleEquation, RoundEquation;
    RunOfRounds(h, block, W, v, 64);
  }

  lemma {:induction false} RunOfSchedule(block: seq<Bytes.Byte>, W: seq<Word>, t: nat)
    requires |block| == 64 && |W| == 64 && t < 64
    requires forall t: nat :: t < 64 ==> ScheduleEquation(block, W, t)
    ensures W[t] == Schedule(block, t)
  {
    hide SmallSigma0, SmallSigma1, Schedule, Add, BigEndian, Cut;
    assert ScheduleEquation(block, W, t);
    if t < 16 {
      FirstWord(block, t);
    } else {
      RunOfSchedule(block, W, t - 2);
      RunOfSchedule(block, W, t - 7);
      RunOfSchedule(block, W, t - 15);
      RunOfSchedule(block, W, t - 16);
      NextWord(block, t);
      FourSum(SmallSigma1(W[t - 2]), W[t - 7], SmallSigma0(W[t - 15]), W[t - 16]);
    }
  }

  lemma {:induction false} FirstWord(block: seq<Bytes.Byte>, t: nat)
    requires |block| == 64 && t < 16
    ensures Schedule(block, t) == BigEndian(block[4 * t], block[4 * t + 1], block[4 * t + 2], block[4 * t + 3])
  {
  }

  lemma {:induction false} RunOfRounds(h: seq<Word>, block: seq<Bytes.Byte>, W: seq<Word>, v: seq<Registers>, t: nat)
    requires |h| == 8 && |block| == 64 && |W| == 64 && |v| == 65 && t <= 64
    requires forall t: nat :: t < 64 ==> ScheduleEquation(block, W, t)
    requires v[0] == Registers(h[0], h[1], h[2], h[3], h[4], h[5], h[6], h[7])
    requires forall t: nat :: t < 64 ==> RoundEquation(v, W, t)
    ensures v[t] == Rounds(Load(h), block, t)
  {
    hide ScheduleEquation, RoundEquations, Schedule, KTmp;
    if t != 0 {
      RunOfRounds(h, block, W, v, t - 1);
      RunOfSchedule(block, W, t - 1);
      assert RoundEquation(v, W, t - 1);
      OneRound(v[t - 1], KTmp(t - 1), W[t - 1], v[t]);
    }
  }

  lemma {:induction false} OneRound(r: Registers, k: Word, w: Word, n: Registers)
    requires RoundEquations(r, k, w, n)
    ensures n == r.Round(k, w)
  {
    hide BigSigma0, BigSigma1, Ch, Maj, Add, Cut;
    var s, c, g, m := BigSigma1(r.e), Ch(r.e, r.f, r.g), BigSigma0(r.a), Maj(r.a, r.b, r.c);
    FiveSum(r.h, s, c, k, w);
    LastSum(r.h + s + c + k + w, g, m, r.d);
  }

  lemma {:induction false} LastSum(t1: int, g: int, m: int, d: int)
    ensures Add(Cut(t1), Add(g, m)) == Cut(t1 + g + m) && Add(d, Cut(t1)) == Cut(d + t1)
  {
    ModSum(t1, (g + m) % WORD);
    ModSum(g + m, t1);
    ModSum(t1, d);
  }

  // ----- the code -----

  function Sub0(x: Word): Word {
    Xor(Xor(RotatedRight(x, 7), RotatedRight(x, 18)), ShiftRight(x, 3))
  }

  function Sub1(x: Word): Word {
    Xor(Xor(RotatedRight(x, 17), RotatedRight(x, 19)), ShiftRight(x, 10))
  }

  function Sub2(x: Word): Word {
    Xor(Xor(RotatedRight(x, 2), RotatedRight(x, 13)), RotatedRight(x, 22))
  }

  function Sub3(x: Word): Word {
    Xor(Xor(RotatedRight(x, 6), RotatedRight(x, 11)), RotatedRight(x, 25))
  }

  /** The shifted and joined words are the rotations of the standard. */
  lemma {:induction false} SubsAreSigmas(x: Word)
    ensures Sub0(x) == SmallSigma0(x) && Sub1(x) == SmallSigma1(x)
    ensures Sub2(x) == BigSigma0(x) && Sub3(x) == BigSigma1(x)
  {
    hide RotR, RotatedRight, ShiftRight, Xor;
    RotatedIs(x, 2);
    RotatedIs(x, 6);
    RotatedIs(x, 7);
    RotatedIs(x, 11);
    RotatedIs(x, 13);
    RotatedIs(x, 17);
    RotatedIs(x, 18);
    RotatedIs(x, 19);
    RotatedIs(x, 22);
    RotatedIs(x, 25);
  }

  /** One round in place: the fourth and the last register change, and the next round
      calls them the fifth and the first. */
  method Pad(a: Word, b: Word, c: Word, d: Word, e: Word, f: Word, g: Word, h: Word, x: Word, k: Word,
             ghost r: Registers, ghost block: seq<Bytes.Byte>, ghost t: nat)
    returns (d': Word, h': Word)
    requires |block| == 64 && Registers(a, b, c, d, e, f, g, h) == Rounds(r, block, t)
    requires x == Schedule(block, t) && k == KTmp(t)
    ensures Registers(h', a, b, c, d', e, f, g) == Rounds(r, block, t + 1)
  {
    hide Sub2, Sub3, BigSigma0, BigSigma1, ShortCh, ShortMaj, Ch, Maj, Schedule, KTmp, Add;
    var tmp1 := Add(Add(Add(Add(h, Sub3(e)), ShortCh(e, f, g)), k), x);
    var tmp2 := Add(Sub2(a), ShortMaj(a, b, c));
    d' := Add(d, tmp1);
    h' := Add(tmp1, tmp2);
    SubsAreSigmas(e);
    SubsAreSigmas(a);
    ShortChIs(e, f, g);
    ShortMajIs(a, b, c);
  }

  /** The words of the schedule up to `t` are in place. */
  ghost predicate Filled(W: array<Word>, block: seq<Bytes.Byte>, t: nat)
    reads W
  {
    W.Length == 64 && t <= 64 && |block| == 64 && forall j: nat :: j < t ==> W[j] == Schedule(block, j)
  }

  /** Computes word `t` of the schedule. */
  method Rot(W: array<Word>, t: nat, ghost block: seq<Bytes.Byte>) returns (w: Word)
    requires 16 <= t < 64 && Filled(W, block, t)
    modifies W
    ensures Filled(W, block, t + 1) && w == Schedule(block, t)
  {
    hide Sub0, Sub1, SmallSigma0, SmallSigma1, Schedule, Add;
    SubsAreSigmas(W[t - 2]);
    SubsAreSigmas(W[t - 15]);
    NextWord(block, t);
    W[t] := Add(Add(Add(Sub1(W[t - 2]), W[t - 7]), Sub0(W[t - 15])), W[t - 16]);
    w := W[t];
  }

  /** Reads the first sixteen words. */
  method LoadBlock(W: array<Word>, data: seq<Bytes.Byte>)
    requires W.Length == 64 && |data| == 64
    modifies W
    ensures Filled(W, data, 16)
  {
    var i := 0;
    while i < 16
      invariant 0 <= i <= 16 && Filled(W, data, i)
    {
      W[i] := WordAt(data, 4 * i);
      i := i + 1;
    }
  }

  /** Eight rounds bring every register back to its place. */
  method EightRounds(W: array<Word>, i: nat, start: Registers, ghost r: Registers, ghost block: seq<Bytes.Byte>)
    returns (last: Registers)
    requires i <= 8 && Filled(W, block, 16) && start == Rounds(r, block, i)
    ensures last == Rounds(r, block, i + 8)
  {
    hide Rounds, Schedule, KTmp, Add;
    var Registers(A, B, C, D, E, F, G, H) := start;
    D, H := Pad(A, B, C, D, E, F, G, H, W[i + 0], KTmp(i + 0), r, block, i + 0);
    C, G := Pad(H, A, B, C, D, E, F, G, W[i + 1], KTmp(i + 1), r, block, i + 1);
    B, F := Pad(G, H, A, B, C, D, E, F, W[i + 2], KTmp(i + 2), r, block, i + 2);
    A, E := Pad(F, G, H, A, B, C, D, E, W[i + 3], KTmp(i + 3), r, block, i + 3);
    H, D := Pad(E, F, G, H, A, B, C, D, W[i + 4], KTmp(i + 4), r, block, i + 4);
    G, C := Pad(D, E, F, G, H, A, B, C, W[i + 5], KTmp(i + 5), r, block, i + 5);
    F, B := Pad(C, D, E, F, G, H, A, B, W[i + 6], KTmp(i + 6), r, block, i + 6);
    E, A := Pad(B, C, D, E, F, G, H, A, W[i + 7], KTmp(i + 7), r, block, i + 7);
    last := Registers(A, B, C, D, E, F, G, H);
  }

  /** Eight rounds whose words are computed on the way. */
  method EightMore(W: array<Word>, i: nat, start: Registers, ghost r: Registers, ghost block: seq<Bytes.Byte>)
    returns (last: Registers)
    requires 16 <= i <= 56 && Filled(W, block, i) && start == Rounds(r, block, i)
    modifies W
    ensures Filled(W, block, i + 8) && last == Rounds(r, block, i + 8)
  {
    hide Rounds, Schedule, KTmp, Add;
    var w := 0;
    var Registers(A, B, C, D, E, F, G, H) := start;
    w := Rot(W, i + 0, block);
    D, H := Pad(A, B, C, D, E, F, G, H, w, KTmp(i + 0), r, block, i + 0);
    w := Rot(W, i + 1, block);
    C, G := Pad(H, A, B, C, D, E, F, G, w, KTmp(i + 1), r, block, i + 1);
    w := Rot(W, i + 2, block);
    B, F := Pad(G, H, A, B, C, D, E, F, w, KTmp(i + 2), r, block, i + 2);
    w := Rot(W, i + 3, block);
    A, E := Pad(F, G, H, A, B, C, D, E, w, KTmp(i + 3), r, block, i + 3);
    w := Rot(W, i + 4, block);
    H, D := Pad(E, F, G, H, A, B, C, D, w, KTmp(i + 4), r, block, i + 4);
    w := Rot(W, i + 5, block);
    G, C := Pad(D, E, F, G, H, A, B, C, w, KTmp(i + 5), r, block, i + 5);
    w := Rot(W, i + 6, block);
    F, B := Pad(C, D, E, F, G, H, A, B, w, KTmp(i + 6), r, block, i + 6);
    w := Rot(W, i + 7, block);
    E, A := Pad(B, C, D, E, F, G, H, A, w, KTmp(i + 7), r, block, i + 7);
    last := Registers(A, B, C, D, E, F, G, H);
  }

  /** The hash value after the block `data`. */
  method Process(h: seq<Word>, data: seq<Bytes.Byte>) returns (h': seq<Word>)
    requires |h| == 8 && |data| == 64
    ensures h' == Compress(h, data)
  {
    hide Rounds, Schedule, KTmp, Add, Sums;
    var W := new Word[64];
    var regs := Load(h);
    ghost var r, block := regs, data;
    NoRounds(r, block);
    LoadBlock(W, data);
    var i := 0;
    while i < 16
      invariant 0 <= i <= 16 && i % 8 == 0 && Filled(W, block, 16) && regs == Rounds(r, block, i)
    {
      regs := EightRounds(W, i, regs, r, block);
      i := i + 8;
    }
    i := 16;
    while i < 64
      invariant 16 <= i <= 64 && i % 8 == 0 && Filled(W, block, i) && regs == Rounds(r, block, i)
    {
      regs := EightMore(W, i, regs, r, block);
      i := i + 8;
    }
    h' := Sums(h, regs);
  }
}
