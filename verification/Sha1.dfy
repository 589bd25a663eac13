/** The compression function of SHA-1: a schedule kept in sixteen words, and rounds
    with renamed registers. */
module Sha1 {
  import Bytes
  import opened Words
  import T = TwosComplement

  // ----- sections 4.1.1, 4.2.1 and 6.1.2 of FIPS 180-4 -----

  /** Word `t` of the message schedule. */
  function Schedule(block: seq<Bytes.Byte>, t: nat): Word
    requires |block| == 64
  {
    if t < 16 then WordAt(block, 4 * t)
    else RotL(Xor(Xor(Xor(Schedule(block, t - 3), Schedule(block, t - 8)),
                      Schedule(block, t - 14)), Schedule(block, t - 16)), 1)
  }

  lemma {:induction false} NextWord(block: seq<Bytes.Byte>, t: nat)
    requires |block| == 64 && 16 <= t
    ensures Schedule(block, t)
            == RotL(Xor(Xor(Xor(Schedule(block, t - 3), Schedule(block, t - 8)),
                            Schedule(block, t - 14)), Schedule(block, t - 16)), 1)
  {
  }

  /** The function of round `t`. */
  function F(t: nat, x: Word, y: Word, z: Word): Word {
    if t < 20 then Ch(x, y, z)
    else if t < 40 then Parity(x, y, z)
    else if t < 60 then Maj(x, y, z)
    else Parity(x, y, z)
  }

  /** Choice, parity, majority, parity. */
  lemma {:induction false} FBits(t: nat, x: Word, y: Word, z: Word, i: nat)
    ensures var sum := T.Bit(x, i) + T.Bit(y, i) + T.Bit(z, i);
      T.Bit(F(t, x, y, z), i) ==
        if t < 20 then (if T.Bit(x, i) == 1 then T.Bit(y, i) else T.Bit(z, i)) else if 40 <= t < 60 then sum / 2 else sum % 2
  {
    hide T.Bit, Ch, Maj, Parity;
    ChBit(x, y, z, i);
    MajBit(x, y, z, i);
    ParityBit(x, y, z, i);
  }

  /** The constant of round `t`. */
  function K(t: nat): Word {
    if t < 20 then 0x5A827999
    else if t < 40 then 0x6ED9EBA1
    else if t < 60 then 0x8F1BBCDC
    else 0xCA62C1D6
  }

  datatype Registers = Registers(a: Word, b: Word, c: Word, d: Word, e: Word) {
    /** Round `t` with its word of the schedule. */
    function Round(t: nat, w: Word): Registers {
      Registers(Add(Add(Add(Add(RotL(a, 5), F(t, b, c, d)), e), K(t)), w), a, RotL(b, 30), c, d)
    }
  }

  const ROUNDS: nat := 80

  /** The registers after `t` rounds. */
  function Rounds(r: Registers, block: seq<Bytes.Byte>, t: nat): Registers
    requires |block| == 64
  {
    if t == 0 then r else Rounds(r, block, t - 1).Round(t - 1, Schedule(block, t - 1))
  }

  lemma {:induction false} NoRounds(r: Registers, block: seq<Bytes.Byte>)
    requires |block| == 64
    ensures Rounds(r, block, 0) == r
  {
  }

  function Load(h: seq<Word>): Registers
    requires |h| == 5
  {
    Registers(h[0], h[1], h[2], h[3], h[4])
  }

  function Sums(h: seq<Word>, r: Registers): (s: seq<Word>)
    requires |h| == 5
    ensures |s| == 5
  {
    [Add(h[0], r.a), Add(h[1], r.b), Add(h[2], r.c), Add(h[3], r.d), Add(h[4], r.e)]
  }

  /** The hash value after one more block. */
  function Compress(h: seq<Word>, block: seq<Bytes.Byte>): (r: seq<Word>)
    requires |h| == 5 && |block| == 64
    ensures |r| == 5
  {
    Sums(h, Rounds(Load(h), block, ROUNDS))
  }

  // ----- any run of the equations gives the hash value -----

  /** One round: all registers move on, one of them is turned, and the first is new. */
  ghost predicate RoundEquations(r: Registers, t: nat, w: Word, n: Registers) {
    && n.a == Cut(RotL(r.a, 5) + F(t, r.b, r.c, r.d) + r.e + K(t) + w)
    && n.b == r.a && n.c == RotL(r.b, 30) && n.d == r.c && n.e == r.d
  }

  ghost predicate RoundEquation(v: seq<Registers>, W: seq<Word>, t: nat)
    requires |W| == 80 && |v| == 81 && t < 80
  {
    RoundEquations(v[t], t, W[t], v[t + 1])
  }

  /** Word `t` of the schedule. */
  predicate ScheduleEquation(block: seq<Bytes.Byte>, W: seq<Word>, t: nat)
    requires |block| == 64 && |W| == 80 && t < 80
  {
    W[t] == if t < 16 then BigEndian(block[4 * t], block[4 * t + 1], block[4 * t + 2], block[4 * t + 3])
            else RotL(Xor(Xor(Xor(W[t - 3], W[t - 8]), W[t - 14]), W[t - 16]), 1)
  }

  /** Schedule words and registers that meet the equations of section 6.1.2 lead to the hash value. */
  lemma {:induction false} StandardRun(h: seq<Word>, block: seq<Bytes.Byte>, W: seq<Word>, v: seq<Registers>)
    requires |h| == 5 && |block| == 64 && |W| == 80 && |v| == 81
    requires forall t: nat :: t < 80 ==> ScheduleEquation(block, W, t)
    requires v[0] == Registers(h[0], h[1], h[2], h[3], h[4])
    requires forall t: nat :: t < 80 ==> RoundEquation(v, W, t)
    ensures Compress(h, block) ==
      [Cut(h[0] + v[80].a), Cut(h[1] + v[80].b), Cut(h[2] + v[80].c), Cut(h[3] + v[80].d), Cut(h[4] + v[80].e)]
  {
    hide Rounds, ScheduleEquation, RoundEquation;
    RunOfRounds(h, block, W, v, 80);
  }

  lemma {:induction false} RunOfSchedule(block: seq<Bytes.Byte>, W: seq<Word>, t: nat)
    requires |block| == 64 && |W| == 80 && t < 80
    requires forall t: nat :: t < 80 ==> ScheduleEquation(block, W, t)
    ensures W[t] == Schedule(block, t)
  {
    hide Schedule, RotL, Xor, BigEndian;
    assert ScheduleEquation(block, W, t);
    if t < 16 {
      FirstWord(block, t);
    } else {
      RunOfSchedule(block, W, t - 3);
      RunOfSchedule(block, W, t - 8);
      RunOfSchedule(block, W, t - 14);
      RunOfSchedule(block, W, t - 16);
      NextWord(block, t);
    }
  }

  lemma {:induction false} FirstWord(block: seq<Bytes.Byte>, t: nat)
    requires |block| == 64 && t < 16
    ensures Schedule(block, t) == BigEndian(block[4 * t], block[4 * t + 1], block[4 * t + 2], block[4 * t + 3])
  {
  }

  lemma {:induction false} RunOfRounds(h: seq<Word>, block: seq<Bytes.Byte>, W: seq<Word>, v: seq<Registers>, t: nat)
    requires |h| == 5 && |block| == 64 && |W| == 80 && |v| == 81 && t <= 80
    requires forall t: nat :: t < 80 ==> ScheduleEquation(block, W, t)
    requires v[0] == Registers(h[0], h[1], h[2], h[3], h[4])
    requires forall t: nat :: t < 80 ==> RoundEquation(v, W, t)
    ensures v[t] == Rounds(Load(h), block, t)
  {
    hide ScheduleEquation, RoundEquations, Schedule;
    if t != 0 {
      RunOfRounds(h, block, W, v, t - 1);
      RunOfSchedule(block, W, t - 1);
      assert RoundEquation(v, W, t - 1);
      OneRound(v[t - 1], t - 1, W[t - 1], v[t]);
    }
  }

  lemma {:induction false} OneRound(r: Registers, t: nat, w: Word, n: Registers)
    requires RoundEquations(r, t, w, n)
    ensures n == r.Round(t, w)
  {
    hide RotL, F, K, Add, Cut;
    FiveSum(RotL(r.a, 5), F(t, r.b, r.c, r.d), r.e, K(t), w);
  }

  // ----- the code -----

  /** The function of a phase of twenty rounds. */
  function PhaseF(t: nat, x: Word, y: Word, z: Word): Word {
    if t < 20 then ShortCh(x, y, z)
    else if t < 40 then Parity(x, y, z)
    else if t < 60 then ShortMaj(x, y, z)
    else Parity(x, y, z)
  }

  /** One round in place: the fifth and the second register change, and the next round
      calls them the first and the third. */
  method Pad(a: Word, b: Word, c: Word, d: Word, e: Word, f: Word,
             ghost r: Registers, ghost block: seq<Bytes.Byte>, t: nat)
    returns (e': Word, b': Word)
    requires |block| == 64 && Registers(a, b, c, d, e) == Rounds(r, block, t) && f == Schedule(block, t)
    ensures Registers(e', a, b', c, d) == Rounds(r, block, t + 1)
  {
    hide Add, Schedule, Ch, Maj, Parity, ShortCh, ShortMaj, RotL, RotatedLeft, K;
    e' := Add(e, Add(Add(Add(RotatedLeft(a, 5), PhaseF(t, b, c, d)), K(t)), f));
    b' := RotatedLeft(b, 30);
    ShortChIs(b, c, d);
    ShortMajIs(b, c, d);
    RotatedLeftIs(a, 5);
    RotatedLeftIs(b, 30);
    InOrder(e, RotL(a, 5), F(t, b, c, d), K(t), f);
  }

  lemma {:induction false} RotatedLeftIs(x: Word, n: nat)
    requires n <= 32
    ensures RotatedLeft(x, n) == RotL(x, n)
  {
    RotatedIs(x, 32 - n);
  }

  lemma {:induction false} InOrder(e: Word, a: Word, b: Word, c: Word, d: Word)
    ensures Add(e, Add(Add(Add(a, b), c), d)) == Add(Add(Add(Add(a, b), e), c), d)
  {
    hide Add;
    var q := Add(a, b);
    AddLast(e, Add(q, c), d);
    AddLast(e, q, c);
  }

  lemma {:induction false} AddLast(e: Word, x: Word, y: Word)
    ensures Add(e, Add(x, y)) == Add(Add(x, e), y) && Add(e, x) == Add(x, e)
  {
    ModSum(x + y, e);
    ModSum(x + e, y);
  }

  /** The sixteen words that the schedule still needs for word `t`, each at its
      number modulo sixteen. */
  ghost predicate Holds(W: array<Word>, block: seq<Bytes.Byte>, t: nat)
    reads W
  {
    W.Length == 16 && 16 <= t && |block| == 64 && forall j: nat :: t - 16 <= j < t ==> W[j % 16] == Schedule(block, j)
  }

  /** Computes word `t` of the schedule over the oldest of the sixteen. */
  method Rot(W: array<Word>, t: nat, ghost block: seq<Bytes.Byte>) returns (w: Word)
    requires Holds(W, block, t)
    modifies W
    ensures Holds(W, block, t + 1) && w == Schedule(block, t)
  {
    hide Schedule, Xor, RotL, RotatedLeft;
    assert t % 16 == (t - 16) % 16;
    var temp := Xor(Xor(Xor(W[(t - 3) % 16], W[(t - 8) % 16]), W[(t - 14) % 16]), W[t % 16]);
    RotatedLeftIs(temp, 1);
    NextWord(block, t);
    W[t % 16] := RotatedLeft(temp, 1);
    w := W[t % 16];
    forall j: nat | t - 15 <= j < t
      ensures j % 16 != t % 16
    {
      Apart(j, t);
    }
  }

  lemma {:induction false} Apart(j: nat, t: nat)
    requires t - 15 <= j < t
    ensures j % 16 != t % 16
  {
  }

  /** Reads the sixteen words of a block. */
  method LoadBlock(W: array<Word>, data: seq<Bytes.Byte>)
    requires W.Length == 16 && |data| == 64
    modifies W
    ensures Holds(W, data, 16)
  {
    var i := 0;
    while i < 16
      invariant 0 <= i <= 16 && forall j :: 0 <= j < i ==> W[j] == Schedule(data, j)
    {
      W[i] := WordAt(data, 4 * i);
      i := i + 1;
    }
  }

  /** Five rounds bring every register back to its place. */
  method FiveRounds(W: array<Word>, i: nat, start: Registers, ghost r: Registers, ghost block: seq<Bytes.Byte>)
    returns (last: Registers)
    requires i <= 10 && Holds(W, block, 16) && start == Rounds(r, block, i)
    ensures last == Rounds(r, block, i + 5)
  {
    hide Rounds, Schedule;
    var Registers(A, B, C, D, E) := start;
    E, B := Pad(A, B, C, D, E, W[i + 0], r, block, i + 0);
    D, A := Pad(E, A, B, C, D, W[i + 1], r, block, i + 1);
    C, E := Pad(D, E, A, B, C, W[i + 2], r, block, i + 2);
    B, D := Pad(C, D, E, A, B, W[i + 3], r, block, i + 3);
    A, C := Pad(B, C, D, E, A, W[i + 4], r, block, i + 4);
    last := Registers(A, B, C, D, E);
  }

  /** The last of the sixteen words, and four that are computed. */
  method Fifteen(W: array<Word>, start: Registers, ghost r: Registers, ghost block: seq<Bytes.Byte>)
    returns (last: Registers)
    requires Holds(W, block, 16) && start == Rounds(r, block, 15)
    modifies W
    ensures Holds(W, block, 20) && last == Rounds(r, block, 20)
  {
    hide Rounds, Schedule;
    var Registers(A, B, C, D, E) := start;
    E, B := Pad(A, B, C, D, E, W[15], r, block, 15);
    var w := Rot(W, 16, block);
    D, A := Pad(E, A, B, C, D, w, r, block, 16);
    w := Rot(W, 17, block);
    C, E := Pad(D, E, A, B, C, w, r, block, 17);
    w := Rot(W, 18, block);
    B, D := Pad(C, D, E, A, B, w, r, block, 18);
    w := Rot(W, 19, block);
    A, C := Pad(B, C, D, E, A, w, r, block, 19);
    last := Registers(A, B, C, D, E);
  }

  /** Five rounds whose words are computed on the way. */
  method FiveMore(W: array<Word>, i: nat, start: Registers, ghost r: Registers, ghost block: seq<Bytes.Byte>)
    returns (last: Registers)
    requires Holds(W, block, i) && start == Rounds(r, block, i)
    modifies W
    ensures Holds(W, block, i + 5) && last == Rounds(r, block, i + 5)
  {
    hide Rounds, Schedule;
    var w := 0;
    var Registers(A, B, C, D, E) := start;
    w := Rot(W, i + 0, block);
    E, B := Pad(A, B, C, D, E, w, r, block, i + 0);
    w := Rot(W, i + 1, block);
    D, A := Pad(E, A, B, C, D, w, r, block, i + 1);
    w := Rot(W, i + 2, block);
    C, E := Pad(D, E, A, B, C, w, r, block, i + 2);
    w := Rot(W, i + 3, block);
    B, D := Pad(C, D, E, A, B, w, r, block, i + 3);
    w := Rot(W, i + 4, block);
    A, C := Pad(B, C, D, E, A, w, r, block, i + 4);
    last := Registers(A, B, C, D, E);
  }

  /** The hash value after the block `data`. */
  method Process(h: seq<Word>, data: seq<Bytes.Byte>) returns (h': seq<Word>)
    requires |h| == 5 && |data| == 64
    ensures h' == Compress(h, data)
  {
    hide Rounds, Schedule, Add, Sums;
    var W := new Word[16];
    var regs := Load(h);
    ghost var r, block := regs, data;
    NoRounds(r, block);
    LoadBlock(W, data);
    var i := 0;
    while i < 15
      invariant 0 <= i <= 15 && i % 5 == 0 && Holds(W, block, 16) && regs == Rounds(r, block, i)
    {
      regs := FiveRounds(W, i, regs, r, block);
      i := i + 5;
    }
    regs := Fifteen(W, regs, r, block);
    i := 20;
    while i < 80
      invariant 20 <= i <= 80 && i % 5 == 0 && Holds(W, block, i) && regs == Rounds(r, block, i)
    {
      regs := FiveMore(W, i, regs, r, block);
      i := i + 5;
    }
    h' := Sums(h, regs);
  }
}
