/** Bytes as bit vectors: their products in GF(2^8), and the entries of the
    substitution table one by one. */
module Octets {
  predicate On(b: bv8, i: nat)
    requires i < 8
  {
    match i
    case 0 => b & 0x01 != 0
    case 1 => b & 0x02 != 0
    case 2 => b & 0x04 != 0
    case 3 => b & 0x08 != 0
    case 4 => b & 0x10 != 0
    case 5 => b & 0x20 != 0
    case 6 => b & 0x40 != 0
    case _ => b & 0x80 != 0
  }

  function One(c: bool): (n: nat)
    ensures n <= 1
  {
    if c then 1 else 0
  }

  function Unit(c: bv8): (n: nat)
    ensures n <= 1
  {
    if c != 0 then 1 else 0
  }

  /** The number of a bit vector. */
  function Value(b: bv8): (n: nat)
    ensures n < 256
  {
    Unit(b & 0x01) + 2 * Unit(b & 0x02) + 4 * Unit(b & 0x04) + 8 * Unit(b & 0x08)
    + 16 * Unit(b & 0x10) + 32 * Unit(b & 0x20) + 64 * Unit(b & 0x40) + 128 * Unit(b & 0x80)
  }

  /** The product with x. */
  function Doubled(b: bv8): bv8 {
    (b << 1) ^ if b & 0x80 != 0 then 0x1b else 0
  }

  function If(c: bv8, b: bv8): bv8 {
    if c != 0 then b else 0
  }

  function Sum(a: bv8, b: bv8): bv8 {
    a ^ b
  }

  /** The sum of the products with the first four powers of x that are chosen. */
  function Quarter(c0: bv8, c1: bv8, c2: bv8, c3: bv8, b: bv8): bv8 {
    If(c0, b) ^ If(c1, Doubled(b)) ^ If(c2, Doubled(Doubled(b))) ^ If(c3, Doubled(Doubled(Doubled(b))))
  }

  function Times(a: bv8, b: bv8): bv8 {
    Quarter(a & 0x01, a & 0x02, a & 0x04, a & 0x08, b) ^ Quarter(a & 0x10, a & 0x20, a & 0x40, a & 0x80, FourTimes(b))
  }

  /** The same and a rest, one by one. */
  function Chosen(c0: bv8, c1: bv8, c2: bv8, c3: bv8, b: bv8, rest: bv8): bv8 {
    Sum(If(c0, b), Sum(If(c1, Doubled(b)), Sum(If(c2, Doubled(Doubled(b))), Sum(If(c3, Doubled(Doubled(Doubled(b)))), rest))))
  }

  function FourTimes(b: bv8): bv8 {
    Doubled(Doubled(Doubled(Doubled(b))))
  }

  /** Section 5.1.1 of FIPS 197: every bit is summed with the fourth to the seventh after it, and with that of 0x63. */
  function Affine(b: bv8): bv8 {
    b ^ b.RotateLeft(1) ^ b.RotateLeft(2) ^ b.RotateLeft(3) ^ b.RotateLeft(4) ^ 0x63
  }

  /** `s` is the affine image of the inverse of `x`, or of zero for zero. */
  ghost predicate IsEntry(x: nat, s: nat) {
    exists a: bv8, b: bv8 ::
      Value(a) == x && Value(Affine(b)) == s && (x == 0 ==> b == 0) && (x != 0 ==> Times(a, b) == 1)
  }

  // ----- bit by bit -----

  lemma {:induction false} SumOn(a: bv8, b: bv8, i: nat)
    requires i < 8
    ensures On(Sum(a, b), i) <==> On(a, i) != On(b, i)
  {
    assert i == 0 || i == 1 || i == 2 || i == 3 || i == 4 || i == 5 || i == 6 || i == 7;
  }

  lemma {:induction false} DoubledOn(b: bv8, i: nat)
    requires i < 8
    ensures On(Doubled(b), i) <==> (0 < i && On(b, i - 1)) != ((i == 0 || i == 1 || i == 3 || i == 4) && On(b, 7))
  {
    assert i == 0 || i == 1 || i == 2 || i == 3 || i == 4 || i == 5 || i == 6 || i == 7;
  }

  lemma {:induction false} AffineOn(b: bv8, i: nat)
    requires i < 8
    ensures On(Affine(b), i) <==>
      ((((On(b, i) != On(b, (i + 4) % 8)) != On(b, (i + 5) % 8)) != On(b, (i + 6) % 8)) != On(b, (i + 7) % 8))
      != On(0x63, i)
  {
    assert i == 0 || i == 1 || i == 2 || i == 3 || i == 4 || i == 5 || i == 6 || i == 7;
  }

  lemma {:induction false} UnitOn(b: bv8)
    ensures Unit(b & 0x01) == One(On(b, 0)) && Unit(b & 0x02) == One(On(b, 1))
    ensures Unit(b & 0x04) == One(On(b, 2)) && Unit(b & 0x08) == One(On(b, 3))
    ensures Unit(b & 0x10) == One(On(b, 4)) && Unit(b & 0x20) == One(On(b, 5))
    ensures Unit(b & 0x40) == One(On(b, 6)) && Unit(b & 0x80) == One(On(b, 7))
  {
  }

  lemma {:induction false} OneByOne(c0: bv8, c1: bv8, c2: bv8, c3: bv8, b: bv8, rest: bv8)
    ensures Sum(Quarter(c0, c1, c2, c3, b), rest) == Chosen(c0, c1, c2, c3, b, rest)
  {
    hide Doubled, If;
  }

  lemma {:induction false} SumZero(b: bv8)
    ensures Sum(b, 0) == b
  {
  }

  lemma {:induction false} TwoQuarters(a: bv8, b: bv8)
    ensures Times(a, b) == Sum(Quarter(a & 0x01, a & 0x02, a & 0x04, a & 0x08, b),
                               Quarter(a & 0x10, a & 0x20, a & 0x40, a & 0x80, FourTimes(b)))
  {
    hide Quarter, FourTimes;
  }

  /** A product takes the bits of the first factor, one by one. */
  lemma {:induction false} ByBits(a: bv8, b: bv8)
    returns (c0: bv8, c1: bv8, c2: bv8, c3: bv8, c4: bv8, c5: bv8, c6: bv8, c7: bv8)
    ensures Times(a, b) == Chosen(c0, c1, c2, c3, b, Chosen(c4, c5, c6, c7, FourTimes(b), 0))
    ensures Value(a) == Unit(c0) + 2 * Unit(c1) + 4 * Unit(c2) + 8 * Unit(c3)
      + 16 * Unit(c4) + 32 * Unit(c5) + 64 * Unit(c6) + 128 * Unit(c7)
  {
    hide Unit, Quarter, Chosen, FourTimes, Sum, Times;
    TwoQuarters(a, b);
    c0, c1, c2, c3, c4, c5, c6, c7 := a & 0x01, a & 0x02, a & 0x04, a & 0x08, a & 0x10, a & 0x20, a & 0x40, a & 0x80;
    SumZero(Quarter(c4, c5, c6, c7, FourTimes(b)));
    OneByOne(c4, c5, c6, c7, FourTimes(b), 0);
    OneByOne(c0, c1, c2, c3, b, Quarter(c4, c5, c6, c7, FourTimes(b)));
  }

  // ----- the table -----

  lemma {:induction false} Entry(a: bv8, b: bv8, x: nat, s: nat)
    requires Value(a) == x && Value(Affine(b)) == s && (x == 0 ==> b == 0) && (x != 0 ==> Times(a, b) == 1)
    ensures IsEntry(x, s)
  {
  }

  lemma {:induction false} EntryOfZero()
    ensures IsEntry(0, 0x63)
  {
    Entry(0, 0, 0, 0x63);
  }

  lemma {:induction false} EntryOfOne()
    ensures IsEntry(1, 0x7c)
  {
    Entry(1, 1, 1, 0x7c);
  }

  lemma {:induction false} Entries0()
    ensures IsEntry(2, 0x77) && IsEntry(3, 0x7b)
    ensures IsEntry(4, 0xf2) && IsEntry(5, 0x6b) && IsEntry(6, 0x6f) && IsEntry(7, 0xc5)
  {
    hide IsEntry;
    Entry(0x02, 0x8d, 2, 0x77); Entry(0x03, 0xf6, 3, 0x7b);
    Entry(0x04, 0xcb, 4, 0xf2); Entry(0x05, 0x52, 5, 0x6b);
    Entry(0x06, 0x7b, 6, 0x6f); Entry(0x07, 0xd1, 7, 0xc5);
  }

  lemma {:induction false} Entries8()
    ensures IsEntry(8, 0x30) && IsEntry(9, 0x01) && IsEntry(10, 0x67) && IsEntry(11, 0x2b)
    ensures IsEntry(12, 0xfe) && IsEntry(13, 0xd7) && IsEntry(14, 0xab) && IsEntry(15, 0x76)
  {
    hide IsEntry;
    Entry(0x08, 0xe8, 8, 0x30); Entry(0x09, 0x4f, 9, 0x01);
    Entry(0x0a, 0x29, 10, 0x67); Entry(0x0b, 0xc0, 11, 0x2b);
    Entry(0x0c, 0xb0, 12, 0xfe); Entry(0x0d, 0xe1, 13, 0xd7);
    Entry(0x0e, 0xe5, 14, 0xab); Entry(0x0f, 0xc7, 15, 0x76);
  }

  lemma {:induction false} Entries16()
    ensures IsEntry(16, 0xca) && IsEntry(17, 0x82) && IsEntry(18, 0xc9) && IsEntry(19, 0x7d)
    ensures IsEntry(20, 0xfa) && IsEntry(21, 0x59) && IsEntry(22, 0x47) && IsEntry(23, 0xf0)
  {
    hide IsEntry;
    Entry(0x10, 0x74, 16, 0xca); Entry(0x11, 0xb4, 17, 0x82);
    Entry(0x12, 0xaa, 18, 0xc9); Entry(0x13, 0x4b, 19, 0x7d);
    Entry(0x14, 0x99, 20, 0xfa); Entry(0x15, 0x2b, 21, 0x59);
    Entry(0x16, 0x60, 22, 0x47); Entry(0x17, 0x5f, 23, 0xf0);
  }

  lemma {:induction false} Entries24()
    ensures IsEntry(24, 0xad) && IsEntry(25, 0xd4) && IsEntry(26, 0xa2) && IsEntry(27, 0xaf)
    ensures IsEntry(28, 0x9c) && IsEntry(29, 0xa4) && IsEntry(30, 0x72) && IsEntry(31, 0xc0)
  {
    hide IsEntry;
    Entry(0x18, 0x58, 24, 0xad); Entry(0x19, 0x3f, 25, 0xd4);
    Entry(0x1a, 0xfd, 26, 0xa2); Entry(0x1b, 0xcc, 27, 0xaf);
    Entry(0x1c, 0xff, 28, 0x9c); Entry(0x1d, 0x40, 29, 0xa4);
    Entry(0x1e, 0xee, 30, 0x72); Entry(0x1f, 0xb2, 31, 0xc0);
  }

  lemma {:induction false} Entries32()
    ensures IsEntry(32, 0xb7) && IsEntry(33, 0xfd) && IsEntry(34, 0x93) && IsEntry(35, 0x26)
    ensures IsEntry(36, 0x36) && IsEntry(37, 0x3f) && IsEntry(38, 0xf7) && IsEntry(39, 0xcc)
  {
    hide IsEntry;
    Entry(0x20, 0x3a, 32, 0xb7); Entry(0x21, 0x6e, 33, 0xfd);
    Entry(0x22, 0x5a, 34, 0x93); Entry(0x23, 0xf1, 35, 0x26);
    Entry(0x24, 0x55, 36, 0x36); Entry(0x25, 0x4d, 37, 0x3f);
    Entry(0x26, 0xa8, 38, 0xf7); Entry(0x27, 0xc9, 39, 0xcc);
  }

  lemma {:induction false} Entries40()
    ensures IsEntry(40, 0x34) && IsEntry(41, 0xa5) && IsEntry(42, 0xe5) && IsEntry(43, 0xf1)
    ensures IsEntry(44, 0x71) && IsEntry(45, 0xd8) && IsEntry(46, 0x31) && IsEntry(47, 0x15)
  {
    hide IsEntry;
    Entry(0x28, 0xc1, 40, 0x34); Entry(0x29, 0x0a, 41, 0xa5);
    Entry(0x2a, 0x98, 42, 0xe5); Entry(0x2b, 0x15, 43, 0xf1);
    Entry(0x2c, 0x30, 44, 0x71); Entry(0x2d, 0x44, 45, 0xd8);
    Entry(0x2e, 0xa2, 46, 0x31); Entry(0x2f, 0xc2, 47, 0x15);
  }

  lemma {:induction false} Entries48()
    ensures IsEntry(48, 0x04) && IsEntry(49, 0xc7) && IsEntry(50, 0x23) && IsEntry(51, 0xc3)
    ensures IsEntry(52, 0x18) && IsEntry(53, 0x96) && IsEntry(54, 0x05) && IsEntry(55, 0x9a)
  {
    hide IsEntry;
    Entry(0x30, 0x2c, 48, 0x04); Entry(0x31, 0x45, 49, 0xc7);
    Entry(0x32, 0x92, 50, 0x23); Entry(0x33, 0x6c, 51, 0xc3);
    Entry(0x34, 0xf3, 52, 0x18); Entry(0x35, 0x39, 53, 0x96);
    Entry(0x36, 0x66, 54, 0x05); Entry(0x37, 0x42, 55, 0x9a);
  }

  lemma {:induction false} Entries56()
    ensures IsEntry(56, 0x07) && IsEntry(57, 0x12) && IsEntry(58, 0x80) && IsEntry(59, 0xe2)
    ensures IsEntry(60, 0xeb) && IsEntry(61, 0x27) && IsEntry(62, 0xb2) && IsEntry(63, 0x75)
  {
    hide IsEntry;
    Entry(0x38, 0xf2, 56, 0x07); Entry(0x39, 0x35, 57, 0x12);
    Entry(0x3a, 0x20, 58, 0x80); Entry(0x3b, 0x6f, 59, 0xe2);
    Entry(0x3c, 0x77, 60, 0xeb); Entry(0x3d, 0xbb, 61, 0x27);
    Entry(0x3e, 0x59, 62, 0xb2); Entry(0x3f, 0x19, 63, 0x75);
  }

  lemma {:induction false} Entries64()
    ensures IsEntry(64, 0x09) && IsEntry(65, 0x83) && IsEntry(66, 0x2c) && IsEntry(67, 0x1a)
    ensures IsEntry(68, 0x1b) && IsEntry(69, 0x6e) && IsEntry(70, 0x5a) && IsEntry(71, 0xa0)
  {
    hide IsEntry;
    Entry(0x40, 0x1d, 64, 0x09); Entry(0x41, 0xfe, 65, 0x83);
    Entry(0x42, 0x37, 66, 0x2c); Entry(0x43, 0x67, 67, 0x1a);
    Entry(0x44, 0x2d, 68, 0x1b); Entry(0x45, 0x31, 69, 0x6e);
    Entry(0x46, 0xf5, 70, 0x5a); Entry(0x47, 0x69, 71, 0xa0);
  }

  lemma {:induction false} Entries72()
    ensures IsEntry(72, 0x52) && IsEntry(73, 0x3b) && IsEntry(74, 0xd6) && IsEntry(75, 0xb3)
    ensures IsEntry(76, 0x29) && IsEntry(77, 0xe3) && IsEntry(78, 0x2f) && IsEntry(79, 0x84)
  {
    hide IsEntry;
    Entry(0x48, 0xa7, 72, 0x52); Entry(0x49, 0x64, 73, 0x3b);
    Entry(0x4a, 0xab, 74, 0xd6); Entry(0x4b, 0x13, 75, 0xb3);
    Entry(0x4c, 0x54, 76, 0x29); Entry(0x4d, 0x25, 77, 0xe3);
    Entry(0x4e, 0xe9, 78, 0x2f); Entry(0x4f, 0x09, 79, 0x84);
  }

  lemma {:induction false} Entries80()
    ensures IsEntry(80, 0x53) && IsEntry(81, 0xd1) && IsEntry(82, 0x00) && IsEntry(83, 0xed)
    ensures IsEntry(84, 0x20) && IsEntry(85, 0xfc) && IsEntry(86, 0xb1) && IsEntry(87, 0x5b)
  {
    hide IsEntry;
    Entry(0x50, 0xed, 80, 0x53); Entry(0x51, 0x5c, 81, 0xd1);
    Entry(0x52, 0x05, 82, 0x00); Entry(0x53, 0xca, 83, 0xed);
    Entry(0x54, 0x4c, 84, 0x20); Entry(0x55, 0x24, 85, 0xfc);
    Entry(0x56, 0x87, 86, 0xb1); Entry(0x57, 0xbf, 87, 0x5b);
  }

  lemma {:induction false} Entries88()
    ensures IsEntry(88, 0x6a) && IsEntry(89, 0xcb) && IsEntry(90, 0xbe) && IsEntry(91, 0x39)
    ensures IsEntry(92, 0x4a) && IsEntry(93, 0x4c) && IsEntry(94, 0x58) && IsEntry(95, 0xcf)
  {
    hide IsEntry;
    Entry(0x58, 0x18, 88, 0x6a); Entry(0x59, 0x3e, 89, 0xcb);
    Entry(0x5a, 0x22, 90, 0xbe); Entry(0x5b, 0xf0, 91, 0x39);
    Entry(0x5c, 0x51, 92, 0x4a); Entry(0x5d, 0xec, 93, 0x4c);
    Entry(0x5e, 0x61, 94, 0x58); Entry(0x5f, 0x17, 95, 0xcf);
  }

  lemma {:induction false} Entries96()
    ensures IsEntry(96, 0xd0) && IsEntry(97, 0xef) && IsEntry(98, 0xaa) && IsEntry(99, 0xfb)
    ensures IsEntry(100, 0x43) && IsEntry(101, 0x4d) && IsEntry(102, 0x33) && IsEntry(103, 0x85)
  {
    hide IsEntry;
    Entry(0x60, 0x16, 96, 0xd0); Entry(0x61, 0x5e, 97, 0xef);
    Entry(0x62, 0xaf, 98, 0xaa); Entry(0x63, 0xd3, 99, 0xfb);
    Entry(0x64, 0x49, 100, 0x43); Entry(0x65, 0xa6, 101, 0x4d);
    Entry(0x66, 0x36, 102, 0x33); Entry(0x67, 0x43, 103, 0x85);
  }

  lemma {:induction false} Entries104()
    ensures IsEntry(104, 0x45) && IsEntry(105, 0xf9) && IsEntry(106, 0x02) && IsEntry(107, 0x7f)
    ensures IsEntry(108, 0x50) && IsEntry(109, 0x3c) && IsEntry(110, 0x9f) && IsEntry(111, 0xa8)
  {
    hide IsEntry;
    Entry(0x68, 0xf4, 104, 0x45); Entry(0x69, 0x47, 105, 0xf9);
    Entry(0x6a, 0x91, 106, 0x02); Entry(0x6b, 0xdf, 107, 0x7f);
    Entry(0x6c, 0x33, 108, 0x50); Entry(0x6d, 0x93, 109, 0x3c);
    Entry(0x6e, 0x21, 110, 0x9f); Entry(0x6f, 0x3b, 111, 0xa8);
  }

  lemma {:induction false} Entries112()
    ensures IsEntry(112, 0x51) && IsEntry(113, 0xa3) && IsEntry(114, 0x40) && IsEntry(115, 0x8f)
    ensures IsEntry(116, 0x92) && IsEntry(117, 0x9d) && IsEntry(118, 0x38) && IsEntry(119, 0xf5)
  {
    hide IsEntry;
    Entry(0x70, 0x79, 112, 0x51); Entry(0x71, 0xb7, 113, 0xa3);
    Entry(0x72, 0x97, 114, 0x40); Entry(0x73, 0x85, 115, 0x8f);
    Entry(0x74, 0x10, 116, 0x92); Entry(0x75, 0xb5, 117, 0x9d);
    Entry(0x76, 0xba, 118, 0x38); Entry(0x77, 0x3c, 119, 0xf5);
  }

  lemma {:induction false} Entries120()
    ensures IsEntry(120, 0xbc) && IsEntry(121, 0xb6) && IsEntry(122, 0xda) && IsEntry(123, 0x21)
    ensures IsEntry(124, 0x10) && IsEntry(125, 0xff) && IsEntry(126, 0xf3) && IsEntry(127, 0xd2)
  {
    hide IsEntry;
    Entry(0x78, 0xb6, 120, 0xbc); Entry(0x79, 0x70, 121, 0xb6);
    Entry(0x7a, 0xd0, 122, 0xda); Entry(0x7b, 0x06, 123, 0x21);
    Entry(0x7c, 0xa1, 124, 0x10); Entry(0x7d, 0xfa, 125, 0xff);
    Entry(0x7e, 0x81, 126, 0xf3); Entry(0x7f, 0x82, 127, 0xd2);
  }

  lemma {:induction false} Entries128()
    ensures IsEntry(128, 0xcd) && IsEntry(129, 0x0c) && IsEntry(130, 0x13) && IsEntry(131, 0xec)
    ensures IsEntry(132, 0x5f) && IsEntry(133, 0x97) && IsEntry(134, 0x44) && IsEntry(135, 0x17)
  {
    hide IsEntry;
    Entry(0x80, 0x83, 128, 0xcd); Entry(0x81, 0x7e, 129, 0x0c);
    Entry(0x82, 0x7f, 130, 0x13); Entry(0x83, 0x80, 131, 0xec);
    Entry(0x84, 0x96, 132, 0x5f); Entry(0x85, 0x73, 133, 0x97);
    Entry(0x86, 0xbe, 134, 0x44); Entry(0x87, 0x56, 135, 0x17);
  }

  lemma {:induction false} Entries136()
    ensures IsEntry(136, 0xc4) && IsEntry(137, 0xa7) && IsEntry(138, 0x7e) && IsEntry(139, 0x3d)
    ensures IsEntry(140, 0x64) && IsEntry(141, 0x5d) && IsEntry(142, 0x19) && IsEntry(143, 0x73)
  {
    hide IsEntry;
    Entry(0x88, 0x9b, 136, 0xc4); Entry(0x89, 0x9e, 137, 0xa7);
    Entry(0x8a, 0x95, 138, 0x7e); Entry(0x8b, 0xd9, 139, 0x3d);
    Entry(0x8c, 0xf7, 140, 0x64); Entry(0x8d, 0x02, 141, 0x5d);
    Entry(0x8e, 0xb9, 142, 0x19); Entry(0x8f, 0xa4, 143, 0x73);
  }

  lemma {:induction false} Entries144()
    ensures IsEntry(144, 0x60) && IsEntry(145, 0x81) && IsEntry(146, 0x4f) && IsEntry(147, 0xdc)
    ensures IsEntry(148, 0x22) && IsEntry(149, 0x2a) && IsEntry(150, 0x90) && IsEntry(151, 0x88)
  {
    hide IsEntry;
    Entry(0x90, 0xde, 144, 0x60); Entry(0x91, 0x6a, 145, 0x81);
    Entry(0x92, 0x32, 146, 0x4f); Entry(0x93, 0x6d, 147, 0xdc);
    Entry(0x94, 0xd8, 148, 0x22); Entry(0x95, 0x8a, 149, 0x2a);
    Entry(0x96, 0x84, 150, 0x90); Entry(0x97, 0x72, 151, 0x88);
  }

  lemma {:induction false} Entries152()
    ensures IsEntry(152, 0x46) && IsEntry(153, 0xee) && IsEntry(154, 0xb8) && IsEntry(155, 0x14)
    ensures IsEntry(156, 0xde) && IsEntry(157, 0x5e) && IsEntry(158, 0x0b) && IsEntry(159, 0xdb)
  {
    hide IsEntry;
    Entry(0x98, 0x2a, 152, 0x46); Entry(0x99, 0x14, 153, 0xee);
    Entry(0x9a, 0x9f, 154, 0xb8); Entry(0x9b, 0x88, 155, 0x14);
    Entry(0x9c, 0xf9, 156, 0xde); Entry(0x9d, 0xdc, 157, 0x5e);
    Entry(0x9e, 0x89, 158, 0x0b); Entry(0x9f, 0x9a, 159, 0xdb);
  }

  lemma {:induction false} Entries160()
    ensures IsEntry(160, 0xe0) && IsEntry(161, 0x32) && IsEntry(162, 0x3a) && IsEntry(163, 0x0a)
    ensures IsEntry(164, 0x49) && IsEntry(165, 0x06) && IsEntry(166, 0x24) && IsEntry(167, 0x5c)
  {
    hide IsEntry;
    Entry(0xa0, 0xfb, 160, 0xe0); Entry(0xa1, 0x7c, 161, 0x32);
    Entry(0xa2, 0x2e, 162, 0x3a); Entry(0xa3, 0xc3, 163, 0x0a);
    Entry(0xa4, 0x8f, 164, 0x49); Entry(0xa5, 0xb8, 165, 0x06);
    Entry(0xa6, 0x65, 166, 0x24); Entry(0xa7, 0x48, 167, 0x5c);
  }

  lemma {:induction false} Entries168()
    ensures IsEntry(168, 0xc2) && IsEntry(169, 0xd3) && IsEntry(170, 0xac) && IsEntry(171, 0x62)
    ensures IsEntry(172, 0x91) && IsEntry(173, 0x95) && IsEntry(174, 0xe4) && IsEntry(175, 0x79)
  {
    hide IsEntry;
    Entry(0xa8, 0x26, 168, 0xc2); Entry(0xa9, 0xc8, 169, 0xd3);
    Entry(0xaa, 0x12, 170, 0xac); Entry(0xab, 0x4a, 171, 0x62);
    Entry(0xac, 0xce, 172, 0x91); Entry(0xad, 0xe7, 173, 0x95);
    Entry(0xae, 0xd2, 174, 0xe4); Entry(0xaf, 0x62, 175, 0x79);
  }

  lemma {:induction false} Entries176()
    ensures IsEntry(176, 0xe7) && IsEntry(177, 0xc8) && IsEntry(178, 0x37) && IsEntry(179, 0x6d)
    ensures IsEntry(180, 0x8d) && IsEntry(181, 0xd5) && IsEntry(182, 0x4e) && IsEntry(183, 0xa9)
  {
    hide IsEntry;
    Entry(0xb0, 0x0c, 176, 0xe7); Entry(0xb1, 0xe0, 177, 0xc8);
    Entry(0xb2, 0x1f, 178, 0x37); Entry(0xb3, 0xef, 179, 0x6d);
    Entry(0xb4, 0x11, 180, 0x8d); Entry(0xb5, 0x75, 181, 0xd5);
    Entry(0xb6, 0x78, 182, 0x4e); Entry(0xb7, 0x71, 183, 0xa9);
  }

  lemma {:induction false} Entries184()
    ensures IsEntry(184, 0x6c) && IsEntry(185, 0x56) && IsEntry(186, 0xf4) && IsEntry(187, 0xea)
    ensures IsEntry(188, 0x65) && IsEntry(189, 0x7a) && IsEntry(190, 0xae) && IsEntry(191, 0x08)
  {
    hide IsEntry;
    Entry(0xb8, 0xa5, 184, 0x6c); Entry(0xb9, 0x8e, 185, 0x56);
    Entry(0xba, 0x76, 186, 0xf4); Entry(0xbb, 0x3d, 187, 0xea);
    Entry(0xbc, 0xbd, 188, 0x65); Entry(0xbd, 0xbc, 189, 0x7a);
    Entry(0xbe, 0x86, 190, 0xae); Entry(0xbf, 0x57, 191, 0x08);
  }

  lemma {:induction false} Entries192()
    ensures IsEntry(192, 0xba) && IsEntry(193, 0x78) && IsEntry(194, 0x25) && IsEntry(195, 0x2e)
    ensures IsEntry(196, 0x1c) && IsEntry(197, 0xa6) && IsEntry(198, 0xb4) && IsEntry(199, 0xc6)
  {
    hide IsEntry;
    Entry(0xc0, 0x0b, 192, 0xba); Entry(0xc1, 0x28, 193, 0x78);
    Entry(0xc2, 0x2f, 194, 0x25); Entry(0xc3, 0xa3, 195, 0x2e);
    Entry(0xc4, 0xda, 196, 0x1c); Entry(0xc5, 0xd4, 197, 0xa6);
    Entry(0xc6, 0xe4, 198, 0xb4); Entry(0xc7, 0x0f, 199, 0xc6);
  }

  lemma {:induction false} Entries200()
    ensures IsEntry(200, 0xe8) && IsEntry(201, 0xdd) && IsEntry(202, 0x74) && IsEntry(203, 0x1f)
    ensures IsEntry(204, 0x4b) && IsEntry(205, 0xbd) && IsEntry(206, 0x8b) && IsEntry(207, 0x8a)
  {
    hide IsEntry;
    Entry(0xc8, 0xa9, 200, 0xe8); Entry(0xc9, 0x27, 201, 0xdd);
    Entry(0xca, 0x53, 202, 0x74); Entry(0xcb, 0x04, 203, 0x1f);
    Entry(0xcc, 0x1b, 204, 0x4b); Entry(0xcd, 0xfc, 205, 0xbd);
    Entry(0xce, 0xac, 206, 0x8b); Entry(0xcf, 0xe6, 207, 0x8a);
  }

  lemma {:induction false} Entries208()
    ensures IsEntry(208, 0x70) && IsEntry(209, 0x3e) && IsEntry(210, 0xb5) && IsEntry(211, 0x66)
    ensures IsEntry(212, 0x48) && IsEntry(213, 0x03) && IsEntry(214, 0xf6) && IsEntry(215, 0x0e)
  {
    hide IsEntry;
    Entry(0xd0, 0x7a, 208, 0x70); Entry(0xd1, 0x07, 209, 0x3e);
    Entry(0xd2, 0xae, 210, 0xb5); Entry(0xd3, 0x63, 211, 0x66);
    Entry(0xd4, 0xc5, 212, 0x48); Entry(0xd5, 0xdb, 213, 0x03);
    Entry(0xd6, 0xe2, 214, 0xf6); Entry(0xd7, 0xea, 215, 0x0e);
  }

  lemma {:induction false} Entries216()
    ensures IsEntry(216, 0x61) && IsEntry(217, 0x35) && IsEntry(218, 0x57) && IsEntry(219, 0xb9)
    ensures IsEntry(220, 0x86) && IsEntry(221, 0xc1) && IsEntry(222, 0x1d) && IsEntry(223, 0x9e)
  {
    hide IsEntry;
    Entry(0xd8, 0x94, 216, 0x61); Entry(0xd9, 0x8b, 217, 0x35);
    Entry(0xda, 0xc4, 218, 0x57); Entry(0xdb, 0xd5, 219, 0xb9);
    Entry(0xdc, 0x9d, 220, 0x86); Entry(0xdd, 0xf8, 221, 0xc1);
    Entry(0xde, 0x90, 222, 0x1d); Entry(0xdf, 0x6b, 223, 0x9e);
  }

  lemma {:induction false} Entries224()
    ensures IsEntry(224, 0xe1) && IsEntry(225, 0xf8) && IsEntry(226, 0x98) && IsEntry(227, 0x11)
    ensures IsEntry(228, 0x69) && IsEntry(229, 0xd9) && IsEntry(230, 0x8e) && IsEntry(231, 0x94)
  {
    hide IsEntry;
    Entry(0xe0, 0xb1, 224, 0xe1); Entry(0xe1, 0x0d, 225, 0xf8);
    Entry(0xe2, 0xd6, 226, 0x98); Entry(0xe3, 0xeb, 227, 0x11);
    Entry(0xe4, 0xc6, 228, 0x69); Entry(0xe5, 0x0e, 229, 0xd9);
    Entry(0xe6, 0xcf, 230, 0x8e); Entry(0xe7, 0xad, 231, 0x94);
  }

  lemma {:induction false} Entries232()
    ensures IsEntry(232, 0x9b) && IsEntry(233, 0x1e) && IsEntry(234, 0x87) && IsEntry(235, 0xe9)
    ensures IsEntry(236, 0xce) && IsEntry(237, 0x55) && IsEntry(238, 0x28) && IsEntry(239, 0xdf)
  {
    hide IsEntry;
    Entry(0xe8, 0x08, 232, 0x9b); Entry(0xe9, 0x4e, 233, 0x1e);
    Entry(0xea, 0xd7, 234, 0x87); Entry(0xeb, 0xe3, 235, 0xe9);
    Entry(0xec, 0x5d, 236, 0xce); Entry(0xed, 0x50, 237, 0x55);
    Entry(0xee, 0x1e, 238, 0x28); Entry(0xef, 0xb3, 239, 0xdf);
  }

  lemma {:induction false} Entries240()
    ensures IsEntry(240, 0x8c) && IsEntry(241, 0xa1) && IsEntry(242, 0x89) && IsEntry(243, 0x0d)
    ensures IsEntry(244, 0xbf) && IsEntry(245, 0xe6) && IsEntry(246, 0x42) && IsEntry(247, 0x68)
  {
    hide IsEntry;
    Entry(0xf0, 0x5b, 240, 0x8c); Entry(0xf1, 0x23, 241, 0xa1);
    Entry(0xf2, 0x38, 242, 0x89); Entry(0xf3, 0x34, 243, 0x0d);
    Entry(0xf4, 0x68, 244, 0xbf); Entry(0xf5, 0x46, 245, 0xe6);
    Entry(0xf6, 0x03, 246, 0x42); Entry(0xf7, 0x8c, 247, 0x68);
  }

  lemma {:induction false} Entries248()
    ensures IsEntry(248, 0x41) && IsEntry(249, 0x99) && IsEntry(250, 0x2d) && IsEntry(251, 0x0f)
    ensures IsEntry(252, 0xb0) && IsEntry(253, 0x54) && IsEntry(254, 0xbb) && IsEntry(255, 0x16)
  {
    hide IsEntry;
    Entry(0xf8, 0xdd, 248, 0x41); Entry(0xf9, 0x9c, 249, 0x99);
    Entry(0xfa, 0x7d, 250, 0x2d); Entry(0xfb, 0xa0, 251, 0x0f);
    Entry(0xfc, 0xcd, 252, 0xb0); Entry(0xfd, 0x1a, 253, 0x54);
    Entry(0xfe, 0x41, 254, 0xbb); Entry(0xff, 0x1c, 255, 0x16);
  }
}
