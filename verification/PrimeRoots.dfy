/** The first 64 prime numbers, found by a sieve, and the first bits of their cube roots. */
module PrimeRoots {
  /** No prime number up to 17 divides `n`, other than itself. */
  predicate Sieve(n: nat) {
    && 1 < n && (n == 2 || n % 2 != 0) && (n == 3 || n % 3 != 0) && (n == 5 || n % 5 != 0) && (n == 7 || n % 7 != 0)
    && (n == 11 || n % 11 != 0) && (n == 13 || n % 13 != 0) && (n == 17 || n % 17 != 0)
  }

  /** The numbers below `n` that pass. */
  function SieveCount(n: nat): nat {
    if n == 0 then 0 else SieveCount(n - 1) + if Sieve(n - 1) then 1 else 0
  }

  /** `c` is the square root of `n`, rounded down. */
  predicate IsSquareRoot(c: nat, n: nat) {
    c * c <= n < (c + 1) * (c + 1)
  }

  /** `c` is 2^32 times the cube root of `p`, rounded down. */
  predicate IsCubeRoot(c: nat, p: nat) {
    c * c * c <= p * 0x1_0000_0000_0000_0000_0000_0000 < (c + 1) * (c + 1) * (c + 1)
  }

  /** `k` is the first 32 bits of the fraction of the cube root of number `t` that passes. */
  ghost predicate CubeFraction(k: int, t: nat) {
    exists p: nat, c: nat ::
      p < 361 && Sieve(p) && SieveCount(p) == t && IsCubeRoot(c, p) && k == c % 0x1_0000_0000
  }

  lemma {:induction false} Fraction(t: nat, p: nat, c: nat, k: int)
    requires p < 361 && Sieve(p) && SieveCount(p) == t && IsCubeRoot(c, p) && k == c % 0x1_0000_0000
    ensures CubeFraction(k, t)
  {
  }

  /** Nothing from `a` to `b` passes. */
  predicate NonePass(a: nat, b: nat)
    decreases b - a
  {
    a >= b || (!Sieve(a) && NonePass(a + 1, b))
  }

  lemma {:induction false} NoMore(a: nat, b: nat)
    requires a <= b && NonePass(a, b)
    ensures SieveCount(b) == SieveCount(a)
    decreases b - a
  {
    hide Sieve;
    if a < b {
      NoMore(a + 1, b);
    }
  }

  /** `q` is the next number after `p` that passes. */
  lemma {:induction false} Next(p: nat, q: nat)
    requires p < q && Sieve(p) && NonePass(p + 1, q)
    ensures SieveCount(q) == SieveCount(p) + 1
  {
    hide Sieve;
    NoMore(p + 1, q);
  }

  // ----- the numbers that pass, eight at a time -----

  lemma {:induction false} Primes0()
    ensures Sieve(2) && SieveCount(2) == 0 && Sieve(3) && SieveCount(3) == 1
    ensures Sieve(5) && SieveCount(5) == 2 && Sieve(7) && SieveCount(7) == 3
    ensures Sieve(11) && SieveCount(11) == 4 && Sieve(13) && SieveCount(13) == 5
    ensures Sieve(17) && SieveCount(17) == 6 && Sieve(19) && SieveCount(19) == 7
    ensures SieveCount(23) == 8
  {
    NoMore(0, 2);
    hide SieveCount;
    assert NonePass(3, 3);
    Next(2, 3);
    assert NonePass(4, 5);
    Next(3, 5);
    assert NonePass(6, 7);
    Next(5, 7);
    assert NonePass(8, 11);
    Next(7, 11);
    assert NonePass(12, 13);
    Next(11, 13);
    assert NonePass(14, 17);
    Next(13, 17);
    assert NonePass(18, 19);
    Next(17, 19);
    assert NonePass(20, 23);
    Next(19, 23);
  }

  lemma {:induction false} Primes8()
    requires SieveCount(23) == 8
    ensures Sieve(23) && SieveCount(23) == 8 && Sieve(29) && SieveCount(29) == 9
    ensures Sieve(31) && SieveCount(31) == 10 && Sieve(37) && SieveCount(37) == 11
    ensures Sieve(41) && SieveCount(41) == 12 && Sieve(43) && SieveCount(43) == 13
    ensures Sieve(47) && SieveCount(47) == 14 && Sieve(53) && SieveCount(53) == 15
    ensures SieveCount(59) == 16
  {
    hide SieveCount;
    assert NonePass(24, 29);
    Next(23, 29);
    assert NonePass(30, 31);
    Next(29, 31);
    assert NonePass(32, 37);
    Next(31, 37);
    assert NonePass(38, 41);
    Next(37, 41);
    assert NonePass(42, 43);
    Next(41, 43);
    assert NonePass(44, 47);
    Next(43, 47);
    assert NonePass(48, 53);
    Next(47, 53);
    assert NonePass(54, 59);
    Next(53, 59);
  }

  lemma {:induction false} Primes16()
    requires SieveCount(59) == 16
    ensures Sieve(59) && SieveCount(59) == 16 && Sieve(61) && SieveCount(61) == 17
    ensures Sieve(67) && SieveCount(67) == 18 && Sieve(71) && SieveCount(71) == 19
    ensures Sieve(73) && SieveCount(73) == 20 && Sieve(79) && SieveCount(79) == 21
    ensures Sieve(83) && SieveCount(83) == 22 && Sieve(89) && SieveCount(89) == 23
    ensures SieveCount(97) == 24
  {
    hide SieveCount;
    assert NonePass(60, 61);
    Next(59, 61);
    assert NonePass(62, 67);
    Next(61, 67);
    assert NonePass(68, 71);
    Next(67, 71);
    assert NonePass(72, 73);
    Next(71, 73);
    assert NonePass(74, 79);
    Next(73, 79);
    assert NonePass(80, 83);
    Next(79, 83);
    assert NonePass(84, 89);
    Next(83, 89);
    assert NonePass(90, 97);
    Next(89, 97);
  }

  lemma {:induction false} Primes24()
    requires SieveCount(97) == 24
    ensures Sieve(97) && SieveCount(97) == 24 && Sieve(101) && SieveCount(101) == 25
    ensures Sieve(103) && SieveCount(103) == 26 && Sieve(107) && SieveCount(107) == 27
    ensures Sieve(109) && SieveCount(109) == 28 && Sieve(113) && SieveCount(113) == 29
    ensures Sieve(127) && SieveCount(127) == 30 && Sieve(131) && SieveCount(131) == 31
    ensures SieveCount(137) == 32
  {
    hide SieveCount;
    assert NonePass(98, 101);
    Next(97, 101);
    assert NonePass(102, 103);
    Next(101, 103);
    assert NonePass(104, 107);
    Next(103, 107);
    assert NonePass(108, 109);
    Next(107, 109);
    assert NonePass(110, 113);
    Next(109, 113);
    assert NonePass(114, 127);
    Next(113, 127);
    assert NonePass(128, 131);
    Next(127, 131);
    assert NonePass(132, 137);
    Next(131, 137);
  }

  lemma {:induction false} Primes32()
    requires SieveCount(137) == 32
    ensures Sieve(137) && SieveCount(137) == 32 && Sieve(139) && SieveCount(139) == 33
    ensures Sieve(149) && SieveCount(149) == 34 && Sieve(151) && SieveCount(151) == 35
    ensures Sieve(157) && SieveCount(157) == 36 && Sieve(163) && SieveCount(163) == 37
    ensures Sieve(167) && SieveCount(167) == 38 && Sieve(173) && SieveCount(173) == 39
    ensures SieveCount(179) == 40
  {
    hide SieveCount;
    assert NonePass(138, 139);
    Next(137, 139);
    assert NonePass(140, 149);
    Next(139, 149);
    assert NonePass(150, 151);
    Next(149, 151);
    assert NonePass(152, 157);
    Next(151, 157);
    assert NonePass(158, 163);
    Next(157, 163);
    assert NonePass(164, 167);
    Next(163, 167);
    assert NonePass(168, 173);
    Next(167, 173);
    assert NonePass(174, 179);
    Next(173, 179);
  }

  lemma {:induction false} Primes40()
    requires SieveCount(179) == 40
    ensures Sieve(179) && SieveCount(179) == 40 && Sieve(181) && SieveCount(181) == 41
    ensures Sieve(191) && SieveCount(191) == 42 && Sieve(193) && SieveCount(193) == 43
    ensures Sieve(197) && SieveCount(197) == 44 && Sieve(199) && SieveCount(199) == 45
    ensures Sieve(211) && SieveCount(211) == 46 && Sieve(223) && SieveCount(223) == 47
    ensures SieveCount(227) == 48
  {
    hide SieveCount;
    assert NonePass(180, 181);
    Next(179, 181);
    assert NonePass(182, 191);
    Next(181, 191);
    assert NonePass(192, 193);
    Next(191, 193);
    assert NonePass(194, 197);
    Next(193, 197);
    assert NonePass(198, 199);
    Next(197, 199);
    assert NonePass(200, 211);
    Next(199, 211);
    assert NonePass(212, 223);
    Next(211, 223);
    assert NonePass(224, 227);
    Next(223, 227);
  }

  lemma {:induction false} Primes48()
    requires SieveCount(227) == 48
    ensures Sieve(227) && SieveCount(227) == 48 && Sieve(229) && SieveCount(229) == 49
    ensures Sieve(233) && SieveCount(233) == 50 && Sieve(239) && SieveCount(239) == 51
    ensures Sieve(241) && SieveCount(241) == 52 && Sieve(251) && SieveCount(251) == 53
    ensures Sieve(257) && SieveCount(257) == 54 && Sieve(263) && SieveCount(263) == 55
    ensures SieveCount(269) == 56
  {
    hide SieveCount;
    assert NonePass(228, 229);
    Next(227, 229);
    assert NonePass(230, 233);
    Next(229, 233);
    assert NonePass(234, 239);
    Next(233, 239);
    assert NonePass(240, 241);
    Next(239, 241);
    assert NonePass(242, 251);
    Next(241, 251);
    assert NonePass(252, 257);
    Next(251, 257);
    assert NonePass(258, 263);
    Next(257, 263);
    assert NonePass(264, 269);
    Next(263, 269);
  }

  lemma {:induction false} Primes56()
    requires SieveCount(269) == 56
    ensures Sieve(269) && SieveCount(269) == 56 && Sieve(271) && SieveCount(271) == 57
    ensures Sieve(277) && SieveCount(277) == 58 && Sieve(281) && SieveCount(281) == 59
    ensures Sieve(283) && SieveCount(283) == 60 && Sieve(293) && SieveCount(293) == 61
    ensures Sieve(307) && SieveCount(307) == 62 && Sieve(311) && SieveCount(311) == 63
  {
    hide SieveCount;
    assert NonePass(270, 271);
    Next(269, 271);
    assert NonePass(272, 277);
    Next(271, 277);
    assert NonePass(278, 281);
    Next(277, 281);
    assert NonePass(282, 283);
    Next(281, 283);
    assert NonePass(284, 293);
    Next(283, 293);
    assert NonePass(294, 307);
    Next(293, 307);
    assert NonePass(308, 311);
    Next(307, 311);
  }

  // ----- their cube roots, four at a time -----

  lemma {:induction false} Fractions0()
    ensures CubeFraction(0x428A2F98, 0) && CubeFraction(0x71374491, 1)
    ensures CubeFraction(0xB5C0FBCF, 2) && CubeFraction(0xE9B5DBA5, 3)
  {
    Primes0();
    hide Sieve, SieveCount, CubeFraction;
    Fraction(0, 2, 0x1_428A2F98, 0x428A2F98);
    Fraction(1, 3, 0x1_71374491, 0x71374491);
    Fraction(2, 5, 0x1_B5C0FBCF, 0xB5C0FBCF);
    Fraction(3, 7, 0x1_E9B5DBA5, 0xE9B5DBA5);
  }

  lemma {:induction false} Fractions4()
    ensures CubeFraction(0x3956C25B, 4) && CubeFraction(0x59F111F1, 5)
    ensures CubeFraction(0x923F82A4, 6) && CubeFraction(0xAB1C5ED5, 7)
    ensures SieveCount(23) == 8
  {
    Primes0();
    hide Sieve, SieveCount, CubeFraction;
    Fraction(4, 11, 0x2_3956C25B, 0x3956C25B);
    Fraction(5, 13, 0x2_59F111F1, 0x59F111F1);
    Fraction(6, 17, 0x2_923F82A4, 0x923F82A4);
    Fraction(7, 19, 0x2_AB1C5ED5, 0xAB1C5ED5);
  }

  lemma {:induction false} Fractions8()
    requires SieveCount(23) == 8
    ensures CubeFraction(0xD807AA98, 8) && CubeFraction(0x12835B01, 9)
    ensures CubeFraction(0x243185BE, 10) && CubeFraction(0x550C7DC3, 11)
  {
    Primes8();
    hide Sieve, SieveCount, CubeFraction;
    Fraction(8, 23, 0x2_D807AA98, 0xD807AA98);
    Fraction(9, 29, 0x3_12835B01, 0x12835B01);
    Fraction(10, 31, 0x3_243185BE, 0x243185BE);
    Fraction(11, 37, 0x3_550C7DC3, 0x550C7DC3);
  }

  lemma {:induction false} Fractions12()
    requires SieveCount(23) == 8
    ensures CubeFraction(0x72BE5D74, 12) && CubeFraction(0x80DEB1FE, 13)
    ensures CubeFraction(0x9BDC06A7, 14) && CubeFraction(0xC19BF174, 15)
    ensures SieveCount(59) == 16
  {
    Primes8();
    hide Sieve, SieveCount, CubeFraction;
    Fraction(12, 41, 0x3_72BE5D74, 0x72BE5D74);
    Fraction(13, 43, 0x3_80DEB1FE, 0x80DEB1FE);
    Fraction(14, 47, 0x3_9BDC06A7, 0x9BDC06A7);
    Fraction(15, 53, 0x3_C19BF174, 0xC19BF174);
  }

  lemma {:induction false} Fractions16()
    requires SieveCount(59) == 16
    ensures CubeFraction(0xE49B69C1, 16) && CubeFraction(0xEFBE4786, 17)
    ensures CubeFraction(0x0FC19DC6, 18) && CubeFraction(0x240CA1CC, 19)
  {
    Primes16();
    hide Sieve, SieveCount, CubeFraction;
    Fraction(16, 59, 0x3_E49B69C1, 0xE49B69C1);
    Fraction(17, 61, 0x3_EFBE4786, 0xEFBE4786);
    Fraction(18, 67, 0x4_0FC19DC6, 0x0FC19DC6);
    Fraction(19, 71, 0x4_240CA1CC, 0x240CA1CC);
  }

  lemma {:induction false} Fractions20()
    requires SieveCount(59) == 16
    ensures CubeFraction(0x2DE92C6F, 20) && CubeFraction(0x4A7484AA, 21)
    ensures CubeFraction(0x5CB0A9DC, 22) && CubeFraction(0x76F988DA, 23)
    ensures SieveCount(97) == 24
  {
    Primes16();
    hide Sieve, SieveCount, CubeFraction;
    Fraction(20, 73, 0x4_2DE92C6F, 0x2DE92C6F);
    Fraction(21, 79, 0x4_4A7484AA, 0x4A7484AA);
    Fraction(22, 83, 0x4_5CB0A9DC, 0x5CB0A9DC);
    Fraction(23, 89, 0x4_76F988DA, 0x76F988DA);
  }

  lemma {:induction false} Fractions24()
    requires SieveCount(97) == 24
    ensures CubeFraction(0x983E5152, 24) && CubeFraction(0xA831C66D, 25)
    ensures CubeFraction(0xB00327C8, 26) && CubeFraction(0xBF597FC7, 27)
  {
    Primes24();
    hide Sieve, SieveCount, CubeFraction;
    Fraction(24, 97, 0x4_983E5152, 0x983E5152);
    Fraction(25, 101, 0x4_A831C66D, 0xA831C66D);
    Fraction(26, 103, 0x4_B00327C8, 0xB00327C8);
    Fraction(27, 107, 0x4_BF597FC7, 0xBF597FC7);
  }

  lemma {:induction false} Fractions28()
    requires SieveCount(97) == 24
    ensures CubeFraction(0xC6E00BF3, 28) && CubeFraction(0xD5A79147, 29)
    ensures CubeFraction(0x06CA6351, 30) && CubeFraction(0x14292967, 31)
    ensures SieveCount(137) == 32
  {
    Primes24();
    hide Sieve, SieveCount, CubeFraction;
    Fraction(28, 109, 0x4_C6E00BF3, 0xC6E00BF3);
    Fraction(29, 113, 0x4_D5A79147, 0xD5A79147);
    Fraction(30, 127, 0x5_06CA6351, 0x06CA6351);
    Fraction(31, 131, 0x5_14292967, 0x14292967);
  }

  lemma {:induction false} Fractions32()
    requires SieveCount(137) == 32
    ensures CubeFraction(0x27B70A85, 32) && CubeFraction(0x2E1B2138, 33)
    ensures CubeFraction(0x4D2C6DFC, 34) && CubeFraction(0x53380D13, 35)
  {
    Primes32();
    hide Sieve, SieveCount, CubeFraction;
    Fraction(32, 137, 0x5_27B70A85, 0x27B70A85);
    Fraction(33, 139, 0x5_2E1B2138, 0x2E1B2138);
    Fraction(34, 149, 0x5_4D2C6DFC, 0x4D2C6DFC);
    Fraction(35, 151, 0x5_53380D13, 0x53380D13);
  }

  lemma {:induction false} Fractions36()
    requires SieveCount(137) == 32
    ensures CubeFraction(0x650A7354, 36) && CubeFraction(0x766A0ABB, 37)
    ensures CubeFraction(0x81C2C92E, 38) && CubeFraction(0x92722C85, 39)
    ensures SieveCount(179) == 40
  {
    Primes32();
    hide Sieve, SieveCount, CubeFraction;
    Fraction(36, 157, 0x5_650A7354, 0x650A7354);
    Fraction(37, 163, 0x5_766A0ABB, 0x766A0ABB);
    Fraction(38, 167, 0x5_81C2C92E, 0x81C2C92E);
    Fraction(39, 173, 0x5_92722C85, 0x92722C85);
  }

  lemma {:induction false} Fractions40()
    requires SieveCount(179) == 40
    ensures CubeFraction(0xA2BFE8A1, 40) && CubeFraction(0xA81A664B, 41)
    ensures CubeFraction(0xC24B8B70, 42) && CubeFraction(0xC76C51A3, 43)
  {
    Primes40();
    hide Sieve, SieveCount, CubeFraction;
    Fraction(40, 179, 0x5_A2BFE8A1, 0xA2BFE8A1);
    Fraction(41, 181, 0x5_A81A664B, 0xA81A664B);
    Fraction(42, 191, 0x5_C24B8B70, 0xC24B8B70);
    Fraction(43, 193, 0x5_C76C51A3, 0xC76C51A3);
  }

  lemma {:induction false} Fractions44()
    requires SieveCount(179) == 40
    ensures CubeFraction(0xD192E819, 44) && CubeFraction(0xD6990624, 45)
    ensures CubeFraction(0xF40E3585, 46) && CubeFraction(0x106AA070, 47)
    ensures SieveCount(227) == 48
  {
    Primes40();
    hide Sieve, SieveCount, CubeFraction;
    Fraction(44, 197, 0x5_D192E819, 0xD192E819);
    Fraction(45, 199, 0x5_D6990624, 0xD6990624);
    Fraction(46, 211, 0x5_F40E3585, 0xF40E3585);
    Fraction(47, 223, 0x6_106AA070, 0x106AA070);
  }

  lemma {:induction false} Fractions48()
    requires SieveCount(227) == 48
    ensures CubeFraction(0x19A4C116, 48) && CubeFraction(0x1E376C08, 49)
    ensures CubeFraction(0x2748774C, 50) && CubeFraction(0x34B0BCB5, 51)
  {
    Primes48();
    hide Sieve, SieveCount, CubeFraction;
    Fraction(48, 227, 0x6_19A4C116, 0x19A4C116);
    Fraction(49, 229, 0x6_1E376C08, 0x1E376C08);
    Fraction(50, 233, 0x6_2748774C, 0x2748774C);
    Fraction(51, 239, 0x6_34B0BCB5, 0x34B0BCB5);
  }

  lemma {:induction false} Fractions52()
    requires SieveCount(227) == 48
    ensures CubeFraction(0x391C0CB3, 52) && CubeFraction(0x4ED8AA4A, 53)
    ensures CubeFraction(0x5B9CCA4F, 54) && CubeFraction(0x682E6FF3, 55)
    ensures SieveCount(269) == 56
  {
    Primes48();
    hide Sieve, SieveCount, CubeFraction;
    Fraction(52, 241, 0x6_391C0CB3, 0x391C0CB3);
    Fraction(53, 251, 0x6_4ED8AA4A, 0x4ED8AA4A);
    Fraction(54, 257, 0x6_5B9CCA4F, 0x5B9CCA4F);
    Fraction(55, 263, 0x6_682E6FF3, 0x682E6FF3);
  }

  lemma {:induction false} Fractions56()
    requires SieveCount(269) == 56
    ensures CubeFraction(0x748F82EE, 56) && CubeFraction(0x78A5636F, 57)
    ensures CubeFraction(0x84C87814, 58) && CubeFraction(0x8CC70208, 59)
  {
    Primes56();
    hide Sieve, SieveCount, CubeFraction;
    Fraction(56, 269, 0x6_748F82EE, 0x748F82EE);
    Fraction(57, 271, 0x6_78A5636F, 0x78A5636F);
    Fraction(58, 277, 0x6_84C87814, 0x84C87814);
    Fraction(59, 281, 0x6_8CC70208, 0x8CC70208);
  }

  lemma {:induction false} Fractions60()
    requires SieveCount(269) == 56
    ensures CubeFraction(0x90BEFFFA, 60) && CubeFraction(0xA4506CEB, 61)
    ensures CubeFraction(0xBEF9A3F7, 62) && CubeFraction(0xC67178F2, 63)
  {
    Primes56();
    hide Sieve, SieveCount, CubeFraction;
    Fraction(60, 283, 0x6_90BEFFFA, 0x90BEFFFA);
    Fraction(61, 293, 0x6_A4506CEB, 0xA4506CEB);
    Fraction(62, 307, 0x6_BEF9A3F7, 0xBEF9A3F7);
    Fraction(63, 311, 0x6_C67178F2, 0xC67178F2);
  }
}
