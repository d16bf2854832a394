/**
 * What pins the functions and constants of SHA-256 from outside: the bitwise
 * laws of section 4.1.2, the roots of section 5.3.3 and 4.2.2 of FIPS 180-4,
 * and the digest of the one-block message "abc".
 */
module Sha256Laws {
  import opened Bytes
  import opened Crc
  import opened Sha256

  // ---- the functions ----------------------------------------------------------

  /** Every bit of the first argument chooses between the other two. */
  lemma Chooses(x: bv32, y: bv32, z: bv32)
    ensures x & Ch(x, y, z) == x & y && !x & Ch(x, y, z) == !x & z
  {}

  /** In every bit, two arguments that agree outvote the third. */
  lemma Outvotes(x: bv32, y: bv32, z: bv32)
    ensures !(x ^ y) & Maj(x, y, z) == !(x ^ y) & x
    ensures !(x ^ z) & Maj(x, y, z) == !(x ^ z) & x
    ensures !(y ^ z) & Maj(x, y, z) == !(y ^ z) & y
  {
    hide Maj;
    FirstTwoOutvote(x, y, z);
    FirstTwoOutvote(x, z, y);
    FirstTwoOutvote(y, z, x);
    VotesCommute(x, y, z);
  }

  lemma FirstTwoOutvote(x: bv32, y: bv32, z: bv32)
    ensures !(x ^ y) & Maj(x, y, z) == !(x ^ y) & x
  {}

  lemma VotesCommute(x: bv32, y: bv32, z: bv32)
    ensures Maj(x, y, z) == Maj(x, z, y) == Maj(y, z, x)
  {}

  /** The sums of rotations, and of rotations and a shift, that the standard names. */
  lemma Rotates(x: bv32)
    ensures Rotr2_13_22(x) == x.RotateRight(2) ^ x.RotateRight(13) ^ x.RotateRight(22)
    ensures Rotr6_11_25(x) == x.RotateRight(6) ^ x.RotateRight(11) ^ x.RotateRight(25)
    ensures Sigma0(x) == x.RotateRight(7) ^ x.RotateRight(18) ^ (x >> 3)
    ensures Sigma1(x) == x.RotateRight(17) ^ x.RotateRight(19) ^ (x >> 10)
  {}

  // ---- the constants ----------------------------------------------------------

  const ROOT_UNIT: nat := 0x1_0000_0000

  /** `k` holds the first 32 bits of the fraction of the cube root of `p`, whose whole part is `a`. */
  predicate CubeRootBits(p: nat, a: nat, k: bv32) {
    var r: int := ROOT_UNIT * a + k as int;
    r * r * r <= p * ROOT_UNIT * ROOT_UNIT * ROOT_UNIT < (r + 1) * (r + 1) * (r + 1)
  }

  /** The same of the square root. */
  predicate SquareRootBits(p: nat, a: nat, k: bv32) {
    var r: int := ROOT_UNIT * a + k as int;
    r * r <= p * ROOT_UNIT * ROOT_UNIT < (r + 1) * (r + 1)
  }

  lemma KeyRow0()
    ensures K(0) == 0x428a2f98 && K(1) == 0x71374491 && K(2) == 0xb5c0fbcf && K(3) == 0xe9b5dba5
    ensures K(4) == 0x3956c25b && K(5) == 0x59f111f1 && K(6) == 0x923f82a4 && K(7) == 0xab1c5ed5
  {}

  lemma KeyRow1()
    ensures K(8) == 0xd807aa98 && K(9) == 0x12835b01 && K(10) == 0x243185be && K(11) == 0x550c7dc3
    ensures K(12) == 0x72be5d74 && K(13) == 0x80deb1fe && K(14) == 0x9bdc06a7 && K(15) == 0xc19bf174
  {}

  lemma KeyRow2()
    ensures K(16) == 0xe49b69c1 && K(17) == 0xefbe4786 && K(18) == 0x0fc19dc6 && K(19) == 0x240ca1cc
    ensures K(20) == 0x2de92c6f && K(21) == 0x4a7484aa && K(22) == 0x5cb0a9dc && K(23) == 0x76f988da
  {}

  lemma KeyRow3()
    ensures K(24) == 0x983e5152 && K(25) == 0xa831c66d && K(26) == 0xb00327c8 && K(27) == 0xbf597fc7
    ensures K(28) == 0xc6e00bf3 && K(29) == 0xd5a79147 && K(30) == 0x06ca6351 && K(31) == 0x14292967
  {}

  lemma KeyRow4()
    ensures K(32) == 0x27b70a85 && K(33) == 0x2e1b2138 && K(34) == 0x4d2c6dfc && K(35) == 0x53380d13
    ensures K(36) == 0x650a7354 && K(37) == 0x766a0abb && K(38) == 0x81c2c92e && K(39) == 0x92722c85
  {}

  lemma KeyRow5()
    ensures K(40) == 0xa2bfe8a1 && K(41) == 0xa81a664b && K(42) == 0xc24b8b70 && K(43) == 0xc76c51a3
    ensures K(44) == 0xd192e819 && K(45) == 0xd6990624 && K(46) == 0xf40e3585 && K(47) == 0x106aa070
  {}

  lemma KeyRow6()
    ensures K(48) == 0x19a4c116 && K(49) == 0x1e376c08 && K(50) == 0x2748774c && K(51) == 0x34b0bcb5
    ensures K(52) == 0x391c0cb3 && K(53) == 0x4ed8aa4a && K(54) == 0x5b9cca4f && K(55) == 0x682e6ff3
  {}

  lemma KeyRow7()
    ensures K(56) == 0x748f82ee && K(57) == 0x78a5636f && K(58) == 0x84c87814 && K(59) == 0x8cc70208
    ensures K(60) == 0x90befffa && K(61) == 0xa4506ceb && K(62) == 0xbef9a3f7 && K(63) == 0xc67178f2
  {}

  lemma CubeRow0()
    ensures CubeRootBits(2, 1, 0x428a2f98)
    ensures CubeRootBits(3, 1, 0x71374491)
    ensures CubeRootBits(5, 1, 0xb5c0fbcf)
    ensures CubeRootBits(7, 1, 0xe9b5dba5)
  {}

  lemma CubeRow1()
    ensures CubeRootBits(11, 2, 0x3956c25b)
    ensures CubeRootBits(13, 2, 0x59f111f1)
    ensures CubeRootBits(17, 2, 0x923f82a4)
    ensures CubeRootBits(19, 2, 0xab1c5ed5)
  {}

  lemma CubeRow2()
    ensures CubeRootBits(23, 2, 0xd807aa98)
    ensures CubeRootBits(29, 3, 0x12835b01)
    ensures CubeRootBits(31, 3, 0x243185be)
    ensures CubeRootBits(37, 3, 0x550c7dc3)
  {}

  lemma CubeRow3()
    ensures CubeRootBits(41, 3, 0x72be5d74)
    ensures CubeRootBits(43, 3, 0x80deb1fe)
    ensures CubeRootBits(47, 3, 0x9bdc06a7)
    ensures CubeRootBits(53, 3, 0xc19bf174)
  {}

  lemma CubeRow4()
    ensures CubeRootBits(59, 3, 0xe49b69c1)
    ensures CubeRootBits(61, 3, 0xefbe4786)
    ensures CubeRootBits(67, 4, 0x0fc19dc6)
    ensures CubeRootBits(71, 4, 0x240ca1cc)
  {}

  lemma CubeRow5()
    ensures CubeRootBits(73, 4, 0x2de92c6f)
    ensures CubeRootBits(79, 4, 0x4a7484aa)
    ensures CubeRootBits(83, 4, 0x5cb0a9dc)
    ensures CubeRootBits(89, 4, 0x76f988da)
  {}

  lemma CubeRow6()
    ensures CubeRootBits(97, 4, 0x983e5152)
    ensures CubeRootBits(101, 4, 0xa831c66d)
    ensures CubeRootBits(103, 4, 0xb00327c8)
    ensures CubeRootBits(107, 4, 0xbf597fc7)
  {}

  lemma CubeRow7()
    ensures CubeRootBits(109, 4, 0xc6e00bf3)
    ensures CubeRootBits(113, 4, 0xd5a79147)
    ensures CubeRootBits(127, 5, 0x06ca6351)
    ensures CubeRootBits(131, 5, 0x14292967)
  {}

  lemma CubeRow8()
    ensures CubeRootBits(137, 5, 0x27b70a85)
    ensures CubeRootBits(139, 5, 0x2e1b2138)
    ensures CubeRootBits(149, 5, 0x4d2c6dfc)
    ensures CubeRootBits(151, 5, 0x53380d13)
  {}

  lemma CubeRow9()
    ensures CubeRootBits(157, 5, 0x650a7354)
    ensures CubeRootBits(163, 5, 0x766a0abb)
    ensures CubeRootBits(167, 5, 0x81c2c92e)
    ensures CubeRootBits(173, 5, 0x92722c85)
  {}

  lemma CubeRow10()
    ensures CubeRootBits(179, 5, 0xa2bfe8a1)
    ensures CubeRootBits(181, 5, 0xa81a664b)
    ensures CubeRootBits(191, 5, 0xc24b8b70)
    ensures CubeRootBits(193, 5, 0xc76c51a3)
  {}

  lemma CubeRow11()
    ensures CubeRootBits(197, 5, 0xd192e819)
    ensures CubeRootBits(199, 5, 0xd6990624)
    ensures CubeRootBits(211, 5, 0xf40e3585)
    ensures CubeRootBits(223, 6, 0x106aa070)
  {}

  lemma CubeRow12()
    ensures CubeRootBits(227, 6, 0x19a4c116)
    ensures CubeRootBits(229, 6, 0x1e376c08)
    ensures CubeRootBits(233, 6, 0x2748774c)
    ensures CubeRootBits(239, 6, 0x34b0bcb5)
  {}

  lemma CubeRow13()
    ensures CubeRootBits(241, 6, 0x391c0cb3)
    ensures CubeRootBits(251, 6, 0x4ed8aa4a)
    ensures CubeRootBits(257, 6, 0x5b9cca4f)
    ensures CubeRootBits(263, 6, 0x682e6ff3)
  {}

  lemma CubeRow14()
    ensures CubeRootBits(269, 6, 0x748f82ee)
    ensures CubeRootBits(271, 6, 0x78a5636f)
    ensures CubeRootBits(277, 6, 0x84c87814)
    ensures CubeRootBits(281, 6, 0x8cc70208)
  {}

  lemma CubeRow15()
    ensures CubeRootBits(283, 6, 0x90befffa)
    ensures CubeRootBits(293, 6, 0xa4506ceb)
    ensures CubeRootBits(307, 6, 0xbef9a3f7)
    ensures CubeRootBits(311, 6, 0xc67178f2)
  {}

  // The round constants are the fractions of the cube roots of the first sixty-four primes.

  lemma ConstantRow0()
    ensures CubeRootBits(2, 1, K(0))
    ensures CubeRootBits(3, 1, K(1))
    ensures CubeRootBits(5, 1, K(2))
    ensures CubeRootBits(7, 1, K(3))
    ensures CubeRootBits(11, 2, K(4))
    ensures CubeRootBits(13, 2, K(5))
    ensures CubeRootBits(17, 2, K(6))
    ensures CubeRootBits(19, 2, K(7))
  {
    hide CubeRootBits, K;
    KeyRow0();
    CubeRow0();
    CubeRow1();
  }

  lemma ConstantRow1()
    ensures CubeRootBits(23, 2, K(8))
    ensures CubeRootBits(29, 3, K(9))
    ensures CubeRootBits(31, 3, K(10))
    ensures CubeRootBits(37, 3, K(11))
    ensures CubeRootBits(41, 3, K(12))
    ensures CubeRootBits(43, 3, K(13))
    ensures CubeRootBits(47, 3, K(14))
    ensures CubeRootBits(53, 3, K(15))
  {
    hide CubeRootBits, K;
    KeyRow1();
    CubeRow2();
    CubeRow3();
  }

  lemma ConstantRow2()
    ensures CubeRootBits(59, 3, K(16))
    ensures CubeRootBits(61, 3, K(17))
    ensures CubeRootBits(67, 4, K(18))
    ensures CubeRootBits(71, 4, K(19))
    ensures CubeRootBits(73, 4, K(20))
    ensures CubeRootBits(79, 4, K(21))
    ensures CubeRootBits(83, 4, K(22))
    ensures CubeRootBits(89, 4, K(23))
  {
    hide CubeRootBits, K;
    KeyRow2();
    CubeRow4();
    CubeRow5();
  }

  lemma ConstantRow3()
    ensures CubeRootBits(97, 4, K(24))
    ensures CubeRootBits(101, 4, K(25))
    ensures CubeRootBits(103, 4, K(26))
    ensures CubeRootBits(107, 4, K(27))
    ensures CubeRootBits(109, 4, K(28))
    ensures CubeRootBits(113, 4, K(29))
    ensures CubeRootBits(127, 5, K(30))
    ensures CubeRootBits(131, 5, K(31))
  {
    hide CubeRootBits, K;
    KeyRow3();
    CubeRow6();
    CubeRow7();
  }

  lemma ConstantRow4()
    ensures CubeRootBits(137, 5, K(32))
    ensures CubeRootBits(139, 5, K(33))
    ensures CubeRootBits(149, 5, K(34))
    ensures CubeRootBits(151, 5, K(35))
    ensures CubeRootBits(157, 5, K(36))
    ensures CubeRootBits(163, 5, K(37))
    ensures CubeRootBits(167, 5, K(38))
    ensures CubeRootBits(173, 5, K(39))
  {
    hide CubeRootBits, K;
    KeyRow4();
    CubeRow8();
    CubeRow9();
  }

  lemma ConstantRow5()
    ensures CubeRootBits(179, 5, K(40))
    ensures CubeRootBits(181, 5, K(41))
    ensures CubeRootBits(191, 5, K(42))
    ensures CubeRootBits(193, 5, K(43))
    ensures CubeRootBits(197, 5, K(44))
    ensures CubeRootBits(199, 5, K(45))
    ensures CubeRootBits(211, 5, K(46))
    ensures CubeRootBits(223, 6, K(47))
  {
    hide CubeRootBits, K;
    KeyRow5();
    CubeRow10();
    CubeRow11();
  }

  lemma ConstantRow6()
    ensures CubeRootBits(227, 6, K(48))
    ensures CubeRootBits(229, 6, K(49))
    ensures CubeRootBits(233, 6, K(50))
    ensures CubeRootBits(239, 6, K(51))
    ensures CubeRootBits(241, 6, K(52))
    ensures CubeRootBits(251, 6, K(53))
    ensures CubeRootBits(257, 6, K(54))
    ensures CubeRootBits(263, 6, K(55))
  {
    hide CubeRootBits, K;
    KeyRow6();
    CubeRow12();
    CubeRow13();
  }

  lemma ConstantRow7()
    ensures CubeRootBits(269, 6, K(56))
    ensures CubeRootBits(271, 6, K(57))
    ensures CubeRootBits(277, 6, K(58))
    ensures CubeRootBits(281, 6, K(59))
    ensures CubeRootBits(283, 6, K(60))
    ensures CubeRootBits(293, 6, K(61))
    ensures CubeRootBits(307, 6, K(62))
    ensures CubeRootBits(311, 6, K(63))
  {
    hide CubeRootBits, K;
    KeyRow7();
    CubeRow14();
    CubeRow15();
  }

  /** The initial words are the fractions of the square roots of the first eight. */
  lemma InitialIsRoots()
    ensures var h := Initial();
            && SquareRootBits(2, 1, h.a)
            && SquareRootBits(3, 1, h.b)
            && SquareRootBits(5, 2, h.c)
            && SquareRootBits(7, 2, h.d)
            && SquareRootBits(11, 3, h.e)
            && SquareRootBits(13, 3, h.f)
            && SquareRootBits(17, 4, h.g)
            && SquareRootBits(19, 4, h.h)
  {}

  // ---- the message "abc" -------------------------------------------------------

  const ABC: seq<byte> := [0x61, 0x62, 0x63]

  /** The only block of the padded message. */
  function AbcBlock(): (block: seq<byte>)
    ensures |block| == 64
  {
    [0x61, 0x62, 0x63, 0x80] + Fill(52, 0) + [0, 0, 0, 0, 0, 0, 0, 0x18]
  }

  lemma AbcPadded()
    ensures Padded(ABC) == AbcBlock()
  {
    AbcLength();
    assert ZeroCount(3) == 52;
    assert ABC + [0x80] == [0x61, 0x62, 0x63, 0x80];
  }

  lemma AbcLength()
    ensures BigEndian(Bits(3), 8) == [0, 0, 0, 0, 0, 0, 0, 0x18]
  {
    assert Bits(3) == 0x18;
    Zeros(7);
    assert BigEndian(0x18, 8) == BigEndian(0, 7) + [0x18];
  }

  lemma {:induction false} Zeros(k: nat)
    ensures BigEndian(0, k) == Fill(k, 0)
  {
    if k > 0 {
      Zeros(k - 1);
    }
  }

  lemma AbcJoins()
    ensures Join(Wide(0x80), Wide(0x63), Wide(0x62), Wide(0x61)) == 0x61626380
    ensures Join(Wide(0x18), Wide(0), Wide(0), Wide(0)) == 0x18
    ensures Join(Wide(0), Wide(0), Wide(0), Wide(0)) == 0
  {}

  lemma AbcBlockWord(t: nat)
    requires t < 16
    ensures BlockWord(AbcBlock(), t) == if t == 0 then 0x61626380 else if t == 15 then 0x18 else 0
  {
    hide Join, Wide;
    var block := AbcBlock();
    AbcJoins();
    if t == 0 {
      assert block[0] == 0x61 && block[1] == 0x62 && block[2] == 0x63 && block[3] == 0x80;
    } else if t == 15 {
      assert block[60] == 0 && block[61] == 0 && block[62] == 0 && block[63] == 0x18;
    } else {
      assert block[4 * t] == 0 && block[4 * t + 1] == 0 && block[4 * t + 2] == 0 && block[4 * t + 3] == 0;
    }
  }

  lemma AbcFirst(t: nat)
    requires t < 16
    ensures Schedule(AbcBlock(), t) == if t == 0 then 0x61626380 else if t == 15 then 0x18 else 0
  {
    hide BlockWord, AbcBlock, Extend;
    AbcBlockWord(t);
  }

  lemma AbcExtends0()
    ensures Extend(0x00000000, 0x00000000, 0x00000000, 0x61626380) == 0x61626380
    ensures Extend(0x00000018, 0x00000000, 0x00000000, 0x00000000) == 0x000f0000
    ensures Extend(0x61626380, 0x00000000, 0x00000000, 0x00000000) == 0x7da86405
    ensures Extend(0x000f0000, 0x00000000, 0x00000000, 0x00000000) == 0x600003c6
    ensures Extend(0x7da86405, 0x00000000, 0x00000000, 0x00000000) == 0x3e9d7b78
    ensures Extend(0x600003c6, 0x00000000, 0x00000000, 0x00000000) == 0x0183fc00
    ensures Extend(0x3e9d7b78, 0x00000018, 0x00000000, 0x00000000) == 0x12dcbfdb
    ensures Extend(0x0183fc00, 0x61626380, 0x00000000, 0x00000000) == 0xe2e2c38e
  {}

  lemma AbcExtends1()
    ensures Extend(0x12dcbfdb, 0x000f0000, 0x00000000, 0x00000000) == 0xc8215c1a
    ensures Extend(0xe2e2c38e, 0x7da86405, 0x00000000, 0x00000000) == 0xb73679a2
    ensures Extend(0xc8215c1a, 0x600003c6, 0x00000000, 0x00000000) == 0xe5bc3909
    ensures Extend(0xb73679a2, 0x3e9d7b78, 0x00000000, 0x00000000) == 0x32663c5b
    ensures Extend(0xe5bc3909, 0x0183fc00, 0x00000000, 0x00000000) == 0x9d209d67
    ensures Extend(0x32663c5b, 0x12dcbfdb, 0x00000000, 0x00000000) == 0xec8726cb
    ensures Extend(0x9d209d67, 0xe2e2c38e, 0x00000018, 0x00000000) == 0x702138a4
    ensures Extend(0xec8726cb, 0xc8215c1a, 0x61626380, 0x00000018) == 0xd3b7973b
  {}

  lemma AbcExtends2()
    ensures Extend(0x702138a4, 0xb73679a2, 0x000f0000, 0x61626380) == 0x93f5997f
    ensures Extend(0xd3b7973b, 0xe5bc3909, 0x7da86405, 0x000f0000) == 0x3b68ba73
    ensures Extend(0x93f5997f, 0x32663c5b, 0x600003c6, 0x7da86405) == 0xaff4ffc1
    ensures Extend(0x3b68ba73, 0x9d209d67, 0x3e9d7b78, 0x600003c6) == 0xf10a5c62
    ensures Extend(0xaff4ffc1, 0xec8726cb, 0x0183fc00, 0x3e9d7b78) == 0x0a8b3996
    ensures Extend(0xf10a5c62, 0x702138a4, 0x12dcbfdb, 0x0183fc00) == 0x72af830a
    ensures Extend(0x0a8b3996, 0xd3b7973b, 0xe2e2c38e, 0x12dcbfdb) == 0x9409e33e
    ensures Extend(0x72af830a, 0x93f5997f, 0xc8215c1a, 0xe2e2c38e) == 0x24641522
  {}

  lemma AbcExtends3()
    ensures Extend(0x9409e33e, 0x3b68ba73, 0xb73679a2, 0xc8215c1a) == 0x9f47bf94
    ensures Extend(0x24641522, 0xaff4ffc1, 0xe5bc3909, 0xb73679a2) == 0xf0a64f5a
    ensures Extend(0x9f47bf94, 0xf10a5c62, 0x32663c5b, 0xe5bc3909) == 0x3e246a79
    ensures Extend(0xf0a64f5a, 0x0a8b3996, 0x9d209d67, 0x32663c5b) == 0x27333ba3
    ensures Extend(0x3e246a79, 0x72af830a, 0xec8726cb, 0x9d209d67) == 0x0c4763f2
    ensures Extend(0x27333ba3, 0x9409e33e, 0x702138a4, 0xec8726cb) == 0x840abf27
    ensures Extend(0x0c4763f2, 0x24641522, 0xd3b7973b, 0x702138a4) == 0x7a290d5d
    ensures Extend(0x840abf27, 0x9f47bf94, 0x93f5997f, 0xd3b7973b) == 0x065c43da
  {}

  lemma AbcExtends4()
    ensures Extend(0x7a290d5d, 0xf0a64f5a, 0x3b68ba73, 0x93f5997f) == 0xfb3e89cb
    ensures Extend(0x065c43da, 0x3e246a79, 0xaff4ffc1, 0x3b68ba73) == 0xcc7617db
    ensures Extend(0xfb3e89cb, 0x27333ba3, 0xf10a5c62, 0xaff4ffc1) == 0xb9e66c34
    ensures Extend(0xcc7617db, 0x0c4763f2, 0x0a8b3996, 0xf10a5c62) == 0xa9993667
    ensures Extend(0xb9e66c34, 0x840abf27, 0x72af830a, 0x0a8b3996) == 0x84badedd
    ensures Extend(0xa9993667, 0x7a290d5d, 0x9409e33e, 0x72af830a) == 0xc21462bc
    ensures Extend(0x84badedd, 0x065c43da, 0x24641522, 0x9409e33e) == 0x1487472c
    ensures Extend(0xc21462bc, 0xfb3e89cb, 0x9f47bf94, 0x24641522) == 0xb20f7a99
  {}

  lemma AbcExtends5()
    ensures Extend(0x1487472c, 0xcc7617db, 0xf0a64f5a, 0x9f47bf94) == 0xef57b9cd
    ensures Extend(0xb20f7a99, 0xb9e66c34, 0x3e246a79, 0xf0a64f5a) == 0xebe6b238
    ensures Extend(0xef57b9cd, 0xa9993667, 0x27333ba3, 0x3e246a79) == 0x9fe3095e
    ensures Extend(0xebe6b238, 0x84badedd, 0x0c4763f2, 0x27333ba3) == 0x78bc8d4b
    ensures Extend(0x9fe3095e, 0xc21462bc, 0x840abf27, 0x0c4763f2) == 0xa43fcf15
    ensures Extend(0x78bc8d4b, 0x1487472c, 0x7a290d5d, 0x840abf27) == 0x668b2ff8
    ensures Extend(0xa43fcf15, 0xb20f7a99, 0x065c43da, 0x7a290d5d) == 0xeeaba2cc
    ensures Extend(0x668b2ff8, 0xef57b9cd, 0xfb3e89cb, 0x065c43da) == 0x12b1edeb
  {}

  lemma AbcWords0()
    ensures Schedule(AbcBlock(), 0) == 0x61626380
    ensures Schedule(AbcBlock(), 1) == 0x00000000
    ensures Schedule(AbcBlock(), 2) == 0x00000000
    ensures Schedule(AbcBlock(), 3) == 0x00000000
    ensures Schedule(AbcBlock(), 4) == 0x00000000
    ensures Schedule(AbcBlock(), 5) == 0x00000000
    ensures Schedule(AbcBlock(), 6) == 0x00000000
    ensures Schedule(AbcBlock(), 7) == 0x00000000
  {
    hide Schedule, Extend, AbcBlock;
    AbcFirst(0);
    AbcFirst(1);
    AbcFirst(2);
    AbcFirst(3);
    AbcFirst(4);
    AbcFirst(5);
    AbcFirst(6);
    AbcFirst(7);
  }

  lemma AbcWords1()
    ensures Schedule(AbcBlock(), 8) == 0x00000000
    ensures Schedule(AbcBlock(), 9) == 0x00000000
    ensures Schedule(AbcBlock(), 10) == 0x00000000
    ensures Schedule(AbcBlock(), 11) == 0x00000000
    ensures Schedule(AbcBlock(), 12) == 0x00000000
    ensures Schedule(AbcBlock(), 13) == 0x00000000
    ensures Schedule(AbcBlock(), 14) == 0x00000000
    ensures Schedule(AbcBlock(), 15) == 0x00000018
  {
    hide Schedule, Extend, AbcBlock;
    AbcFirst(8);
    AbcFirst(9);
    AbcFirst(10);
    AbcFirst(11);
    AbcFirst(12);
    AbcFirst(13);
    AbcFirst(14);
    AbcFirst(15);
  }

  lemma AbcWords2()
    ensures Schedule(AbcBlock(), 16) == 0x61626380
    ensures Schedule(AbcBlock(), 17) == 0x000f0000
    ensures Schedule(AbcBlock(), 18) == 0x7da86405
    ensures Schedule(AbcBlock(), 19) == 0x600003c6
    ensures Schedule(AbcBlock(), 20) == 0x3e9d7b78
    ensures Schedule(AbcBlock(), 21) == 0x0183fc00
    ensures Schedule(AbcBlock(), 22) == 0x12dcbfdb
    ensures Schedule(AbcBlock(), 23) == 0xe2e2c38e
  {
    hide Schedule, Extend, AbcBlock;
    AbcWords0();
    AbcWords1();
    AbcExtends0();
    ScheduleStep(AbcBlock(), 16);
    ScheduleStep(AbcBlock(), 17);
    ScheduleStep(AbcBlock(), 18);
    ScheduleStep(AbcBlock(), 19);
    ScheduleStep(AbcBlock(), 20);
    ScheduleStep(AbcBlock(), 21);
    ScheduleStep(AbcBlock(), 22);
    ScheduleStep(AbcBlock(), 23);
  }

  lemma AbcWords3()
    ensures Schedule(AbcBlock(), 24) == 0xc8215c1a
    ensures Schedule(AbcBlock(), 25) == 0xb73679a2
    ensures Schedule(AbcBlock(), 26) == 0xe5bc3909
    ensures Schedule(AbcBlock(), 27) == 0x32663c5b
    ensures Schedule(AbcBlock(), 28) == 0x9d209d67
    ensures Schedule(AbcBlock(), 29) == 0xec8726cb
    ensures Schedule(AbcBlock(), 30) == 0x702138a4
    ensures Schedule(AbcBlock(), 31) == 0xd3b7973b
  {
    hide Schedule, Extend, AbcBlock;
    AbcWords1();
    AbcWords2();
    AbcExtends1();
    ScheduleStep(AbcBlock(), 24);
    ScheduleStep(AbcBlock(), 25);
    ScheduleStep(AbcBlock(), 26);
    ScheduleStep(AbcBlock(), 27);
    ScheduleStep(AbcBlock(), 28);
    ScheduleStep(AbcBlock(), 29);
    ScheduleStep(AbcBlock(), 30);
    ScheduleStep(AbcBlock(), 31);
  }

  lemma AbcWords4()
    ensures Schedule(AbcBlock(), 32) == 0x93f5997f
    ensures Schedule(AbcBlock(), 33) == 0x3b68ba73
    ensures Schedule(AbcBlock(), 34) == 0xaff4ffc1
    ensures Schedule(AbcBlock(), 35) == 0xf10a5c62
    ensures Schedule(AbcBlock(), 36) == 0x0a8b3996
    ensures Schedule(AbcBlock(), 37) == 0x72af830a
    ensures Schedule(AbcBlock(), 38) == 0x9409e33e
    ensures Schedule(AbcBlock(), 39) == 0x24641522
  {
    hide Schedule, Extend, AbcBlock;
    AbcWords2();
    AbcWords3();
    AbcExtends2();
    ScheduleStep(AbcBlock(), 32);
    ScheduleStep(AbcBlock(), 33);
    ScheduleStep(AbcBlock(), 34);
    ScheduleStep(AbcBlock(), 35);
    ScheduleStep(AbcBlock(), 36);
    ScheduleStep(AbcBlock(), 37);
    ScheduleStep(AbcBlock(), 38);
    ScheduleStep(AbcBlock(), 39);
  }

  lemma AbcWords5()
    ensures Schedule(AbcBlock(), 40) == 0x9f47bf94
    ensures Schedule(AbcBlock(), 41) == 0xf0a64f5a
    ensures Schedule(AbcBlock(), 42) == 0x3e246a79
    ensures Schedule(AbcBlock(), 43) == 0x27333ba3
    ensures Schedule(AbcBlock(), 44) == 0x0c4763f2
    ensures Schedule(AbcBlock(), 45) == 0x840abf27
    ensures Schedule(AbcBlock(), 46) == 0x7a290d5d
    ensures Schedule(AbcBlock(), 47) == 0x065c43da
  {
    hide Schedule, Extend, AbcBlock;
    AbcWords3();
    AbcWords4();
    AbcExtends3();
    ScheduleStep(AbcBlock(), 40);
    ScheduleStep(AbcBlock(), 41);
    ScheduleStep(AbcBlock(), 42);
    ScheduleStep(AbcBlock(), 43);
    ScheduleStep(AbcBlock(), 44);
    ScheduleStep(AbcBlock(), 45);
    ScheduleStep(AbcBlock(), 46);
    ScheduleStep(AbcBlock(), 47);
  }

  lemma AbcWords6()
    ensures Schedule(AbcBlock(), 48) == 0xfb3e89cb
    ensures Schedule(AbcBlock(), 49) == 0xcc7617db
    ensures Schedule(AbcBlock(), 50) == 0xb9e66c34
    ensures Schedule(AbcBlock(), 51) == 0xa9993667
    ensures Schedule(AbcBlock(), 52) == 0x84badedd
    ensures Schedule(AbcBlock(), 53) == 0xc21462bc
    ensures Schedule(AbcBlock(), 54) == 0x1487472c
    ensures Schedule(AbcBlock(), 55) == 0xb20f7a99
  {
    hide Schedule, Extend, AbcBlock;
    AbcWords4();
    AbcWords5();
    AbcExtends4();
    ScheduleStep(AbcBlock(), 48);
    ScheduleStep(AbcBlock(), 49);
    ScheduleStep(AbcBlock(), 50);
    ScheduleStep(AbcBlock(), 51);
    ScheduleStep(AbcBlock(), 52);
    ScheduleStep(AbcBlock(), 53);
    ScheduleStep(AbcBlock(), 54);
    ScheduleStep(AbcBlock(), 55);
  }

  lemma AbcWords7()
    ensures Schedule(AbcBlock(), 56) == 0xef57b9cd
    ensures Schedule(AbcBlock(), 57) == 0xebe6b238
    ensures Schedule(AbcBlock(), 58) == 0x9fe3095e
    ensures Schedule(AbcBlock(), 59) == 0x78bc8d4b
    ensures Schedule(AbcBlock(), 60) == 0xa43fcf15
    ensures Schedule(AbcBlock(), 61) == 0x668b2ff8
    ensures Schedule(AbcBlock(), 62) == 0xeeaba2cc
    ensures Schedule(AbcBlock(), 63) == 0x12b1edeb
  {
    hide Schedule, Extend, AbcBlock;
    AbcWords5();
    AbcWords6();
    AbcExtends5();
    ScheduleStep(AbcBlock(), 56);
    ScheduleStep(AbcBlock(), 57);
    ScheduleStep(AbcBlock(), 58);
    ScheduleStep(AbcBlock(), 59);
    ScheduleStep(AbcBlock(), 60);
    ScheduleStep(AbcBlock(), 61);
    ScheduleStep(AbcBlock(), 62);
    ScheduleStep(AbcBlock(), 63);
  }

  // The working variables before each round, and after the last.
  const S0 := Words(0x6a09e667, 0xbb67ae85, 0x3c6ef372, 0xa54ff53a, 0x510e527f, 0x9b05688c, 0x1f83d9ab, 0x5be0cd19)
  const S1 := Words(0x5d6aebcd, 0x6a09e667, 0xbb67ae85, 0x3c6ef372, 0xfa2a4622, 0x510e527f, 0x9b05688c, 0x1f83d9ab)
  const S2 := Words(0x5a6ad9ad, 0x5d6aebcd, 0x6a09e667, 0xbb67ae85, 0x78ce7989, 0xfa2a4622, 0x510e527f, 0x9b05688c)
  const S3 := Words(0xc8c347a7, 0x5a6ad9ad, 0x5d6aebcd, 0x6a09e667, 0xf92939eb, 0x78ce7989, 0xfa2a4622, 0x510e527f)
  const S4 := Words(0xd550f666, 0xc8c347a7, 0x5a6ad9ad, 0x5d6aebcd, 0x24e00850, 0xf92939eb, 0x78ce7989, 0xfa2a4622)
  const S5 := Words(0x04409a6a, 0xd550f666, 0xc8c347a7, 0x5a6ad9ad, 0x43ada245, 0x24e00850, 0xf92939eb, 0x78ce7989)
  const S6 := Words(0x2b4209f5, 0x04409a6a, 0xd550f666, 0xc8c347a7, 0x714260ad, 0x43ada245, 0x24e00850, 0xf92939eb)
  const S7 := Words(0xe5030380, 0x2b4209f5, 0x04409a6a, 0xd550f666, 0x9b27a401, 0x714260ad, 0x43ada245, 0x24e00850)
  const S8 := Words(0x85a07b5f, 0xe5030380, 0x2b4209f5, 0x04409a6a, 0x0c657a79, 0x9b27a401, 0x714260ad, 0x43ada245)
  const S9 := Words(0x8e04ecb9, 0x85a07b5f, 0xe5030380, 0x2b4209f5, 0x32ca2d8c, 0x0c657a79, 0x9b27a401, 0x714260ad)
  const S10 := Words(0x8c87346b, 0x8e04ecb9, 0x85a07b5f, 0xe5030380, 0x1cc92596, 0x32ca2d8c, 0x0c657a79, 0x9b27a401)
  const S11 := Words(0x4798a3f4, 0x8c87346b, 0x8e04ecb9, 0x85a07b5f, 0x436b23e8, 0x1cc92596, 0x32ca2d8c, 0x0c657a79)
  const S12 := Words(0xf71fc5a9, 0x4798a3f4, 0x8c87346b, 0x8e04ecb9, 0x816fd6e9, 0x436b23e8, 0x1cc92596, 0x32ca2d8c)
  const S13 := Words(0x87912990, 0xf71fc5a9, 0x4798a3f4, 0x8c87346b, 0x1e578218, 0x816fd6e9, 0x436b23e8, 0x1cc92596)
  const S14 := Words(0xd932eb16, 0x87912990, 0xf71fc5a9, 0x4798a3f4, 0x745a48de, 0x1e578218, 0x816fd6e9, 0x436b23e8)
  const S15 := Words(0xc0645fde, 0xd932eb16, 0x87912990, 0xf71fc5a9, 0x0b92f20c, 0x745a48de, 0x1e578218, 0x816fd6e9)
  const S16 := Words(0xb0fa238e, 0xc0645fde, 0xd932eb16, 0x87912990, 0x07590dcd, 0x0b92f20c, 0x745a48de, 0x1e578218)
  const S17 := Words(0x21da9a9b, 0xb0fa238e, 0xc0645fde, 0xd932eb16, 0x8034229c, 0x07590dcd, 0x0b92f20c, 0x745a48de)
  const S18 := Words(0xc2fbd9d1, 0x21da9a9b, 0xb0fa238e, 0xc0645fde, 0x846ee454, 0x8034229c, 0x07590dcd, 0x0b92f20c)
  const S19 := Words(0xfe777bbf, 0xc2fbd9d1, 0x21da9a9b, 0xb0fa238e, 0xcc899961, 0x846ee454, 0x8034229c, 0x07590dcd)
  const S20 := Words(0xe1f20c33, 0xfe777bbf, 0xc2fbd9d1, 0x21da9a9b, 0xb0638179, 0xcc899961, 0x846ee454, 0x8034229c)
  const S21 := Words(0x9dc68b63, 0xe1f20c33, 0xfe777bbf, 0xc2fbd9d1, 0x8ada8930, 0xb0638179, 0xcc899961, 0x846ee454)
  const S22 := Words(0xc2606d6d, 0x9dc68b63, 0xe1f20c33, 0xfe777bbf, 0xe1257970, 0x8ada8930, 0xb0638179, 0xcc899961)
  const S23 := Words(0xa7a3623f, 0xc2606d6d, 0x9dc68b63, 0xe1f20c33, 0x49f5114a, 0xe1257970, 0x8ada8930, 0xb0638179)
  const S24 := Words(0xc5d53d8d, 0xa7a3623f, 0xc2606d6d, 0x9dc68b63, 0xaa47c347, 0x49f5114a, 0xe1257970, 0x8ada8930)
  const S25 := Words(0x1c2c2838, 0xc5d53d8d, 0xa7a3623f, 0xc2606d6d, 0x2823ef91, 0xaa47c347, 0x49f5114a, 0xe1257970)
  const S26 := Words(0xcde8037d, 0x1c2c2838, 0xc5d53d8d, 0xa7a3623f, 0x14383d8e, 0x2823ef91, 0xaa47c347, 0x49f5114a)
  const S27 := Words(0xb62ec4bc, 0xcde8037d, 0x1c2c2838, 0xc5d53d8d, 0xc74c6516, 0x14383d8e, 0x2823ef91, 0xaa47c347)
  const S28 := Words(0x77d37528, 0xb62ec4bc, 0xcde8037d, 0x1c2c2838, 0xedffbff8, 0xc74c6516, 0x14383d8e, 0x2823ef91)
  const S29 := Words(0x363482c9, 0x77d37528, 0xb62ec4bc, 0xcde8037d, 0x6112a3b7, 0xedffbff8, 0xc74c6516, 0x14383d8e)
  const S30 := Words(0xa0060b30, 0x363482c9, 0x77d37528, 0xb62ec4bc, 0xade79437, 0x6112a3b7, 0xedffbff8, 0xc74c6516)
  const S31 := Words(0xea992a22, 0xa0060b30, 0x363482c9, 0x77d37528, 0x0109ab3a, 0xade79437, 0x6112a3b7, 0xedffbff8)
  const S32 := Words(0x73b33bf5, 0xea992a22, 0xa0060b30, 0x363482c9, 0xba591112, 0x0109ab3a, 0xade79437, 0x6112a3b7)
  const S33 := Words(0x98e12507, 0x73b33bf5, 0xea992a22, 0xa0060b30, 0x9cd9f5f6, 0xba591112, 0x0109ab3a, 0xade79437)
  const S34 := Words(0xfe604df5, 0x98e12507, 0x73b33bf5, 0xea992a22, 0x59249dd3, 0x9cd9f5f6, 0xba591112, 0x0109ab3a)
  const S35 := Words(0xa9a7738c, 0xfe604df5, 0x98e12507, 0x73b33bf5, 0x085f3833, 0x59249dd3, 0x9cd9f5f6, 0xba591112)
  const S36 := Words(0x65a0cfe4, 0xa9a7738c, 0xfe604df5, 0x98e12507, 0xf4b002d6, 0x085f3833, 0x59249dd3, 0x9cd9f5f6)
  const S37 := Words(0x41a65cb1, 0x65a0cfe4, 0xa9a7738c, 0xfe604df5, 0x0772a26b, 0xf4b002d6, 0x085f3833, 0x59249dd3)
  const S38 := Words(0x34df1604, 0x41a65cb1, 0x65a0cfe4, 0xa9a7738c, 0xa507a53d, 0x0772a26b, 0xf4b002d6, 0x085f3833)
  const S39 := Words(0x6dc57a8a, 0x34df1604, 0x41a65cb1, 0x65a0cfe4, 0xf0781bc8, 0xa507a53d, 0x0772a26b, 0xf4b002d6)
  const S40 := Words(0x79ea687a, 0x6dc57a8a, 0x34df1604, 0x41a65cb1, 0x1efbc0a0, 0xf0781bc8, 0xa507a53d, 0x0772a26b)
  const S41 := Words(0xd6670766, 0x79ea687a, 0x6dc57a8a, 0x34df1604, 0x26352d63, 0x1efbc0a0, 0xf0781bc8, 0xa507a53d)
  const S42 := Words(0xdf46652f, 0xd6670766, 0x79ea687a, 0x6dc57a8a, 0x838b2711, 0x26352d63, 0x1efbc0a0, 0xf0781bc8)
  const S43 := Words(0x17aa0dfe, 0xdf46652f, 0xd6670766, 0x79ea687a, 0xdecd4715, 0x838b2711, 0x26352d63, 0x1efbc0a0)
  const S44 := Words(0x9d4baf93, 0x17aa0dfe, 0xdf46652f, 0xd6670766, 0xfda24c2e, 0xdecd4715, 0x838b2711, 0x26352d63)
  const S45 := Words(0x26628815, 0x9d4baf93, 0x17aa0dfe, 0xdf46652f, 0xa80f11f0, 0xfda24c2e, 0xdecd4715, 0x838b2711)
  const S46 := Words(0x72ab4b91, 0x26628815, 0x9d4baf93, 0x17aa0dfe, 0xb7755da1, 0xa80f11f0, 0xfda24c2e, 0xdecd4715)
  const S47 := Words(0xa14c14b0, 0x72ab4b91, 0x26628815, 0x9d4baf93, 0xd57b94a9, 0xb7755da1, 0xa80f11f0, 0xfda24c2e)
  const S48 := Words(0x4172328d, 0xa14c14b0, 0x72ab4b91, 0x26628815, 0xfecf0bc6, 0xd57b94a9, 0xb7755da1, 0xa80f11f0)
  const S49 := Words(0x05757ceb, 0x4172328d, 0xa14c14b0, 0x72ab4b91, 0xbd714038, 0xfecf0bc6, 0xd57b94a9, 0xb7755da1)
  const S50 := Words(0xf11bfaa8, 0x05757ceb, 0x4172328d, 0xa14c14b0, 0x6e5c390c, 0xbd714038, 0xfecf0bc6, 0xd57b94a9)
  const S51 := Words(0x7a0508a1, 0xf11bfaa8, 0x05757ceb, 0x4172328d, 0x52f1ccf7, 0x6e5c390c, 0xbd714038, 0xfecf0bc6)
  const S52 := Words(0x886e7a22, 0x7a0508a1, 0xf11bfaa8, 0x05757ceb, 0x49231c1e, 0x52f1ccf7, 0x6e5c390c, 0xbd714038)
  const S53 := Words(0x101fd28f, 0x886e7a22, 0x7a0508a1, 0xf11bfaa8, 0x529e7d00, 0x49231c1e, 0x52f1ccf7, 0x6e5c390c)
  const S54 := Words(0xf5702fdb, 0x101fd28f, 0x886e7a22, 0x7a0508a1, 0x9f4787c3, 0x529e7d00, 0x49231c1e, 0x52f1ccf7)
  const S55 := Words(0x3ec45cdb, 0xf5702fdb, 0x101fd28f, 0x886e7a22, 0xe50e1b4f, 0x9f4787c3, 0x529e7d00, 0x49231c1e)
  const S56 := Words(0x38cc9913, 0x3ec45cdb, 0xf5702fdb, 0x101fd28f, 0x54cb266b, 0xe50e1b4f, 0x9f4787c3, 0x529e7d00)
  const S57 := Words(0xfcd1887b, 0x38cc9913, 0x3ec45cdb, 0xf5702fdb, 0x9b5e906c, 0x54cb266b, 0xe50e1b4f, 0x9f4787c3)
  const S58 := Words(0xc062d46f, 0xfcd1887b, 0x38cc9913, 0x3ec45cdb, 0x7e44008e, 0x9b5e906c, 0x54cb266b, 0xe50e1b4f)
  const S59 := Words(0xffb70472, 0xc062d46f, 0xfcd1887b, 0x38cc9913, 0x6d83bfc6, 0x7e44008e, 0x9b5e906c, 0x54cb266b)
  const S60 := Words(0xb6ae8fff, 0xffb70472, 0xc062d46f, 0xfcd1887b, 0xb21bad3d, 0x6d83bfc6, 0x7e44008e, 0x9b5e906c)
  const S61 := Words(0xb85e2ce9, 0xb6ae8fff, 0xffb70472, 0xc062d46f, 0x961f4894, 0xb21bad3d, 0x6d83bfc6, 0x7e44008e)
  const S62 := Words(0x04d24d6c, 0xb85e2ce9, 0xb6ae8fff, 0xffb70472, 0x948d25b6, 0x961f4894, 0xb21bad3d, 0x6d83bfc6)
  const S63 := Words(0xd39a2165, 0x04d24d6c, 0xb85e2ce9, 0xb6ae8fff, 0xfb121210, 0x948d25b6, 0x961f4894, 0xb21bad3d)
  const S64 := Words(0x506e3058, 0xd39a2165, 0x04d24d6c, 0xb85e2ce9, 0x5ef50f24, 0xfb121210, 0x948d25b6, 0x961f4894)
  const HASHED := Words(0xba7816bf, 0x8f01cfea, 0x414140de, 0x5dae2223, 0xb00361a3, 0x96177a9c, 0xb410ff61, 0xf20015ad)

  lemma AbcRounds0()
    ensures Round(S0, 0x428a2f98, 0x61626380) == S1
    ensures Round(S1, 0x71374491, 0x00000000) == S2
    ensures Round(S2, 0xb5c0fbcf, 0x00000000) == S3
    ensures Round(S3, 0xe9b5dba5, 0x00000000) == S4
  {}

  lemma AbcRounds1()
    ensures Round(S4, 0x3956c25b, 0x00000000) == S5
    ensures Round(S5, 0x59f111f1, 0x00000000) == S6
    ensures Round(S6, 0x923f82a4, 0x00000000) == S7
    ensures Round(S7, 0xab1c5ed5, 0x00000000) == S8
  {}

  lemma AbcRounds2()
    ensures Round(S8, 0xd807aa98, 0x00000000) == S9
    ensures Round(S9, 0x12835b01, 0x00000000) == S10
    ensures Round(S10, 0x243185be, 0x00000000) == S11
    ensures Round(S11, 0x550c7dc3, 0x00000000) == S12
  {}

  lemma AbcRounds3()
    ensures Round(S12, 0x72be5d74, 0x00000000) == S13
    ensures Round(S13, 0x80deb1fe, 0x00000000) == S14
    ensures Round(S14, 0x9bdc06a7, 0x00000000) == S15
    ensures Round(S15, 0xc19bf174, 0x00000018) == S16
  {}

  lemma AbcRounds4()
    ensures Round(S16, 0xe49b69c1, 0x61626380) == S17
    ensures Round(S17, 0xefbe4786, 0x000f0000) == S18
    ensures Round(S18, 0x0fc19dc6, 0x7da86405) == S19
    ensures Round(S19, 0x240ca1cc, 0x600003c6) == S20
  {}

  lemma AbcRounds5()
    ensures Round(S20, 0x2de92c6f, 0x3e9d7b78) == S21
    ensures Round(S21, 0x4a7484aa, 0x0183fc00) == S22
    ensures Round(S22, 0x5cb0a9dc, 0x12dcbfdb) == S23
    ensures Round(S23, 0x76f988da, 0xe2e2c38e) == S24
  {}

  lemma AbcRounds6()
    ensures Round(S24, 0x983e5152, 0xc8215c1a) == S25
    ensures Round(S25, 0xa831c66d, 0xb73679a2) == S26
    ensures Round(S26, 0xb00327c8, 0xe5bc3909) == S27
    ensures Round(S27, 0xbf597fc7, 0x32663c5b) == S28
  {}

  lemma AbcRounds7()
    ensures Round(S28, 0xc6e00bf3, 0x9d209d67) == S29
    ensures Round(S29, 0xd5a79147, 0xec8726cb) == S30
    ensures Round(S30, 0x06ca6351, 0x702138a4) == S31
    ensures Round(S31, 0x14292967, 0xd3b7973b) == S32
  {}

  lemma AbcRounds8()
    ensures Round(S32, 0x27b70a85, 0x93f5997f) == S33
    ensures Round(S33, 0x2e1b2138, 0x3b68ba73) == S34
    ensures Round(S34, 0x4d2c6dfc, 0xaff4ffc1) == S35
    ensures Round(S35, 0x53380d13, 0xf10a5c62) == S36
  {}

  lemma AbcRounds9()
    ensures Round(S36, 0x650a7354, 0x0a8b3996) == S37
    ensures Round(S37, 0x766a0abb, 0x72af830a) == S38
    ensures Round(S38, 0x81c2c92e, 0x9409e33e) == S39
    ensures Round(S39, 0x92722c85, 0x24641522) == S40
  {}

  lemma AbcRounds10()
    ensures Round(S40, 0xa2bfe8a1, 0x9f47bf94) == S41
    ensures Round(S41, 0xa81a664b, 0xf0a64f5a) == S42
    ensures Round(S42, 0xc24b8b70, 0x3e246a79) == S43
    ensures Round(S43, 0xc76c51a3, 0x27333ba3) == S44
  {}

  lemma AbcRounds11()
    ensures Round(S44, 0xd192e819, 0x0c4763f2) == S45
    ensures Round(S45, 0xd6990624, 0x840abf27) == S46
    ensures Round(S46, 0xf40e3585, 0x7a290d5d) == S47
    ensures Round(S47, 0x106aa070, 0x065c43da) == S48
  {}

  lemma AbcRounds12()
    ensures Round(S48, 0x19a4c116, 0xfb3e89cb) == S49
    ensures Round(S49, 0x1e376c08, 0xcc7617db) == S50
    ensures Round(S50, 0x2748774c, 0xb9e66c34) == S51
    ensures Round(S51, 0x34b0bcb5, 0xa9993667) == S52
  {}

  lemma AbcRounds13()
    ensures Round(S52, 0x391c0cb3, 0x84badedd) == S53
    ensures Round(S53, 0x4ed8aa4a, 0xc21462bc) == S54
    ensures Round(S54, 0x5b9cca4f, 0x1487472c) == S55
    ensures Round(S55, 0x682e6ff3, 0xb20f7a99) == S56
  {}

  lemma AbcRounds14()
    ensures Round(S56, 0x748f82ee, 0xef57b9cd) == S57
    ensures Round(S57, 0x78a5636f, 0xebe6b238) == S58
    ensures Round(S58, 0x84c87814, 0x9fe3095e) == S59
    ensures Round(S59, 0x8cc70208, 0x78bc8d4b) == S60
  {}

  lemma AbcRounds15()
    ensures Round(S60, 0x90befffa, 0xa43fcf15) == S61
    ensures Round(S61, 0xa4506ceb, 0x668b2ff8) == S62
    ensures Round(S62, 0xbef9a3f7, 0xeeaba2cc) == S63
    ensures Round(S63, 0xc67178f2, 0x12b1edeb) == S64
  {}

  lemma AbcStates0()
    ensures Rounds(Initial(), AbcBlock(), 8) == S8
  {
    hide Rounds, Round, K, Schedule, AbcBlock;
    AbcStart();
    KeyRow0();
    AbcWords0();
    AbcRounds0();
    RoundsStep(Initial(), AbcBlock(), 1);
    RoundsStep(Initial(), AbcBlock(), 2);
    RoundsStep(Initial(), AbcBlock(), 3);
    RoundsStep(Initial(), AbcBlock(), 4);
    AbcRounds1();
    RoundsStep(Initial(), AbcBlock(), 5);
    RoundsStep(Initial(), AbcBlock(), 6);
    RoundsStep(Initial(), AbcBlock(), 7);
    RoundsStep(Initial(), AbcBlock(), 8);
  }

  lemma AbcStates1()
    ensures Rounds(Initial(), AbcBlock(), 16) == S16
  {
    hide Rounds, Round, K, Schedule, AbcBlock;
    AbcStates0();
    KeyRow1();
    AbcWords1();
    AbcRounds2();
    RoundsStep(Initial(), AbcBlock(), 9);
    RoundsStep(Initial(), AbcBlock(), 10);
    RoundsStep(Initial(), AbcBlock(), 11);
    RoundsStep(Initial(), AbcBlock(), 12);
    AbcRounds3();
    RoundsStep(Initial(), AbcBlock(), 13);
    RoundsStep(Initial(), AbcBlock(), 14);
    RoundsStep(Initial(), AbcBlock(), 15);
    RoundsStep(Initial(), AbcBlock(), 16);
  }

  lemma AbcStates2()
    ensures Rounds(Initial(), AbcBlock(), 24) == S24
  {
    hide Rounds, Round, K, Schedule, AbcBlock;
    AbcStates1();
    KeyRow2();
    AbcWords2();
    AbcRounds4();
    RoundsStep(Initial(), AbcBlock(), 17);
    RoundsStep(Initial(), AbcBlock(), 18);
    RoundsStep(Initial(), AbcBlock(), 19);
    RoundsStep(Initial(), AbcBlock(), 20);
    AbcRounds5();
    RoundsStep(Initial(), AbcBlock(), 21);
    RoundsStep(Initial(), AbcBlock(), 22);
    RoundsStep(Initial(), AbcBlock(), 23);
    RoundsStep(Initial(), AbcBlock(), 24);
  }

  lemma AbcStates3()
    ensures Rounds(Initial(), AbcBlock(), 32) == S32
  {
    hide Rounds, Round, K, Schedule, AbcBlock;
    AbcStates2();
    KeyRow3();
    AbcWords3();
    AbcRounds6();
    RoundsStep(Initial(), AbcBlock(), 25);
    RoundsStep(Initial(), AbcBlock(), 26);
    RoundsStep(Initial(), AbcBlock(), 27);
    RoundsStep(Initial(), AbcBlock(), 28);
    AbcRounds7();
    RoundsStep(Initial(), AbcBlock(), 29);
    RoundsStep(Initial(), AbcBlock(), 30);
    RoundsStep(Initial(), AbcBlock(), 31);
    RoundsStep(Initial(), AbcBlock(), 32);
  }

  lemma AbcStates4()
    ensures Rounds(Initial(), AbcBlock(), 40) == S40
  {
    hide Rounds, Round, K, Schedule, AbcBlock;
    AbcStates3();
    KeyRow4();
    AbcWords4();
    AbcRounds8();
    RoundsStep(Initial(), AbcBlock(), 33);
    RoundsStep(Initial(), AbcBlock(), 34);
    RoundsStep(Initial(), AbcBlock(), 35);
    RoundsStep(Initial(), AbcBlock(), 36);
    AbcRounds9();
    RoundsStep(Initial(), AbcBlock(), 37);
    RoundsStep(Initial(), AbcBlock(), 38);
    RoundsStep(Initial(), AbcBlock(), 39);
    RoundsStep(Initial(), AbcBlock(), 40);
  }

  lemma AbcStates5()
    ensures Rounds(Initial(), AbcBlock(), 48) == S48
  {
    hide Rounds, Round, K, Schedule, AbcBlock;
    AbcStates4();
    KeyRow5();
    AbcWords5();
    AbcRounds10();
    RoundsStep(Initial(), AbcBlock(), 41);
    RoundsStep(Initial(), AbcBlock(), 42);
    RoundsStep(Initial(), AbcBlock(), 43);
    RoundsStep(Initial(), AbcBlock(), 44);
    AbcRounds11();
    RoundsStep(Initial(), AbcBlock(), 45);
    RoundsStep(Initial(), AbcBlock(), 46);
    RoundsStep(Initial(), AbcBlock(), 47);
    RoundsStep(Initial(), AbcBlock(), 48);
  }

  lemma AbcStates6()
    ensures Rounds(Initial(), AbcBlock(), 56) == S56
  {
    hide Rounds, Round, K, Schedule, AbcBlock;
    AbcStates5();
    KeyRow6();
    AbcWords6();
    AbcRounds12();
    RoundsStep(Initial(), AbcBlock(), 49);
    RoundsStep(Initial(), AbcBlock(), 50);
    RoundsStep(Initial(), AbcBlock(), 51);
    RoundsStep(Initial(), AbcBlock(), 52);
    AbcRounds13();
    RoundsStep(Initial(), AbcBlock(), 53);
    RoundsStep(Initial(), AbcBlock(), 54);
    RoundsStep(Initial(), AbcBlock(), 55);
    RoundsStep(Initial(), AbcBlock(), 56);
  }

  lemma AbcStates7()
    ensures Rounds(Initial(), AbcBlock(), 64) == S64
  {
    hide Rounds, Round, K, Schedule, AbcBlock;
    AbcStates6();
    KeyRow7();
    AbcWords7();
    AbcRounds14();
    RoundsStep(Initial(), AbcBlock(), 57);
    RoundsStep(Initial(), AbcBlock(), 58);
    RoundsStep(Initial(), AbcBlock(), 59);
    RoundsStep(Initial(), AbcBlock(), 60);
    AbcRounds15();
    RoundsStep(Initial(), AbcBlock(), 61);
    RoundsStep(Initial(), AbcBlock(), 62);
    RoundsStep(Initial(), AbcBlock(), 63);
    RoundsStep(Initial(), AbcBlock(), 64);
  }

  lemma AbcStart()
    ensures Rounds(Initial(), AbcBlock(), 0) == S0
  {
    NoRounds(Initial(), AbcBlock());
  }

  function AbcDigest(): seq<byte> {
    [0xba, 0x78, 0x16, 0xbf, 0x8f, 0x01, 0xcf, 0xea, 0x41, 0x41, 0x40, 0xde, 0x5d, 0xae, 0x22, 0x23,
     0xb0, 0x03, 0x61, 0xa3, 0x96, 0x17, 0x7a, 0x9c, 0xb4, 0x10, 0xff, 0x61, 0xf2, 0x00, 0x15, 0xad]
  }

  lemma AbcOutput()
    ensures Output(HASHED) == AbcDigest()
  {
    hide WordBytesBig;
    AbcBytes();
  }

  lemma AbcBytes()
    ensures WordBytesBig(0xba7816bf) == [0xba, 0x78, 0x16, 0xbf]
    ensures WordBytesBig(0x8f01cfea) == [0x8f, 0x01, 0xcf, 0xea]
    ensures WordBytesBig(0x414140de) == [0x41, 0x41, 0x40, 0xde]
    ensures WordBytesBig(0x5dae2223) == [0x5d, 0xae, 0x22, 0x23]
    ensures WordBytesBig(0xb00361a3) == [0xb0, 0x03, 0x61, 0xa3]
    ensures WordBytesBig(0x96177a9c) == [0x96, 0x17, 0x7a, 0x9c]
    ensures WordBytesBig(0xb410ff61) == [0xb4, 0x10, 0xff, 0x61]
    ensures WordBytesBig(0xf20015ad) == [0xf2, 0x00, 0x15, 0xad]
  {}

  lemma AbcSum()
    ensures Sum(Initial(), S64) == HASHED
  {}

  /** The digest of "abc" is the one that the standard's example gives. */
  lemma AbcExample()
    ensures Digest(ABC) == AbcDigest()
  {
    hide Padded, Rounds, Sum, Output, AbcBlock, AbcDigest;
    AbcPadded();
    AbcStates7();
    AbcSum();
    AbcOutput();
    assert AbcBlock()[..64] == AbcBlock() && AbcBlock()[64..] == [];
    assert HashBlocks(Initial(), AbcBlock()) == HashBlocks(Compress(Initial(), AbcBlock()), []);
  }
}
