/** The digest of the empty message, step by step: the first entry of the test suite in section A.5 of RFC 1321. */
module Md5Empty {
  import opened Machine
  import opened Md5Block
  import opened Md5Padding
  import opened Md5Words

  /** The one block of the padded empty message: a single set bit. */
  ghost predicate IsEmptyBlock(x: Words) {
    forall k | 0 <= k < 16 :: x[k] == if k == 0 then 0x80 else 0
  }

  lemma StepWith(m: Ops, q: Quad, i: nat, word: bv32, f: bv32, d: bv32, s: bv6, r: bv32)
    requires f == m.mix(i / 16, q.b, q.c, q.d) && d == m.add(word, T(i)) && s == S(i)
    requires r == Advance(m, q.a, f, q.b, d, s)
    ensures Step(m, q, i, word) == Quad(q.d, r, q.b, q.c)
  {
  }

  lemma MixIs(round: nat, x: bv32, y: bv32, z: bv32)
    ensures RFC.mix(round, x, y, z) == RfcMix(round, x, y, z)
  {
  }

  lemma SumIs(x: bv32, y: bv32)
    ensures RFC.add(x, y) == Add(x, y)
  {
  }

  lemma NextIs(q: Quad, i: nat, word: bv32, t: bv32, s: bv6, f: bv32, d: bv32, r: bv32)
    requires t == T(i) && s == S(i) && f == RFC.mix(i / 16, q.b, q.c, q.d) && d == Add(word, t)
    requires r == q.b + RotL(q.a + f + word + t, s)
    ensures Step(RFC, q, i, word) == Quad(q.d, r, q.b, q.c)
  {
    StepAsInTheRfc(q.a, f, q.b, word, t, s);
    SumIs(word, t);
    StepWith(RFC, q, i, word, f, d, s, r);
  }

  /** A step with its numbers: `f` is the mix, and `r` the new word. */
  lemma Go(x: Words, n: nat, round: nat, q: Quad, word: bv32, t: bv32, s: bv6, f: bv32, r: bv32)
    requires Steps(RFC, INIT, x, n) == q && round == n / 16
    requires x[K(n)] == word && T(n) == t && S(n) == s
    requires f == RfcMix(round, q.b, q.c, q.d) && r == q.b + RotL(q.a + f + word + t, s)
    ensures Steps(RFC, INIT, x, n + 1) == Quad(q.d, r, q.b, q.c)
  {
    MixIs(round, q.b, q.c, q.d);
    NextIs(q, n, word, t, s, f, Add(word, t), r);
  }

  lemma Steps0(x: Words, n: nat)
    requires IsEmptyBlock(x) && n == 0
    ensures Steps(RFC, INIT, x, n + 8) == Quad(0x32033344, 0x9bc13ce9, 0xf5b158db, 0x2f35d494)
  {
    Table1();
    Go(x, n + 0, 0, Quad(0x67452301, 0xefcdab89, 0x98badcfe, 0x10325476), 0x00000080, 0xd76aa478, 7,
      0x98badcfe, 0xa5202774);
    Go(x, n + 1, 0, Quad(0x10325476, 0xa5202774, 0xefcdab89, 0x98badcfe), 0x00000000, 0xe8c7b756, 12,
      0xbd9afb8a, 0xf59592dd);
    Go(x, n + 2, 0, Quad(0x98badcfe, 0xf59592dd, 0xa5202774, 0xefcdab89), 0x00000000, 0x242070db, 17,
      0xaf482b54, 0xe7f06b23);
    Go(x, n + 3, 0, Quad(0xefcdab89, 0xe7f06b23, 0xf59592dd, 0xa5202774), 0x00000000, 0xc1bdceee, 22,
      0xe5900655, 0x1b163203);
    Go(x, n + 4, 0, Quad(0xa5202774, 0x1b163203, 0xe7f06b23, 0xf59592dd), 0x00000000, 0xf57c0faf, 7,
      0xe791a2df, 0x32033344);
    Go(x, n + 5, 0, Quad(0xf59592dd, 0x32033344, 0x1b163203, 0xe7f06b23), 0x00000000, 0x4787c62a, 12,
      0xd7f27a23, 0x2f35d494);
    Go(x, n + 6, 0, Quad(0xe7f06b23, 0x2f35d494, 0x32033344, 0x1b163203), 0x00000000, 0xa8304613, 17,
      0x32033207, 0xf5b158db);
    Go(x, n + 7, 0, Quad(0x1b163203, 0xf5b158db, 0x2f35d494, 0x32033344), 0x00000000, 0xfd469501, 22,
      0x27337394, 0x9bc13ce9);
  }

  lemma Steps8(x: Words, n: nat)
    requires IsEmptyBlock(x) && n == 8 && Steps(RFC, INIT, x, n) == Quad(0x32033344, 0x9bc13ce9, 0xf5b158db, 0x2f35d494)
    ensures Steps(RFC, INIT, x, n + 8) == Quad(0xf56c7cf1, 0xd6819c6a, 0x5aa53f75, 0x374943a7)
  {
    Table1();
    Go(x, n + 0, 0, Quad(0x32033344, 0x9bc13ce9, 0xf5b158db, 0x2f35d494), 0x00000000, 0x698098d8, 7,
      0xb5b5d8dd, 0x3893b991);
    Go(x, n + 1, 0, Quad(0x2f35d494, 0x3893b991, 0x9bc13ce9, 0xf5b158db), 0x00000000, 0x8b44f7af, 12,
      0xdda178cb, 0xfce4a312);
    Go(x, n + 2, 0, Quad(0xf5b158db, 0xfce4a312, 0x3893b991, 0x9bc13ce9), 0x00000000, 0xffff5bb1, 17,
      0x3b81bdf9, 0xe1ef0576);
    Go(x, n + 3, 0, Quad(0x9bc13ce9, 0xe1ef0576, 0xfce4a312, 0x3893b991), 0x00000000, 0x895cd7be, 22,
      0xf8f4b993, 0x70768a29);
    Go(x, n + 4, 0, Quad(0x3893b991, 0x70768a29, 0xe1ef0576, 0xfce4a312), 0x00000000, 0x6b901122, 7,
      0xece62132, 0xf56c7cf1);
    Go(x, n + 5, 0, Quad(0xfce4a312, 0xf56c7cf1, 0x70768a29, 0xe1ef0576), 0x00000000, 0xfd987193, 12,
      0x70e70927, 0x374943a7);
    Go(x, n + 6, 0, Quad(0xe1ef0576, 0x374943a7, 0xf56c7cf1, 0x70768a29), 0x00000000, 0xa679438e, 17,
      0x757ec8a9, 0x5aa53f75);
    Go(x, n + 7, 0, Quad(0x70768a29, 0x5aa53f75, 0x374943a7, 0xf56c7cf1), 0x00000000, 0x49b40821, 22,
      0xb74943a5, 0xd6819c6a);
  }

  lemma Steps16(x: Words, n: nat)
    requires IsEmptyBlock(x) && n == 16 && Steps(RFC, INIT, x, n) == Quad(0xf56c7cf1, 0xd6819c6a, 0x5aa53f75, 0x374943a7)
    ensures Steps(RFC, INIT, x, n + 8) == Quad(0x3d1e3e6c, 0xe422531a, 0xeb41643e, 0x68b7b3e3)
  {
    Table2();
    Go(x, n + 0, 1, Quad(0xf56c7cf1, 0xd6819c6a, 0x5aa53f75, 0x374943a7), 0x00000000, 0xf61e2562, 5,
      0x5ea53c72, 0x1c7d7513);
    Go(x, n + 1, 1, Quad(0x374943a7, 0x1c7d7513, 0xd6819c6a, 0x5aa53f75), 0x00000000, 0xc040b340, 9,
      0x9c25b51b, 0x7bd57a3a);
    Go(x, n + 2, 1, Quad(0x5aa53f75, 0x7bd57a3a, 0x1c7d7513, 0xd6819c6a), 0x00000000, 0x265e5a51, 14,
      0x5afd793b, 0xc095f13a);
    Go(x, n + 3, 1, Quad(0xd6819c6a, 0xc095f13a, 0x7bd57a3a, 0x1c7d7513), 0x00000080, 0xe9b6c7aa, 20,
      0x63957b3a, 0xbd782e17);
    Go(x, n + 4, 1, Quad(0x1c7d7513, 0xbd782e17, 0xc095f13a, 0x7bd57a3a), 0x00000000, 0xd62f105d, 5,
      0xb950ab12, 0x3d1e3e6c);
    Go(x, n + 5, 1, Quad(0x7bd57a3a, 0x3d1e3e6c, 0xbd782e17, 0xc095f13a), 0x00000000, 0x02441453, 9,
      0x3d7c3e2d, 0x68b7b3e3);
    Go(x, n + 6, 1, Quad(0xc095f13a, 0x68b7b3e3, 0x3d1e3e6c, 0xbd782e17), 0x00000000, 0xd8a1e681, 14,
      0x2836326b, 0xeb41643e);
    Go(x, n + 7, 1, Quad(0xbd782e17, 0xeb41643e, 0x68b7b3e3, 0x3d1e3e6c), 0x00000000, 0xe7d3fbc8, 20,
      0x69a1a5af, 0xe422531a);
  }

  lemma Steps24(x: Words, n: nat)
    requires IsEmptyBlock(x) && n == 24 && Steps(RFC, INIT, x, n) == Quad(0x3d1e3e6c, 0xe422531a, 0xeb41643e, 0x68b7b3e3)
    ensures Steps(RFC, INIT, x, n + 8) == Quad(0x13707036, 0xa2205f1f, 0x1c31c384, 0xae7813db)
  {
    Table2();
    Go(x, n + 0, 1, Quad(0x3d1e3e6c, 0xe422531a, 0xeb41643e, 0x68b7b3e3), 0x00000000, 0x21e1cde6, 5,
      0xe362571e, 0x306ec122);
    Go(x, n + 1, 1, Quad(0x68b7b3e3, 0x306ec122, 0xe422531a, 0xeb41643e), 0x00000000, 0xc33707d6, 9,
      0x24625322, 0xd28c77c2);
    Go(x, n + 2, 1, Quad(0xeb41643e, 0xd28c77c2, 0x306ec122, 0xe422531a), 0x00000000, 0xf4d50d87, 14,
      0xd04cd322, 0xa3c663da);
    Go(x, n + 3, 1, Quad(0xe422531a, 0xa3c663da, 0xd28c77c2, 0x306ec122), 0x00000000, 0x455a14ed, 20,
      0xe2c677c2, 0xa0572807);
    Go(x, n + 4, 1, Quad(0x306ec122, 0xa0572807, 0xa3c663da, 0xd28c77c2), 0x00000000, 0xa9e3e905, 5,
      0xa146201a, 0x13707036);
    Go(x, n + 5, 1, Quad(0xd28c77c2, 0x13707036, 0xa0572807, 0xa3c663da), 0x00000000, 0xfcefa3f8, 9,
      0x03516817, 0xae7813db);
    Go(x, n + 6, 1, Quad(0xa3c663da, 0xae7813db, 0x13707036, 0xa0572807), 0x00000000, 0x676f02d9, 14,
      0xb3705033, 0x1c31c384);
    Go(x, n + 7, 1, Quad(0xa0572807, 0x1c31c384, 0xae7813db, 0x13707036), 0x00000000, 0x8d2a4c8a, 20,
      0xbc3843cd, 0xa2205f1f);
  }

  lemma Steps32(x: Words, n: nat)
    requires IsEmptyBlock(x) && n == 32 && Steps(RFC, INIT, x, n) == Quad(0x13707036, 0xa2205f1f, 0x1c31c384, 0xae7813db)
    ensures Steps(RFC, INIT, x, n + 8) == Quad(0x5f7a9b2e, 0xc5dc8c15, 0x91ca4cb7, 0xabc34e16)
  {
    Table3();
    Go(x, n + 0, 2, Quad(0x13707036, 0xa2205f1f, 0x1c31c384, 0xae7813db), 0x00000000, 0xfffa3942, 4,
      0x10698f40, 0xdf63eaa1);
    Go(x, n + 1, 2, Quad(0xae7813db, 0xdf63eaa1, 0xa2205f1f, 0x1c31c384), 0x00000000, 0x8771f681, 11,
      0x6172763a, 0xc3689f5b);
    Go(x, n + 2, 2, Quad(0x1c31c384, 0xc3689f5b, 0xdf63eaa1, 0xa2205f1f), 0x00000000, 0x6d9d6122, 16,
      0xbe2b2ae5, 0x12f3e755);
    Go(x, n + 3, 2, Quad(0xa2205f1f, 0x12f3e755, 0xc3689f5b, 0xdf63eaa1), 0x00000000, 0xfde5380c, 23,
      0x0ef892af, 0x004b6669);
    Go(x, n + 4, 2, Quad(0xdf63eaa1, 0x004b6669, 0x12f3e755, 0xc3689f5b), 0x00000000, 0xa4beea44, 4,
      0xd1d01e67, 0x5f7a9b2e);
    Go(x, n + 5, 2, Quad(0xc3689f5b, 0x5f7a9b2e, 0x004b6669, 0x12f3e755), 0x00000000, 0x4bdecfa9, 11,
      0x4dc21a12, 0xabc34e16);
    Go(x, n + 6, 2, Quad(0x12f3e755, 0xabc34e16, 0x5f7a9b2e, 0x004b6669), 0x00000000, 0xf6bb4b60, 16,
      0xf4f2b351, 0x91ca4cb7);
    Go(x, n + 7, 2, Quad(0x004b6669, 0x91ca4cb7, 0xabc34e16, 0x5f7a9b2e), 0x00000000, 0xbebfbc70, 23,
      0x6573998f, 0xc5dc8c15);
  }

  lemma Steps40(x: Words, n: nat)
    requires IsEmptyBlock(x) && n == 40 && Steps(RFC, INIT, x, n) == Quad(0x5f7a9b2e, 0xc5dc8c15, 0x91ca4cb7, 0xabc34e16)
    ensures Steps(RFC, INIT, x, n + 8) == Quad(0x3f55edfd, 0xca7d2dbd, 0x68d84ea2, 0x22a31f54)
  {
    Table3();
    Go(x, n + 0, 2, Quad(0x5f7a9b2e, 0xc5dc8c15, 0x91ca4cb7, 0xabc34e16), 0x00000000, 0x289b7ec6, 4,
      0xffd58eb4, 0x4497169d);
    Go(x, n + 1, 2, Quad(0xabc34e16, 0x4497169d, 0xc5dc8c15, 0x91ca4cb7), 0x00000080, 0xeaa127fa, 11,
      0x1081d63f, 0x76fd93d4);
    Go(x, n + 2, 2, Quad(0x91ca4cb7, 0x76fd93d4, 0x4497169d, 0xc5dc8c15), 0x00000000, 0xd4ef3085, 16,
      0xf7b6095c, 0xfd95f243);
    Go(x, n + 3, 2, Quad(0xc5dc8c15, 0xfd95f243, 0x76fd93d4, 0x4497169d), 0x00000000, 0x04881d05, 23,
      0xcfff770a, 0x0fe32453);
    Go(x, n + 4, 2, Quad(0x4497169d, 0x0fe32453, 0xfd95f243, 0x76fd93d4), 0x00000000, 0xd9d4d039, 4,
      0x848b45c4, 0x3f55edfd);
    Go(x, n + 5, 2, Quad(0x76fd93d4, 0x3f55edfd, 0x0fe32453, 0xfd95f243), 0x00000000, 0xe6db99e5, 11,
      0xcd233bed, 0x22a31f54);
    Go(x, n + 6, 2, Quad(0xfd95f243, 0x22a31f54, 0x3f55edfd, 0x0fe32453), 0x00000000, 0x1fa27cf8, 16,
      0x1215d6fa, 0x68d84ea2);
    Go(x, n + 7, 2, Quad(0x0fe32453, 0x68d84ea2, 0x22a31f54, 0x3f55edfd), 0x00000000, 0xc4ac5665, 23,
      0x752ebc0b, 0xca7d2dbd);
  }

  lemma Steps48(x: Words, n: nat)
    requires IsEmptyBlock(x) && n == 48 && Steps(RFC, INIT, x, n) == Quad(0x3f55edfd, 0xca7d2dbd, 0x68d84ea2, 0x22a31f54)
    ensures Steps(RFC, INIT, x, n + 8) == Quad(0x5625a114, 0x1e77fa61, 0x392ad0d0, 0x3450f42b)
  {
    Table4();
    Go(x, n + 0, 3, Quad(0x3f55edfd, 0xca7d2dbd, 0x68d84ea2, 0x22a31f54), 0x00000080, 0xf4292244, 6,
      0xb7a5a31d, 0x93aa2577);
    Go(x, n + 1, 3, Quad(0x22a31f54, 0x93aa2577, 0xca7d2dbd, 0x68d84ea2), 0x00000000, 0x432aff97, 10,
      0x5dd298c2, 0x1688dc85);
    Go(x, n + 2, 3, Quad(0x68d84ea2, 0x1688dc85, 0x93aa2577, 0xca7d2dbd), 0x00000000, 0xab9423a7, 15,
      0xa420fbb0, 0xcd85b8cb);
    Go(x, n + 3, 3, Quad(0xca7d2dbd, 0xcd85b8cb, 0x1688dc85, 0x93aa2577), 0x00000000, 0xfc93a039, 21,
      0xfb5d264e, 0x561e0689);
    Go(x, n + 4, 3, Quad(0x93aa2577, 0x561e0689, 0xcd85b8cb, 0x1688dc85), 0x00000000, 0x655b59c3, 6,
      0x32fa9f30, 0x5625a114);
    Go(x, n + 5, 3, Quad(0x1688dc85, 0x5625a114, 0x561e0689, 0xcd85b8cb), 0x00000000, 0x8f0ccc92, 10,
      0x2061e1bd, 0x3450f42b);
    Go(x, n + 6, 3, Quad(0xcd85b8cb, 0x3450f42b, 0x5625a114, 0x561e0689), 0x00000000, 0xffeff47d, 15,
      0xebd45c6b, 0x392ad0d0);
    Go(x, n + 7, 3, Quad(0x561e0689, 0x392ad0d0, 0x3450f42b, 0x5625a114), 0x00000000, 0x85845dd1, 21,
      0x8daa2ad0, 0x1e77fa61);
  }

  lemma Steps56(x: Words, n: nat)
    requires IsEmptyBlock(x) && n == 56 && Steps(RFC, INIT, x, n) == Quad(0x5625a114, 0x1e77fa61, 0x392ad0d0, 0x3450f42b)
    ensures Steps(RFC, INIT, x, n + 8) == Quad(0x7246fad3, 0x14e45506, 0xff4ea3eb, 0x6e10a476)
  {
    Table4();
    Go(x, n + 0, 3, Quad(0x5625a114, 0x1e77fa61, 0x392ad0d0, 0x3450f42b), 0x00000000, 0x6fa87e4f, 6,
      0xe6d52b25, 0x474a9c8c);
    Go(x, n + 1, 3, Quad(0x3450f42b, 0x474a9c8c, 0x1e77fa61, 0x392ad0d0), 0x00000000, 0xfe2ce6e0, 10,
      0xd9a845ce, 0xdfce00bc);
    Go(x, n + 2, 3, Quad(0x392ad0d0, 0xdfce00bc, 0x474a9c8c, 0x1e77fa61), 0x00000000, 0xa3014314, 15,
      0xb8849932, 0x36594b14);
    Go(x, n + 3, 3, Quad(0x1e77fa61, 0x36594b14, 0xdfce00bc, 0x474a9c8c), 0x00000000, 0x4e0811a1, 21,
      0x61336bcb, 0x30130182);
    Go(x, n + 4, 3, Quad(0x474a9c8c, 0x30130182, 0x36594b14, 0xdfce00bc), 0x00000000, 0xf7537e82, 6,
      0x066ab4d7, 0x7246fad3);
    Go(x, n + 5, 3, Quad(0xdfce00bc, 0x7246fad3, 0x30130182, 0x36594b14), 0x00000000, 0xbd3af235, 10,
      0xcbf5ff79, 0x6e10a476);
    Go(x, n + 6, 3, Quad(0x36594b14, 0x6e10a476, 0x7246fad3, 0x30130182), 0x00000000, 0x2ad7d2bb, 15,
      0x9dba04ac, 0xff4ea3eb);
    Go(x, n + 7, 3, Quad(0x30130182, 0xff4ea3eb, 0x6e10a476, 0x7246fad3), 0x00000000, 0xeb86d391, 21,
      0x91ef0399, 0x14e45506);
  }

  lemma AllSteps(x: Words, n: nat)
    requires IsEmptyBlock(x) && n == 0
    ensures Steps(RFC, INIT, x, n + 64) == Quad(0x7246fad3, 0x14e45506, 0xff4ea3eb, 0x6e10a476)
  {
    Steps0(x, n);
    Steps8(x, n + 8);
    Steps16(x, n + 16);
    Steps24(x, n + 24);
    Steps32(x, n + 32);
    Steps40(x, n + 40);
    Steps48(x, n + 48);
    Steps56(x, n + 56);
  }

  lemma Sums()
    ensures RFC.add(0x67452301, 0x7246fad3) == 0xd98c1dd4 && RFC.add(0xefcdab89, 0x14e45506) == 0x04b2008f
    ensures RFC.add(0x98badcfe, 0xff4ea3eb) == 0x980980e9 && RFC.add(0x10325476, 0x6e10a476) == 0x7e42f8ec
  {
  }

  lemma CompressEmpty(x: Words, n: nat)
    requires IsEmptyBlock(x) && n == 0
    ensures Compress(RFC, INIT, x) == Quad(0xd98c1dd4, 0x04b2008f, 0x980980e9, 0x7e42f8ec)
  {
    AllSteps(x, n);
    BlockAdds(RFC, INIT, x, n + 64, Quad(0x7246fad3, 0x14e45506, 0xff4ea3eb, 0x6e10a476));
    Sums();
  }

  lemma PadEmpty()
    ensures Pad([]) == [0x80] + Zeros(63)
  {
  }

  lemma SmallWords()
    ensures FromLe([0x80, 0, 0, 0]) == 0x80 && FromLe([0, 0, 0, 0]) == 0
    ensures RFC.load(0x80) == 0x80 && RFC.load(0) == 0
  {
  }

  lemma EmptyWord(k: nat)
    requires k < 16
    ensures WordsOf(RFC, [0x80] + Zeros(63))[k] == if k == 0 then 0x80 else 0
  {
    var b := [0x80] + Zeros(63);
    SmallWords();
    if k == 0 {
      assert b[4 * k..4 * k + 4] == [0x80, 0, 0, 0];
    } else {
      assert b[4 * k..4 * k + 4] == [0, 0, 0, 0];
    }
  }

  lemma DigestBytesEmpty()
    ensures DigestBytes(RFC, Quad(0xd98c1dd4, 0x04b2008f, 0x980980e9, 0x7e42f8ec)) == [0xd4, 0x1d, 0x8c, 0xd9, 0x8f, 0x00, 0xb2, 0x04, 0xe9, 0x80, 0x09, 0x98, 0xec, 0xf8, 0x42, 0x7e]
  {
  }

  /** MD5 ("") = d41d8cd98f00b204e9800998ecf8427e */
  lemma DigestOfEmpty()
    ensures Digest(RFC, Standard, []) == [0xd4, 0x1d, 0x8c, 0xd9, 0x8f, 0x00, 0xb2, 0x04, 0xe9, 0x80, 0x09, 0x98, 0xec, 0xf8, 0x42, 0x7e]
  {
    PadEmpty();
    var b := [0x80] + Zeros(63);
    var x := WordsOf(RFC, b);
    forall k | 0 <= k < 16 ensures x[k] == if k == 0 then 0x80 else 0 {
      EmptyWord(k);
    }
    CompressEmpty(x, 0);
    LastFold(RFC, b, 0);
    assert b[..0] == [] && b[0..] == b;
    DigestBytesEmpty();
  }
}
