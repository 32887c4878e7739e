/** The MD5 test suite of RFC 1321, appendix A.5: the digests of "" and "abc", operation by
    operation. */
module Md5Vectors {
  import opened Blocks
  import opened Md5

  /** One operation: word i, constant t and shift s give the new register r. */
  lemma Next(n: nat, a: bv32, b: bv32, c: bv32, d: bv32, x: seq<bv32>, w: bv32, i: nat, t: bv32, s: nat, r: bv32)
    requires |x| == 16 && i < 16 && s <= 32 && Ops(n, INITIAL, x) == State(a, b, c, d)
    requires Index(n) == i && T(n) == t && Shift(n) == s && x[i] == w
    requires Add(b, Rotate(Add(a, Add(Aux(n, b, c, d), Add(w, t))), s)) == r
    ensures Ops(n + 1, INITIAL, x) == State(d, r, b, c)
  {
    hide T, Index, Shift, Rotate, Add, Aux;
  }

  /** The words of a message of at most three bytes: its bytes with the padding bit, and its
      length in bits. */
  ghost predicate Short(x: seq<bv32>, first: bv32, bits: bv32)
  {
    |x| == 16 && x[0] == first && x[14] == bits && forall k :: 0 < k < 16 && k != 14 ==> x[k] == 0
  }

  // ---- "" ----

  lemma EmptyOps8(x: seq<bv32>)
    requires Short(x, 0x80, 0)
    requires Ops(0, INITIAL, x) == State(0x67452301, 0xefcdab89, 0x98badcfe, 0x10325476)
    ensures Ops(8, INITIAL, x) == State(0x32033344, 0x9bc13ce9, 0xf5b158db, 0x2f35d494)
  {
    hide Ops, INITIAL;
    Next(0, 0x67452301, 0xefcdab89, 0x98badcfe, 0x10325476, x, 0x00000080, 0, 0xd76aa478, 7, 0xa5202774);
    Next(1, 0x10325476, 0xa5202774, 0xefcdab89, 0x98badcfe, x, 0, 1, 0xe8c7b756, 12, 0xf59592dd);
    Next(2, 0x98badcfe, 0xf59592dd, 0xa5202774, 0xefcdab89, x, 0, 2, 0x242070db, 17, 0xe7f06b23);
    Next(3, 0xefcdab89, 0xe7f06b23, 0xf59592dd, 0xa5202774, x, 0, 3, 0xc1bdceee, 22, 0x1b163203);
    Next(4, 0xa5202774, 0x1b163203, 0xe7f06b23, 0xf59592dd, x, 0, 4, 0xf57c0faf, 7, 0x32033344);
    Next(5, 0xf59592dd, 0x32033344, 0x1b163203, 0xe7f06b23, x, 0, 5, 0x4787c62a, 12, 0x2f35d494);
    Next(6, 0xe7f06b23, 0x2f35d494, 0x32033344, 0x1b163203, x, 0, 6, 0xa8304613, 17, 0xf5b158db);
    Next(7, 0x1b163203, 0xf5b158db, 0x2f35d494, 0x32033344, x, 0, 7, 0xfd469501, 22, 0x9bc13ce9);
  }

  lemma EmptyOps16(x: seq<bv32>)
    requires Short(x, 0x80, 0)
    requires Ops(8, INITIAL, x) == State(0x32033344, 0x9bc13ce9, 0xf5b158db, 0x2f35d494)
    ensures Ops(16, INITIAL, x) == State(0xf56c7cf1, 0xd6819c6a, 0x5aa53f75, 0x374943a7)
  {
    hide Ops, INITIAL;
    Next(8, 0x32033344, 0x9bc13ce9, 0xf5b158db, 0x2f35d494, x, 0, 8, 0x698098d8, 7, 0x3893b991);
    Next(9, 0x2f35d494, 0x3893b991, 0x9bc13ce9, 0xf5b158db, x, 0, 9, 0x8b44f7af, 12, 0xfce4a312);
    Next(10, 0xf5b158db, 0xfce4a312, 0x3893b991, 0x9bc13ce9, x, 0, 10, 0xffff5bb1, 17, 0xe1ef0576);
    Next(11, 0x9bc13ce9, 0xe1ef0576, 0xfce4a312, 0x3893b991, x, 0, 11, 0x895cd7be, 22, 0x70768a29);
    Next(12, 0x3893b991, 0x70768a29, 0xe1ef0576, 0xfce4a312, x, 0, 12, 0x6b901122, 7, 0xf56c7cf1);
    Next(13, 0xfce4a312, 0xf56c7cf1, 0x70768a29, 0xe1ef0576, x, 0, 13, 0xfd987193, 12, 0x374943a7);
    Next(14, 0xe1ef0576, 0x374943a7, 0xf56c7cf1, 0x70768a29, x, 0, 14, 0xa679438e, 17, 0x5aa53f75);
    Next(15, 0x70768a29, 0x5aa53f75, 0x374943a7, 0xf56c7cf1, x, 0, 15, 0x49b40821, 22, 0xd6819c6a);
  }

  lemma EmptyOps24(x: seq<bv32>)
    requires Short(x, 0x80, 0)
    requires Ops(16, INITIAL, x) == State(0xf56c7cf1, 0xd6819c6a, 0x5aa53f75, 0x374943a7)
    ensures Ops(24, INITIAL, x) == State(0x3d1e3e6c, 0xe422531a, 0xeb41643e, 0x68b7b3e3)
  {
    hide Ops, INITIAL;
    Next(16, 0xf56c7cf1, 0xd6819c6a, 0x5aa53f75, 0x374943a7, x, 0, 1, 0xf61e2562, 5, 0x1c7d7513);
    Next(17, 0x374943a7, 0x1c7d7513, 0xd6819c6a, 0x5aa53f75, x, 0, 6, 0xc040b340, 9, 0x7bd57a3a);
    Next(18, 0x5aa53f75, 0x7bd57a3a, 0x1c7d7513, 0xd6819c6a, x, 0, 11, 0x265e5a51, 14, 0xc095f13a);
    Next(19, 0xd6819c6a, 0xc095f13a, 0x7bd57a3a, 0x1c7d7513, x, 0x00000080, 0, 0xe9b6c7aa, 20, 0xbd782e17);
    Next(20, 0x1c7d7513, 0xbd782e17, 0xc095f13a, 0x7bd57a3a, x, 0, 5, 0xd62f105d, 5, 0x3d1e3e6c);
    Next(21, 0x7bd57a3a, 0x3d1e3e6c, 0xbd782e17, 0xc095f13a, x, 0, 10, 0x02441453, 9, 0x68b7b3e3);
    Next(22, 0xc095f13a, 0x68b7b3e3, 0x3d1e3e6c, 0xbd782e17, x, 0, 15, 0xd8a1e681, 14, 0xeb41643e);
    Next(23, 0xbd782e17, 0xeb41643e, 0x68b7b3e3, 0x3d1e3e6c, x, 0, 4, 0xe7d3fbc8, 20, 0xe422531a);
  }

  lemma EmptyOps32(x: seq<bv32>)
    requires Short(x, 0x80, 0)
    requires Ops(24, INITIAL, x) == State(0x3d1e3e6c, 0xe422531a, 0xeb41643e, 0x68b7b3e3)
    ensures Ops(32, INITIAL, x) == State(0x13707036, 0xa2205f1f, 0x1c31c384, 0xae7813db)
  {
    hide Ops, INITIAL;
    Next(24, 0x3d1e3e6c, 0xe422531a, 0xeb41643e, 0x68b7b3e3, x, 0, 9, 0x21e1cde6, 5, 0x306ec122);
    Next(25, 0x68b7b3e3, 0x306ec122, 0xe422531a, 0xeb41643e, x, 0, 14, 0xc33707d6, 9, 0xd28c77c2);
    Next(26, 0xeb41643e, 0xd28c77c2, 0x306ec122, 0xe422531a, x, 0, 3, 0xf4d50d87, 14, 0xa3c663da);
    Next(27, 0xe422531a, 0xa3c663da, 0xd28c77c2, 0x306ec122, x, 0, 8, 0x455a14ed, 20, 0xa0572807);
    Next(28, 0x306ec122, 0xa0572807, 0xa3c663da, 0xd28c77c2, x, 0, 13, 0xa9e3e905, 5, 0x13707036);
    Next(29, 0xd28c77c2, 0x13707036, 0xa0572807, 0xa3c663da, x, 0, 2, 0xfcefa3f8, 9, 0xae7813db);
    Next(30, 0xa3c663da, 0xae7813db, 0x13707036, 0xa0572807, x, 0, 7, 0x676f02d9, 14, 0x1c31c384);
    Next(31, 0xa0572807, 0x1c31c384, 0xae7813db, 0x13707036, x, 0, 12, 0x8d2a4c8a, 20, 0xa2205f1f);
  }

  lemma EmptyOps40(x: seq<bv32>)
    requires Short(x, 0x80, 0)
    requires Ops(32, INITIAL, x) == State(0x13707036, 0xa2205f1f, 0x1c31c384, 0xae7813db)
    ensures Ops(40, INITIAL, x) == State(0x5f7a9b2e, 0xc5dc8c15, 0x91ca4cb7, 0xabc34e16)
  {
    hide Ops, INITIAL;
    Next(32, 0x13707036, 0xa2205f1f, 0x1c31c384, 0xae7813db, x, 0, 5, 0xfffa3942, 4, 0xdf63eaa1);
    Next(33, 0xae7813db, 0xdf63eaa1, 0xa2205f1f, 0x1c31c384, x, 0, 8, 0x8771f681, 11, 0xc3689f5b);
    Next(34, 0x1c31c384, 0xc3689f5b, 0xdf63eaa1, 0xa2205f1f, x, 0, 11, 0x6d9d6122, 16, 0x12f3e755);
    Next(35, 0xa2205f1f, 0x12f3e755, 0xc3689f5b, 0xdf63eaa1, x, 0, 14, 0xfde5380c, 23, 0x004b6669);
    Next(36, 0xdf63eaa1, 0x004b6669, 0x12f3e755, 0xc3689f5b, x, 0, 1, 0xa4beea44, 4, 0x5f7a9b2e);
    Next(37, 0xc3689f5b, 0x5f7a9b2e, 0x004b6669, 0x12f3e755, x, 0, 4, 0x4bdecfa9, 11, 0xabc34e16);
    Next(38, 0x12f3e755, 0xabc34e16, 0x5f7a9b2e, 0x004b6669, x, 0, 7, 0xf6bb4b60, 16, 0x91ca4cb7);
    Next(39, 0x004b6669, 0x91ca4cb7, 0xabc34e16, 0x5f7a9b2e, x, 0, 10, 0xbebfbc70, 23, 0xc5dc8c15);
  }

  lemma EmptyOps48(x: seq<bv32>)
    requires Short(x, 0x80, 0)
    requires Ops(40, INITIAL, x) == State(0x5f7a9b2e, 0xc5dc8c15, 0x91ca4cb7, 0xabc34e16)
    ensures Ops(48, INITIAL, x) == State(0x3f55edfd, 0xca7d2dbd, 0x68d84ea2, 0x22a31f54)
  {
    hide Ops, INITIAL;
    Next(40, 0x5f7a9b2e, 0xc5dc8c15, 0x91ca4cb7, 0xabc34e16, x, 0, 13, 0x289b7ec6, 4, 0x4497169d);
    Next(41, 0xabc34e16, 0x4497169d, 0xc5dc8c15, 0x91ca4cb7, x, 0x00000080, 0, 0xeaa127fa, 11, 0x76fd93d4);
    Next(42, 0x91ca4cb7, 0x76fd93d4, 0x4497169d, 0xc5dc8c15, x, 0, 3, 0xd4ef3085, 16, 0xfd95f243);
    Next(43, 0xc5dc8c15, 0xfd95f243, 0x76fd93d4, 0x4497169d, x, 0, 6, 0x04881d05, 23, 0x0fe32453);
    Next(44, 0x4497169d, 0x0fe32453, 0xfd95f243, 0x76fd93d4, x, 0, 9, 0xd9d4d039, 4, 0x3f55edfd);
    Next(45, 0x76fd93d4, 0x3f55edfd, 0x0fe32453, 0xfd95f243, x, 0, 12, 0xe6db99e5, 11, 0x22a31f54);
    Next(46, 0xfd95f243, 0x22a31f54, 0x3f55edfd, 0x0fe32453, x, 0, 15, 0x1fa27cf8, 16, 0x68d84ea2);
    Next(47, 0x0fe32453, 0x68d84ea2, 0x22a31f54, 0x3f55edfd, x, 0, 2, 0xc4ac5665, 23, 0xca7d2dbd);
  }

  lemma EmptyOps56(x: seq<bv32>)
    requires Short(x, 0x80, 0)
    requires Ops(48, INITIAL, x) == State(0x3f55edfd, 0xca7d2dbd, 0x68d84ea2, 0x22a31f54)
    ensures Ops(56, INITIAL, x) == State(0x5625a114, 0x1e77fa61, 0x392ad0d0, 0x3450f42b)
  {
    hide Ops, INITIAL;
    Next(48, 0x3f55edfd, 0xca7d2dbd, 0x68d84ea2, 0x22a31f54, x, 0x00000080, 0, 0xf4292244, 6, 0x93aa2577);
    Next(49, 0x22a31f54, 0x93aa2577, 0xca7d2dbd, 0x68d84ea2, x, 0, 7, 0x432aff97, 10, 0x1688dc85);
    Next(50, 0x68d84ea2, 0x1688dc85, 0x93aa2577, 0xca7d2dbd, x, 0, 14, 0xab9423a7, 15, 0xcd85b8cb);
    Next(51, 0xca7d2dbd, 0xcd85b8cb, 0x1688dc85, 0x93aa2577, x, 0, 5, 0xfc93a039, 21, 0x561e0689);
    Next(52, 0x93aa2577, 0x561e0689, 0xcd85b8cb, 0x1688dc85, x, 0, 12, 0x655b59c3, 6, 0x5625a114);
    Next(53, 0x1688dc85, 0x5625a114, 0x561e0689, 0xcd85b8cb, x, 0, 3, 0x8f0ccc92, 10, 0x3450f42b);
    Next(54, 0xcd85b8cb, 0x3450f42b, 0x5625a114, 0x561e0689, x, 0, 10, 0xffeff47d, 15, 0x392ad0d0);
    Next(55, 0x561e0689, 0x392ad0d0, 0x3450f42b, 0x5625a114, x, 0, 1, 0x85845dd1, 21, 0x1e77fa61);
  }

  lemma EmptyOps64(x: seq<bv32>)
    requires Short(x, 0x80, 0)
    requires Ops(56, INITIAL, x) == State(0x5625a114, 0x1e77fa61, 0x392ad0d0, 0x3450f42b)
    ensures Ops(64, INITIAL, x) == State(0x7246fad3, 0x14e45506, 0xff4ea3eb, 0x6e10a476)
  {
    hide Ops, INITIAL;
    Next(56, 0x5625a114, 0x1e77fa61, 0x392ad0d0, 0x3450f42b, x, 0, 8, 0x6fa87e4f, 6, 0x474a9c8c);
    Next(57, 0x3450f42b, 0x474a9c8c, 0x1e77fa61, 0x392ad0d0, x, 0, 15, 0xfe2ce6e0, 10, 0xdfce00bc);
    Next(58, 0x392ad0d0, 0xdfce00bc, 0x474a9c8c, 0x1e77fa61, x, 0, 6, 0xa3014314, 15, 0x36594b14);
    Next(59, 0x1e77fa61, 0x36594b14, 0xdfce00bc, 0x474a9c8c, x, 0, 13, 0x4e0811a1, 21, 0x30130182);
    Next(60, 0x474a9c8c, 0x30130182, 0x36594b14, 0xdfce00bc, x, 0, 4, 0xf7537e82, 6, 0x7246fad3);
    Next(61, 0xdfce00bc, 0x7246fad3, 0x30130182, 0x36594b14, x, 0, 11, 0xbd3af235, 10, 0x6e10a476);
    Next(62, 0x36594b14, 0x6e10a476, 0x7246fad3, 0x30130182, x, 0, 2, 0x2ad7d2bb, 15, 0xff4ea3eb);
    Next(63, 0x30130182, 0xff4ea3eb, 0x6e10a476, 0x7246fad3, x, 0, 9, 0xeb86d391, 21, 0x14e45506);
  }

  lemma EmptyOps(x: seq<bv32>)
    requires Short(x, 0x80, 0)
    ensures Ops(64, INITIAL, x) == State(0x7246fad3, 0x14e45506, 0xff4ea3eb, 0x6e10a476)
  {
    hide Ops;
    NoOps(INITIAL, x);
    EmptyOps8(x); EmptyOps16(x); EmptyOps24(x); EmptyOps32(x);
    EmptyOps40(x); EmptyOps48(x); EmptyOps56(x); EmptyOps64(x);
  }

  // ---- "abc" ----

  lemma AbcOps8(x: seq<bv32>)
    requires Short(x, 0x80636261, 24)
    requires Ops(0, INITIAL, x) == State(0x67452301, 0xefcdab89, 0x98badcfe, 0x10325476)
    ensures Ops(8, INITIAL, x) == State(0xc73741ef, 0x928d99f6, 0x207dc67b, 0x8bac3051)
  {
    hide Ops, INITIAL;
    Next(0, 0x67452301, 0xefcdab89, 0x98badcfe, 0x10325476, x, 0x80636261, 0, 0xd76aa478, 7, 0xd6d117b4);
    Next(1, 0x10325476, 0xd6d117b4, 0xefcdab89, 0x98badcfe, x, 0, 1, 0xe8c7b756, 12, 0x344a8432);
    Next(2, 0x98badcfe, 0x344a8432, 0xd6d117b4, 0xefcdab89, x, 0, 2, 0x242070db, 17, 0x2f6fbd72);
    Next(3, 0xefcdab89, 0x2f6fbd72, 0x344a8432, 0xd6d117b4, x, 0, 3, 0xc1bdceee, 22, 0x7ad956f2);
    Next(4, 0xd6d117b4, 0x7ad956f2, 0x2f6fbd72, 0x344a8432, x, 0, 4, 0xf57c0faf, 7, 0xc73741ef);
    Next(5, 0x344a8432, 0xc73741ef, 0x7ad956f2, 0x2f6fbd72, x, 0, 5, 0x4787c62a, 12, 0x8bac3051);
    Next(6, 0x2f6fbd72, 0x8bac3051, 0xc73741ef, 0x7ad956f2, x, 0, 6, 0xa8304613, 17, 0x207dc67b);
    Next(7, 0x7ad956f2, 0x207dc67b, 0x8bac3051, 0xc73741ef, x, 0, 7, 0xfd469501, 22, 0x928d99f6);
  }

  lemma AbcOps16(x: seq<bv32>)
    requires Short(x, 0x80636261, 24)
    requires Ops(8, INITIAL, x) == State(0xc73741ef, 0x928d99f6, 0x207dc67b, 0x8bac3051)
    ensures Ops(16, INITIAL, x) == State(0xdda9b9a6, 0x72aff2e0, 0xe396856b, 0xa1051895)
  {
    hide Ops, INITIAL;
    Next(8, 0xc73741ef, 0x928d99f6, 0x207dc67b, 0x8bac3051, x, 0, 8, 0x698098d8, 7, 0x854b3712);
    Next(9, 0x8bac3051, 0x854b3712, 0x928d99f6, 0x207dc67b, x, 0, 9, 0x8b44f7af, 12, 0x74e2f284);
    Next(10, 0x207dc67b, 0x74e2f284, 0x854b3712, 0x928d99f6, x, 0, 10, 0xffff5bb1, 17, 0x3020401c);
    Next(11, 0x928d99f6, 0x3020401c, 0x74e2f284, 0x854b3712, x, 0, 11, 0x895cd7be, 22, 0x5ed49596);
    Next(12, 0x854b3712, 0x5ed49596, 0x3020401c, 0x74e2f284, x, 0, 12, 0x6b901122, 7, 0xdda9b9a6);
    Next(13, 0x74e2f284, 0xdda9b9a6, 0x5ed49596, 0x3020401c, x, 0, 13, 0xfd987193, 12, 0xa1051895);
    Next(14, 0x3020401c, 0xa1051895, 0xdda9b9a6, 0x5ed49596, x, 24, 14, 0xa679438e, 17, 0xe396856b);
    Next(15, 0x5ed49596, 0xe396856b, 0xa1051895, 0xdda9b9a6, x, 0, 15, 0x49b40821, 22, 0x72aff2e0);
  }

  lemma AbcOps24(x: seq<bv32>)
    requires Short(x, 0x80636261, 24)
    requires Ops(16, INITIAL, x) == State(0xdda9b9a6, 0x72aff2e0, 0xe396856b, 0xa1051895)
    ensures Ops(24, INITIAL, x) == State(0x59a8ffda, 0x47092c07, 0xabfc7920, 0x6d002f1e)
  {
    hide Ops, INITIAL;
    Next(16, 0xdda9b9a6, 0x72aff2e0, 0xe396856b, 0xa1051895, x, 0, 1, 0xf61e2562, 5, 0x3e9e9126);
    Next(17, 0xa1051895, 0x3e9e9126, 0x72aff2e0, 0xe396856b, x, 0, 6, 0xc040b340, 9, 0x4a1d804e);
    Next(18, 0xe396856b, 0x4a1d804e, 0x3e9e9126, 0x72aff2e0, x, 0, 11, 0x265e5a51, 14, 0xe25e1652);
    Next(19, 0x72aff2e0, 0xe25e1652, 0x4a1d804e, 0x3e9e9126, x, 0x80636261, 0, 0xe9b6c7aa, 20, 0xb5b204e4);
    Next(20, 0x3e9e9126, 0xb5b204e4, 0xe25e1652, 0x4a1d804e, x, 0, 5, 0xd62f105d, 5, 0x59a8ffda);
    Next(21, 0x4a1d804e, 0x59a8ffda, 0xb5b204e4, 0xe25e1652, x, 0, 10, 0x02441453, 9, 0x6d002f1e);
    Next(22, 0xe25e1652, 0x6d002f1e, 0x59a8ffda, 0xb5b204e4, x, 0, 15, 0xd8a1e681, 14, 0xabfc7920);
    Next(23, 0xb5b204e4, 0xabfc7920, 0x6d002f1e, 0x59a8ffda, x, 0, 4, 0xe7d3fbc8, 20, 0x47092c07);
  }

  lemma AbcOps32(x: seq<bv32>)
    requires Short(x, 0x80636261, 24)
    requires Ops(24, INITIAL, x) == State(0x59a8ffda, 0x47092c07, 0xabfc7920, 0x6d002f1e)
    ensures Ops(32, INITIAL, x) == State(0x790a77fb, 0x726342d3, 0xa62884aa, 0x9f47e4f8)
  {
    hide Ops, INITIAL;
    Next(24, 0x59a8ffda, 0x47092c07, 0xabfc7920, 0x6d002f1e, x, 0, 9, 0x21e1cde6, 5, 0xb7f268cf);
    Next(25, 0x6d002f1e, 0xb7f268cf, 0x47092c07, 0xabfc7920, x, 24, 14, 0xc33707d6, 9, 0x09388eff);
    Next(26, 0xabfc7920, 0x09388eff, 0xb7f268cf, 0x47092c07, x, 0, 3, 0xf4d50d87, 14, 0xfe1623b1);
    Next(27, 0x47092c07, 0xfe1623b1, 0x09388eff, 0xb7f268cf, x, 0, 8, 0x455a14ed, 20, 0x786acb8f);
    Next(28, 0xb7f268cf, 0x786acb8f, 0xfe1623b1, 0x09388eff, x, 0, 13, 0xa9e3e905, 5, 0x790a77fb);
    Next(29, 0x09388eff, 0x790a77fb, 0x786acb8f, 0xfe1623b1, x, 0, 2, 0xfcefa3f8, 9, 0x9f47e4f8);
    Next(30, 0xfe1623b1, 0x9f47e4f8, 0x790a77fb, 0x786acb8f, x, 0, 7, 0x676f02d9, 14, 0xa62884aa);
    Next(31, 0x786acb8f, 0xa62884aa, 0x9f47e4f8, 0x790a77fb, x, 0, 12, 0x8d2a4c8a, 20, 0x726342d3);
  }

  lemma AbcOps40(x: seq<bv32>)
    requires Short(x, 0x80636261, 24)
    requires Ops(32, INITIAL, x) == State(0x790a77fb, 0x726342d3, 0xa62884aa, 0x9f47e4f8)
    ensures Ops(40, INITIAL, x) == State(0x21b117b9, 0x5a2f5ea5, 0x3575227e, 0x6e7429d5)
  {
    hide Ops, INITIAL;
    Next(32, 0x790a77fb, 0x726342d3, 0xa62884aa, 0x9f47e4f8, x, 0, 5, 0xfffa3942, 4, 0xb3707ebf);
    Next(33, 0x9f47e4f8, 0xb3707ebf, 0x726342d3, 0xa62884aa, x, 0, 8, 0x8771f681, 11, 0x60127b2e);
    Next(34, 0xa62884aa, 0x60127b2e, 0xb3707ebf, 0x726342d3, x, 0, 11, 0x6d9d6122, 16, 0x8d212ff5);
    Next(35, 0x726342d3, 0x8d212ff5, 0x60127b2e, 0xb3707ebf, x, 24, 14, 0xfde5380c, 23, 0x3b0875c7);
    Next(36, 0xb3707ebf, 0x3b0875c7, 0x8d212ff5, 0x60127b2e, x, 0, 1, 0xa4beea44, 4, 0x21b117b9);
    Next(37, 0x60127b2e, 0x21b117b9, 0x3b0875c7, 0x8d212ff5, x, 0, 4, 0x4bdecfa9, 11, 0x6e7429d5);
    Next(38, 0x8d212ff5, 0x6e7429d5, 0x21b117b9, 0x3b0875c7, x, 0, 7, 0xf6bb4b60, 16, 0x3575227e);
    Next(39, 0x3b0875c7, 0x3575227e, 0x6e7429d5, 0x21b117b9, x, 0, 10, 0xbebfbc70, 23, 0x5a2f5ea5);
  }

  lemma AbcOps48(x: seq<bv32>)
    requires Short(x, 0x80636261, 24)
    requires Ops(40, INITIAL, x) == State(0x21b117b9, 0x5a2f5ea5, 0x3575227e, 0x6e7429d5)
    ensures Ops(48, INITIAL, x) == State(0x7f2e507b, 0x7beb9700, 0x8fae6399, 0x99d9679d)
  {
    hide Ops, INITIAL;
    Next(40, 0x21b117b9, 0x5a2f5ea5, 0x3575227e, 0x6e7429d5, x, 0, 13, 0x289b7ec6, 4, 0x11de1779);
    Next(41, 0x6e7429d5, 0x11de1779, 0x5a2f5ea5, 0x3575227e, x, 0x80636261, 0, 0xeaa127fa, 11, 0xfadcaa38);
    Next(42, 0x3575227e, 0xfadcaa38, 0x11de1779, 0x5a2f5ea5, x, 0, 3, 0xd4ef3085, 16, 0x31c465ca);
    Next(43, 0x5a2f5ea5, 0x31c465ca, 0xfadcaa38, 0x11de1779, x, 0, 6, 0x04881d05, 23, 0x4c6124f4);
    Next(44, 0x11de1779, 0x4c6124f4, 0x31c465ca, 0xfadcaa38, x, 0, 9, 0xd9d4d039, 4, 0x7f2e507b);
    Next(45, 0xfadcaa38, 0x7f2e507b, 0x4c6124f4, 0x31c465ca, x, 0, 12, 0xe6db99e5, 11, 0x99d9679d);
    Next(46, 0x31c465ca, 0x99d9679d, 0x7f2e507b, 0x4c6124f4, x, 0, 15, 0x1fa27cf8, 16, 0x8fae6399);
    Next(47, 0x4c6124f4, 0x8fae6399, 0x99d9679d, 0x7f2e507b, x, 0, 2, 0xc4ac5665, 23, 0x7beb9700);
  }

  lemma AbcOps56(x: seq<bv32>)
    requires Short(x, 0x80636261, 24)
    requires Ops(48, INITIAL, x) == State(0x7f2e507b, 0x7beb9700, 0x8fae6399, 0x99d9679d)
    ensures Ops(56, INITIAL, x) == State(0x06cc5e8a, 0x3bfa2c27, 0x7d632dd0, 0x5b0d97aa)
  {
    hide Ops, INITIAL;
    Next(48, 0x7f2e507b, 0x7beb9700, 0x8fae6399, 0x99d9679d, x, 0x80636261, 0, 0xf4292244, 6, 0x7b201df8);
    Next(49, 0x99d9679d, 0x7b201df8, 0x7beb9700, 0x8fae6399, x, 0, 7, 0x432aff97, 10, 0xf4e8e96e);
    Next(50, 0x8fae6399, 0xf4e8e96e, 0x7b201df8, 0x7beb9700, x, 24, 14, 0xab9423a7, 15, 0xb298cefd);
    Next(51, 0x7beb9700, 0xb298cefd, 0xf4e8e96e, 0x7b201df8, x, 0, 5, 0xfc93a039, 21, 0x8bf025c4);
    Next(52, 0x7b201df8, 0x8bf025c4, 0xb298cefd, 0xf4e8e96e, x, 0, 12, 0x655b59c3, 6, 0x06cc5e8a);
    Next(53, 0xf4e8e96e, 0x06cc5e8a, 0x8bf025c4, 0xb298cefd, x, 0, 3, 0x8f0ccc92, 10, 0x5b0d97aa);
    Next(54, 0xb298cefd, 0x5b0d97aa, 0x06cc5e8a, 0x8bf025c4, x, 0, 10, 0xffeff47d, 15, 0x7d632dd0);
    Next(55, 0x8bf025c4, 0x7d632dd0, 0x5b0d97aa, 0x06cc5e8a, x, 0, 1, 0x85845dd1, 21, 0x3bfa2c27);
  }

  lemma AbcOps64(x: seq<bv32>)
    requires Short(x, 0x80636261, 24)
    requires Ops(56, INITIAL, x) == State(0x06cc5e8a, 0x3bfa2c27, 0x7d632dd0, 0x5b0d97aa)
    ensures Ops(64, INITIAL, x) == State(0x310ade8f, 0xc08226b3, 0xe484b9d8, 0x624d8cb2)
  {
    hide Ops, INITIAL;
    Next(56, 0x06cc5e8a, 0x3bfa2c27, 0x7d632dd0, 0x5b0d97aa, x, 0, 8, 0x6fa87e4f, 6, 0x7f81cc35);
    Next(57, 0x5b0d97aa, 0x7f81cc35, 0x3bfa2c27, 0x7d632dd0, x, 0, 15, 0xfe2ce6e0, 10, 0x094454ab);
    Next(58, 0x7d632dd0, 0x094454ab, 0x7f81cc35, 0x3bfa2c27, x, 0, 6, 0xa3014314, 15, 0x4f9dbe3f);
    Next(59, 0x3bfa2c27, 0x4f9dbe3f, 0x094454ab, 0x7f81cc35, x, 0, 13, 0x4e0811a1, 21, 0x7327d604);
    Next(60, 0x7f81cc35, 0x7327d604, 0x4f9dbe3f, 0x094454ab, x, 0, 4, 0xf7537e82, 6, 0x310ade8f);
    Next(61, 0x094454ab, 0x310ade8f, 0x7327d604, 0x4f9dbe3f, x, 0, 11, 0xbd3af235, 10, 0x624d8cb2);
    Next(62, 0x4f9dbe3f, 0x624d8cb2, 0x310ade8f, 0x7327d604, x, 0, 2, 0x2ad7d2bb, 15, 0xe484b9d8);
    Next(63, 0x7327d604, 0xe484b9d8, 0x624d8cb2, 0x310ade8f, x, 0, 9, 0xeb86d391, 21, 0xc08226b3);
  }

  lemma AbcOps(x: seq<bv32>)
    requires Short(x, 0x80636261, 24)
    ensures Ops(64, INITIAL, x) == State(0x310ade8f, 0xc08226b3, 0xe484b9d8, 0x624d8cb2)
  {
    hide Ops;
    NoOps(INITIAL, x);
    AbcOps8(x); AbcOps16(x); AbcOps24(x); AbcOps32(x);
    AbcOps40(x); AbcOps48(x); AbcOps56(x); AbcOps64(x);
  }

  // ---- the digests ----

  /** The padded form of a message of at most three bytes. */
  function ShortBlock(m: seq<bv8>): (b: Block)
    requires |m| <= 3
  {
    m + [0x80] + Zeros(55 - |m|) + [8 * |m| as bv8] + Zeros(7)
  }

  lemma ShortPadded(m: seq<bv8>)
    requires |m| <= 3
    ensures Padded(m) == ShortBlock(m)
  {
    hide Padding, LengthBytes, Zeros;
    ShortPadding(|m|);
    ShortLength(8 * |m|);
    assert m + ([0x80] + Zeros(55 - |m|)) + ([8 * |m| as bv8] + Zeros(7)) == ShortBlock(m);
  }

  lemma ShortPadding(n: nat)
    requires n <= 3
    ensures Padding(n) == [0x80] + Zeros(55 - n)
  {
  }

  lemma ShortLength(n: nat)
    requires n < 0x100
    ensures LengthBytes(n) == [n as bv8] + Zeros(7)
  {
    hide WordBytes;
    assert n % 0x1_0000_0000 == n && n / 0x1_0000_0000 == 0;
    LowByte(n);
    LowByte(0);
  }

  lemma LowByte(n: nat)
    requires n < 0x100
    ensures WordBytes(n) == [n as bv8, 0, 0, 0]
  {
    assert n % 0x100 == n && n / 0x100 == 0 && n / 0x1_0000 == 0 && n / 0x100_0000 == 0;
  }

  lemma ShortDigest(m: seq<bv8>)
    requires |m| <= 3
    ensures Digest(m) == StateBytes(Compress(INITIAL, ShortBlock(m)))
  {
    hide Compress, StateBytes;
    ShortPadded(m);
    var b: Block := ShortBlock(m);
    assert [] + b == b;
    FoldOne(Compress, INITIAL, [], b);
  }

  lemma EmptyWords()
    ensures Short(Words(ShortBlock([])), 0x80, 0)
  {
  }

  lemma AbcWords()
    ensures Short(Words(ShortBlock([0x61, 0x62, 0x63])), 0x80636261, 24)
  {
  }

  /** MD5 (""). */
  lemma EmptyDigest()
    ensures Digest([])
         == [0xd4, 0x1d, 0x8c, 0xd9, 0x8f, 0x00, 0xb2, 0x04, 0xe9, 0x80, 0x09, 0x98, 0xec, 0xf8, 0x42, 0x7e]
  {
    hide Ops, Words, ShortBlock, Short;
    ShortDigest([]);
    EmptyWords();
    EmptyOps(Words(ShortBlock([])));
    assert Compress(INITIAL, ShortBlock([])) == State(0xd98c1dd4, 0x04b2008f, 0x980980e9, 0x7e42f8ec);
  }

  /** MD5 ("abc"). */
  lemma AbcDigest()
    ensures Digest([0x61, 0x62, 0x63])
         == [0x90, 0x01, 0x50, 0x98, 0x3c, 0xd2, 0x4f, 0xb0, 0xd6, 0x96, 0x3f, 0x7d, 0x28, 0xe1, 0x7f, 0x72]
  {
    hide Ops, Words, ShortBlock, Short;
    var m: seq<bv8> := [0x61, 0x62, 0x63];
    ShortDigest(m);
    AbcWords();
    AbcOps(Words(ShortBlock(m)));
    assert Compress(INITIAL, ShortBlock(m)) == State(0x98500190, 0xb04fd23c, 0x7d3f96d6, 0x727fe128);
  }
}
