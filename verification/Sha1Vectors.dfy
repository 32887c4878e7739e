/** The examples of FIPS 180-1, appendices A and B: the digests of a message of one block and of
    one of two, word by word and step by step. */
module Sha1Vectors {
  import opened Blocks
  import opened Sha1

  /** "abcdbcdecdefdefg", "efghfghighijhijk", "ijkljklmklmnlmno" and "mnopnopq", with the padding of
      the first block. */
  function Quarter1(): (q: seq<bv8>)
    ensures |q| == 16
  {
    [0x61, 0x62, 0x63, 0x64, 0x62, 0x63, 0x64, 0x65, 0x63, 0x64, 0x65, 0x66, 0x64, 0x65, 0x66, 0x67]
  }

  function Quarter2(): (q: seq<bv8>)
    ensures |q| == 16
  {
    [0x65, 0x66, 0x67, 0x68, 0x66, 0x67, 0x68, 0x69, 0x67, 0x68, 0x69, 0x6a, 0x68, 0x69, 0x6a, 0x6b]
  }

  function Quarter3(): (q: seq<bv8>)
    ensures |q| == 16
  {
    [0x69, 0x6a, 0x6b, 0x6c, 0x6a, 0x6b, 0x6c, 0x6d, 0x6b, 0x6c, 0x6d, 0x6e, 0x6c, 0x6d, 0x6e, 0x6f]
  }

  function Quarter4(): (q: seq<bv8>)
    ensures |q| == 16
  {
    [0x6d, 0x6e, 0x6f, 0x70, 0x6e, 0x6f, 0x70, 0x71, 0x80, 0x00, 0x00, 0x00, 0x00, 0x00, 0x00, 0x00]
  }

  function LongMessage(): (m: seq<bv8>)
    ensures |m| == 56
  {
    Quarter1() + Quarter2() + Quarter3() + Quarter4()[..8]
  }

  /** Four consecutive words of the sequence derived from a block. */
  ghost predicate Four(t: nat, b: Block, w0: bv32, w1: bv32, w2: bv32, w3: bv32)
  {
    W(t, b) == w0 && W(t + 1, b) == w1 && W(t + 2, b) == w2 && W(t + 3, b) == w3
  }

  lemma NoSteps(h: State, b: Block)
    ensures Ops(0, h, b) == h
  {
  }

  /** One word of the sequence, from the four words it is made of. */
  lemma Derive(t: nat, b: Block, w16: bv32, w14: bv32, w8: bv32, w3: bv32, w: bv32)
    requires t >= 16 && W(t - 16, b) == w16 && W(t - 14, b) == w14 && W(t - 8, b) == w8 && W(t - 3, b) == w3
    requires Rotate(Xor4(w3, w8, w14, w16), 1) == w
    ensures W(t, b) == w
  {
    hide Rotate, Xor4, Word;
  }

  /** One step: word w gives the new register r, and b is rotated into s. */
  lemma Next(t: nat, h0: State, blk: Block, a: bv32, b: bv32, c: bv32, d: bv32, e: bv32, w: bv32,
             r: bv32, s: bv32)
    requires Ops(t, h0, blk) == State(a, b, c, d, e) && W(t, blk) == w
    requires Add(Add(Add(Add(Rotate(a, 5), Logic(t, b, c, d)), e), w), K(t)) == r && Rotate(b, 30) == s
    ensures Ops(t + 1, h0, blk) == State(r, a, s, c, d)
  {
    hide Rotate, Add, Logic, K, W;
  }

  // ---- "abc" ----

  lemma AbcWords32(b: Block)
    requires Four(0, b, 0x61626380, 0x00000000, 0x00000000, 0x00000000)
    requires Four(4, b, 0x00000000, 0x00000000, 0x00000000, 0x00000000)
    requires Four(8, b, 0x00000000, 0x00000000, 0x00000000, 0x00000000)
    requires Four(12, b, 0x00000000, 0x00000000, 0x00000000, 0x00000018)
    ensures Four(16, b, 0xc2c4c700, 0x00000000, 0x00000030, 0x85898e01)
    ensures Four(20, b, 0x00000000, 0x00000060, 0x0b131c03, 0x00000030)
    ensures Four(24, b, 0x85898ec1, 0x16263806, 0x00000000, 0x00000180)
    ensures Four(28, b, 0x2c4c700c, 0x000000f0, 0x93afb507, 0x5898e048)
  {
    hide W;
    Derive(16, b, 0x61626380, 0x00000000, 0x00000000, 0x00000000, 0xc2c4c700);
    Derive(17, b, 0x00000000, 0x00000000, 0x00000000, 0x00000000, 0x00000000);
    Derive(18, b, 0x00000000, 0x00000000, 0x00000000, 0x00000018, 0x00000030);
    Derive(19, b, 0x00000000, 0x00000000, 0x00000000, 0xc2c4c700, 0x85898e01);
    Derive(20, b, 0x00000000, 0x00000000, 0x00000000, 0x00000000, 0x00000000);
    Derive(21, b, 0x00000000, 0x00000000, 0x00000000, 0x00000030, 0x00000060);
    Derive(22, b, 0x00000000, 0x00000000, 0x00000000, 0x85898e01, 0x0b131c03);
    Derive(23, b, 0x00000000, 0x00000000, 0x00000018, 0x00000000, 0x00000030);
    Derive(24, b, 0x00000000, 0x00000000, 0xc2c4c700, 0x00000060, 0x85898ec1);
    Derive(25, b, 0x00000000, 0x00000000, 0x00000000, 0x0b131c03, 0x16263806);
    Derive(26, b, 0x00000000, 0x00000000, 0x00000030, 0x00000030, 0x00000000);
    Derive(27, b, 0x00000000, 0x00000000, 0x85898e01, 0x85898ec1, 0x00000180);
    Derive(28, b, 0x00000000, 0x00000000, 0x00000000, 0x16263806, 0x2c4c700c);
    Derive(29, b, 0x00000000, 0x00000018, 0x00000060, 0x00000000, 0x000000f0);
    Derive(30, b, 0x00000000, 0xc2c4c700, 0x0b131c03, 0x00000180, 0x93afb507);
    Derive(31, b, 0x00000018, 0x00000000, 0x00000030, 0x2c4c700c, 0x5898e048);
  }

  lemma AbcWords48(b: Block)
    requires Four(16, b, 0xc2c4c700, 0x00000000, 0x00000030, 0x85898e01)
    requires Four(20, b, 0x00000000, 0x00000060, 0x0b131c03, 0x00000030)
    requires Four(24, b, 0x85898ec1, 0x16263806, 0x00000000, 0x00000180)
    requires Four(28, b, 0x2c4c700c, 0x000000f0, 0x93afb507, 0x5898e048)
    ensures Four(32, b, 0x8e9a9202, 0x00000600, 0xb131c0f0, 0x16263bc6)
    ensures Four(36, b, 0x4ebed41e, 0x626380a1, 0x16263806, 0x000018c0)
    ensures Four(40, b, 0xd2e138c4, 0x00000f00, 0x3afb5079, 0x898e04e5)
    ensures Four(44, b, 0xe2ba3c2b, 0x000060c0, 0x053a37cd, 0x74458547)
  {
    hide W;
    Derive(32, b, 0xc2c4c700, 0x00000030, 0x85898ec1, 0x000000f0, 0x8e9a9202);
    Derive(33, b, 0x00000000, 0x85898e01, 0x16263806, 0x93afb507, 0x00000600);
    Derive(34, b, 0x00000030, 0x00000000, 0x00000000, 0x5898e048, 0xb131c0f0);
    Derive(35, b, 0x85898e01, 0x00000060, 0x00000180, 0x8e9a9202, 0x16263bc6);
    Derive(36, b, 0x00000000, 0x0b131c03, 0x2c4c700c, 0x00000600, 0x4ebed41e);
    Derive(37, b, 0x00000060, 0x00000030, 0x000000f0, 0xb131c0f0, 0x626380a1);
    Derive(38, b, 0x0b131c03, 0x85898ec1, 0x93afb507, 0x16263bc6, 0x16263806);
    Derive(39, b, 0x00000030, 0x16263806, 0x5898e048, 0x4ebed41e, 0x000018c0);
    Derive(40, b, 0x85898ec1, 0x00000000, 0x8e9a9202, 0x626380a1, 0xd2e138c4);
    Derive(41, b, 0x16263806, 0x00000180, 0x00000600, 0x16263806, 0x00000f00);
    Derive(42, b, 0x00000000, 0x2c4c700c, 0xb131c0f0, 0x000018c0, 0x3afb5079);
    Derive(43, b, 0x00000180, 0x000000f0, 0x16263bc6, 0xd2e138c4, 0x898e04e5);
    Derive(44, b, 0x2c4c700c, 0x93afb507, 0x4ebed41e, 0x00000f00, 0xe2ba3c2b);
    Derive(45, b, 0x000000f0, 0x5898e048, 0x626380a1, 0x3afb5079, 0x000060c0);
    Derive(46, b, 0x93afb507, 0x8e9a9202, 0x16263806, 0x898e04e5, 0x053a37cd);
    Derive(47, b, 0x5898e048, 0x00000600, 0x000018c0, 0xe2ba3c2b, 0x74458547);
  }

  lemma AbcWords64(b: Block)
    requires Four(32, b, 0x8e9a9202, 0x00000600, 0xb131c0f0, 0x16263bc6)
    requires Four(36, b, 0x4ebed41e, 0x626380a1, 0x16263806, 0x000018c0)
    requires Four(40, b, 0xd2e138c4, 0x00000f00, 0x3afb5079, 0x898e04e5)
    requires Four(44, b, 0xe2ba3c2b, 0x000060c0, 0x053a37cd, 0x74458547)
    ensures Four(48, b, 0xda9415ed, 0x26380a16, 0x626383a1, 0x4ebf54de)
    ensures Four(52, b, 0x3835b44b, 0x0000f600, 0x1e84c7a3, 0x98e04d98)
    ensures Four(56, b, 0x651d16a0, 0x62658ca1, 0x458544d6, 0x44584cb7)
    ensures Four(60, b, 0x7ba06619, 0x6380aea2, 0x0ae55269, 0x627b49a1)
  {
    hide W;
    Derive(48, b, 0x8e9a9202, 0xb131c0f0, 0xd2e138c4, 0x000060c0, 0xda9415ed);
    Derive(49, b, 0x00000600, 0x16263bc6, 0x00000f00, 0x053a37cd, 0x26380a16);
    Derive(50, b, 0xb131c0f0, 0x4ebed41e, 0x3afb5079, 0x74458547, 0x626383a1);
    Derive(51, b, 0x16263bc6, 0x626380a1, 0x898e04e5, 0xda9415ed, 0x4ebf54de);
    Derive(52, b, 0x4ebed41e, 0x16263806, 0xe2ba3c2b, 0x26380a16, 0x3835b44b);
    Derive(53, b, 0x626380a1, 0x000018c0, 0x000060c0, 0x626383a1, 0x0000f600);
    Derive(54, b, 0x16263806, 0xd2e138c4, 0x053a37cd, 0x4ebf54de, 0x1e84c7a3);
    Derive(55, b, 0x000018c0, 0x00000f00, 0x74458547, 0x3835b44b, 0x98e04d98);
    Derive(56, b, 0xd2e138c4, 0x3afb5079, 0xda9415ed, 0x0000f600, 0x651d16a0);
    Derive(57, b, 0x00000f00, 0x898e04e5, 0x26380a16, 0x1e84c7a3, 0x62658ca1);
    Derive(58, b, 0x3afb5079, 0xe2ba3c2b, 0x626383a1, 0x98e04d98, 0x458544d6);
    Derive(59, b, 0x898e04e5, 0x000060c0, 0x4ebf54de, 0x651d16a0, 0x44584cb7);
    Derive(60, b, 0xe2ba3c2b, 0x053a37cd, 0x3835b44b, 0x62658ca1, 0x7ba06619);
    Derive(61, b, 0x000060c0, 0x74458547, 0x0000f600, 0x458544d6, 0x6380aea2);
    Derive(62, b, 0x053a37cd, 0xda9415ed, 0x1e84c7a3, 0x44584cb7, 0x0ae55269);
    Derive(63, b, 0x74458547, 0x26380a16, 0x98e04d98, 0x7ba06619, 0x627b49a1);
  }

  lemma AbcWords80(b: Block)
    requires Four(48, b, 0xda9415ed, 0x26380a16, 0x626383a1, 0x4ebf54de)
    requires Four(52, b, 0x3835b44b, 0x0000f600, 0x1e84c7a3, 0x98e04d98)
    requires Four(56, b, 0x651d16a0, 0x62658ca1, 0x458544d6, 0x44584cb7)
    requires Four(60, b, 0x7ba06619, 0x6380aea2, 0x0ae55269, 0x627b49a1)
    ensures Four(64, b, 0x7cd45c9d, 0x000f0000, 0xfb50753a, 0xec6765e8)
    ensures Four(68, b, 0xba3c2be2, 0x0060c000, 0x3a37cd05, 0x458546f4)
    ensures Four(72, b, 0xb8599dd6, 0x380a1a26, 0x01e02203, 0xe7cc3456)
    ensures Four(76, b, 0xe6e60b69, 0x00f60a00, 0x5795ef4f, 0x822e0879)
  {
    hide W;
    Derive(64, b, 0xda9415ed, 0x626383a1, 0x651d16a0, 0x6380aea2, 0x7cd45c9d);
    Derive(65, b, 0x26380a16, 0x4ebf54de, 0x62658ca1, 0x0ae55269, 0x000f0000);
    Derive(66, b, 0x626383a1, 0x3835b44b, 0x458544d6, 0x627b49a1, 0xfb50753a);
    Derive(67, b, 0x4ebf54de, 0x0000f600, 0x44584cb7, 0x7cd45c9d, 0xec6765e8);
    Derive(68, b, 0x3835b44b, 0x1e84c7a3, 0x7ba06619, 0x000f0000, 0xba3c2be2);
    Derive(69, b, 0x0000f600, 0x98e04d98, 0x6380aea2, 0xfb50753a, 0x0060c000);
    Derive(70, b, 0x1e84c7a3, 0x651d16a0, 0x0ae55269, 0xec6765e8, 0x3a37cd05);
    Derive(71, b, 0x98e04d98, 0x62658ca1, 0x627b49a1, 0xba3c2be2, 0x458546f4);
    Derive(72, b, 0x651d16a0, 0x458544d6, 0x7cd45c9d, 0x0060c000, 0xb8599dd6);
    Derive(73, b, 0x62658ca1, 0x44584cb7, 0x000f0000, 0x3a37cd05, 0x380a1a26);
    Derive(74, b, 0x458544d6, 0x7ba06619, 0xfb50753a, 0x458546f4, 0x01e02203);
    Derive(75, b, 0x44584cb7, 0x6380aea2, 0xec6765e8, 0xb8599dd6, 0xe7cc3456);
    Derive(76, b, 0x7ba06619, 0x0ae55269, 0xba3c2be2, 0x380a1a26, 0xe6e60b69);
    Derive(77, b, 0x6380aea2, 0x627b49a1, 0x0060c000, 0x01e02203, 0x00f60a00);
    Derive(78, b, 0x0ae55269, 0x7cd45c9d, 0x3a37cd05, 0xe7cc3456, 0x5795ef4f);
    Derive(79, b, 0x627b49a1, 0x000f0000, 0x458546f4, 0xe6e60b69, 0x822e0879);
  }

  lemma AbcRound1(h: State, b: Block)
    requires Ops(0, h, b) == State(0x67452301, 0xefcdab89, 0x98badcfe, 0x10325476, 0xc3d2e1f0)
    requires Four(0, b, 0x61626380, 0x00000000, 0x00000000, 0x00000000)
    requires Four(4, b, 0x00000000, 0x00000000, 0x00000000, 0x00000000)
    requires Four(8, b, 0x00000000, 0x00000000, 0x00000000, 0x00000000)
    requires Four(12, b, 0x00000000, 0x00000000, 0x00000000, 0x00000018)
    requires Four(16, b, 0xc2c4c700, 0x00000000, 0x00000030, 0x85898e01)
    ensures Ops(20, h, b) == State(0xfd9e1d7d, 0xdc64901d, 0x20aa99ca, 0xd3a49608, 0xc82f758b)
  {
    hide Ops, W;
    Next(0, h, b, 0x67452301, 0xefcdab89, 0x98badcfe, 0x10325476, 0xc3d2e1f0, 0x61626380, 0x0116fc33, 0x7bf36ae2);
    Next(1, h, b, 0x0116fc33, 0x67452301, 0x7bf36ae2, 0x98badcfe, 0x10325476, 0x00000000, 0x8990536d, 0x59d148c0);
    Next(2, h, b, 0x8990536d, 0x0116fc33, 0x59d148c0, 0x7bf36ae2, 0x98badcfe, 0x00000000, 0xa1390f08, 0xc045bf0c);
    Next(3, h, b, 0xa1390f08, 0x8990536d, 0xc045bf0c, 0x59d148c0, 0x7bf36ae2, 0x00000000, 0xcdd8e11b, 0x626414db);
    Next(4, h, b, 0xcdd8e11b, 0xa1390f08, 0x626414db, 0xc045bf0c, 0x59d148c0, 0x00000000, 0xcfd499de, 0x284e43c2);
    Next(5, h, b, 0xcfd499de, 0xcdd8e11b, 0x284e43c2, 0x626414db, 0xc045bf0c, 0x00000000, 0x3fc7ca40, 0xf3763846);
    Next(6, h, b, 0x3fc7ca40, 0xcfd499de, 0xf3763846, 0x284e43c2, 0x626414db, 0x00000000, 0x993e30c1, 0xb3f52677);
    Next(7, h, b, 0x993e30c1, 0x3fc7ca40, 0xb3f52677, 0xf3763846, 0x284e43c2, 0x00000000, 0x9e8c07d4, 0x0ff1f290);
    Next(8, h, b, 0x9e8c07d4, 0x993e30c1, 0x0ff1f290, 0xb3f52677, 0xf3763846, 0x00000000, 0x4b6ae328, 0x664f8c30);
    Next(9, h, b, 0x4b6ae328, 0x9e8c07d4, 0x664f8c30, 0x0ff1f290, 0xb3f52677, 0x00000000, 0x8351f929, 0x27a301f5);
    Next(10, h, b, 0x8351f929, 0x4b6ae328, 0x27a301f5, 0x664f8c30, 0x0ff1f290, 0x00000000, 0xfbda9e89, 0x12dab8ca);
    Next(11, h, b, 0xfbda9e89, 0x8351f929, 0x12dab8ca, 0x27a301f5, 0x664f8c30, 0x00000000, 0x63188fe4, 0x60d47e4a);
    Next(12, h, b, 0x63188fe4, 0xfbda9e89, 0x60d47e4a, 0x12dab8ca, 0x27a301f5, 0x00000000, 0x4607b664, 0x7ef6a7a2);
    Next(13, h, b, 0x4607b664, 0x63188fe4, 0x7ef6a7a2, 0x60d47e4a, 0x12dab8ca, 0x00000000, 0x9128f695, 0x18c623f9);
    Next(14, h, b, 0x9128f695, 0x4607b664, 0x18c623f9, 0x7ef6a7a2, 0x60d47e4a, 0x00000000, 0x196bee77, 0x1181ed99);
    Next(15, h, b, 0x196bee77, 0x9128f695, 0x1181ed99, 0x18c623f9, 0x7ef6a7a2, 0x00000018, 0x20bdd62f, 0x644a3da5);
    Next(16, h, b, 0x20bdd62f, 0x196bee77, 0x644a3da5, 0x1181ed99, 0x18c623f9, 0xc2c4c700, 0x4e925823, 0xc65afb9d);
    Next(17, h, b, 0x4e925823, 0x20bdd62f, 0xc65afb9d, 0x644a3da5, 0x1181ed99, 0x00000000, 0x82aa6728, 0xc82f758b);
    Next(18, h, b, 0x82aa6728, 0x4e925823, 0xc82f758b, 0xc65afb9d, 0x644a3da5, 0x00000030, 0xdc64901d, 0xd3a49608);
    Next(19, h, b, 0xdc64901d, 0x82aa6728, 0xd3a49608, 0xc82f758b, 0xc65afb9d, 0x85898e01, 0xfd9e1d7d, 0x20aa99ca);
  }

  lemma AbcRound2(h: State, b: Block)
    requires Ops(20, h, b) == State(0xfd9e1d7d, 0xdc64901d, 0x20aa99ca, 0xd3a49608, 0xc82f758b)
    requires Four(20, b, 0x00000000, 0x00000060, 0x0b131c03, 0x00000030)
    requires Four(24, b, 0x85898ec1, 0x16263806, 0x00000000, 0x00000180)
    requires Four(28, b, 0x2c4c700c, 0x000000f0, 0x93afb507, 0x5898e048)
    requires Four(32, b, 0x8e9a9202, 0x00000600, 0xb131c0f0, 0x16263bc6)
    requires Four(36, b, 0x4ebed41e, 0x626380a1, 0x16263806, 0x000018c0)
    ensures Ops(40, h, b) == State(0x32de1cba, 0x4c986405, 0xf718e5cf, 0x03d447f6, 0xf72eec32)
  {
    hide Ops, W;
    Next(20, h, b, 0xfd9e1d7d, 0xdc64901d, 0x20aa99ca, 0xd3a49608, 0xc82f758b, 0x00000000, 0x1a37b0ca, 0x77192407);
    Next(21, h, b, 0x1a37b0ca, 0xfd9e1d7d, 0x77192407, 0x20aa99ca, 0xd3a49608, 0x00000060, 0x33a23bfc, 0x7f67875f);
    Next(22, h, b, 0x33a23bfc, 0x1a37b0ca, 0x7f67875f, 0x77192407, 0x20aa99ca, 0x0b131c03, 0x21283486, 0x868dec32);
    Next(23, h, b, 0x21283486, 0x33a23bfc, 0x868dec32, 0x7f67875f, 0x77192407, 0x00000030, 0xd541f12d, 0x0ce88eff);
    Next(24, h, b, 0xd541f12d, 0x21283486, 0x0ce88eff, 0x868dec32, 0x7f67875f, 0x85898ec1, 0xc7567dc6, 0x884a0d21);
    Next(25, h, b, 0xc7567dc6, 0xd541f12d, 0x884a0d21, 0x0ce88eff, 0x868dec32, 0x16263806, 0x48413ba4, 0x75507c4b);
    Next(26, h, b, 0x48413ba4, 0xc7567dc6, 0x75507c4b, 0x884a0d21, 0x0ce88eff, 0x00000000, 0xbe35fbd5, 0xb1d59f71);
    Next(27, h, b, 0xbe35fbd5, 0x48413ba4, 0xb1d59f71, 0x75507c4b, 0x884a0d21, 0x00000180, 0x4aa84d97, 0x12104ee9);
    Next(28, h, b, 0x4aa84d97, 0xbe35fbd5, 0x12104ee9, 0xb1d59f71, 0x75507c4b, 0x2c4c700c, 0x8370b52e, 0x6f8d7ef5);
    Next(29, h, b, 0x8370b52e, 0x4aa84d97, 0x6f8d7ef5, 0x12104ee9, 0xb1d59f71, 0x000000f0, 0xc5fbaf5d, 0xd2aa1365);
    Next(30, h, b, 0xc5fbaf5d, 0x8370b52e, 0xd2aa1365, 0x6f8d7ef5, 0x12104ee9, 0x93afb507, 0x1267b407, 0xa0dc2d4b);
    Next(31, h, b, 0x1267b407, 0xc5fbaf5d, 0xa0dc2d4b, 0xd2aa1365, 0x6f8d7ef5, 0x5898e048, 0x3b845d33, 0x717eebd7);
    Next(32, h, b, 0x3b845d33, 0x1267b407, 0x717eebd7, 0xa0dc2d4b, 0xd2aa1365, 0x8e9a9202, 0x046faa0a, 0xc499ed01);
    Next(33, h, b, 0x046faa0a, 0x3b845d33, 0xc499ed01, 0x717eebd7, 0xa0dc2d4b, 0x00000600, 0x2c0ebc11, 0xcee1174c);
    Next(34, h, b, 0x2c0ebc11, 0x046faa0a, 0xcee1174c, 0xc499ed01, 0x717eebd7, 0xb131c0f0, 0x21796ad4, 0x811bea82);
    Next(35, h, b, 0x21796ad4, 0x2c0ebc11, 0x811bea82, 0xcee1174c, 0xc499ed01, 0x16263bc6, 0xdcbbb0cb, 0x4b03af04);
    Next(36, h, b, 0xdcbbb0cb, 0x21796ad4, 0x4b03af04, 0x811bea82, 0xcee1174c, 0x4ebed41e, 0x0f511fd8, 0x085e5ab5);
    Next(37, h, b, 0x0f511fd8, 0xdcbbb0cb, 0x085e5ab5, 0x4b03af04, 0x811bea82, 0x626380a1, 0xdc63973f, 0xf72eec32);
    Next(38, h, b, 0xdc63973f, 0x0f511fd8, 0xf72eec32, 0x085e5ab5, 0x4b03af04, 0x16263806, 0x4c986405, 0x03d447f6);
    Next(39, h, b, 0x4c986405, 0xdc63973f, 0x03d447f6, 0xf72eec32, 0x085e5ab5, 0x000018c0, 0x32de1cba, 0xf718e5cf);
  }

  lemma AbcRound3(h: State, b: Block)
    requires Ops(40, h, b) == State(0x32de1cba, 0x4c986405, 0xf718e5cf, 0x03d447f6, 0xf72eec32)
    requires Four(40, b, 0xd2e138c4, 0x00000f00, 0x3afb5079, 0x898e04e5)
    requires Four(44, b, 0xe2ba3c2b, 0x000060c0, 0x053a37cd, 0x74458547)
    requires Four(48, b, 0xda9415ed, 0x26380a16, 0x626383a1, 0x4ebf54de)
    requires Four(52, b, 0x3835b44b, 0x0000f600, 0x1e84c7a3, 0x98e04d98)
    requires Four(56, b, 0x651d16a0, 0x62658ca1, 0x458544d6, 0x44584cb7)
    ensures Ops(60, h, b) == State(0x3f52de5a, 0x09d785fd, 0x3498bfd4, 0xf211824f, 0xd79915ab)
  {
    hide Ops, W;
    Next(40, h, b, 0x32de1cba, 0x4c986405, 0xf718e5cf, 0x03d447f6, 0xf72eec32, 0xd2e138c4, 0xfc87dedf, 0x53261901);
    Next(41, h, b, 0xfc87dedf, 0x32de1cba, 0x53261901, 0xf718e5cf, 0x03d447f6, 0x00000f00, 0x970a0d5c, 0x8cb7872e);
    Next(42, h, b, 0x970a0d5c, 0xfc87dedf, 0x8cb7872e, 0x53261901, 0xf718e5cf, 0x3afb5079, 0x7f193dc5, 0xff21f7b7);
    Next(43, h, b, 0x7f193dc5, 0x970a0d5c, 0xff21f7b7, 0x8cb7872e, 0x53261901, 0x898e04e5, 0xee1b1aaf, 0x25c28357);
    Next(44, h, b, 0xee1b1aaf, 0x7f193dc5, 0x25c28357, 0xff21f7b7, 0x8cb7872e, 0xe2ba3c2b, 0x40f28e09, 0x5fc64f71);
    Next(45, h, b, 0x40f28e09, 0xee1b1aaf, 0x5fc64f71, 0x25c28357, 0xff21f7b7, 0x000060c0, 0x1c51e1f2, 0xfb86c6ab);
    Next(46, h, b, 0x1c51e1f2, 0x40f28e09, 0xfb86c6ab, 0x5fc64f71, 0x25c28357, 0x053a37cd, 0xa01b846c, 0x503ca382);
    Next(47, h, b, 0xa01b846c, 0x1c51e1f2, 0x503ca382, 0xfb86c6ab, 0x5fc64f71, 0x74458547, 0xbead02ca, 0x8714787c);
    Next(48, h, b, 0xbead02ca, 0xa01b846c, 0x8714787c, 0x503ca382, 0xfb86c6ab, 0xda9415ed, 0xbaf39337, 0x2806e11b);
    Next(49, h, b, 0xbaf39337, 0xbead02ca, 0x2806e11b, 0x8714787c, 0x503ca382, 0x26380a16, 0x120731c5, 0xafab40b2);
    Next(50, h, b, 0x120731c5, 0xbaf39337, 0xafab40b2, 0x2806e11b, 0x8714787c, 0x626383a1, 0x641db2ce, 0xeebce4cd);
    Next(51, h, b, 0x641db2ce, 0x120731c5, 0xeebce4cd, 0xafab40b2, 0x2806e11b, 0x4ebf54de, 0x3847ad66, 0x4481cc71);
    Next(52, h, b, 0x3847ad66, 0x641db2ce, 0x4481cc71, 0xeebce4cd, 0xafab40b2, 0x3835b44b, 0xe490436d, 0x99076cb3);
    Next(53, h, b, 0xe490436d, 0x3847ad66, 0x99076cb3, 0x4481cc71, 0xeebce4cd, 0x0000f600, 0x27e9f1d8, 0x8e11eb59);
    Next(54, h, b, 0x27e9f1d8, 0xe490436d, 0x8e11eb59, 0x99076cb3, 0x4481cc71, 0x1e84c7a3, 0x7b71f76d, 0x792410db);
    Next(55, h, b, 0x7b71f76d, 0x27e9f1d8, 0x792410db, 0x8e11eb59, 0x99076cb3, 0x98e04d98, 0x5e6456af, 0x09fa7c76);
    Next(56, h, b, 0x5e6456af, 0x7b71f76d, 0x09fa7c76, 0x792410db, 0x8e11eb59, 0x651d16a0, 0xc846093f, 0x5edc7ddb);
    Next(57, h, b, 0xc846093f, 0x5e6456af, 0x5edc7ddb, 0x09fa7c76, 0x792410db, 0x62658ca1, 0xd262ff50, 0xd79915ab);
    Next(58, h, b, 0xd262ff50, 0xc846093f, 0xd79915ab, 0x5edc7ddb, 0x09fa7c76, 0x458544d6, 0x09d785fd, 0xf211824f);
    Next(59, h, b, 0x09d785fd, 0xd262ff50, 0xf211824f, 0xd79915ab, 0x5edc7ddb, 0x44584cb7, 0x3f52de5a, 0x3498bfd4);
  }

  lemma AbcRound4(h: State, b: Block)
    requires Ops(60, h, b) == State(0x3f52de5a, 0x09d785fd, 0x3498bfd4, 0xf211824f, 0xd79915ab)
    requires Four(60, b, 0x7ba06619, 0x6380aea2, 0x0ae55269, 0x627b49a1)
    requires Four(64, b, 0x7cd45c9d, 0x000f0000, 0xfb50753a, 0xec6765e8)
    requires Four(68, b, 0xba3c2be2, 0x0060c000, 0x3a37cd05, 0x458546f4)
    requires Four(72, b, 0xb8599dd6, 0x380a1a26, 0x01e02203, 0xe7cc3456)
    requires Four(76, b, 0xe6e60b69, 0x00f60a00, 0x5795ef4f, 0x822e0879)
    ensures Ops(80, h, b) == State(0x42541b35, 0x5738d5e1, 0x21834873, 0x681e6df6, 0xd8fdf6ad)
  {
    hide Ops, W;
    Next(60, h, b, 0x3f52de5a, 0x09d785fd, 0x3498bfd4, 0xf211824f, 0xd79915ab, 0x7ba06619, 0xd756c147, 0x4275e17f);
    Next(61, h, b, 0xd756c147, 0x3f52de5a, 0x4275e17f, 0x3498bfd4, 0xf211824f, 0x6380aea2, 0x548c9cb2, 0x8fd4b796);
    Next(62, h, b, 0x548c9cb2, 0xd756c147, 0x8fd4b796, 0x4275e17f, 0x3498bfd4, 0x0ae55269, 0xb66c020b, 0xf5d5b051);
    Next(63, h, b, 0xb66c020b, 0x548c9cb2, 0xf5d5b051, 0x8fd4b796, 0x4275e17f, 0x627b49a1, 0x6b61c9e1, 0x9523272c);
    Next(64, h, b, 0x6b61c9e1, 0xb66c020b, 0x9523272c, 0xf5d5b051, 0x8fd4b796, 0x7cd45c9d, 0x19dfa7ac, 0xed9b0082);
    Next(65, h, b, 0x19dfa7ac, 0x6b61c9e1, 0xed9b0082, 0x9523272c, 0xf5d5b051, 0x000f0000, 0x101655f9, 0x5ad87278);
    Next(66, h, b, 0x101655f9, 0x19dfa7ac, 0x5ad87278, 0xed9b0082, 0x9523272c, 0xfb50753a, 0x0c3df2b4, 0x0677e9eb);
    Next(67, h, b, 0x0c3df2b4, 0x101655f9, 0x0677e9eb, 0x5ad87278, 0xed9b0082, 0xec6765e8, 0x78dd4d2b, 0x4405957e);
    Next(68, h, b, 0x78dd4d2b, 0x0c3df2b4, 0x4405957e, 0x0677e9eb, 0x5ad87278, 0xba3c2be2, 0x497093c0, 0x030f7cad);
    Next(69, h, b, 0x497093c0, 0x78dd4d2b, 0x030f7cad, 0x4405957e, 0x0677e9eb, 0x0060c000, 0x3f2588c2, 0xde37534a);
    Next(70, h, b, 0x3f2588c2, 0x497093c0, 0xde37534a, 0x030f7cad, 0x4405957e, 0x3a37cd05, 0xc199f8c7, 0x125c24f0);
    Next(71, h, b, 0xc199f8c7, 0x3f2588c2, 0x125c24f0, 0xde37534a, 0x030f7cad, 0x458546f4, 0x39859de7, 0x8fc96230);
    Next(72, h, b, 0x39859de7, 0xc199f8c7, 0x8fc96230, 0x125c24f0, 0xde37534a, 0xb8599dd6, 0xedb42de4, 0xf0667e31);
    Next(73, h, b, 0xedb42de4, 0x39859de7, 0xf0667e31, 0x8fc96230, 0x125c24f0, 0x380a1a26, 0x11793f6f, 0xce616779);
    Next(74, h, b, 0x11793f6f, 0xedb42de4, 0xce616779, 0xf0667e31, 0x8fc96230, 0x01e02203, 0x5ee76897, 0x3b6d0b79);
    Next(75, h, b, 0x5ee76897, 0x11793f6f, 0x3b6d0b79, 0xce616779, 0xf0667e31, 0xe7cc3456, 0x63f7dab7, 0xc45e4fdb);
    Next(76, h, b, 0x63f7dab7, 0x5ee76897, 0xc45e4fdb, 0x3b6d0b79, 0xce616779, 0xe6e60b69, 0xa079b7d9, 0xd7b9da25);
    Next(77, h, b, 0xa079b7d9, 0x63f7dab7, 0xd7b9da25, 0xc45e4fdb, 0x3b6d0b79, 0x00f60a00, 0x860d21cc, 0xd8fdf6ad);
    Next(78, h, b, 0x860d21cc, 0xa079b7d9, 0xd8fdf6ad, 0xd7b9da25, 0xc45e4fdb, 0x5795ef4f, 0x5738d5e1, 0x681e6df6);
    Next(79, h, b, 0x5738d5e1, 0x860d21cc, 0x681e6df6, 0xd8fdf6ad, 0xd7b9da25, 0x822e0879, 0x42541b35, 0x21834873);
  }

  lemma AbcCompressed(h: State, b: Block)
    requires h == State(0x67452301, 0xefcdab89, 0x98badcfe, 0x10325476, 0xc3d2e1f0)
    requires Four(0, b, 0x61626380, 0x00000000, 0x00000000, 0x00000000)
    requires Four(4, b, 0x00000000, 0x00000000, 0x00000000, 0x00000000)
    requires Four(8, b, 0x00000000, 0x00000000, 0x00000000, 0x00000000)
    requires Four(12, b, 0x00000000, 0x00000000, 0x00000000, 0x00000018)
    ensures Compress(h, b) == State(0xa9993e36, 0x4706816a, 0xba3e2571, 0x7850c26c, 0x9cd0d89d)
  {
    hide Ops, Four;
    NoSteps(h, b);
    AbcWords32(b); AbcWords48(b); AbcWords64(b); AbcWords80(b);
    AbcRound1(h, b); AbcRound2(h, b); AbcRound3(h, b); AbcRound4(h, b);
  }

  // ---- the first block of the longer message ----

  lemma FirstWords32(b: Block)
    requires Four(0, b, 0x61626364, 0x62636465, 0x63646566, 0x64656667)
    requires Four(4, b, 0x65666768, 0x66676869, 0x6768696a, 0x68696a6b)
    requires Four(8, b, 0x696a6b6c, 0x6a6b6c6d, 0x6b6c6d6e, 0x6c6d6e6f)
    requires Four(12, b, 0x6d6e6f70, 0x6e6f7071, 0x80000000, 0x00000000)
    ensures Four(16, b, 0x0a063a3e, 0xd8dadcdf, 0xdadcdec0, 0xc8d2b4be)
    ensures Four(20, b, 0x6f757b5b, 0x757b5967, 0x8da16d70, 0xdaeefaba)
    ensures Four(24, b, 0xfaf6cab6, 0xa6fb675a, 0x0c604cc8, 0x604cc02c)
    ensures Four(28, b, 0x49c0e6e2, 0x2ee8cbbc, 0xcfd72ec4, 0x97e9810e)
  {
    hide W;
    Derive(16, b, 0x61626364, 0x63646566, 0x696a6b6c, 0x6e6f7071, 0x0a063a3e);
    Derive(17, b, 0x62636465, 0x64656667, 0x6a6b6c6d, 0x80000000, 0xd8dadcdf);
    Derive(18, b, 0x63646566, 0x65666768, 0x6b6c6d6e, 0x00000000, 0xdadcdec0);
    Derive(19, b, 0x64656667, 0x66676869, 0x6c6d6e6f, 0x0a063a3e, 0xc8d2b4be);
    Derive(20, b, 0x65666768, 0x6768696a, 0x6d6e6f70, 0xd8dadcdf, 0x6f757b5b);
    Derive(21, b, 0x66676869, 0x68696a6b, 0x6e6f7071, 0xdadcdec0, 0x757b5967);
    Derive(22, b, 0x6768696a, 0x696a6b6c, 0x80000000, 0xc8d2b4be, 0x8da16d70);
    Derive(23, b, 0x68696a6b, 0x6a6b6c6d, 0x00000000, 0x6f757b5b, 0xdaeefaba);
    Derive(24, b, 0x696a6b6c, 0x6b6c6d6e, 0x0a063a3e, 0x757b5967, 0xfaf6cab6);
    Derive(25, b, 0x6a6b6c6d, 0x6c6d6e6f, 0xd8dadcdf, 0x8da16d70, 0xa6fb675a);
    Derive(26, b, 0x6b6c6d6e, 0x6d6e6f70, 0xdadcdec0, 0xdaeefaba, 0x0c604cc8);
    Derive(27, b, 0x6c6d6e6f, 0x6e6f7071, 0xc8d2b4be, 0xfaf6cab6, 0x604cc02c);
    Derive(28, b, 0x6d6e6f70, 0x80000000, 0x6f757b5b, 0xa6fb675a, 0x49c0e6e2);
    Derive(29, b, 0x6e6f7071, 0x00000000, 0x757b5967, 0x0c604cc8, 0x2ee8cbbc);
    Derive(30, b, 0x80000000, 0x0a063a3e, 0x8da16d70, 0x604cc02c, 0xcfd72ec4);
    Derive(31, b, 0x00000000, 0xd8dadcdf, 0xdaeefaba, 0x49c0e6e2, 0x97e9810e);
  }

  lemma FirstWords48(b: Block)
    requires Four(16, b, 0x0a063a3e, 0xd8dadcdf, 0xdadcdec0, 0xc8d2b4be)
    requires Four(20, b, 0x6f757b5b, 0x757b5967, 0x8da16d70, 0xdaeefaba)
    requires Four(24, b, 0xfaf6cab6, 0xa6fb675a, 0x0c604cc8, 0x604cc02c)
    requires Four(28, b, 0x49c0e6e2, 0x2ee8cbbc, 0xcfd72ec4, 0x97e9810e)
    ensures Four(32, b, 0x0989cbe8, 0xf24843fe, 0x5c40d0ba, 0xa8d9cc3b)
    ensures Four(36, b, 0xb2b9666e, 0xba7b71b7, 0x20b28a72, 0xb28af500)
    ensures Four(40, b, 0x8ac87842, 0x289addf4, 0x56d51f21, 0xd96b7fd2)
    ensures Four(44, b, 0x3868e778, 0xab5e4848, 0x7f0e2118, 0xde87a111)
  {
    hide W;
    Derive(32, b, 0x0a063a3e, 0xdadcdec0, 0xfaf6cab6, 0x2ee8cbbc, 0x0989cbe8);
    Derive(33, b, 0xd8dadcdf, 0xc8d2b4be, 0xa6fb675a, 0xcfd72ec4, 0xf24843fe);
    Derive(34, b, 0xdadcdec0, 0x6f757b5b, 0x0c604cc8, 0x97e9810e, 0x5c40d0ba);
    Derive(35, b, 0xc8d2b4be, 0x757b5967, 0x604cc02c, 0x0989cbe8, 0xa8d9cc3b);
    Derive(36, b, 0x6f757b5b, 0x8da16d70, 0x49c0e6e2, 0xf24843fe, 0xb2b9666e);
    Derive(37, b, 0x757b5967, 0xdaeefaba, 0x2ee8cbbc, 0x5c40d0ba, 0xba7b71b7);
    Derive(38, b, 0x8da16d70, 0xfaf6cab6, 0xcfd72ec4, 0xa8d9cc3b, 0x20b28a72);
    Derive(39, b, 0xdaeefaba, 0xa6fb675a, 0x97e9810e, 0xb2b9666e, 0xb28af500);
    Derive(40, b, 0xfaf6cab6, 0x0c604cc8, 0x0989cbe8, 0xba7b71b7, 0x8ac87842);
    Derive(41, b, 0xa6fb675a, 0x604cc02c, 0xf24843fe, 0x20b28a72, 0x289addf4);
    Derive(42, b, 0x0c604cc8, 0x49c0e6e2, 0x5c40d0ba, 0xb28af500, 0x56d51f21);
    Derive(43, b, 0x604cc02c, 0x2ee8cbbc, 0xa8d9cc3b, 0x8ac87842, 0xd96b7fd2);
    Derive(44, b, 0x49c0e6e2, 0xcfd72ec4, 0xb2b9666e, 0x289addf4, 0x3868e778);
    Derive(45, b, 0x2ee8cbbc, 0x97e9810e, 0xba7b71b7, 0x56d51f21, 0xab5e4848);
    Derive(46, b, 0xcfd72ec4, 0x0989cbe8, 0x20b28a72, 0xd96b7fd2, 0x7f0e2118);
    Derive(47, b, 0x97e9810e, 0xf24843fe, 0xb28af500, 0x3868e778, 0xde87a111);
  }

  lemma FirstWords64(b: Block)
    requires Four(32, b, 0x0989cbe8, 0xf24843fe, 0x5c40d0ba, 0xa8d9cc3b)
    requires Four(36, b, 0xb2b9666e, 0xba7b71b7, 0x20b28a72, 0xb28af500)
    requires Four(40, b, 0x8ac87842, 0x289addf4, 0x56d51f21, 0xd96b7fd2)
    requires Four(44, b, 0x3868e778, 0xab5e4848, 0x7f0e2118, 0xde87a111)
    ensures Four(48, b, 0xe8be56b0, 0x1a0ae652, 0xcd5611c8, 0x46ef29dc)
    ensures Four(52, b, 0x60d3da6d, 0xddf3ba6e, 0x2737f5e9, 0x4888a710)
    ensures Four(56, b, 0xd2a1177b, 0x9999633b, 0xd6c69d03, 0xccf6127b)
    ensures Four(60, b, 0x7c58fe6d, 0xfdd99c68, 0xf8e32074, 0xe0ba3c7d)
  {
    hide W;
    Derive(48, b, 0x0989cbe8, 0x5c40d0ba, 0x8ac87842, 0xab5e4848, 0xe8be56b0);
    Derive(49, b, 0xf24843fe, 0xa8d9cc3b, 0x289addf4, 0x7f0e2118, 0x1a0ae652);
    Derive(50, b, 0x5c40d0ba, 0xb2b9666e, 0x56d51f21, 0xde87a111, 0xcd5611c8);
    Derive(51, b, 0xa8d9cc3b, 0xba7b71b7, 0xd96b7fd2, 0xe8be56b0, 0x46ef29dc);
    Derive(52, b, 0xb2b9666e, 0x20b28a72, 0x3868e778, 0x1a0ae652, 0x60d3da6d);
    Derive(53, b, 0xba7b71b7, 0xb28af500, 0xab5e4848, 0xcd5611c8, 0xddf3ba6e);
    Derive(54, b, 0x20b28a72, 0x8ac87842, 0x7f0e2118, 0x46ef29dc, 0x2737f5e9);
    Derive(55, b, 0xb28af500, 0x289addf4, 0xde87a111, 0x60d3da6d, 0x4888a710);
    Derive(56, b, 0x8ac87842, 0x56d51f21, 0xe8be56b0, 0xddf3ba6e, 0xd2a1177b);
    Derive(57, b, 0x289addf4, 0xd96b7fd2, 0x1a0ae652, 0x2737f5e9, 0x9999633b);
    Derive(58, b, 0x56d51f21, 0x3868e778, 0xcd5611c8, 0x4888a710, 0xd6c69d03);
    Derive(59, b, 0xd96b7fd2, 0xab5e4848, 0x46ef29dc, 0xd2a1177b, 0xccf6127b);
    Derive(60, b, 0x3868e778, 0x7f0e2118, 0x60d3da6d, 0x9999633b, 0x7c58fe6d);
    Derive(61, b, 0xab5e4848, 0xde87a111, 0xddf3ba6e, 0xd6c69d03, 0xfdd99c68);
    Derive(62, b, 0x7f0e2118, 0xe8be56b0, 0x2737f5e9, 0xccf6127b, 0xf8e32074);
    Derive(63, b, 0xde87a111, 0x1a0ae652, 0x4888a710, 0x7c58fe6d, 0xe0ba3c7d);
  }

  lemma FirstWords80(b: Block)
    requires Four(48, b, 0xe8be56b0, 0x1a0ae652, 0xcd5611c8, 0x46ef29dc)
    requires Four(52, b, 0x60d3da6d, 0xddf3ba6e, 0x2737f5e9, 0x4888a710)
    requires Four(56, b, 0xd2a1177b, 0x9999633b, 0xd6c69d03, 0xccf6127b)
    requires Four(60, b, 0x7c58fe6d, 0xfdd99c68, 0xf8e32074, 0xe0ba3c7d)
    ensures Four(64, b, 0x152198d6, 0x7b3f1982, 0x37f2d5b7, 0x8596323e)
    ensures Four(68, b, 0x810790d6, 0xbea0a942, 0x11c7e1b1, 0x6158d101)
    ensures Four(72, b, 0x5fcd77d9, 0x7f2f12e6, 0xf868cfb1, 0xd6e997e9)
    ensures Four(76, b, 0xf526b852, 0xb7578dcc, 0x55d99df4, 0x1ff69958)
  {
    hide W;
    Derive(64, b, 0xe8be56b0, 0xcd5611c8, 0xd2a1177b, 0xfdd99c68, 0x152198d6);
    Derive(65, b, 0x1a0ae652, 0x46ef29dc, 0x9999633b, 0xf8e32074, 0x7b3f1982);
    Derive(66, b, 0xcd5611c8, 0x60d3da6d, 0xd6c69d03, 0xe0ba3c7d, 0x37f2d5b7);
    Derive(67, b, 0x46ef29dc, 0xddf3ba6e, 0xccf6127b, 0x152198d6, 0x8596323e);
    Derive(68, b, 0x60d3da6d, 0x2737f5e9, 0x7c58fe6d, 0x7b3f1982, 0x810790d6);
    Derive(69, b, 0xddf3ba6e, 0x4888a710, 0xfdd99c68, 0x37f2d5b7, 0xbea0a942);
    Derive(70, b, 0x2737f5e9, 0xd2a1177b, 0xf8e32074, 0x8596323e, 0x11c7e1b1);
    Derive(71, b, 0x4888a710, 0x9999633b, 0xe0ba3c7d, 0x810790d6, 0x6158d101);
    Derive(72, b, 0xd2a1177b, 0xd6c69d03, 0x152198d6, 0xbea0a942, 0x5fcd77d9);
    Derive(73, b, 0x9999633b, 0xccf6127b, 0x7b3f1982, 0x11c7e1b1, 0x7f2f12e6);
    Derive(74, b, 0xd6c69d03, 0x7c58fe6d, 0x37f2d5b7, 0x6158d101, 0xf868cfb1);
    Derive(75, b, 0xccf6127b, 0xfdd99c68, 0x8596323e, 0x5fcd77d9, 0xd6e997e9);
    Derive(76, b, 0x7c58fe6d, 0xf8e32074, 0x810790d6, 0x7f2f12e6, 0xf526b852);
    Derive(77, b, 0xfdd99c68, 0xe0ba3c7d, 0xbea0a942, 0xf868cfb1, 0xb7578dcc);
    Derive(78, b, 0xf8e32074, 0x152198d6, 0x11c7e1b1, 0xd6e997e9, 0x55d99df4);
    Derive(79, b, 0xe0ba3c7d, 0x7b3f1982, 0x6158d101, 0xf526b852, 0x1ff69958);
  }

  lemma FirstRound1(h: State, b: Block)
    requires Ops(0, h, b) == State(0x67452301, 0xefcdab89, 0x98badcfe, 0x10325476, 0xc3d2e1f0)
    requires Four(0, b, 0x61626364, 0x62636465, 0x63646566, 0x64656667)
    requires Four(4, b, 0x65666768, 0x66676869, 0x6768696a, 0x68696a6b)
    requires Four(8, b, 0x696a6b6c, 0x6a6b6c6d, 0x6b6c6d6e, 0x6c6d6e6f)
    requires Four(12, b, 0x6d6e6f70, 0x6e6f7071, 0x80000000, 0x00000000)
    requires Four(16, b, 0x0a063a3e, 0xd8dadcdf, 0xdadcdec0, 0xc8d2b4be)
    ensures Ops(20, h, b) == State(0x6c445652, 0x944b1bd1, 0x509ae70d, 0x1ac1a012, 0x5098df8e)
  {
    hide Ops, W;
    Next(0, h, b, 0x67452301, 0xefcdab89, 0x98badcfe, 0x10325476, 0xc3d2e1f0, 0x61626364, 0x0116fc17, 0x7bf36ae2);
    Next(1, h, b, 0x0116fc17, 0x67452301, 0x7bf36ae2, 0x98badcfe, 0x10325476, 0x62636465, 0xebf3b452, 0x59d148c0);
    Next(2, h, b, 0xebf3b452, 0x0116fc17, 0x59d148c0, 0x7bf36ae2, 0x98badcfe, 0x63646566, 0x5109913a, 0xc045bf05);
    Next(3, h, b, 0x5109913a, 0xebf3b452, 0xc045bf05, 0x59d148c0, 0x7bf36ae2, 0x64656667, 0x2c4f6eac, 0xbafced14);
    Next(4, h, b, 0x2c4f6eac, 0x5109913a, 0xbafced14, 0xc045bf05, 0x59d148c0, 0x65666768, 0x33f4ae5b, 0x9442644e);
    Next(5, h, b, 0x33f4ae5b, 0x2c4f6eac, 0x9442644e, 0xbafced14, 0xc045bf05, 0x66676869, 0x96b85189, 0x0b13dbab);
    Next(6, h, b, 0x96b85189, 0x33f4ae5b, 0x0b13dbab, 0x9442644e, 0xbafced14, 0x6768696a, 0xdb04cb58, 0xccfd2b96);
    Next(7, h, b, 0xdb04cb58, 0x96b85189, 0xccfd2b96, 0x0b13dbab, 0x9442644e, 0x68696a6b, 0x45833f0f, 0x65ae1462);
    Next(8, h, b, 0x45833f0f, 0xdb04cb58, 0x65ae1462, 0xccfd2b96, 0x0b13dbab, 0x696a6b6c, 0xc565c35e, 0x36c132d6);
    Next(9, h, b, 0xc565c35e, 0x45833f0f, 0x36c132d6, 0x65ae1462, 0xccfd2b96, 0x6a6b6c6d, 0x6350afda, 0xd160cfc3);
    Next(10, h, b, 0x6350afda, 0xc565c35e, 0xd160cfc3, 0x36c132d6, 0x65ae1462, 0x6b6c6d6e, 0x8993ea77, 0xb15970d7);
    Next(11, h, b, 0x8993ea77, 0x6350afda, 0xb15970d7, 0xd160cfc3, 0x36c132d6, 0x6c6d6e6f, 0xe19ecaa2, 0x98d42bf6);
    Next(12, h, b, 0xe19ecaa2, 0x8993ea77, 0x98d42bf6, 0xb15970d7, 0xd160cfc3, 0x6d6e6f70, 0x8603481e, 0xe264fa9d);
    Next(13, h, b, 0x8603481e, 0xe19ecaa2, 0xe264fa9d, 0x98d42bf6, 0xb15970d7, 0x6e6f7071, 0x32f94a85, 0xb867b2a8);
    Next(14, h, b, 0x32f94a85, 0x8603481e, 0xb867b2a8, 0xe264fa9d, 0x98d42bf6, 0x80000000, 0xb2e7a8be, 0xa180d207);
    Next(15, h, b, 0xb2e7a8be, 0x32f94a85, 0xa180d207, 0xb867b2a8, 0xe264fa9d, 0x00000000, 0x42637e39, 0x4cbe52a1);
    Next(16, h, b, 0x42637e39, 0xb2e7a8be, 0x4cbe52a1, 0xa180d207, 0xb867b2a8, 0x0a063a3e, 0x6b068048, 0xacb9ea2f);
    Next(17, h, b, 0x6b068048, 0x42637e39, 0xacb9ea2f, 0x4cbe52a1, 0xa180d207, 0xd8dadcdf, 0x426b9c35, 0x5098df8e);
    Next(18, h, b, 0x426b9c35, 0x6b068048, 0x5098df8e, 0xacb9ea2f, 0x4cbe52a1, 0xdadcdec0, 0x944b1bd1, 0x1ac1a012);
    Next(19, h, b, 0x944b1bd1, 0x426b9c35, 0x1ac1a012, 0x5098df8e, 0xacb9ea2f, 0xc8d2b4be, 0x6c445652, 0x509ae70d);
  }

  lemma FirstRound2(h: State, b: Block)
    requires Ops(20, h, b) == State(0x6c445652, 0x944b1bd1, 0x509ae70d, 0x1ac1a012, 0x5098df8e)
    requires Four(20, b, 0x6f757b5b, 0x757b5967, 0x8da16d70, 0xdaeefaba)
    requires Four(24, b, 0xfaf6cab6, 0xa6fb675a, 0x0c604cc8, 0x604cc02c)
    requires Four(28, b, 0x49c0e6e2, 0x2ee8cbbc, 0xcfd72ec4, 0x97e9810e)
    requires Four(32, b, 0x0989cbe8, 0xf24843fe, 0x5c40d0ba, 0xa8d9cc3b)
    requires Four(36, b, 0xb2b9666e, 0xba7b71b7, 0x20b28a72, 0xb28af500)
    ensures Ops(40, h, b) == State(0xadeb7478, 0x24957f22, 0x50fe1eba, 0x564cff26, 0xaadf0cbb)
  {
    hide Ops, W;
    Next(20, h, b, 0x6c445652, 0x944b1bd1, 0x509ae70d, 0x1ac1a012, 0x5098df8e, 0x6f757b5b, 0x95836da5, 0x6512c6f4);
    Next(21, h, b, 0x95836da5, 0x6c445652, 0x6512c6f4, 0x509ae70d, 0x1ac1a012, 0x757b5967, 0x09511177, 0x9b111594);
    Next(22, h, b, 0x09511177, 0x95836da5, 0x9b111594, 0x6512c6f4, 0x509ae70d, 0x8da16d70, 0xe2b92dc4, 0x6560db69);
    Next(23, h, b, 0xe2b92dc4, 0x09511177, 0x6560db69, 0x9b111594, 0x6512c6f4, 0xdaeefaba, 0xfd224575, 0xc254445d);
    Next(24, h, b, 0xfd224575, 0xe2b92dc4, 0xc254445d, 0x6560db69, 0x9b111594, 0xfaf6cab6, 0xeeb82d9a, 0x38ae4b71);
    Next(25, h, b, 0xeeb82d9a, 0xfd224575, 0x38ae4b71, 0xc254445d, 0x6560db69, 0xa6fb675a, 0x5a142c1a, 0x7f48915d);
    Next(26, h, b, 0x5a142c1a, 0xeeb82d9a, 0x7f48915d, 0x38ae4b71, 0xc254445d, 0x0c604cc8, 0x2972f7c7, 0xbbae0b66);
    Next(27, h, b, 0x2972f7c7, 0x5a142c1a, 0xbbae0b66, 0x7f48915d, 0x38ae4b71, 0x604cc02c, 0xd526a644, 0x96850b06);
    Next(28, h, b, 0xd526a644, 0x2972f7c7, 0x96850b06, 0xbbae0b66, 0x7f48915d, 0x49c0e6e2, 0xe1122421, 0xca5cbdf1);
    Next(29, h, b, 0xe1122421, 0xd526a644, 0xca5cbdf1, 0x96850b06, 0xbbae0b66, 0x2ee8cbbc, 0x05b457b2, 0x3549a991);
    Next(30, h, b, 0x05b457b2, 0xe1122421, 0x3549a991, 0xca5cbdf1, 0x96850b06, 0xcfd72ec4, 0xa9c84bec, 0x78448908);
    Next(31, h, b, 0xa9c84bec, 0x05b457b2, 0x78448908, 0x3549a991, 0xca5cbdf1, 0x97e9810e, 0x52e31f60, 0x816d15ec);
    Next(32, h, b, 0x52e31f60, 0xa9c84bec, 0x816d15ec, 0x78448908, 0x3549a991, 0x0989cbe8, 0x5af3242c, 0x2a7212fb);
    Next(33, h, b, 0x5af3242c, 0x52e31f60, 0x2a7212fb, 0x816d15ec, 0x78448908, 0xf24843fe, 0x31c756a9, 0x14b8c7d8);
    Next(34, h, b, 0x31c756a9, 0x5af3242c, 0x14b8c7d8, 0x2a7212fb, 0x816d15ec, 0x5c40d0ba, 0xe9ac987c, 0x16bcc90b);
    Next(35, h, b, 0xe9ac987c, 0x31c756a9, 0x16bcc90b, 0x14b8c7d8, 0x2a7212fb, 0xa8d9cc3b, 0xab7c32ee, 0x4c71d5aa);
    Next(36, h, b, 0xab7c32ee, 0xe9ac987c, 0x4c71d5aa, 0x16bcc90b, 0x14b8c7d8, 0xb2b9666e, 0x5933fc99, 0x3a6b261f);
    Next(37, h, b, 0x5933fc99, 0xab7c32ee, 0x3a6b261f, 0x4c71d5aa, 0x16bcc90b, 0xba7b71b7, 0x43f87ae9, 0xaadf0cbb);
    Next(38, h, b, 0x43f87ae9, 0x5933fc99, 0xaadf0cbb, 0x3a6b261f, 0x4c71d5aa, 0x20b28a72, 0x24957f22, 0x564cff26);
    Next(39, h, b, 0x24957f22, 0x43f87ae9, 0x564cff26, 0xaadf0cbb, 0x3a6b261f, 0xb28af500, 0xadeb7478, 0x50fe1eba);
  }

  lemma FirstRound3(h: State, b: Block)
    requires Ops(40, h, b) == State(0xadeb7478, 0x24957f22, 0x50fe1eba, 0x564cff26, 0xaadf0cbb)
    requires Four(40, b, 0x8ac87842, 0x289addf4, 0x56d51f21, 0xd96b7fd2)
    requires Four(44, b, 0x3868e778, 0xab5e4848, 0x7f0e2118, 0xde87a111)
    requires Four(48, b, 0xe8be56b0, 0x1a0ae652, 0xcd5611c8, 0x46ef29dc)
    requires Four(52, b, 0x60d3da6d, 0xddf3ba6e, 0x2737f5e9, 0x4888a710)
    requires Four(56, b, 0xd2a1177b, 0x9999633b, 0xd6c69d03, 0xccf6127b)
    ensures Ops(60, h, b) == State(0x9ef775c3, 0xf03d3782, 0xeb029e53, 0xe9a06dc8, 0x1ddb0e44)
  {
    hide Ops, W;
    Next(40, h, b, 0xadeb7478, 0x24957f22, 0x50fe1eba, 0x564cff26, 0xaadf0cbb, 0x8ac87842, 0xd70e5010, 0x89255fc8);
    Next(41, h, b, 0xd70e5010, 0xadeb7478, 0x89255fc8, 0x50fe1eba, 0x564cff26, 0x289addf4, 0x79bcfb08, 0x2b7add1e);
    Next(42, h, b, 0x79bcfb08, 0xd70e5010, 0x2b7add1e, 0x89255fc8, 0x50fe1eba, 0x56d51f21, 0xf9bcb8de, 0x35c39404);
    Next(43, h, b, 0xf9bcb8de, 0x79bcfb08, 0x35c39404, 0x2b7add1e, 0x89255fc8, 0xd96b7fd2, 0x633e9561, 0x1e6f3ec2);
    Next(44, h, b, 0x633e9561, 0xf9bcb8de, 0x1e6f3ec2, 0x35c39404, 0x2b7add1e, 0x3868e778, 0x98c1ea64, 0xbe6f2e37);
    Next(45, h, b, 0x98c1ea64, 0x633e9561, 0xbe6f2e37, 0x1e6f3ec2, 0x35c39404, 0xab5e4848, 0xc6ea241e, 0x58cfa558);
    Next(46, h, b, 0xc6ea241e, 0x98c1ea64, 0x58cfa558, 0xbe6f2e37, 0x1e6f3ec2, 0x7f0e2118, 0xa2ad4f02, 0x26307a99);
    Next(47, h, b, 0xa2ad4f02, 0xc6ea241e, 0x26307a99, 0x58cfa558, 0xbe6f2e37, 0xde87a111, 0xc8a69090, 0xb1ba8907);
    Next(48, h, b, 0xc8a69090, 0xa2ad4f02, 0xb1ba8907, 0x26307a99, 0x58cfa558, 0xe8be56b0, 0x88341600, 0xa8ab53c0);
    Next(49, h, b, 0x88341600, 0xc8a69090, 0xa8ab53c0, 0xb1ba8907, 0x26307a99, 0x1a0ae652, 0x7e846f58, 0x3229a424);
    Next(50, h, b, 0x7e846f58, 0x88341600, 0x3229a424, 0xa8ab53c0, 0xb1ba8907, 0xcd5611c8, 0x86e358ba, 0x220d0580);
    Next(51, h, b, 0x86e358ba, 0x7e846f58, 0x220d0580, 0x3229a424, 0xa8ab53c0, 0x46ef29dc, 0x8d2e76c8, 0x1fa11bd6);
    Next(52, h, b, 0x8d2e76c8, 0x86e358ba, 0x1fa11bd6, 0x220d0580, 0x3229a424, 0x60d3da6d, 0xce892e10, 0xa1b8d62e);
    Next(53, h, b, 0xce892e10, 0x8d2e76c8, 0xa1b8d62e, 0x1fa11bd6, 0x220d0580, 0xddf3ba6e, 0xedea95b1, 0x234b9db2);
    Next(54, h, b, 0xedea95b1, 0xce892e10, 0x234b9db2, 0xa1b8d62e, 0x1fa11bd6, 0x2737f5e9, 0x36d1230a, 0x33a24b84);
    Next(55, h, b, 0x36d1230a, 0xedea95b1, 0x33a24b84, 0x234b9db2, 0xa1b8d62e, 0x4888a710, 0x776c3910, 0x7b7aa56c);
    Next(56, h, b, 0x776c3910, 0x36d1230a, 0x7b7aa56c, 0x33a24b84, 0x234b9db2, 0xd2a1177b, 0xa681b723, 0x8db448c2);
    Next(57, h, b, 0xa681b723, 0x776c3910, 0x8db448c2, 0x7b7aa56c, 0x33a24b84, 0x9999633b, 0xac0a794f, 0x1ddb0e44);
    Next(58, h, b, 0xac0a794f, 0xa681b723, 0x1ddb0e44, 0x8db448c2, 0x7b7aa56c, 0xd6c69d03, 0xf03d3782, 0xe9a06dc8);
    Next(59, h, b, 0xf03d3782, 0xac0a794f, 0xe9a06dc8, 0x1ddb0e44, 0x8db448c2, 0xccf6127b, 0x9ef775c3, 0xeb029e53);
  }

  lemma FirstRound4(h: State, b: Block)
    requires Ops(60, h, b) == State(0x9ef775c3, 0xf03d3782, 0xeb029e53, 0xe9a06dc8, 0x1ddb0e44)
    requires Four(60, b, 0x7c58fe6d, 0xfdd99c68, 0xf8e32074, 0xe0ba3c7d)
    requires Four(64, b, 0x152198d6, 0x7b3f1982, 0x37f2d5b7, 0x8596323e)
    requires Four(68, b, 0x810790d6, 0xbea0a942, 0x11c7e1b1, 0x6158d101)
    requires Four(72, b, 0x5fcd77d9, 0x7f2f12e6, 0xf868cfb1, 0xd6e997e9)
    requires Four(76, b, 0xf526b852, 0xb7578dcc, 0x55d99df4, 0x1ff69958)
    ensures Ops(80, h, b) == State(0x8ce34517, 0xd3ad7c25, 0x6b4e1883, 0x74351cd2, 0x86838382)
  {
    hide Ops, W;
    Next(60, h, b, 0x9ef775c3, 0xf03d3782, 0xeb029e53, 0xe9a06dc8, 0x1ddb0e44, 0x7c58fe6d, 0x36254b13, 0xbc0f4de0);
    Next(61, h, b, 0x36254b13, 0x9ef775c3, 0xbc0f4de0, 0xeb029e53, 0xe9a06dc8, 0xfdd99c68, 0x4080d4dc, 0xe7bddd70);
    Next(62, h, b, 0x4080d4dc, 0x36254b13, 0xe7bddd70, 0xbc0f4de0, 0xeb029e53, 0xf8e32074, 0x2bfaf7a8, 0xcd8952c4);
    Next(63, h, b, 0x2bfaf7a8, 0x4080d4dc, 0xcd8952c4, 0xe7bddd70, 0xbc0f4de0, 0xe0ba3c7d, 0x513f9ca0, 0x10203537);
    Next(64, h, b, 0x513f9ca0, 0x2bfaf7a8, 0x10203537, 0xcd8952c4, 0xe7bddd70, 0x152198d6, 0xe5895c81, 0x0afebdea);
    Next(65, h, b, 0xe5895c81, 0x513f9ca0, 0x0afebdea, 0x10203537, 0xcd8952c4, 0x7b3f1982, 0x1037d2d5, 0x144fe728);
    Next(66, h, b, 0x1037d2d5, 0xe5895c81, 0x144fe728, 0x0afebdea, 0x10203537, 0x37f2d5b7, 0x14a82da9, 0x79625720);
    Next(67, h, b, 0x14a82da9, 0x1037d2d5, 0x79625720, 0x144fe728, 0x0afebdea, 0x8596323e, 0x6d17c9fd, 0x440df4b5);
    Next(68, h, b, 0x6d17c9fd, 0x14a82da9, 0x440df4b5, 0x79625720, 0x144fe728, 0x810790d6, 0x2c7b07bd, 0x452a0b6a);
    Next(69, h, b, 0x2c7b07bd, 0x6d17c9fd, 0x452a0b6a, 0x440df4b5, 0x79625720, 0xbea0a942, 0xfdf6efff, 0x5b45f27f);
    Next(70, h, b, 0xfdf6efff, 0x2c7b07bd, 0x5b45f27f, 0x452a0b6a, 0x440df4b5, 0x11c7e1b1, 0x112b96e3, 0x4b1ec1ef);
    Next(71, h, b, 0x112b96e3, 0xfdf6efff, 0x4b1ec1ef, 0x5b45f27f, 0x452a0b6a, 0x6158d101, 0x84065712, 0xff7dbbff);
    Next(72, h, b, 0x84065712, 0x112b96e3, 0xff7dbbff, 0x4b1ec1ef, 0x5b45f27f, 0x5fcd77d9, 0xab89fb71, 0xc44ae5b8);
    Next(73, h, b, 0xab89fb71, 0x84065712, 0xc44ae5b8, 0xff7dbbff, 0x4b1ec1ef, 0x7f2f12e6, 0xc5210e35, 0xa10195c4);
    Next(74, h, b, 0xc5210e35, 0xab89fb71, 0xa10195c4, 0xc44ae5b8, 0xff7dbbff, 0xf868cfb1, 0x352d9f4b, 0x6ae27edc);
    Next(75, h, b, 0x352d9f4b, 0xc5210e35, 0x6ae27edc, 0xa10195c4, 0xc44ae5b8, 0xd6e997e9, 0x1a0e0e0a, 0x7148438d);
    Next(76, h, b, 0x1a0e0e0a, 0x352d9f4b, 0x7148438d, 0x6ae27edc, 0xa10195c4, 0xf526b852, 0xd0d47349, 0xcd4b67d2);
    Next(77, h, b, 0xd0d47349, 0x1a0e0e0a, 0xcd4b67d2, 0x7148438d, 0x6ae27edc, 0xb7578dcc, 0xad38620d, 0x86838382);
    Next(78, h, b, 0xad38620d, 0xd0d47349, 0x86838382, 0xcd4b67d2, 0x7148438d, 0x55d99df4, 0xd3ad7c25, 0x74351cd2);
    Next(79, h, b, 0xd3ad7c25, 0xad38620d, 0x74351cd2, 0x86838382, 0xcd4b67d2, 0x1ff69958, 0x8ce34517, 0x6b4e1883);
  }

  lemma FirstCompressed(h: State, b: Block)
    requires h == State(0x67452301, 0xefcdab89, 0x98badcfe, 0x10325476, 0xc3d2e1f0)
    requires Four(0, b, 0x61626364, 0x62636465, 0x63646566, 0x64656667)
    requires Four(4, b, 0x65666768, 0x66676869, 0x6768696a, 0x68696a6b)
    requires Four(8, b, 0x696a6b6c, 0x6a6b6c6d, 0x6b6c6d6e, 0x6c6d6e6f)
    requires Four(12, b, 0x6d6e6f70, 0x6e6f7071, 0x80000000, 0x00000000)
    ensures Compress(h, b) == State(0xf4286818, 0xc37b27ae, 0x0408f581, 0x84677148, 0x4a566572)
  {
    hide Ops, Four;
    NoSteps(h, b);
    FirstWords32(b); FirstWords48(b); FirstWords64(b); FirstWords80(b);
    FirstRound1(h, b); FirstRound2(h, b); FirstRound3(h, b); FirstRound4(h, b);
  }

  // ---- its second block ----

  lemma SecondWords32(b: Block)
    requires Four(0, b, 0x00000000, 0x00000000, 0x00000000, 0x00000000)
    requires Four(4, b, 0x00000000, 0x00000000, 0x00000000, 0x00000000)
    requires Four(8, b, 0x00000000, 0x00000000, 0x00000000, 0x00000000)
    requires Four(12, b, 0x00000000, 0x00000000, 0x00000000, 0x000001c0)
    ensures Four(16, b, 0x00000000, 0x00000000, 0x00000380, 0x00000000)
    ensures Four(20, b, 0x00000000, 0x00000700, 0x00000000, 0x00000380)
    ensures Four(24, b, 0x00000e00, 0x00000000, 0x00000000, 0x00001c00)
    ensures Four(28, b, 0x00000000, 0x00000d80, 0x00003800, 0x00000480)
  {
    hide W;
    Derive(16, b, 0x00000000, 0x00000000, 0x00000000, 0x00000000, 0x00000000);
    Derive(17, b, 0x00000000, 0x00000000, 0x00000000, 0x00000000, 0x00000000);
    Derive(18, b, 0x00000000, 0x00000000, 0x00000000, 0x000001c0, 0x00000380);
    Derive(19, b, 0x00000000, 0x00000000, 0x00000000, 0x00000000, 0x00000000);
    Derive(20, b, 0x00000000, 0x00000000, 0x00000000, 0x00000000, 0x00000000);
    Derive(21, b, 0x00000000, 0x00000000, 0x00000000, 0x00000380, 0x00000700);
    Derive(22, b, 0x00000000, 0x00000000, 0x00000000, 0x00000000, 0x00000000);
    Derive(23, b, 0x00000000, 0x00000000, 0x000001c0, 0x00000000, 0x00000380);
    Derive(24, b, 0x00000000, 0x00000000, 0x00000000, 0x00000700, 0x00000e00);
    Derive(25, b, 0x00000000, 0x00000000, 0x00000000, 0x00000000, 0x00000000);
    Derive(26, b, 0x00000000, 0x00000000, 0x00000380, 0x00000380, 0x00000000);
    Derive(27, b, 0x00000000, 0x00000000, 0x00000000, 0x00000e00, 0x00001c00);
    Derive(28, b, 0x00000000, 0x00000000, 0x00000000, 0x00000000, 0x00000000);
    Derive(29, b, 0x00000000, 0x000001c0, 0x00000700, 0x00000000, 0x00000d80);
    Derive(30, b, 0x00000000, 0x00000000, 0x00000000, 0x00001c00, 0x00003800);
    Derive(31, b, 0x000001c0, 0x00000000, 0x00000380, 0x00000000, 0x00000480);
  }

  lemma SecondWords48(b: Block)
    requires Four(16, b, 0x00000000, 0x00000000, 0x00000380, 0x00000000)
    requires Four(20, b, 0x00000000, 0x00000700, 0x00000000, 0x00000380)
    requires Four(24, b, 0x00000e00, 0x00000000, 0x00000000, 0x00001c00)
    requires Four(28, b, 0x00000000, 0x00000d80, 0x00003800, 0x00000480)
    ensures Four(32, b, 0x00000000, 0x00007000, 0x00000e00, 0x00003600)
    ensures Four(36, b, 0x0000e000, 0x00000e00, 0x00000000, 0x0001ce00)
    ensures Four(40, b, 0x00000000, 0x0000d800, 0x00038000, 0x00004f00)
    ensures Four(44, b, 0x00000000, 0x00070e00, 0x0000ee00, 0x00037500)
  {
    hide W;
    Derive(32, b, 0x00000000, 0x00000380, 0x00000e00, 0x00000d80, 0x00000000);
    Derive(33, b, 0x00000000, 0x00000000, 0x00000000, 0x00003800, 0x00007000);
    Derive(34, b, 0x00000380, 0x00000000, 0x00000000, 0x00000480, 0x00000e00);
    Derive(35, b, 0x00000000, 0x00000700, 0x00001c00, 0x00000000, 0x00003600);
    Derive(36, b, 0x00000000, 0x00000000, 0x00000000, 0x00007000, 0x0000e000);
    Derive(37, b, 0x00000700, 0x00000380, 0x00000d80, 0x00000e00, 0x00000e00);
    Derive(38, b, 0x00000000, 0x00000e00, 0x00003800, 0x00003600, 0x00000000);
    Derive(39, b, 0x00000380, 0x00000000, 0x00000480, 0x0000e000, 0x0001ce00);
    Derive(40, b, 0x00000e00, 0x00000000, 0x00000000, 0x00000e00, 0x00000000);
    Derive(41, b, 0x00000000, 0x00001c00, 0x00007000, 0x00000000, 0x0000d800);
    Derive(42, b, 0x00000000, 0x00000000, 0x00000e00, 0x0001ce00, 0x00038000);
    Derive(43, b, 0x00001c00, 0x00000d80, 0x00003600, 0x00000000, 0x00004f00);
    Derive(44, b, 0x00000000, 0x00003800, 0x0000e000, 0x0000d800, 0x00000000);
    Derive(45, b, 0x00000d80, 0x00000480, 0x00000e00, 0x00038000, 0x00070e00);
    Derive(46, b, 0x00003800, 0x00000000, 0x00000000, 0x00004f00, 0x0000ee00);
    Derive(47, b, 0x00000480, 0x00007000, 0x0001ce00, 0x00000000, 0x00037500);
  }

  lemma SecondWords64(b: Block)
    requires Four(32, b, 0x00000000, 0x00007000, 0x00000e00, 0x00003600)
    requires Four(36, b, 0x0000e000, 0x00000e00, 0x00000000, 0x0001ce00)
    requires Four(40, b, 0x00000000, 0x0000d800, 0x00038000, 0x00004f00)
    requires Four(44, b, 0x00000000, 0x00070e00, 0x0000ee00, 0x00037500)
    ensures Four(48, b, 0x000e0000, 0x0000e000, 0x00003600, 0x001cee00)
    ensures Four(52, b, 0x00000000, 0x000df000, 0x00380000, 0x0004c600)
    ensures Four(56, b, 0x0000e000, 0x0070ee00, 0x000ee000, 0x00369e00)
    ensures Four(60, b, 0x00e00000, 0x000ed600, 0x0000e000, 0x01cea600)
  {
    hide W;
    Derive(48, b, 0x00000000, 0x00000e00, 0x00000000, 0x00070e00, 0x000e0000);
    Derive(49, b, 0x00007000, 0x00003600, 0x0000d800, 0x0000ee00, 0x0000e000);
    Derive(50, b, 0x00000e00, 0x0000e000, 0x00038000, 0x00037500, 0x00003600);
    Derive(51, b, 0x00003600, 0x00000e00, 0x00004f00, 0x000e0000, 0x001cee00);
    Derive(52, b, 0x0000e000, 0x00000000, 0x00000000, 0x0000e000, 0x00000000);
    Derive(53, b, 0x00000e00, 0x0001ce00, 0x00070e00, 0x00003600, 0x000df000);
    Derive(54, b, 0x00000000, 0x00000000, 0x0000ee00, 0x001cee00, 0x00380000);
    Derive(55, b, 0x0001ce00, 0x0000d800, 0x00037500, 0x00000000, 0x0004c600);
    Derive(56, b, 0x00000000, 0x00038000, 0x000e0000, 0x000df000, 0x0000e000);
    Derive(57, b, 0x0000d800, 0x00004f00, 0x0000e000, 0x00380000, 0x0070ee00);
    Derive(58, b, 0x00038000, 0x00000000, 0x00003600, 0x0004c600, 0x000ee000);
    Derive(59, b, 0x00004f00, 0x00070e00, 0x001cee00, 0x0000e000, 0x00369e00);
    Derive(60, b, 0x00000000, 0x0000ee00, 0x00000000, 0x0070ee00, 0x00e00000);
    Derive(61, b, 0x00070e00, 0x00037500, 0x000df000, 0x000ee000, 0x000ed600);
    Derive(62, b, 0x0000ee00, 0x000e0000, 0x00380000, 0x00369e00, 0x0000e000);
    Derive(63, b, 0x00037500, 0x0000e000, 0x0004c600, 0x00e00000, 0x01cea600);
  }

  lemma SecondWords80(b: Block)
    requires Four(48, b, 0x000e0000, 0x0000e000, 0x00003600, 0x001cee00)
    requires Four(52, b, 0x00000000, 0x000df000, 0x00380000, 0x0004c600)
    requires Four(56, b, 0x0000e000, 0x0070ee00, 0x000ee000, 0x00369e00)
    requires Four(60, b, 0x00e00000, 0x000ed600, 0x0000e000, 0x01cea600)
    ensures Four(64, b, 0x00000000, 0x00d80000, 0x0380e000, 0x004f0000)
    ensures Four(68, b, 0x00000000, 0x070e0000, 0x00ee0000, 0x03751c00)
    ensures Four(72, b, 0x0e000000, 0x00e0e000, 0x00363800, 0x1cee9000)
    ensures Four(76, b, 0x00000000, 0x0df09000, 0x3800e000, 0x04c77400)
  {
    hide W;
    Derive(64, b, 0x000e0000, 0x00003600, 0x0000e000, 0x000ed600, 0x00000000);
    Derive(65, b, 0x0000e000, 0x001cee00, 0x0070ee00, 0x0000e000, 0x00d80000);
    Derive(66, b, 0x00003600, 0x00000000, 0x000ee000, 0x01cea600, 0x0380e000);
    Derive(67, b, 0x001cee00, 0x000df000, 0x00369e00, 0x00000000, 0x004f0000);
    Derive(68, b, 0x00000000, 0x00380000, 0x00e00000, 0x00d80000, 0x00000000);
    Derive(69, b, 0x000df000, 0x0004c600, 0x000ed600, 0x0380e000, 0x070e0000);
    Derive(70, b, 0x00380000, 0x0000e000, 0x0000e000, 0x004f0000, 0x00ee0000);
    Derive(71, b, 0x0004c600, 0x0070ee00, 0x01cea600, 0x00000000, 0x03751c00);
    Derive(72, b, 0x0000e000, 0x000ee000, 0x00000000, 0x070e0000, 0x0e000000);
    Derive(73, b, 0x0070ee00, 0x00369e00, 0x00d80000, 0x00ee0000, 0x00e0e000);
    Derive(74, b, 0x000ee000, 0x00e00000, 0x0380e000, 0x03751c00, 0x00363800);
    Derive(75, b, 0x00369e00, 0x000ed600, 0x004f0000, 0x0e000000, 0x1cee9000);
    Derive(76, b, 0x00e00000, 0x0000e000, 0x00000000, 0x00e0e000, 0x00000000);
    Derive(77, b, 0x000ed600, 0x01cea600, 0x070e0000, 0x00363800, 0x0df09000);
    Derive(78, b, 0x0000e000, 0x00000000, 0x00ee0000, 0x1cee9000, 0x3800e000);
    Derive(79, b, 0x01cea600, 0x00d80000, 0x03751c00, 0x00000000, 0x04c77400);
  }

  lemma SecondRound1(h: State, b: Block)
    requires Ops(0, h, b) == State(0xf4286818, 0xc37b27ae, 0x0408f581, 0x84677148, 0x4a566572)
    requires Four(0, b, 0x00000000, 0x00000000, 0x00000000, 0x00000000)
    requires Four(4, b, 0x00000000, 0x00000000, 0x00000000, 0x00000000)
    requires Four(8, b, 0x00000000, 0x00000000, 0x00000000, 0x00000000)
    requires Four(12, b, 0x00000000, 0x00000000, 0x00000000, 0x000001c0)
    requires Four(16, b, 0x00000000, 0x00000000, 0x00000380, 0x00000000)
    ensures Ops(20, h, b) == State(0xd8992153, 0xc2eb709f, 0x2946d62f, 0x9541f6db, 0x365dc8d8)
  {
    hide Ops, W;
    Next(0, h, b, 0xf4286818, 0xc37b27ae, 0x0408f581, 0x84677148, 0x4a566572, 0x00000000, 0x2df257e9, 0xb0dec9eb);
    Next(1, h, b, 0x2df257e9, 0xf4286818, 0xb0dec9eb, 0x0408f581, 0x84677148, 0x00000000, 0x4d3dc58f, 0x3d0a1a06);
    Next(2, h, b, 0x4d3dc58f, 0x2df257e9, 0x3d0a1a06, 0xb0dec9eb, 0x0408f581, 0x00000000, 0xc352bb05, 0x4b7c95fa);
    Next(3, h, b, 0xc352bb05, 0x4d3dc58f, 0x4b7c95fa, 0x3d0a1a06, 0xb0dec9eb, 0x00000000, 0xeef743c6, 0xd34f7163);
    Next(4, h, b, 0xeef743c6, 0xc352bb05, 0xd34f7163, 0x4b7c95fa, 0x3d0a1a06, 0x00000000, 0x41e34277, 0x70d4aec1);
    Next(5, h, b, 0x41e34277, 0xeef743c6, 0x70d4aec1, 0xd34f7163, 0x4b7c95fa, 0x00000000, 0x5443915c, 0xbbbdd0f1);
    Next(6, h, b, 0x5443915c, 0x41e34277, 0xbbbdd0f1, 0x70d4aec1, 0xd34f7163, 0x00000000, 0xe7fa0377, 0xd078d09d);
    Next(7, h, b, 0xe7fa0377, 0x5443915c, 0xd078d09d, 0xbbbdd0f1, 0x70d4aec1, 0x00000000, 0xc6946813, 0x1510e457);
    Next(8, h, b, 0xc6946813, 0xe7fa0377, 0x1510e457, 0xd078d09d, 0xbbbdd0f1, 0x00000000, 0xfdde1de1, 0xf9fe80dd);
    Next(9, h, b, 0xfdde1de1, 0xc6946813, 0xf9fe80dd, 0x1510e457, 0xd078d09d, 0x00000000, 0xb8538aca, 0xf1a51a04);
    Next(10, h, b, 0xb8538aca, 0xfdde1de1, 0xf1a51a04, 0xf9fe80dd, 0x1510e457, 0x00000000, 0x6ba94f63, 0x7f778778);
    Next(11, h, b, 0x6ba94f63, 0xb8538aca, 0x7f778778, 0xf1a51a04, 0xf9fe80dd, 0x00000000, 0x43a2792f, 0xae14e2b2);
    Next(12, h, b, 0x43a2792f, 0x6ba94f63, 0xae14e2b2, 0x7f778778, 0xf1a51a04, 0x00000000, 0xfecd7bbf, 0xdaea53d8);
    Next(13, h, b, 0xfecd7bbf, 0x43a2792f, 0xdaea53d8, 0xae14e2b2, 0x7f778778, 0x00000000, 0xa2604ca8, 0xd0e89e4b);
    Next(14, h, b, 0xa2604ca8, 0xfecd7bbf, 0xd0e89e4b, 0xdaea53d8, 0xae14e2b2, 0x00000000, 0x258b0baa, 0xffb35eef);
    Next(15, h, b, 0x258b0baa, 0xa2604ca8, 0xffb35eef, 0xd0e89e4b, 0xdaea53d8, 0x000001c0, 0xd9772360, 0x2898132a);
    Next(16, h, b, 0xd9772360, 0x258b0baa, 0x2898132a, 0xffb35eef, 0xd0e89e4b, 0x00000000, 0x5507db6e, 0x8962c2ea);
    Next(17, h, b, 0x5507db6e, 0xd9772360, 0x8962c2ea, 0x2898132a, 0xffb35eef, 0x00000000, 0xa51b58bc, 0x365dc8d8);
    Next(18, h, b, 0xa51b58bc, 0x5507db6e, 0x365dc8d8, 0x8962c2ea, 0x2898132a, 0x00000380, 0xc2eb709f, 0x9541f6db);
    Next(19, h, b, 0xc2eb709f, 0xa51b58bc, 0x9541f6db, 0x365dc8d8, 0x8962c2ea, 0x00000000, 0xd8992153, 0x2946d62f);
  }

  lemma SecondRound2(h: State, b: Block)
    requires Ops(20, h, b) == State(0xd8992153, 0xc2eb709f, 0x2946d62f, 0x9541f6db, 0x365dc8d8)
    requires Four(20, b, 0x00000000, 0x00000700, 0x00000000, 0x00000380)
    requires Four(24, b, 0x00000e00, 0x00000000, 0x00000000, 0x00001c00)
    requires Four(28, b, 0x00000000, 0x00000d80, 0x00003800, 0x00000480)
    requires Four(32, b, 0x00000000, 0x00007000, 0x00000e00, 0x00003600)
    requires Four(36, b, 0x0000e000, 0x00000e00, 0x00000000, 0x0001ce00)
    ensures Ops(40, h, b) == State(0x03bb6310, 0x84e2a5f2, 0x21f56e03, 0xb3bd6b84, 0x1a5b6901)
  {
    hide Ops, W;
    Next(20, h, b, 0xd8992153, 0xc2eb709f, 0x2946d62f, 0x9541f6db, 0x365dc8d8, 0x00000000, 0x37482f5f, 0xf0badc27);
    Next(21, h, b, 0x37482f5f, 0xd8992153, 0xf0badc27, 0x2946d62f, 0x9541f6db, 0x00000700, 0xee8700bd, 0xf6264854);
    Next(22, h, b, 0xee8700bd, 0x37482f5f, 0xf6264854, 0xf0badc27, 0x2946d62f, 0x00000000, 0x9ad594b9, 0xcdd20bd7);
    Next(23, h, b, 0x9ad594b9, 0xee8700bd, 0xcdd20bd7, 0xf6264854, 0xf0badc27, 0x00000380, 0x8fbaa5b9, 0x7ba1c02f);
    Next(24, h, b, 0x8fbaa5b9, 0x9ad594b9, 0x7ba1c02f, 0xcdd20bd7, 0xf6264854, 0x00000e00, 0x88fb5867, 0x66b5652e);
    Next(25, h, b, 0x88fb5867, 0x8fbaa5b9, 0x66b5652e, 0x7ba1c02f, 0xcdd20bd7, 0x00000000, 0xeec50521, 0x63eea96e);
    Next(26, h, b, 0xeec50521, 0x88fb5867, 0x63eea96e, 0x66b5652e, 0x7ba1c02f, 0x00000000, 0x50bce434, 0xe23ed619);
    Next(27, h, b, 0x50bce434, 0xeec50521, 0xe23ed619, 0x63eea96e, 0x66b5652e, 0x00001c00, 0x5c416daf, 0x7bb14148);
    Next(28, h, b, 0x5c416daf, 0x50bce434, 0x7bb14148, 0xe23ed619, 0x63eea96e, 0x00000000, 0x2429be5f, 0x142f390d);
    Next(29, h, b, 0x2429be5f, 0x5c416daf, 0x142f390d, 0x7bb14148, 0xe23ed619, 0x00000d80, 0x0a2fb108, 0xd7105b6b);
    Next(30, h, b, 0x0a2fb108, 0x2429be5f, 0xd7105b6b, 0x142f390d, 0x7bb14148, 0x00003800, 0x17986223, 0xc90a6f97);
    Next(31, h, b, 0x17986223, 0x0a2fb108, 0xc90a6f97, 0xd7105b6b, 0x142f390d, 0x00000480, 0x8a4af384, 0x028bec42);
    Next(32, h, b, 0x8a4af384, 0x17986223, 0x028bec42, 0xc90a6f97, 0xd7105b6b, 0x00000000, 0x6b629993, 0xc5e61888);
    Next(33, h, b, 0x6b629993, 0x8a4af384, 0xc5e61888, 0x028bec42, 0xc90a6f97, 0x00007000, 0xf15f04f3, 0x2292bce1);
    Next(34, h, b, 0xf15f04f3, 0x6b629993, 0x2292bce1, 0xc5e61888, 0x028bec42, 0x00000e00, 0x295cc25b, 0xdad8a664);
    Next(35, h, b, 0x295cc25b, 0xf15f04f3, 0xdad8a664, 0x2292bce1, 0xc5e61888, 0x00003600, 0x696da404, 0xfc57c13c);
    Next(36, h, b, 0x696da404, 0x295cc25b, 0xfc57c13c, 0xdad8a664, 0x2292bce1, 0x0000e000, 0xcef5ae12, 0xca573096);
    Next(37, h, b, 0xcef5ae12, 0x696da404, 0xca573096, 0xfc57c13c, 0xdad8a664, 0x00000e00, 0x87d5b80c, 0x1a5b6901);
    Next(38, h, b, 0x87d5b80c, 0xcef5ae12, 0x1a5b6901, 0xca573096, 0xfc57c13c, 0x00000000, 0x84e2a5f2, 0xb3bd6b84);
    Next(39, h, b, 0x84e2a5f2, 0x87d5b80c, 0xb3bd6b84, 0x1a5b6901, 0xca573096, 0x0001ce00, 0x03bb6310, 0x21f56e03);
  }

  lemma SecondRound3(h: State, b: Block)
    requires Ops(40, h, b) == State(0x03bb6310, 0x84e2a5f2, 0x21f56e03, 0xb3bd6b84, 0x1a5b6901)
    requires Four(40, b, 0x00000000, 0x0000d800, 0x00038000, 0x00004f00)
    requires Four(44, b, 0x00000000, 0x00070e00, 0x0000ee00, 0x00037500)
    requires Four(48, b, 0x000e0000, 0x0000e000, 0x00003600, 0x001cee00)
    requires Four(52, b, 0x00000000, 0x000df000, 0x00380000, 0x0004c600)
    requires Four(56, b, 0x0000e000, 0x0070ee00, 0x000ee000, 0x00369e00)
    ensures Ops(60, h, b) == State(0xa65818f7, 0x5b086c42, 0xb9e15956, 0xea1256a6, 0xdb69cb9f)
  {
    hide Ops, W;
    Next(40, h, b, 0x03bb6310, 0x84e2a5f2, 0x21f56e03, 0xb3bd6b84, 0x1a5b6901, 0x00000000, 0xc2d8f75f, 0xa138a97c);
    Next(41, h, b, 0xc2d8f75f, 0x03bb6310, 0xa138a97c, 0x21f56e03, 0xb3bd6b84, 0x0000d800, 0xbfb25768, 0x00eed8c4);
    Next(42, h, b, 0xbfb25768, 0xc2d8f75f, 0x00eed8c4, 0xa138a97c, 0x21f56e03, 0x00038000, 0x28589152, 0xf0b63dd7);
    Next(43, h, b, 0x28589152, 0xbfb25768, 0xf0b63dd7, 0x00eed8c4, 0xa138a97c, 0x00004f00, 0xec1d3d61, 0x2fec95da);
    Next(44, h, b, 0xec1d3d61, 0x28589152, 0x2fec95da, 0xf0b63dd7, 0x00eed8c4, 0x00000000, 0x3caed7af, 0x8a162454);
    Next(45, h, b, 0x3caed7af, 0xec1d3d61, 0x8a162454, 0x2fec95da, 0xf0b63dd7, 0x00070e00, 0xc3d033ea, 0x7b074f58);
    Next(46, h, b, 0xc3d033ea, 0x3caed7af, 0x7b074f58, 0x8a162454, 0x2fec95da, 0x0000ee00, 0x7316056a, 0xcf2bb5eb);
    Next(47, h, b, 0x7316056a, 0xc3d033ea, 0xcf2bb5eb, 0x7b074f58, 0x8a162454, 0x00037500, 0x46f93b68, 0xb0f40cfa);
    Next(48, h, b, 0x46f93b68, 0x7316056a, 0xb0f40cfa, 0xcf2bb5eb, 0x7b074f58, 0x000e0000, 0xdc8e7f26, 0x9cc5815a);
    Next(49, h, b, 0xdc8e7f26, 0x46f93b68, 0x9cc5815a, 0xb0f40cfa, 0xcf2bb5eb, 0x0000e000, 0x850d411c, 0x11be4eda);
    Next(50, h, b, 0x850d411c, 0xdc8e7f26, 0x11be4eda, 0x9cc5815a, 0xb0f40cfa, 0x00003600, 0x7e4672c0, 0xb7239fc9);
    Next(51, h, b, 0x7e4672c0, 0x850d411c, 0xb7239fc9, 0x11be4eda, 0x9cc5815a, 0x001cee00, 0x89fbd41d, 0x21435047);
    Next(52, h, b, 0x89fbd41d, 0x7e4672c0, 0x21435047, 0xb7239fc9, 0x11be4eda, 0x00000000, 0x1797e228, 0x1f919cb0);
    Next(53, h, b, 0x1797e228, 0x89fbd41d, 0x1f919cb0, 0x21435047, 0xb7239fc9, 0x000df000, 0x431d65bc, 0x627ef507);
    Next(54, h, b, 0x431d65bc, 0x1797e228, 0x627ef507, 0x1f919cb0, 0x21435047, 0x00380000, 0x2bdbb8cb, 0x05e5f88a);
    Next(55, h, b, 0x2bdbb8cb, 0x431d65bc, 0x05e5f88a, 0x627ef507, 0x1f919cb0, 0x0004c600, 0x6da72e7f, 0x10c7596f);
    Next(56, h, b, 0x6da72e7f, 0x2bdbb8cb, 0x10c7596f, 0x05e5f88a, 0x627ef507, 0x0000e000, 0xa8495a9b, 0xcaf6ee32);
    Next(57, h, b, 0xa8495a9b, 0x6da72e7f, 0xcaf6ee32, 0x10c7596f, 0x05e5f88a, 0x0070ee00, 0xe785655a, 0xdb69cb9f);
    Next(58, h, b, 0xe785655a, 0xa8495a9b, 0xdb69cb9f, 0xcaf6ee32, 0x10c7596f, 0x000ee000, 0x5b086c42, 0xea1256a6);
    Next(59, h, b, 0x5b086c42, 0xe785655a, 0xea1256a6, 0xdb69cb9f, 0xcaf6ee32, 0x00369e00, 0xa65818f7, 0xb9e15956);
  }

  lemma SecondRound4(h: State, b: Block)
    requires Ops(60, h, b) == State(0xa65818f7, 0x5b086c42, 0xb9e15956, 0xea1256a6, 0xdb69cb9f)
    requires Four(60, b, 0x00e00000, 0x000ed600, 0x0000e000, 0x01cea600)
    requires Four(64, b, 0x00000000, 0x00d80000, 0x0380e000, 0x004f0000)
    requires Four(68, b, 0x00000000, 0x070e0000, 0x00ee0000, 0x03751c00)
    requires Four(72, b, 0x0e000000, 0x00e0e000, 0x00363800, 0x1cee9000)
    requires Four(76, b, 0x00000000, 0x0df09000, 0x3800e000, 0x04c77400)
    ensures Ops(80, h, b) == State(0x906fd62c, 0x58c0aac0, 0xb6a55520, 0x74e9b89d, 0x9af00b7f)
  {
    hide Ops, W;
    Next(60, h, b, 0xa65818f7, 0x5b086c42, 0xb9e15956, 0xea1256a6, 0xdb69cb9f, 0x00e00000, 0x7aab101b, 0x96c21b10);
    Next(61, h, b, 0x7aab101b, 0xa65818f7, 0x96c21b10, 0xb9e15956, 0xea1256a6, 0x000ed600, 0x93614c9c, 0xe996063d);
    Next(62, h, b, 0x93614c9c, 0x7aab101b, 0xe996063d, 0x96c21b10, 0xb9e15956, 0x0000e000, 0xf66d9bf4, 0xdeaac406);
    Next(63, h, b, 0xf66d9bf4, 0x93614c9c, 0xdeaac406, 0xe996063d, 0x96c21b10, 0x01cea600, 0xd504902b, 0x24d85327);
    Next(64, h, b, 0xd504902b, 0xf66d9bf4, 0x24d85327, 0xdeaac406, 0xe996063d, 0x00000000, 0x60a9da62, 0x3d9b66fd);
    Next(65, h, b, 0x60a9da62, 0xd504902b, 0x3d9b66fd, 0x24d85327, 0xdeaac406, 0x00d80000, 0x8b687819, 0xf541240a);
    Next(66, h, b, 0x8b687819, 0x60a9da62, 0xf541240a, 0x3d9b66fd, 0x24d85327, 0x0380e000, 0x083e90c3, 0x982a7698);
    Next(67, h, b, 0x083e90c3, 0x8b687819, 0x982a7698, 0xf541240a, 0x3d9b66fd, 0x004f0000, 0xf6226bbf, 0x62da1e06);
    Next(68, h, b, 0xf6226bbf, 0x083e90c3, 0x62da1e06, 0x982a7698, 0xf541240a, 0x00000000, 0x76c0563b, 0xc20fa430);
    Next(69, h, b, 0x76c0563b, 0xf6226bbf, 0xc20fa430, 0x62da1e06, 0x982a7698, 0x070e0000, 0x989dd165, 0xfd889aef);
    Next(70, h, b, 0x989dd165, 0x76c0563b, 0xfd889aef, 0xc20fa430, 0x62da1e06, 0x00ee0000, 0x8b2c7573, 0xddb0158e);
    Next(71, h, b, 0x8b2c7573, 0x989dd165, 0xddb0158e, 0xfd889aef, 0xc20fa430, 0x03751c00, 0xae1b8e7b, 0x66277459);
    Next(72, h, b, 0xae1b8e7b, 0x8b2c7573, 0x66277459, 0xddb0158e, 0xfd889aef, 0x0e000000, 0xca1840de, 0xe2cb1d5c);
    Next(73, h, b, 0xca1840de, 0xae1b8e7b, 0xe2cb1d5c, 0x66277459, 0xddb0158e, 0x00e0e000, 0x16f3babb, 0xeb86e39e);
    Next(74, h, b, 0x16f3babb, 0xca1840de, 0xeb86e39e, 0xe2cb1d5c, 0x66277459, 0x00363800, 0xd28d83ad, 0xb2861037);
    Next(75, h, b, 0xd28d83ad, 0x16f3babb, 0xb2861037, 0xeb86e39e, 0xe2cb1d5c, 0x1cee9000, 0x6bc02dfe, 0xc5bceeae);
    Next(76, h, b, 0x6bc02dfe, 0xd28d83ad, 0xc5bceeae, 0xb2861037, 0xeb86e39e, 0x00000000, 0xd3a6e275, 0x74a360eb);
    Next(77, h, b, 0xd3a6e275, 0x6bc02dfe, 0x74a360eb, 0xc5bceeae, 0xb2861037, 0x0df09000, 0xda955482, 0x9af00b7f);
    Next(78, h, b, 0xda955482, 0xd3a6e275, 0x9af00b7f, 0x74a360eb, 0xc5bceeae, 0x3800e000, 0x58c0aac0, 0x74e9b89d);
    Next(79, h, b, 0x58c0aac0, 0xda955482, 0x74e9b89d, 0x9af00b7f, 0x74a360eb, 0x04c77400, 0x906fd62c, 0xb6a55520);
  }

  lemma SecondCompressed(h: State, b: Block)
    requires h == State(0xf4286818, 0xc37b27ae, 0x0408f581, 0x84677148, 0x4a566572)
    requires Four(0, b, 0x00000000, 0x00000000, 0x00000000, 0x00000000)
    requires Four(4, b, 0x00000000, 0x00000000, 0x00000000, 0x00000000)
    requires Four(8, b, 0x00000000, 0x00000000, 0x00000000, 0x00000000)
    requires Four(12, b, 0x00000000, 0x00000000, 0x00000000, 0x000001c0)
    ensures Compress(h, b) == State(0x84983e44, 0x1c3bd26e, 0xbaae4aa1, 0xf95129e5, 0xe54670f1)
  {
    hide Ops, Four;
    NoSteps(h, b);
    SecondWords32(b); SecondWords48(b); SecondWords64(b); SecondWords80(b);
    SecondRound1(h, b); SecondRound2(h, b); SecondRound3(h, b); SecondRound4(h, b);
  }

  // ---- the digests ----

  lemma WordIs(t: nat, b: Block, x0: bv8, x1: bv8, x2: bv8, x3: bv8, w: bv32)
    requires t < 16 && b[4 * t] == x0 && b[4 * t + 1] == x1 && b[4 * t + 2] == x2 && b[4 * t + 3] == x3
    requires ((x0 as bv32) << 24) | ((x1 as bv32) << 16) | ((x2 as bv32) << 8) | (x3 as bv32) == w
    ensures W(t, b) == w
  {
  }

  lemma AbcBlock(b: Block)
    requires b == [0x61, 0x62, 0x63, 0x80] + Zeros(59) + [24]
    ensures Four(0, b, 0x61626380, 0x00000000, 0x00000000, 0x00000000)
    ensures Four(4, b, 0x00000000, 0x00000000, 0x00000000, 0x00000000)
    ensures Four(8, b, 0x00000000, 0x00000000, 0x00000000, 0x00000000)
    ensures Four(12, b, 0x00000000, 0x00000000, 0x00000000, 0x00000018)
  {
  }


  lemma Quarter1Words(b: Block)
    requires b[0..16] == Quarter1()
    ensures Four(0, b, 0x61626364, 0x62636465, 0x63646566, 0x64656667)
  {
    hide W;
    assert forall i :: 0 <= i < 16 ==> b[0 + i] == Quarter1()[i];
    WordIs(0, b, 0x61, 0x62, 0x63, 0x64, 0x61626364);
    WordIs(1, b, 0x62, 0x63, 0x64, 0x65, 0x62636465);
    WordIs(2, b, 0x63, 0x64, 0x65, 0x66, 0x63646566);
    WordIs(3, b, 0x64, 0x65, 0x66, 0x67, 0x64656667);
  }

  lemma Quarter2Words(b: Block)
    requires b[16..32] == Quarter2()
    ensures Four(4, b, 0x65666768, 0x66676869, 0x6768696a, 0x68696a6b)
  {
    hide W;
    assert forall i :: 0 <= i < 16 ==> b[16 + i] == Quarter2()[i];
    WordIs(4, b, 0x65, 0x66, 0x67, 0x68, 0x65666768);
    WordIs(5, b, 0x66, 0x67, 0x68, 0x69, 0x66676869);
    WordIs(6, b, 0x67, 0x68, 0x69, 0x6a, 0x6768696a);
    WordIs(7, b, 0x68, 0x69, 0x6a, 0x6b, 0x68696a6b);
  }

  lemma Quarter3Words(b: Block)
    requires b[32..48] == Quarter3()
    ensures Four(8, b, 0x696a6b6c, 0x6a6b6c6d, 0x6b6c6d6e, 0x6c6d6e6f)
  {
    hide W;
    assert forall i :: 0 <= i < 16 ==> b[32 + i] == Quarter3()[i];
    WordIs(8, b, 0x69, 0x6a, 0x6b, 0x6c, 0x696a6b6c);
    WordIs(9, b, 0x6a, 0x6b, 0x6c, 0x6d, 0x6a6b6c6d);
    WordIs(10, b, 0x6b, 0x6c, 0x6d, 0x6e, 0x6b6c6d6e);
    WordIs(11, b, 0x6c, 0x6d, 0x6e, 0x6f, 0x6c6d6e6f);
  }

  lemma Quarter4Words(b: Block)
    requires b[48..64] == Quarter4()
    ensures Four(12, b, 0x6d6e6f70, 0x6e6f7071, 0x80000000, 0x00000000)
  {
    hide W;
    assert forall i :: 0 <= i < 16 ==> b[48 + i] == Quarter4()[i];
    WordIs(12, b, 0x6d, 0x6e, 0x6f, 0x70, 0x6d6e6f70);
    WordIs(13, b, 0x6e, 0x6f, 0x70, 0x71, 0x6e6f7071);
    WordIs(14, b, 0x80, 0x00, 0x00, 0x00, 0x80000000);
    WordIs(15, b, 0x00, 0x00, 0x00, 0x00, 0x00000000);
  }

  lemma QuartersAre(b: Block)
    requires b == LongMessage() + Quarter4()[8..]
    ensures b[0..16] == Quarter1() && b[16..32] == Quarter2() && b[32..48] == Quarter3() && b[48..64] == Quarter4()
  {
    hide Quarter1, Quarter2, Quarter3, Quarter4;
  }

  lemma SecondBlock(b: Block)
    requires b == Zeros(62) + [0x01, 0xc0]
    ensures Four(0, b, 0x00000000, 0x00000000, 0x00000000, 0x00000000)
    ensures Four(4, b, 0x00000000, 0x00000000, 0x00000000, 0x00000000)
    ensures Four(8, b, 0x00000000, 0x00000000, 0x00000000, 0x00000000)
    ensures Four(12, b, 0x00000000, 0x00000000, 0x00000000, 0x000001c0)
  {
  }

  lemma AbcPadded()
    ensures Padded([0x61, 0x62, 0x63]) == [] + ([0x61, 0x62, 0x63, 0x80] + Zeros(59) + [24])
  {
    hide Padding, LengthBytes;
    assert Padding(3) == [0x80] + Zeros(52) by { PaddingOf(3, 52); }
    assert LengthBytes(24) == Zeros(7) + [24] by { LengthOf24(); }
  }

  lemma LongPadded()
    ensures Padded(LongMessage()) == [] + (LongMessage() + Quarter4()[8..]) + (Zeros(62) + [0x01, 0xc0])
  {
    hide Padding, LengthBytes;
    assert Padding(56) == [0x80] + Zeros(63) by { PaddingOf(56, 63); }
    assert Quarter4()[8..] == [0x80] + Zeros(7);
    assert LengthBytes(448) == Zeros(6) + [0x01, 0xc0] by { LengthOf448(); }
  }

  lemma PaddingOf(n: nat, zeros: nat)
    requires (119 - n % 64) % 64 == zeros
    ensures Padding(n) == [0x80] + Zeros(zeros)
  {
  }

  lemma LengthOf24()
    ensures LengthBytes(24) == Zeros(7) + [24]
  {
    hide WordBytes;
    NoBytes();
    LowBytes(24, 0, 24);
  }

  lemma LengthOf448()
    ensures LengthBytes(448) == Zeros(6) + [0x01, 0xc0]
  {
    hide WordBytes;
    NoBytes();
    LowBytes(448, 1, 0xc0);
    assert (1 as nat) as bv8 == 1;
  }

  lemma NoBytes()
    ensures WordBytes(0) == [0, 0, 0, 0]
  {
  }

  lemma LowBytes(w: nat, b2: nat, b3: nat)
    requires w == 0x100 * b2 + b3 && b2 < 0x100 && b3 < 0x100
    ensures WordBytes(w) == [0, 0, b2 as bv8, b3 as bv8]
  {
    assert w / 0x100 == b2 && w % 0x100 == b3 && w / 0x1_0000 == 0 && w / 0x100_0000 == 0;
  }

  /** SHA-1 of "abc". */
  lemma AbcDigest()
    ensures Digest([0x61, 0x62, 0x63])
         == [0xa9, 0x99, 0x3e, 0x36, 0x47, 0x06, 0x81, 0x6a, 0xba, 0x3e,
             0x25, 0x71, 0x78, 0x50, 0xc2, 0x6c, 0x9c, 0xd0, 0xd8, 0x9d]
  {
    hide Four, Compress, Fold, Padded, Zeros;
    var b: Block := [0x61, 0x62, 0x63, 0x80] + Zeros(59) + [24];
    AbcPadded();
    NoBlocks();
    FoldOne(Compress, INITIAL, [], b);
    AbcBlock(b);
    AbcCompressed(INITIAL, b);
  }

  lemma NoBlocks()
    ensures Fold(Compress, INITIAL, []) == INITIAL
  {
    hide Compress;
  }

  /** SHA-1 of the 56 letters. */
  lemma LongDigest()
    ensures Digest(LongMessage())
         == [0x84, 0x98, 0x3e, 0x44, 0x1c, 0x3b, 0xd2, 0x6e, 0xba, 0xae,
             0x4a, 0xa1, 0xf9, 0x51, 0x29, 0xe5, 0xe5, 0x46, 0x70, 0xf1]
  {
    hide Four, Compress, Fold, Padded, Zeros;
    var a: Block := LongMessage() + Quarter4()[8..];
    var b: Block := Zeros(62) + [0x01, 0xc0];
    LongPadded();
    NoBlocks();
    FoldOne(Compress, INITIAL, [], a);
    FoldOne(Compress, INITIAL, [] + a, b);
    QuartersAre(a);
    Quarter1Words(a);
    Quarter2Words(a);
    Quarter3Words(a);
    Quarter4Words(a);
    FirstCompressed(INITIAL, a);
    SecondBlock(b);
    SecondCompressed(State(0xf4286818, 0xc37b27ae, 0x0408f581, 0x84677148, 0x4a566572), b);
  }
}
