/** Worked examples that fix the constants of the model: a digest of the test suite of RFC 1321, one
    edited compile command, hexadecimal text, and how paths are written.  */
module KnownAnswers {
  import opened Basics
  import opened Md5Rounds
  import M = Md5
  import H = Hex
  import C = CompilerFlags
  import P = Paths

  // ---------- the digest of "abc", section A.5 of RFC 1321 ----------

  const ABC: seq<Byte> := [0x61, 0x62, 0x63]

  function AbcBlock(): (block: Block)
    ensures block == ABC + [0x80] + M.Zeros(52) + [24] + M.Zeros(7)
  {
    ABC + [0x80] + M.Zeros(52) + [24] + M.Zeros(7)
  }

  lemma LengthOfAbc()
    ensures M.LittleEndian(24, 8) == [24] + M.Zeros(7)
  {
    assert M.LittleEndian(0, 2) == [0, 0];
    assert M.LittleEndian(0, 4) == [0, 0, 0, 0];
    assert M.LittleEndian(0, 6) == [0, 0, 0, 0, 0, 0];
    assert M.LittleEndian(0, 7) == [0, 0, 0, 0, 0, 0, 0];
  }

  /** The message is padded to one block. */
  lemma AbcPadded()
    ensures M.Padded(ABC) == AbcBlock()
  {
    hide M.LittleEndian;
    LengthOfAbc();
    assert M.ZerosNeeded(3) == 52;
    assert |ABC| == 3 && 8 * |ABC| % M.TWO64 == 24;
    hide M.Zeros;
    assert M.Padded(ABC) == ABC + ([0x80] + M.Zeros(52) + ([24] + M.Zeros(7)));
  }

  /** The words of the block: the first holds the message and the mark, the fifteenth the length. */
  ghost predicate AbcWords(block: Block) {
    forall n: nat | n < 16 :: X(block, n) == if n == 0 then 0x80636261 else if n == 14 then 24 else 0
  }

  lemma AbcBlockWords()
    ensures AbcWords(AbcBlock())
  {
    hide LittleEndianWord;
    var block := AbcBlock();
    NoBits();
    forall n: nat | n < 16 ensures X(block, n) == if n == 0 then 0x80636261 else if n == 14 then 24 else 0 {
      if n == 0 {
        assert block[0] == 0x61 && block[1] == 0x62 && block[2] == 0x63 && block[3] == 0x80;
      } else if n == 14 {
        assert block[56] == 24 && block[57] == 0 && block[58] == 0 && block[59] == 0;
      } else {
        assert block[4 * n] == 0 && block[4 * n + 1] == 0 && block[4 * n + 2] == 0 && block[4 * n + 3] == 0;
      }
    }
  }

  lemma NoBits()
    ensures LittleEndianWord(0, 0, 0, 0) == 0 && LittleEndianWord(24, 0, 0, 0) == 24
    ensures LittleEndianWord(0x61, 0x62, 0x63, 0x80) == 0x80636261
  {
  }

  lemma StoredIs(i: nat, a: Word, b: Word, c: Word, d: Word, x: Word, f: Word, sum: Word, turned: Word)
    requires i < 64 && Mix(i, b, c, d) == f && Add(Add(Add(a, f), x), T(i)) == sum && Circular(sum, S(i)) == turned
    ensures Stored(i, a, b, c, d, x) == Add(b, turned)
  {
    hide Mix, Add, T, Circular, S;
  }

  lemma AbcStored4()
    ensures Stored(0, 0x67452301, 0xefcdab89, 0x98badcfe, 0x10325476, 0x80636261) == 0xd6d117b4
    ensures Stored(1, 0x10325476, 0xd6d117b4, 0xefcdab89, 0x98badcfe, 0x00000000) == 0x344a8432
    ensures Stored(2, 0x98badcfe, 0x344a8432, 0xd6d117b4, 0xefcdab89, 0x00000000) == 0x2f6fbd72
    ensures Stored(3, 0xefcdab89, 0x2f6fbd72, 0x344a8432, 0xd6d117b4, 0x00000000) == 0x7ad956f2
  {
    hide Stored;
    StoredIs(0, 0x67452301, 0xefcdab89, 0x98badcfe, 0x10325476, 0x80636261, 0x98badcfe, 0x57ce06d8, 0xe7036c2b);
    StoredIs(1, 0x10325476, 0xd6d117b4, 0xefcdab89, 0x98badcfe, 0x00000000, 0xceebcbca, 0xc7e5d796, 0x5d796c7e);
    StoredIs(2, 0x98badcfe, 0x344a8432, 0xd6d117b4, 0xefcdab89, 0x00000000, 0xdfc52fb9, 0x9ca07d92, 0xfb253940);
    StoredIs(3, 0xefcdab89, 0x2f6fbd72, 0x344a8432, 0xd6d117b4, 0x00000000, 0xf4da86b6, 0xa666012d, 0x4b699980);
  }

  lemma AbcStored8()
    ensures Stored(4, 0xd6d117b4, 0x7ad956f2, 0x2f6fbd72, 0x344a8432, 0x00000000) == 0xc73741ef
    ensures Stored(5, 0x344a8432, 0xc73741ef, 0x7ad956f2, 0x2f6fbd72, 0x00000000) == 0x8bac3051
    ensures Stored(6, 0x2f6fbd72, 0x8bac3051, 0xc73741ef, 0x7ad956f2, 0x00000000) == 0x207dc67b
    ensures Stored(7, 0x7ad956f2, 0x207dc67b, 0x8bac3051, 0xc73741ef, 0x00000000) == 0x928d99f6
  {
    hide Stored;
    StoredIs(4, 0xd6d117b4, 0x7ad956f2, 0x2f6fbd72, 0x344a8432, 0x00000000, 0x2e4b9472, 0xfa98bbd5, 0x4c5deafd);
    StoredIs(5, 0x344a8432, 0xc73741ef, 0x7ad956f2, 0x2f6fbd72, 0x00000000, 0x6a59fcf2, 0xe62c474e, 0xc474ee62);
    StoredIs(6, 0x2f6fbd72, 0x8bac3051, 0xc73741ef, 0x7ad956f2, 0x00000000, 0xf37546e3, 0xcb154a68, 0x94d1962a);
    StoredIs(7, 0x7ad956f2, 0x207dc67b, 0x8bac3051, 0xc73741ef, 0x00000000, 0xc72e01d5, 0x3f4dedc8, 0x720fd37b);
  }

  lemma AbcStored12()
    ensures Stored(8, 0xc73741ef, 0x928d99f6, 0x207dc67b, 0x8bac3051, 0x00000000) == 0x854b3712
    ensures Stored(9, 0x8bac3051, 0x854b3712, 0x928d99f6, 0x207dc67b, 0x00000000) == 0x74e2f284
    ensures Stored(10, 0x207dc67b, 0x74e2f284, 0x854b3712, 0x928d99f6, 0x00000000) == 0x3020401c
    ensures Stored(11, 0x928d99f6, 0x3020401c, 0x74e2f284, 0x854b3712, 0x00000000) == 0x5ed49596
  {
    hide Stored;
    StoredIs(8, 0xc73741ef, 0x928d99f6, 0x207dc67b, 0x8bac3051, 0x00000000, 0x092da073, 0x39e57b3a, 0xf2bd9d1c);
    StoredIs(9, 0x8bac3051, 0x854b3712, 0x928d99f6, 0x207dc67b, 0x00000000, 0xa03dd17b, 0xb72ef97b, 0xef97bb72);
    StoredIs(10, 0x207dc67b, 0x74e2f284, 0x854b3712, 0x928d99f6, 0x00000000, 0x864f3b72, 0xa6cc5d9e, 0xbb3d4d98);
    StoredIs(11, 0x928d99f6, 0x3020401c, 0x74e2f284, 0x854b3712, 0x00000000, 0xb56b7706, 0xd155e8ba, 0x2eb4557a);
  }

  lemma AbcStored16()
    ensures Stored(12, 0x854b3712, 0x5ed49596, 0x3020401c, 0x74e2f284, 0x00000000) == 0xdda9b9a6
    ensures Stored(13, 0x74e2f284, 0xdda9b9a6, 0x5ed49596, 0x3020401c, 0x00000000) == 0xa1051895
    ensures Stored(14, 0x3020401c, 0xa1051895, 0xdda9b9a6, 0x5ed49596, 0x00000018) == 0xe396856b
    ensures Stored(15, 0x5ed49596, 0xe396856b, 0xa1051895, 0xdda9b9a6, 0x00000000) == 0x72aff2e0
  {
    hide Stored;
    StoredIs(12, 0x854b3712, 0x5ed49596, 0x3020401c, 0x74e2f284, 0x00000000, 0x30226214, 0x20fdaa48, 0x7ed52410);
    StoredIs(13, 0x74e2f284, 0xdda9b9a6, 0x5ed49596, 0x3020401c, 0x00000000, 0x7c80d19e, 0xeefc35b5, 0xc35b5eef);
    StoredIs(14, 0x3020401c, 0xa1051895, 0xdda9b9a6, 0x5ed49596, 0x00000018, 0xdfd19d86, 0xb66b2148, 0x42916cd6);
    StoredIs(15, 0x5ed49596, 0xe396856b, 0xa1051895, 0xdda9b9a6, 0x00000000, 0xbd2d3885, 0x65b5d63c, 0x8f196d75);
  }

  lemma AbcStored20()
    ensures Stored(16, 0xdda9b9a6, 0x72aff2e0, 0xe396856b, 0xa1051895, 0x00000000) == 0x3e9e9126
    ensures Stored(17, 0xa1051895, 0x3e9e9126, 0x72aff2e0, 0xe396856b, 0x00000000) == 0x4a1d804e
    ensures Stored(18, 0xe396856b, 0x4a1d804e, 0x3e9e9126, 0x72aff2e0, 0x00000000) == 0xe25e1652
    ensures Stored(19, 0x72aff2e0, 0xe25e1652, 0x4a1d804e, 0x3e9e9126, 0x80636261) == 0xb5b204e4
  {
    hide Stored;
    StoredIs(16, 0xdda9b9a6, 0x72aff2e0, 0xe396856b, 0xa1051895, 0x00000000, 0x629795ea, 0x365f74f2, 0xcbee9e46);
    StoredIs(17, 0xa1051895, 0x3e9e9126, 0x72aff2e0, 0xe396856b, 0x00000000, 0x32bff3a2, 0x9405bf77, 0x0b7eef28);
    StoredIs(18, 0xe396856b, 0x4a1d804e, 0x3e9e9126, 0x72aff2e0, 0x00000000, 0x4e1d8146, 0x58126102, 0x98409604);
    StoredIs(19, 0x72aff2e0, 0xe25e1652, 0x4a1d804e, 0x3e9e9126, 0x80636261, 0x621f104a, 0x3ee92d35, 0xd353ee92);
  }

  lemma AbcStored24()
    ensures Stored(20, 0x3e9e9126, 0xb5b204e4, 0xe25e1652, 0x4a1d804e, 0x00000000) == 0x59a8ffda
    ensures Stored(21, 0x4a1d804e, 0x59a8ffda, 0xb5b204e4, 0xe25e1652, 0x00000000) == 0x6d002f1e
    ensures Stored(22, 0xe25e1652, 0x6d002f1e, 0x59a8ffda, 0xb5b204e4, 0x00000000) == 0xabfc7920
    ensures Stored(23, 0xb5b204e4, 0xabfc7920, 0x6d002f1e, 0x59a8ffda, 0x00000000) == 0x47092c07
  {
    hide Stored;
    StoredIs(20, 0x3e9e9126, 0xb5b204e4, 0xe25e1652, 0x4a1d804e, 0x00000000, 0xa0521654, 0xb51fb7d7, 0xa3f6faf6);
    StoredIs(21, 0x4a1d804e, 0x59a8ffda, 0xb5b204e4, 0xe25e1652, 0x00000000, 0x55a816f6, 0xa209ab97, 0x13572f44);
    StoredIs(22, 0xe25e1652, 0x6d002f1e, 0x59a8ffda, 0xb5b204e4, 0x00000000, 0x6d08ff1e, 0x2808fbf1, 0x3efc4a02);
    StoredIs(23, 0xb5b204e4, 0xabfc7920, 0x6d002f1e, 0x59a8ffda, 0x00000000, 0x2da87904, 0xcb2e79b0, 0x9b0cb2e7);
  }

  lemma AbcStored28()
    ensures Stored(24, 0x59a8ffda, 0x47092c07, 0xabfc7920, 0x6d002f1e, 0x00000000) == 0xb7f268cf
    ensures Stored(25, 0x6d002f1e, 0xb7f268cf, 0x47092c07, 0xabfc7920, 0x00000018) == 0x09388eff
    ensures Stored(26, 0xabfc7920, 0x09388eff, 0xb7f268cf, 0x47092c07, 0x00000000) == 0xfe1623b1
    ensures Stored(27, 0x47092c07, 0xfe1623b1, 0x09388eff, 0xb7f268cf, 0x00000000) == 0x786acb8f
  {
    hide Stored;
    StoredIs(24, 0x59a8ffda, 0x47092c07, 0xabfc7920, 0x6d002f1e, 0x00000000, 0xc7fc7c26, 0x438749e6, 0x70e93cc8);
    StoredIs(25, 0x6d002f1e, 0xb7f268cf, 0x47092c07, 0xabfc7920, 0x00000018, 0xe7f16c07, 0x1828a313, 0x51462630);
    StoredIs(26, 0xabfc7920, 0x09388eff, 0xb7f268cf, 0x47092c07, 0x00000000, 0xb1fa4ccf, 0x52cbd376, 0xf4dd94b2);
    StoredIs(27, 0x47092c07, 0xfe1623b1, 0x09388eff, 0xb7f268cf, 0x00000000, 0xbe1aa6b1, 0x4a7de7a5, 0x7a54a7de);
  }

  lemma AbcStored32()
    ensures Stored(28, 0xb7f268cf, 0x786acb8f, 0xfe1623b1, 0x09388eff, 0x00000000) == 0x790a77fb
    ensures Stored(29, 0x09388eff, 0x790a77fb, 0x786acb8f, 0xfe1623b1, 0x00000000) == 0x9f47e4f8
    ensures Stored(30, 0xfe1623b1, 0x9f47e4f8, 0x790a77fb, 0x786acb8f, 0x00000000) == 0xa62884aa
    ensures Stored(31, 0x786acb8f, 0xa62884aa, 0x9f47e4f8, 0x790a77fb, 0x00000000) == 0x726342d3
  {
    hide Stored;
    StoredIs(28, 0xb7f268cf, 0x786acb8f, 0xfe1623b1, 0x09388eff, 0x00000000, 0xfe2eab8f, 0x6004fd63, 0x009fac6c);
    StoredIs(29, 0x09388eff, 0x790a77fb, 0x786acb8f, 0xfe1623b1, 0x00000000, 0x786aebbf, 0x7e931eb6, 0x263d6cfd);
    StoredIs(30, 0xfe1623b1, 0x9f47e4f8, 0x790a77fb, 0x786acb8f, 0x00000000, 0x1942f4f8, 0x7ec81b82, 0x06e09fb2);
    StoredIs(31, 0x786acb8f, 0xa62884aa, 0x9f47e4f8, 0x790a77fb, 0x00000000, 0xa64d84aa, 0xabe29cc3, 0xcc3abe29);
  }

  lemma AbcStored36()
    ensures Stored(32, 0x790a77fb, 0x726342d3, 0xa62884aa, 0x9f47e4f8, 0x00000000) == 0xb3707ebf
    ensures Stored(33, 0x9f47e4f8, 0xb3707ebf, 0x726342d3, 0xa62884aa, 0x00000000) == 0x60127b2e
    ensures Stored(34, 0xa62884aa, 0x60127b2e, 0xb3707ebf, 0x726342d3, 0x00000000) == 0x8d212ff5
    ensures Stored(35, 0x726342d3, 0x8d212ff5, 0x60127b2e, 0xb3707ebf, 0x00000018) == 0x3b0875c7
  {
    hide Stored;
    StoredIs(32, 0x790a77fb, 0x726342d3, 0xa62884aa, 0x9f47e4f8, 0x00000000, 0x4b0c2281, 0xc410d3be, 0x410d3bec);
    StoredIs(33, 0x9f47e4f8, 0xb3707ebf, 0x726342d3, 0xa62884aa, 0x00000000, 0x673bb8c6, 0x8df5943f, 0xaca1fc6f);
    StoredIs(34, 0xa62884aa, 0x60127b2e, 0xb3707ebf, 0x726342d3, 0x00000000, 0xa1014742, 0xb4c72d0e, 0x2d0eb4c7);
    StoredIs(35, 0x726342d3, 0x8d212ff5, 0x60127b2e, 0xb3707ebf, 0x00000018, 0x5e432a64, 0xce8ba55b, 0xade745d2);
  }

  lemma AbcStored40()
    ensures Stored(36, 0xb3707ebf, 0x3b0875c7, 0x8d212ff5, 0x60127b2e, 0x00000000) == 0x21b117b9
    ensures Stored(37, 0x60127b2e, 0x21b117b9, 0x3b0875c7, 0x8d212ff5, 0x00000000) == 0x6e7429d5
    ensures Stored(38, 0x8d212ff5, 0x6e7429d5, 0x21b117b9, 0x3b0875c7, 0x00000000) == 0x3575227e
    ensures Stored(39, 0x3b0875c7, 0x3575227e, 0x6e7429d5, 0x21b117b9, 0x00000000) == 0x5a2f5ea5
  {
    hide Stored;
    StoredIs(36, 0xb3707ebf, 0x3b0875c7, 0x8d212ff5, 0x60127b2e, 0x00000000, 0xd63b211c, 0x2e6a8a1f, 0xe6a8a1f2);
    StoredIs(37, 0x60127b2e, 0x21b117b9, 0x3b0875c7, 0x8d212ff5, 0x00000000, 0x97984d8b, 0x43899862, 0x4cc3121c);
    StoredIs(38, 0x8d212ff5, 0x6e7429d5, 0x21b117b9, 0x3b0875c7, 0x00000000, 0x74cd4bab, 0xf8a9c700, 0xc700f8a9);
    StoredIs(39, 0x3b0875c7, 0x3575227e, 0x6e7429d5, 0x21b117b9, 0x00000000, 0x7ab01c12, 0x74784e49, 0x24ba3c27);
  }

  lemma AbcStored44()
    ensures Stored(40, 0x21b117b9, 0x5a2f5ea5, 0x3575227e, 0x6e7429d5, 0x00000000) == 0x11de1779
    ensures Stored(41, 0x6e7429d5, 0x11de1779, 0x5a2f5ea5, 0x3575227e, 0x80636261) == 0xfadcaa38
    ensures Stored(42, 0x3575227e, 0xfadcaa38, 0x11de1779, 0x5a2f5ea5, 0x00000000) == 0x31c465ca
    ensures Stored(43, 0x5a2f5ea5, 0x31c465ca, 0xfadcaa38, 0x11de1779, 0x00000000) == 0x4c6124f4
  {
    hide Stored;
    StoredIs(40, 0x21b117b9, 0x5a2f5ea5, 0x3575227e, 0x6e7429d5, 0x00000000, 0x012e550e, 0x4b7aeb8d, 0xb7aeb8d4);
    StoredIs(41, 0x6e7429d5, 0x11de1779, 0x5a2f5ea5, 0x3575227e, 0x80636261, 0x7e846ba2, 0x57fd1fd2, 0xe8fe92bf);
    StoredIs(42, 0x3575227e, 0xfadcaa38, 0x11de1779, 0x5a2f5ea5, 0x00000000, 0xb12de3e4, 0xbb9236e7, 0x36e7bb92);
    StoredIs(43, 0x5a2f5ea5, 0x31c465ca, 0xfadcaa38, 0x11de1779, 0x00000000, 0xdac6d88b, 0x397e5435, 0x1a9cbf2a);
  }

  lemma AbcStored48()
    ensures Stored(44, 0x11de1779, 0x4c6124f4, 0x31c465ca, 0xfadcaa38, 0x00000000) == 0x7f2e507b
    ensures Stored(45, 0xfadcaa38, 0x7f2e507b, 0x4c6124f4, 0x31c465ca, 0x00000000) == 0x99d9679d
    ensures Stored(46, 0x31c465ca, 0x99d9679d, 0x7f2e507b, 0x4c6124f4, 0x00000000) == 0x8fae6399
    ensures Stored(47, 0x4c6124f4, 0x8fae6399, 0x99d9679d, 0x7f2e507b, 0x00000000) == 0x7beb9700
  {
    hide Stored;
    StoredIs(44, 0x11de1779, 0x4c6124f4, 0x31c465ca, 0xfadcaa38, 0x00000000, 0x8779eb06, 0x732cd2b8, 0x32cd2b87);
    StoredIs(45, 0xfadcaa38, 0x7f2e507b, 0x4c6124f4, 0x31c465ca, 0x00000000, 0x028b1145, 0xe4435562, 0x1aab1722);
    StoredIs(46, 0x31c465ca, 0x99d9679d, 0x7f2e507b, 0x4c6124f4, 0x00000000, 0xaa961312, 0xfbfcf5d4, 0xf5d4fbfc);
    StoredIs(47, 0x4c6124f4, 0x8fae6399, 0x99d9679d, 0x7f2e507b, 0x00000000, 0x6959547f, 0x7a66cfd8, 0xec3d3367);
  }

  lemma AbcStored52()
    ensures Stored(48, 0x7f2e507b, 0x7beb9700, 0x8fae6399, 0x99d9679d, 0x80636261) == 0x7b201df8
    ensures Stored(49, 0x99d9679d, 0x7b201df8, 0x7beb9700, 0x8fae6399, 0x00000000) == 0xf4e8e96e
    ensures Stored(50, 0x8fae6399, 0xf4e8e96e, 0x7b201df8, 0x7beb9700, 0x00000018) == 0xb298cefd
    ensures Stored(51, 0x7beb9700, 0xb298cefd, 0xf4e8e96e, 0x7b201df8, 0x00000000) == 0x8bf025c4
  {
    hide Stored;
    StoredIs(48, 0x7f2e507b, 0x7beb9700, 0x8fae6399, 0x99d9679d, 0x80636261, 0xf041fcfb, 0xe3fcd21b, 0xff3486f8);
    StoredIs(49, 0x99d9679d, 0x7b201df8, 0x7beb9700, 0x8fae6399, 0x00000000, 0x009a0afe, 0xdd9e7232, 0x79c8cb76);
    StoredIs(50, 0x8fae6399, 0xf4e8e96e, 0x7b201df8, 0x7beb9700, 0x00000018, 0x8fdcf407, 0xcb1f7b5f, 0xbdafe58f);
    StoredIs(51, 0x7beb9700, 0xb298cefd, 0xf4e8e96e, 0x7b201df8, 0x00000000, 0x42370791, 0xbab63eca, 0xd95756c7);
  }

  lemma AbcStored56()
    ensures Stored(52, 0x7b201df8, 0x8bf025c4, 0xb298cefd, 0xf4e8e96e, 0x00000000) == 0x06cc5e8a
    ensures Stored(53, 0xf4e8e96e, 0x06cc5e8a, 0x8bf025c4, 0xb298cefd, 0x00000000) == 0x5b0d97aa
    ensures Stored(54, 0xb298cefd, 0x5b0d97aa, 0x06cc5e8a, 0x8bf025c4, 0x00000000) == 0x7d632dd0
    ensures Stored(55, 0x8bf025c4, 0x7d632dd0, 0x5b0d97aa, 0x06cc5e8a, 0x00000000) == 0x3bfa2c27
  {
    hide Stored;
    StoredIs(52, 0x7b201df8, 0x8bf025c4, 0xb298cefd, 0xf4e8e96e, 0x00000000, 0x396ff928, 0x19eb70e3, 0x7adc38c6);
    StoredIs(53, 0xf4e8e96e, 0x06cc5e8a, 0x8bf025c4, 0xb298cefd, 0x00000000, 0xc41f5a4e, 0x4815104e, 0x54413920);
    StoredIs(54, 0xb298cefd, 0x5b0d97aa, 0x06cc5e8a, 0x8bf025c4, 0x00000000, 0x79c38131, 0x2c4c44ab, 0x22559626);
    StoredIs(55, 0x8bf025c4, 0x7d632dd0, 0x5b0d97aa, 0x06cc5e8a, 0x00000000, 0xa67e3a5f, 0xb7f2bdf4, 0xbe96fe57);
  }

  lemma AbcStored60()
    ensures Stored(56, 0x06cc5e8a, 0x3bfa2c27, 0x7d632dd0, 0x5b0d97aa, 0x00000000) == 0x7f81cc35
    ensures Stored(57, 0x5b0d97aa, 0x7f81cc35, 0x3bfa2c27, 0x7d632dd0, 0x00000000) == 0x094454ab
    ensures Stored(58, 0x7d632dd0, 0x094454ab, 0x7f81cc35, 0x3bfa2c27, 0x00000000) == 0x4f9dbe3f
    ensures Stored(59, 0x3bfa2c27, 0x4f9dbe3f, 0x094454ab, 0x7f81cc35, 0x00000000) == 0x7327d604
  {
    hide Stored;
    StoredIs(56, 0x06cc5e8a, 0x3bfa2c27, 0x7d632dd0, 0x5b0d97aa, 0x00000000, 0xc29941a7, 0x390e1e80, 0x4387a00e);
    StoredIs(57, 0x5b0d97aa, 0x7f81cc35, 0x3bfa2c27, 0x7d632dd0, 0x00000000, 0xc467f218, 0x1da270a2, 0x89c28876);
    StoredIs(58, 0x7d632dd0, 0x094454ab, 0x7f81cc35, 0x3bfa2c27, 0x00000000, 0xb2c41bce, 0xd3288cb2, 0x46596994);
    StoredIs(59, 0x3bfa2c27, 0x4f9dbe3f, 0x094454ab, 0x7f81cc35, 0x00000000, 0xc6bbeb54, 0x50be291c, 0x238a17c5);
  }

  lemma AbcStored64()
    ensures Stored(60, 0x7f81cc35, 0x7327d604, 0x4f9dbe3f, 0x094454ab, 0x00000000) == 0x310ade8f
    ensures Stored(61, 0x094454ab, 0x310ade8f, 0x7327d604, 0x4f9dbe3f, 0x00000000) == 0x624d8cb2
    ensures Stored(62, 0x4f9dbe3f, 0x624d8cb2, 0x310ade8f, 0x7327d604, 0x00000000) == 0xe484b9d8
    ensures Stored(63, 0x7327d604, 0xe484b9d8, 0x624d8cb2, 0x310ade8f, 0x00000000) == 0xc08226b3
  {
    hide Stored;
    StoredIs(60, 0x7f81cc35, 0x7327d604, 0x4f9dbe3f, 0x094454ab, 0x00000000, 0xb822416b, 0x2ef78c22, 0xbde3088b);
    StoredIs(61, 0x094454ab, 0x310ade8f, 0x7327d604, 0x4f9dbe3f, 0x00000000, 0xc24d09cb, 0x88cc50ab, 0x3142ae23);
    StoredIs(62, 0x4f9dbe3f, 0x624d8cb2, 0x310ade8f, 0x7327d604, 0x00000000, 0xdfd77374, 0x5a4d046e, 0x82372d26);
    StoredIs(63, 0x7327d604, 0xe484b9d8, 0x624d8cb2, 0x310ade8f, 0x00000000, 0x8cb8354a, 0xeb66dedf, 0xdbfd6cdb);
  }

  lemma AbcRound1(start: Registers, block: Block)
    requires AbcWords(block) && Steps(start, block, 0) == Registers(0x67452301, 0xefcdab89, 0x98badcfe, 0x10325476)
    ensures Steps(start, block, 16) == Registers(0xdda9b9a6, 0x72aff2e0, 0xe396856b, 0xa1051895)
  {
    hide Stored, Steps, X, Mix, Add, T, Circular, S, K;
    Strides1();
    AbcStored4();
    FourSteps(start, block, 0, Registers(0x67452301, 0xefcdab89, 0x98badcfe, 0x10325476), 0xd6d117b4, 0x344a8432, 0x2f6fbd72, 0x7ad956f2);
    AbcStored8();
    FourSteps(start, block, 4, Registers(0xd6d117b4, 0x7ad956f2, 0x2f6fbd72, 0x344a8432), 0xc73741ef, 0x8bac3051, 0x207dc67b, 0x928d99f6);
    AbcStored12();
    FourSteps(start, block, 8, Registers(0xc73741ef, 0x928d99f6, 0x207dc67b, 0x8bac3051), 0x854b3712, 0x74e2f284, 0x3020401c, 0x5ed49596);
    AbcStored16();
    FourSteps(start, block, 12, Registers(0x854b3712, 0x5ed49596, 0x3020401c, 0x74e2f284), 0xdda9b9a6, 0xa1051895, 0xe396856b, 0x72aff2e0);
  }

  lemma AbcRound2(start: Registers, block: Block)
    requires AbcWords(block) && Steps(start, block, 16) == Registers(0xdda9b9a6, 0x72aff2e0, 0xe396856b, 0xa1051895)
    ensures Steps(start, block, 32) == Registers(0x790a77fb, 0x726342d3, 0xa62884aa, 0x9f47e4f8)
  {
    hide Stored, Steps, X, Mix, Add, T, Circular, S, K;
    Strides2();
    AbcStored20();
    FourSteps(start, block, 16, Registers(0xdda9b9a6, 0x72aff2e0, 0xe396856b, 0xa1051895), 0x3e9e9126, 0x4a1d804e, 0xe25e1652, 0xb5b204e4);
    AbcStored24();
    FourSteps(start, block, 20, Registers(0x3e9e9126, 0xb5b204e4, 0xe25e1652, 0x4a1d804e), 0x59a8ffda, 0x6d002f1e, 0xabfc7920, 0x47092c07);
    AbcStored28();
    FourSteps(start, block, 24, Registers(0x59a8ffda, 0x47092c07, 0xabfc7920, 0x6d002f1e), 0xb7f268cf, 0x09388eff, 0xfe1623b1, 0x786acb8f);
    AbcStored32();
    FourSteps(start, block, 28, Registers(0xb7f268cf, 0x786acb8f, 0xfe1623b1, 0x09388eff), 0x790a77fb, 0x9f47e4f8, 0xa62884aa, 0x726342d3);
  }

  lemma AbcRound3(start: Registers, block: Block)
    requires AbcWords(block) && Steps(start, block, 32) == Registers(0x790a77fb, 0x726342d3, 0xa62884aa, 0x9f47e4f8)
    ensures Steps(start, block, 48) == Registers(0x7f2e507b, 0x7beb9700, 0x8fae6399, 0x99d9679d)
  {
    hide Stored, Steps, X, Mix, Add, T, Circular, S, K;
    Strides3();
    AbcStored36();
    FourSteps(start, block, 32, Registers(0x790a77fb, 0x726342d3, 0xa62884aa, 0x9f47e4f8), 0xb3707ebf, 0x60127b2e, 0x8d212ff5, 0x3b0875c7);
    AbcStored40();
    FourSteps(start, block, 36, Registers(0xb3707ebf, 0x3b0875c7, 0x8d212ff5, 0x60127b2e), 0x21b117b9, 0x6e7429d5, 0x3575227e, 0x5a2f5ea5);
    AbcStored44();
    FourSteps(start, block, 40, Registers(0x21b117b9, 0x5a2f5ea5, 0x3575227e, 0x6e7429d5), 0x11de1779, 0xfadcaa38, 0x31c465ca, 0x4c6124f4);
    AbcStored48();
    FourSteps(start, block, 44, Registers(0x11de1779, 0x4c6124f4, 0x31c465ca, 0xfadcaa38), 0x7f2e507b, 0x99d9679d, 0x8fae6399, 0x7beb9700);
  }

  lemma AbcRound4(start: Registers, block: Block)
    requires AbcWords(block) && Steps(start, block, 48) == Registers(0x7f2e507b, 0x7beb9700, 0x8fae6399, 0x99d9679d)
    ensures Steps(start, block, 64) == Registers(0x310ade8f, 0xc08226b3, 0xe484b9d8, 0x624d8cb2)
  {
    hide Stored, Steps, X, Mix, Add, T, Circular, S, K;
    Strides4();
    AbcStored52();
    FourSteps(start, block, 48, Registers(0x7f2e507b, 0x7beb9700, 0x8fae6399, 0x99d9679d), 0x7b201df8, 0xf4e8e96e, 0xb298cefd, 0x8bf025c4);
    AbcStored56();
    FourSteps(start, block, 52, Registers(0x7b201df8, 0x8bf025c4, 0xb298cefd, 0xf4e8e96e), 0x06cc5e8a, 0x5b0d97aa, 0x7d632dd0, 0x3bfa2c27);
    AbcStored60();
    FourSteps(start, block, 56, Registers(0x06cc5e8a, 0x3bfa2c27, 0x7d632dd0, 0x5b0d97aa), 0x7f81cc35, 0x094454ab, 0x4f9dbe3f, 0x7327d604);
    AbcStored64();
    FourSteps(start, block, 60, Registers(0x7f81cc35, 0x7327d604, 0x4f9dbe3f, 0x094454ab), 0x310ade8f, 0x624d8cb2, 0xe484b9d8, 0xc08226b3);
  }

  lemma AbcCompressed(start: Registers, block: Block)
    requires start == M.IV && AbcWords(block)
    ensures Compress(start, block) == Registers(0x98500190, 0xb04fd23c, 0x7d3f96d6, 0x727fe128)
  {
    hide Step;
    assert Steps(start, block, 0) == start;
    hide Steps, AbcWords;
    AbcRound1(start, block);
    AbcRound2(start, block);
    AbcRound3(start, block);
    AbcRound4(start, block);
  }

  /** The digest of "abc" is the one that the standard gives. */
  lemma AbcDigest()
    ensures M.Digest(ABC) == [0x90, 0x01, 0x50, 0x98, 0x3c, 0xd2, 0x4f, 0xb0, 0xd6, 0x96, 0x3f, 0x7d, 0x28, 0xe1, 0x7f, 0x72]
  {
    hide Compress, M.Output, AbcWords, M.Padded, AbcBlock;
    AbcPadded();
    AbcBlockWords();
    OneBlock(M.IV, AbcBlock());
    AbcCompressed(M.IV, AbcBlock());
    AbcOutput();
  }

  lemma OneBlock(r: Registers, block: Block)
    ensures M.Absorb(r, block) == Compress(r, block)
  {
    hide Compress;
    assert block[..64] == block && block[64..] == [];
  }

  lemma AbcOutput()
    ensures M.Output(Registers(0x98500190, 0xb04fd23c, 0x7d3f96d6, 0x727fe128)) == [0x90, 0x01, 0x50, 0x98, 0x3c, 0xd2, 0x4f, 0xb0, 0xd6, 0x96, 0x3f, 0x7d, 0x28, 0xe1, 0x7f, 0x72]
  {
    hide M.LittleEndian;
    M.FourBytes(0x98500190);
    M.FourBytes(0xb04fd23c);
    M.FourBytes(0x7d3f96d6);
    M.FourBytes(0x727fe128);
  }

  // ---------- bytes and words ----------

  /** Section 3.3 of RFC 1321 gives the registers as bytes, the low-order byte first. */
  lemma InitialBytes()
    ensures LittleEndianWord(0x01, 0x23, 0x45, 0x67) == M.IV.a && LittleEndianWord(0x89, 0xab, 0xcd, 0xef) == M.IV.b
    ensures LittleEndianWord(0xfe, 0xdc, 0xba, 0x98) == M.IV.c && LittleEndianWord(0x76, 0x54, 0x32, 0x10) == M.IV.d
  {
  }

  // ---------- hexadecimal text ----------

  /** The digits of the stored text, the high half of a byte first. */
  lemma DigestText()
    ensures M.DIGITS == "0123456789abcdef" && M.HexText([0x90, 0x0f]) == "900f"
  {
    assert [0x90, 0x0f][1..] == [0x0f] && [0x0f][1..] == [];
  }

  /** The tables, and two bytes written with the upper-case one and read in mixed case. */
  lemma HexDigits()
    ensures H.UPPER == "0123456789ABCDEF" && H.LOWER == "0123456789abcdef"
    ensures H.Encoded([0x1f, 0xa0], 1, H.UPPER) == "1FA0"
    ensures H.Unhexed("1fA0", 1) == H.Decoded([0x1f, 0xa0], None)
  {
    assert H.Numeral(1, 1, H.UPPER) == "1" && H.Numeral(10, 1, H.UPPER) == "A";
    assert H.Numeral(0x1f, 2, H.UPPER) == "1F" && H.Numeral(0xa0, 2, H.UPPER) == "A0";
    assert [0x1f, 0xa0][1..] == [0xa0] && [0xa0][1..] == [];
    ReadMixedCase();
  }

  lemma ReadMixedCase()
    ensures H.Unhexed("1fA0", 1) == H.Decoded([0x1f, 0xa0], None)
  {
    var s := "1fA0";
    H.FirstBadIs(s, 4);
    assert s[..4] == s && s[..2] == "1f" && s[2..] == "A0" && "A0"[..2] == "A0" && "A0"[2..] == "";
    assert "1f"[..1] == "1" && "A0"[..1] == "A" && "1"[..0] == "" && "A"[..0] == "";
    assert H.Number("1") == 1 && H.Number("A") == 10;
    assert H.Number("1f") == 0x1f && H.Number("A0") == 0xa0;
    assert H.Groups("A0", 2) == [0xa0];
  }

  // ---------- an edited compile command ----------

  /** The flags that are dropped alone, those that are dropped with their argument, and the source. */
  lemma Dropped(flag: string, filename: string)
    ensures C.SkipArity(flag) == Some(0) <==>
      flag in ["-c", "-MD", "-MMD", "-MP", "-rdynamic", "--fcolor-diagnostics", "-Wno-unused-but-set-variable"]
    ensures C.SkipArity(flag) == Some(1) <==> flag in ["-MF", "-MQ", "-MT", "-o", "--serialize-diagnostics"]
    ensures C.IsSource(flag, filename) <==> flag == filename && "/" <= filename
  {
  }

  /** A whole command: what comes before the compiler goes, with the flags of both tables, the
      argument that looks like a flag, and the source where its path is absolute. */
  lemma EditedCommand(isCpp: string -> bool)
    requires isCpp("/usr/bin/g++")
    ensures var command := ["-j", "/usr/bin/g++", "-DX", "-o", "-c", "/p/a.cc", "-MD", "a.cc"];
      C.Editable(command) && C.Pruned(command, "/p/a.cc", isCpp) == ["-x", "c++", "-DX", "a.cc"]
  {
    hide C.Filtered, C.ArgumentsPresent, C.HeadsReadable;
    var rest := ["-DX", "-o", "-c", "/p/a.cc", "-MD", "a.cc"];
    var command := ["-j", "/usr/bin/g++"] + rest;
    assert command[1..] == ["/usr/bin/g++"] + rest && (["/usr/bin/g++"] + rest)[1..] == rest;
    assert C.DropLeadingFlags(command) == ["/usr/bin/g++"] + rest;
    EditedRest();
  }

  lemma EditedRest()
    ensures var rest := ["-DX", "-o", "-c", "/p/a.cc", "-MD", "a.cc"];
      C.ArgumentsPresent(rest) && C.HeadsReadable(rest) && C.Filtered(rest, "/p/a.cc") == ["-DX", "a.cc"]
  {
    EditedEnd();
    var rest := ["-DX", "-o", "-c", "/p/a.cc", "-MD", "a.cc"];
    assert rest[1..] == ["-o", "-c"] + rest[3..] && (["-o", "-c"] + rest[3..])[2..] == rest[3..];
    assert rest[3..] == ["/p/a.cc", "-MD", "a.cc"];
  }

  lemma EditedEnd()
    ensures var rest := ["/p/a.cc", "-MD", "a.cc"];
      C.ArgumentsPresent(rest) && C.HeadsReadable(rest) && C.Filtered(rest, "/p/a.cc") == ["a.cc"]
  {
    var rest := ["/p/a.cc", "-MD", "a.cc"];
    assert rest[1..] == ["-MD", "a.cc"] && ["-MD", "a.cc"][1..] == ["a.cc"] && ["a.cc"][1..] == [];
    assert C.Filtered(["a.cc"], "/p/a.cc") == ["a.cc"];
  }

  // ---------- written paths ----------

  lemma WrittenPaths()
    ensures P.Text(["a", "b.cc"]) == "/a/b.cc" && P.Text([]) == "/"
    ensures P.Relative(["a", "c", "d"], ["a", "b"]) == ["..", "c", "d"] && P.RelativeText(["..", "c", "d"]) == "../c/d"
  {
    assert P.Joined(["b.cc"]) == "/b.cc";
    assert ["a", "b.cc"][1..] == ["b.cc"];
    assert ["..", "c", "d"][1..] == ["c", "d"] && ["c", "d"][1..] == ["d"];
    BesideDirectory();
  }

  lemma BesideDirectory()
    ensures P.Relative(["a", "c", "d"], ["a", "b"]) == ["..", "c", "d"]
  {
    assert P.Common(["c", "d"], ["b"]) == 0 && ["a", "c", "d"][1..] == ["c", "d"] && ["a", "b"][1..] == ["b"];
    assert P.Common(["a", "c", "d"], ["a", "b"]) == 1;
    assert P.Ups(1) == [".."];
  }
}
