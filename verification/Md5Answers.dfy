/**
 Known answers: the 64 entries of the step table of section 3.4 of RFC 1321, and the digests of two
 messages in section A.5, step by step.
 */
module Md5Answers {
  import opened Md5

  // Entry i of the table: the word it reads, its rotation and its constant.
  predicate Entry(i: nat, k: nat, s: nat, t: Word)
    requires i < 64
  {
    K(i) == k && S(i) == s && T(i) == t
  }

  lemma Table1()
    ensures Entry(0, 0, 7, 0xd76aa478) && Entry(1, 1, 12, 0xe8c7b756)
    ensures Entry(2, 2, 17, 0x242070db) && Entry(3, 3, 22, 0xc1bdceee)
    ensures Entry(4, 4, 7, 0xf57c0faf) && Entry(5, 5, 12, 0x4787c62a)
    ensures Entry(6, 6, 17, 0xa8304613) && Entry(7, 7, 22, 0xfd469501)
  {
  }

  lemma Table2()
    ensures Entry(8, 8, 7, 0x698098d8) && Entry(9, 9, 12, 0x8b44f7af)
    ensures Entry(10, 10, 17, 0xffff5bb1) && Entry(11, 11, 22, 0x895cd7be)
    ensures Entry(12, 12, 7, 0x6b901122) && Entry(13, 13, 12, 0xfd987193)
    ensures Entry(14, 14, 17, 0xa679438e) && Entry(15, 15, 22, 0x49b40821)
  {
  }

  lemma Table3()
    ensures Entry(16, 1, 5, 0xf61e2562) && Entry(17, 6, 9, 0xc040b340)
    ensures Entry(18, 11, 14, 0x265e5a51) && Entry(19, 0, 20, 0xe9b6c7aa)
    ensures Entry(20, 5, 5, 0xd62f105d) && Entry(21, 10, 9, 0x02441453)
    ensures Entry(22, 15, 14, 0xd8a1e681) && Entry(23, 4, 20, 0xe7d3fbc8)
  {
  }

  lemma Table4()
    ensures Entry(24, 9, 5, 0x21e1cde6) && Entry(25, 14, 9, 0xc33707d6)
    ensures Entry(26, 3, 14, 0xf4d50d87) && Entry(27, 8, 20, 0x455a14ed)
    ensures Entry(28, 13, 5, 0xa9e3e905) && Entry(29, 2, 9, 0xfcefa3f8)
    ensures Entry(30, 7, 14, 0x676f02d9) && Entry(31, 12, 20, 0x8d2a4c8a)
  {
  }

  lemma Table5()
    ensures Entry(32, 5, 4, 0xfffa3942) && Entry(33, 8, 11, 0x8771f681)
    ensures Entry(34, 11, 16, 0x6d9d6122) && Entry(35, 14, 23, 0xfde5380c)
    ensures Entry(36, 1, 4, 0xa4beea44) && Entry(37, 4, 11, 0x4bdecfa9)
    ensures Entry(38, 7, 16, 0xf6bb4b60) && Entry(39, 10, 23, 0xbebfbc70)
  {
  }

  lemma Table6()
    ensures Entry(40, 13, 4, 0x289b7ec6) && Entry(41, 0, 11, 0xeaa127fa)
    ensures Entry(42, 3, 16, 0xd4ef3085) && Entry(43, 6, 23, 0x04881d05)
    ensures Entry(44, 9, 4, 0xd9d4d039) && Entry(45, 12, 11, 0xe6db99e5)
    ensures Entry(46, 15, 16, 0x1fa27cf8) && Entry(47, 2, 23, 0xc4ac5665)
  {
  }

  lemma Table7()
    ensures Entry(48, 0, 6, 0xf4292244) && Entry(49, 7, 10, 0x432aff97)
    ensures Entry(50, 14, 15, 0xab9423a7) && Entry(51, 5, 21, 0xfc93a039)
    ensures Entry(52, 12, 6, 0x655b59c3) && Entry(53, 3, 10, 0x8f0ccc92)
    ensures Entry(54, 10, 15, 0xffeff47d) && Entry(55, 1, 21, 0x85845dd1)
  {
  }

  lemma Table8()
    ensures Entry(56, 8, 6, 0x6fa87e4f) && Entry(57, 15, 10, 0xfe2ce6e0)
    ensures Entry(58, 6, 15, 0xa3014314) && Entry(59, 13, 21, 0x4e0811a1)
    ensures Entry(60, 4, 6, 0xf7537e82) && Entry(61, 11, 10, 0xbd3af235)
    ensures Entry(62, 2, 15, 0x2ad7d2bb) && Entry(63, 9, 21, 0xeb86d391)
  {
  }

  // One more step of round 1, whose new register is b.
  lemma NextF(i: nat, s: Regs, x: seq<Word>, r: Regs, from: nat, b: Word) returns (next: Regs)
    requires from <= i && 0 <= i < 16 && |x| == 16 && s == Steps(r, x, from, i)
    requires b == Operation(F(s.b, s.c, s.d), s.a, s.b, x[K(i)], S(i), T(i))
    ensures next == Regs(s.d, b, s.b, s.c) == Steps(r, x, from, i + 1)
  {
    next := Regs(s.d, b, s.b, s.c);
  }

  // One more step of round 2, whose new register is b.
  lemma NextG(i: nat, s: Regs, x: seq<Word>, r: Regs, from: nat, b: Word) returns (next: Regs)
    requires from <= i && 16 <= i < 32 && |x| == 16 && s == Steps(r, x, from, i)
    requires b == Operation(G(s.b, s.c, s.d), s.a, s.b, x[K(i)], S(i), T(i))
    ensures next == Regs(s.d, b, s.b, s.c) == Steps(r, x, from, i + 1)
  {
    next := Regs(s.d, b, s.b, s.c);
  }

  // One more step of round 3, whose new register is b.
  lemma NextH(i: nat, s: Regs, x: seq<Word>, r: Regs, from: nat, b: Word) returns (next: Regs)
    requires from <= i && 32 <= i < 48 && |x| == 16 && s == Steps(r, x, from, i)
    requires b == Operation(H(s.b, s.c, s.d), s.a, s.b, x[K(i)], S(i), T(i))
    ensures next == Regs(s.d, b, s.b, s.c) == Steps(r, x, from, i + 1)
  {
    next := Regs(s.d, b, s.b, s.c);
  }

  // One more step of round 4, whose new register is b.
  lemma NextI(i: nat, s: Regs, x: seq<Word>, r: Regs, from: nat, b: Word) returns (next: Regs)
    requires from <= i && 48 <= i < 64 && |x| == 16 && s == Steps(r, x, from, i)
    requires b == Operation(I(s.b, s.c, s.d), s.a, s.b, x[K(i)], S(i), T(i))
    ensures next == Regs(s.d, b, s.b, s.c) == Steps(r, x, from, i + 1)
  {
    next := Regs(s.d, b, s.b, s.c);
  }

  lemma OneBlock(p: seq<Byte>)
    requires |p| == 64
    ensures Chain(p) == Sum(IV, Steps(IV, Words(p), 0, 64))
  {
    hide Steps, Words;
    assert p[..0] == [] && p[0..] == p;
  }

  // The block of the empty message.
  const EMPTY_BLOCK: seq<Word> := [0x80, 0x0, 0x0, 0x0, 0x0, 0x0, 0x0, 0x0, 0x0, 0x0, 0x0, 0x0, 0x0, 0x0, 0x0, 0x0]

  lemma {:induction false} EmptyFrom0()
    ensures Steps(Regs(0x67452301, 0xefcdab89, 0x98badcfe, 0x10325476), EMPTY_BLOCK, 0, 4)
         == Regs(0xa5202774, 0x1b163203, 0xe7f06b23, 0xf59592dd)
  {
    hide Step, Steps, K, S, T;
    Table1();
    var r := Regs(0x67452301, 0xefcdab89, 0x98badcfe, 0x10325476);
    var s := Begin(r, EMPTY_BLOCK, 0);
    s := NextF(0, s, EMPTY_BLOCK, r, 0, 0xa5202774);
    s := NextF(1, s, EMPTY_BLOCK, r, 0, 0xf59592dd);
    s := NextF(2, s, EMPTY_BLOCK, r, 0, 0xe7f06b23);
    s := NextF(3, s, EMPTY_BLOCK, r, 0, 0x1b163203);
  }

  lemma {:induction false} EmptyFrom4()
    ensures Steps(Regs(0xa5202774, 0x1b163203, 0xe7f06b23, 0xf59592dd), EMPTY_BLOCK, 4, 8)
         == Regs(0x32033344, 0x9bc13ce9, 0xf5b158db, 0x2f35d494)
  {
    hide Step, Steps, K, S, T;
    Table1();
    var r := Regs(0xa5202774, 0x1b163203, 0xe7f06b23, 0xf59592dd);
    var s := Begin(r, EMPTY_BLOCK, 4);
    s := NextF(4, s, EMPTY_BLOCK, r, 4, 0x32033344);
    s := NextF(5, s, EMPTY_BLOCK, r, 4, 0x2f35d494);
    s := NextF(6, s, EMPTY_BLOCK, r, 4, 0xf5b158db);
    s := NextF(7, s, EMPTY_BLOCK, r, 4, 0x9bc13ce9);
  }

  lemma {:induction false} EmptyFrom8()
    ensures Steps(Regs(0x32033344, 0x9bc13ce9, 0xf5b158db, 0x2f35d494), EMPTY_BLOCK, 8, 16)
         == Regs(0xf56c7cf1, 0xd6819c6a, 0x5aa53f75, 0x374943a7)
  {
    hide Step, Steps, K, S, T;
    Table2();
    var r := Regs(0x32033344, 0x9bc13ce9, 0xf5b158db, 0x2f35d494);
    var s := Begin(r, EMPTY_BLOCK, 8);
    s := NextF(8, s, EMPTY_BLOCK, r, 8, 0x3893b991);
    s := NextF(9, s, EMPTY_BLOCK, r, 8, 0xfce4a312);
    s := NextF(10, s, EMPTY_BLOCK, r, 8, 0xe1ef0576);
    s := NextF(11, s, EMPTY_BLOCK, r, 8, 0x70768a29);
    s := NextF(12, s, EMPTY_BLOCK, r, 8, 0xf56c7cf1);
    s := NextF(13, s, EMPTY_BLOCK, r, 8, 0x374943a7);
    s := NextF(14, s, EMPTY_BLOCK, r, 8, 0x5aa53f75);
    s := NextF(15, s, EMPTY_BLOCK, r, 8, 0xd6819c6a);
  }

  lemma {:induction false} EmptyFrom16()
    ensures Steps(Regs(0xf56c7cf1, 0xd6819c6a, 0x5aa53f75, 0x374943a7), EMPTY_BLOCK, 16, 24)
         == Regs(0x3d1e3e6c, 0xe422531a, 0xeb41643e, 0x68b7b3e3)
  {
    hide Step, Steps, K, S, T;
    Table3();
    var r := Regs(0xf56c7cf1, 0xd6819c6a, 0x5aa53f75, 0x374943a7);
    var s := Begin(r, EMPTY_BLOCK, 16);
    s := NextG(16, s, EMPTY_BLOCK, r, 16, 0x1c7d7513);
    s := NextG(17, s, EMPTY_BLOCK, r, 16, 0x7bd57a3a);
    s := NextG(18, s, EMPTY_BLOCK, r, 16, 0xc095f13a);
    s := NextG(19, s, EMPTY_BLOCK, r, 16, 0xbd782e17);
    s := NextG(20, s, EMPTY_BLOCK, r, 16, 0x3d1e3e6c);
    s := NextG(21, s, EMPTY_BLOCK, r, 16, 0x68b7b3e3);
    s := NextG(22, s, EMPTY_BLOCK, r, 16, 0xeb41643e);
    s := NextG(23, s, EMPTY_BLOCK, r, 16, 0xe422531a);
  }

  lemma {:induction false} EmptyFrom24()
    ensures Steps(Regs(0x3d1e3e6c, 0xe422531a, 0xeb41643e, 0x68b7b3e3), EMPTY_BLOCK, 24, 32)
         == Regs(0x13707036, 0xa2205f1f, 0x1c31c384, 0xae7813db)
  {
    hide Step, Steps, K, S, T;
    Table4();
    var r := Regs(0x3d1e3e6c, 0xe422531a, 0xeb41643e, 0x68b7b3e3);
    var s := Begin(r, EMPTY_BLOCK, 24);
    s := NextG(24, s, EMPTY_BLOCK, r, 24, 0x306ec122);
    s := NextG(25, s, EMPTY_BLOCK, r, 24, 0xd28c77c2);
    s := NextG(26, s, EMPTY_BLOCK, r, 24, 0xa3c663da);
    s := NextG(27, s, EMPTY_BLOCK, r, 24, 0xa0572807);
    s := NextG(28, s, EMPTY_BLOCK, r, 24, 0x13707036);
    s := NextG(29, s, EMPTY_BLOCK, r, 24, 0xae7813db);
    s := NextG(30, s, EMPTY_BLOCK, r, 24, 0x1c31c384);
    s := NextG(31, s, EMPTY_BLOCK, r, 24, 0xa2205f1f);
  }

  lemma {:induction false} EmptyFrom32()
    ensures Steps(Regs(0x13707036, 0xa2205f1f, 0x1c31c384, 0xae7813db), EMPTY_BLOCK, 32, 40)
         == Regs(0x5f7a9b2e, 0xc5dc8c15, 0x91ca4cb7, 0xabc34e16)
  {
    hide Step, Steps, K, S, T;
    Table5();
    var r := Regs(0x13707036, 0xa2205f1f, 0x1c31c384, 0xae7813db);
    var s := Begin(r, EMPTY_BLOCK, 32);
    s := NextH(32, s, EMPTY_BLOCK, r, 32, 0xdf63eaa1);
    s := NextH(33, s, EMPTY_BLOCK, r, 32, 0xc3689f5b);
    s := NextH(34, s, EMPTY_BLOCK, r, 32, 0x12f3e755);
    s := NextH(35, s, EMPTY_BLOCK, r, 32, 0x004b6669);
    s := NextH(36, s, EMPTY_BLOCK, r, 32, 0x5f7a9b2e);
    s := NextH(37, s, EMPTY_BLOCK, r, 32, 0xabc34e16);
    s := NextH(38, s, EMPTY_BLOCK, r, 32, 0x91ca4cb7);
    s := NextH(39, s, EMPTY_BLOCK, r, 32, 0xc5dc8c15);
  }

  lemma {:induction false} EmptyFrom40()
    ensures Steps(Regs(0x5f7a9b2e, 0xc5dc8c15, 0x91ca4cb7, 0xabc34e16), EMPTY_BLOCK, 40, 48)
         == Regs(0x3f55edfd, 0xca7d2dbd, 0x68d84ea2, 0x22a31f54)
  {
    hide Step, Steps, K, S, T;
    Table6();
    var r := Regs(0x5f7a9b2e, 0xc5dc8c15, 0x91ca4cb7, 0xabc34e16);
    var s := Begin(r, EMPTY_BLOCK, 40);
    s := NextH(40, s, EMPTY_BLOCK, r, 40, 0x4497169d);
    s := NextH(41, s, EMPTY_BLOCK, r, 40, 0x76fd93d4);
    s := NextH(42, s, EMPTY_BLOCK, r, 40, 0xfd95f243);
    s := NextH(43, s, EMPTY_BLOCK, r, 40, 0x0fe32453);
    s := NextH(44, s, EMPTY_BLOCK, r, 40, 0x3f55edfd);
    s := NextH(45, s, EMPTY_BLOCK, r, 40, 0x22a31f54);
    s := NextH(46, s, EMPTY_BLOCK, r, 40, 0x68d84ea2);
    s := NextH(47, s, EMPTY_BLOCK, r, 40, 0xca7d2dbd);
  }

  lemma {:induction false} EmptyFrom48()
    ensures Steps(Regs(0x3f55edfd, 0xca7d2dbd, 0x68d84ea2, 0x22a31f54), EMPTY_BLOCK, 48, 56)
         == Regs(0x5625a114, 0x1e77fa61, 0x392ad0d0, 0x3450f42b)
  {
    hide Step, Steps, K, S, T;
    Table7();
    var r := Regs(0x3f55edfd, 0xca7d2dbd, 0x68d84ea2, 0x22a31f54);
    var s := Begin(r, EMPTY_BLOCK, 48);
    s := NextI(48, s, EMPTY_BLOCK, r, 48, 0x93aa2577);
    s := NextI(49, s, EMPTY_BLOCK, r, 48, 0x1688dc85);
    s := NextI(50, s, EMPTY_BLOCK, r, 48, 0xcd85b8cb);
    s := NextI(51, s, EMPTY_BLOCK, r, 48, 0x561e0689);
    s := NextI(52, s, EMPTY_BLOCK, r, 48, 0x5625a114);
    s := NextI(53, s, EMPTY_BLOCK, r, 48, 0x3450f42b);
    s := NextI(54, s, EMPTY_BLOCK, r, 48, 0x392ad0d0);
    s := NextI(55, s, EMPTY_BLOCK, r, 48, 0x1e77fa61);
  }

  lemma {:induction false} EmptyFrom56()
    ensures Steps(Regs(0x5625a114, 0x1e77fa61, 0x392ad0d0, 0x3450f42b), EMPTY_BLOCK, 56, 64)
         == Regs(0x7246fad3, 0x14e45506, 0xff4ea3eb, 0x6e10a476)
  {
    hide Step, Steps, K, S, T;
    Table8();
    var r := Regs(0x5625a114, 0x1e77fa61, 0x392ad0d0, 0x3450f42b);
    var s := Begin(r, EMPTY_BLOCK, 56);
    s := NextI(56, s, EMPTY_BLOCK, r, 56, 0x474a9c8c);
    s := NextI(57, s, EMPTY_BLOCK, r, 56, 0xdfce00bc);
    s := NextI(58, s, EMPTY_BLOCK, r, 56, 0x36594b14);
    s := NextI(59, s, EMPTY_BLOCK, r, 56, 0x30130182);
    s := NextI(60, s, EMPTY_BLOCK, r, 56, 0x7246fad3);
    s := NextI(61, s, EMPTY_BLOCK, r, 56, 0x6e10a476);
    s := NextI(62, s, EMPTY_BLOCK, r, 56, 0xff4ea3eb);
    s := NextI(63, s, EMPTY_BLOCK, r, 56, 0x14e45506);
  }

  // MD5 ("") in section A.5.
  lemma DigestOfNothing()
    ensures Digest([]) ==
            [0xd4, 0x1d, 0x8c, 0xd9, 0x8f, 0x00, 0xb2, 0x04,
             0xe9, 0x80, 0x09, 0x98, 0xec, 0xf8, 0x42, 0x7e]
  {
    hide Steps, WordAt;
    var p := Padded([]);
    EmptyWords();
    assert Words(p) == EMPTY_BLOCK;
    EmptyFrom0();
    EmptyFrom4();
    EmptyFrom8();
    EmptyFrom16();
    EmptyFrom24();
    EmptyFrom32();
    EmptyFrom40();
    EmptyFrom48();
    EmptyFrom56();
    StepsCompose(IV, EMPTY_BLOCK, 0, 4, 8);
    StepsCompose(IV, EMPTY_BLOCK, 0, 8, 16);
    StepsCompose(IV, EMPTY_BLOCK, 0, 16, 24);
    StepsCompose(IV, EMPTY_BLOCK, 0, 24, 32);
    StepsCompose(IV, EMPTY_BLOCK, 0, 32, 40);
    StepsCompose(IV, EMPTY_BLOCK, 0, 40, 48);
    StepsCompose(IV, EMPTY_BLOCK, 0, 48, 56);
    StepsCompose(IV, EMPTY_BLOCK, 0, 56, 64);
    OneBlock(p);
    EmptyOutput();
  }

  lemma EmptyOutput()
    ensures Output(Sum(IV, Regs(0x7246fad3, 0x14e45506, 0xff4ea3eb, 0x6e10a476))) ==
            [0xd4, 0x1d, 0x8c, 0xd9, 0x8f, 0x00, 0xb2, 0x04,
             0xe9, 0x80, 0x09, 0x98, 0xec, 0xf8, 0x42, 0x7e]
  {
    assert Sum(IV, Regs(0x7246fad3, 0x14e45506, 0xff4ea3eb, 0x6e10a476)) == Regs(0xd98c1dd4, 0x04b2008f, 0x980980e9, 0x7e42f8ec);
  }

  lemma EmptyWords()
    ensures |Padded([])| == 64
    ensures forall j :: 0 <= j < 16 ==> WordAt(Padded([]), j) == EMPTY_BLOCK[j]
  {
    var p := Padded([]);
    assert p[0] == 0x80 && p[1] == 0x00 && p[2] == 0x00 && p[3] == 0x00;
    assert p[56] == 0x00 && forall k :: 4 <= k < 64 && k != 56 ==> p[k] == 0;
  }

  // The block of the message abc.
  const ABC_BLOCK: seq<Word> := [0x80636261, 0x0, 0x0, 0x0, 0x0, 0x0, 0x0, 0x0, 0x0, 0x0, 0x0, 0x0, 0x0, 0x0, 0x18, 0x0]

  lemma {:induction false} AbcFrom0()
    ensures Steps(Regs(0x67452301, 0xefcdab89, 0x98badcfe, 0x10325476), ABC_BLOCK, 0, 4)
         == Regs(0xd6d117b4, 0x7ad956f2, 0x2f6fbd72, 0x344a8432)
  {
    hide Step, Steps, K, S, T;
    Table1();
    var r := Regs(0x67452301, 0xefcdab89, 0x98badcfe, 0x10325476);
    var s := Begin(r, ABC_BLOCK, 0);
    s := NextF(0, s, ABC_BLOCK, r, 0, 0xd6d117b4);
    s := NextF(1, s, ABC_BLOCK, r, 0, 0x344a8432);
    s := NextF(2, s, ABC_BLOCK, r, 0, 0x2f6fbd72);
    s := NextF(3, s, ABC_BLOCK, r, 0, 0x7ad956f2);
  }

  lemma {:induction false} AbcFrom4()
    ensures Steps(Regs(0xd6d117b4, 0x7ad956f2, 0x2f6fbd72, 0x344a8432), ABC_BLOCK, 4, 8)
         == Regs(0xc73741ef, 0x928d99f6, 0x207dc67b, 0x8bac3051)
  {
    hide Step, Steps, K, S, T;
    Table1();
    var r := Regs(0xd6d117b4, 0x7ad956f2, 0x2f6fbd72, 0x344a8432);
    var s := Begin(r, ABC_BLOCK, 4);
    s := NextF(4, s, ABC_BLOCK, r, 4, 0xc73741ef);
    s := NextF(5, s, ABC_BLOCK, r, 4, 0x8bac3051);
    s := NextF(6, s, ABC_BLOCK, r, 4, 0x207dc67b);
    s := NextF(7, s, ABC_BLOCK, r, 4, 0x928d99f6);
  }

  lemma {:induction false} AbcFrom8()
    ensures Steps(Regs(0xc73741ef, 0x928d99f6, 0x207dc67b, 0x8bac3051), ABC_BLOCK, 8, 16)
         == Regs(0xdda9b9a6, 0x72aff2e0, 0xe396856b, 0xa1051895)
  {
    hide Step, Steps, K, S, T;
    Table2();
    var r := Regs(0xc73741ef, 0x928d99f6, 0x207dc67b, 0x8bac3051);
    var s := Begin(r, ABC_BLOCK, 8);
    s := NextF(8, s, ABC_BLOCK, r, 8, 0x854b3712);
    s := NextF(9, s, ABC_BLOCK, r, 8, 0x74e2f284);
    s := NextF(10, s, ABC_BLOCK, r, 8, 0x3020401c);
    s := NextF(11, s, ABC_BLOCK, r, 8, 0x5ed49596);
    s := NextF(12, s, ABC_BLOCK, r, 8, 0xdda9b9a6);
    s := NextF(13, s, ABC_BLOCK, r, 8, 0xa1051895);
    s := NextF(14, s, ABC_BLOCK, r, 8, 0xe396856b);
    s := NextF(15, s, ABC_BLOCK, r, 8, 0x72aff2e0);
  }

  lemma {:induction false} AbcFrom16()
    ensures Steps(Regs(0xdda9b9a6, 0x72aff2e0, 0xe396856b, 0xa1051895), ABC_BLOCK, 16, 24)
         == Regs(0x59a8ffda, 0x47092c07, 0xabfc7920, 0x6d002f1e)
  {
    hide Step, Steps, K, S, T;
    Table3();
    var r := Regs(0xdda9b9a6, 0x72aff2e0, 0xe396856b, 0xa1051895);
    var s := Begin(r, ABC_BLOCK, 16);
    s := NextG(16, s, ABC_BLOCK, r, 16, 0x3e9e9126);
    s := NextG(17, s, ABC_BLOCK, r, 16, 0x4a1d804e);
    s := NextG(18, s, ABC_BLOCK, r, 16, 0xe25e1652);
    s := NextG(19, s, ABC_BLOCK, r, 16, 0xb5b204e4);
    s := NextG(20, s, ABC_BLOCK, r, 16, 0x59a8ffda);
    s := NextG(21, s, ABC_BLOCK, r, 16, 0x6d002f1e);
    s := NextG(22, s, ABC_BLOCK, r, 16, 0xabfc7920);
    s := NextG(23, s, ABC_BLOCK, r, 16, 0x47092c07);
  }

  lemma {:induction false} AbcFrom24()
    ensures Steps(Regs(0x59a8ffda, 0x47092c07, 0xabfc7920, 0x6d002f1e), ABC_BLOCK, 24, 32)
         == Regs(0x790a77fb, 0x726342d3, 0xa62884aa, 0x9f47e4f8)
  {
    hide Step, Steps, K, S, T;
    Table4();
    var r := Regs(0x59a8ffda, 0x47092c07, 0xabfc7920, 0x6d002f1e);
    var s := Begin(r, ABC_BLOCK, 24);
    s := NextG(24, s, ABC_BLOCK, r, 24, 0xb7f268cf);
    s := NextG(25, s, ABC_BLOCK, r, 24, 0x09388eff);
    s := NextG(26, s, ABC_BLOCK, r, 24, 0xfe1623b1);
    s := NextG(27, s, ABC_BLOCK, r, 24, 0x786acb8f);
    s := NextG(28, s, ABC_BLOCK, r, 24, 0x790a77fb);
    s := NextG(29, s, ABC_BLOCK, r, 24, 0x9f47e4f8);
    s := NextG(30, s, ABC_BLOCK, r, 24, 0xa62884aa);
    s := NextG(31, s, ABC_BLOCK, r, 24, 0x726342d3);
  }

  lemma {:induction false} AbcFrom32()
    ensures Steps(Regs(0x790a77fb, 0x726342d3, 0xa62884aa, 0x9f47e4f8), ABC_BLOCK, 32, 40)
         == Regs(0x21b117b9, 0x5a2f5ea5, 0x3575227e, 0x6e7429d5)
  {
    hide Step, Steps, K, S, T;
    Table5();
    var r := Regs(0x790a77fb, 0x726342d3, 0xa62884aa, 0x9f47e4f8);
    var s := Begin(r, ABC_BLOCK, 32);
    s := NextH(32, s, ABC_BLOCK, r, 32, 0xb3707ebf);
    s := NextH(33, s, ABC_BLOCK, r, 32, 0x60127b2e);
    s := NextH(34, s, ABC_BLOCK, r, 32, 0x8d212ff5);
    s := NextH(35, s, ABC_BLOCK, r, 32, 0x3b0875c7);
    s := NextH(36, s, ABC_BLOCK, r, 32, 0x21b117b9);
    s := NextH(37, s, ABC_BLOCK, r, 32, 0x6e7429d5);
    s := NextH(38, s, ABC_BLOCK, r, 32, 0x3575227e);
    s := NextH(39, s, ABC_BLOCK, r, 32, 0x5a2f5ea5);
  }

  lemma {:induction false} AbcFrom40()
    ensures Steps(Regs(0x21b117b9, 0x5a2f5ea5, 0x3575227e, 0x6e7429d5), ABC_BLOCK, 40, 48)
         == Regs(0x7f2e507b, 0x7beb9700, 0x8fae6399, 0x99d9679d)
  {
    hide Step, Steps, K, S, T;
    Table6();
    var r := Regs(0x21b117b9, 0x5a2f5ea5, 0x3575227e, 0x6e7429d5);
    var s := Begin(r, ABC_BLOCK, 40);
    s := NextH(40, s, ABC_BLOCK, r, 40, 0x11de1779);
    s := NextH(41, s, ABC_BLOCK, r, 40, 0xfadcaa38);
    s := NextH(42, s, ABC_BLOCK, r, 40, 0x31c465ca);
    s := NextH(43, s, ABC_BLOCK, r, 40, 0x4c6124f4);
    s := NextH(44, s, ABC_BLOCK, r, 40, 0x7f2e507b);
    s := NextH(45, s, ABC_BLOCK, r, 40, 0x99d9679d);
    s := NextH(46, s, ABC_BLOCK, r, 40, 0x8fae6399);
    s := NextH(47, s, ABC_BLOCK, r, 40, 0x7beb9700);
  }

  lemma {:induction false} AbcFrom48()
    ensures Steps(Regs(0x7f2e507b, 0x7beb9700, 0x8fae6399, 0x99d9679d), ABC_BLOCK, 48, 56)
         == Regs(0x06cc5e8a, 0x3bfa2c27, 0x7d632dd0, 0x5b0d97aa)
  {
    hide Step, Steps, K, S, T;
    Table7();
    var r := Regs(0x7f2e507b, 0x7beb9700, 0x8fae6399, 0x99d9679d);
    var s := Begin(r, ABC_BLOCK, 48);
    s := NextI(48, s, ABC_BLOCK, r, 48, 0x7b201df8);
    s := NextI(49, s, ABC_BLOCK, r, 48, 0xf4e8e96e);
    s := NextI(50, s, ABC_BLOCK, r, 48, 0xb298cefd);
    s := NextI(51, s, ABC_BLOCK, r, 48, 0x8bf025c4);
    s := NextI(52, s, ABC_BLOCK, r, 48, 0x06cc5e8a);
    s := NextI(53, s, ABC_BLOCK, r, 48, 0x5b0d97aa);
    s := NextI(54, s, ABC_BLOCK, r, 48, 0x7d632dd0);
    s := NextI(55, s, ABC_BLOCK, r, 48, 0x3bfa2c27);
  }

  lemma {:induction false} AbcFrom56()
    ensures Steps(Regs(0x06cc5e8a, 0x3bfa2c27, 0x7d632dd0, 0x5b0d97aa), ABC_BLOCK, 56, 64)
         == Regs(0x310ade8f, 0xc08226b3, 0xe484b9d8, 0x624d8cb2)
  {
    hide Step, Steps, K, S, T;
    Table8();
    var r := Regs(0x06cc5e8a, 0x3bfa2c27, 0x7d632dd0, 0x5b0d97aa);
    var s := Begin(r, ABC_BLOCK, 56);
    s := NextI(56, s, ABC_BLOCK, r, 56, 0x7f81cc35);
    s := NextI(57, s, ABC_BLOCK, r, 56, 0x094454ab);
    s := NextI(58, s, ABC_BLOCK, r, 56, 0x4f9dbe3f);
    s := NextI(59, s, ABC_BLOCK, r, 56, 0x7327d604);
    s := NextI(60, s, ABC_BLOCK, r, 56, 0x310ade8f);
    s := NextI(61, s, ABC_BLOCK, r, 56, 0x624d8cb2);
    s := NextI(62, s, ABC_BLOCK, r, 56, 0xe484b9d8);
    s := NextI(63, s, ABC_BLOCK, r, 56, 0xc08226b3);
  }

  // MD5 ("abc") in section A.5.
  lemma DigestOfAbc()
    ensures Digest([0x61, 0x62, 0x63]) ==
            [0x90, 0x01, 0x50, 0x98, 0x3c, 0xd2, 0x4f, 0xb0,
             0xd6, 0x96, 0x3f, 0x7d, 0x28, 0xe1, 0x7f, 0x72]
  {
    hide Steps, WordAt;
    var p := Padded([0x61, 0x62, 0x63]);
    AbcWords();
    assert Words(p) == ABC_BLOCK;
    AbcFrom0();
    AbcFrom4();
    AbcFrom8();
    AbcFrom16();
    AbcFrom24();
    AbcFrom32();
    AbcFrom40();
    AbcFrom48();
    AbcFrom56();
    StepsCompose(IV, ABC_BLOCK, 0, 4, 8);
    StepsCompose(IV, ABC_BLOCK, 0, 8, 16);
    StepsCompose(IV, ABC_BLOCK, 0, 16, 24);
    StepsCompose(IV, ABC_BLOCK, 0, 24, 32);
    StepsCompose(IV, ABC_BLOCK, 0, 32, 40);
    StepsCompose(IV, ABC_BLOCK, 0, 40, 48);
    StepsCompose(IV, ABC_BLOCK, 0, 48, 56);
    StepsCompose(IV, ABC_BLOCK, 0, 56, 64);
    OneBlock(p);
    AbcOutput();
  }

  lemma AbcOutput()
    ensures Output(Sum(IV, Regs(0x310ade8f, 0xc08226b3, 0xe484b9d8, 0x624d8cb2))) ==
            [0x90, 0x01, 0x50, 0x98, 0x3c, 0xd2, 0x4f, 0xb0,
             0xd6, 0x96, 0x3f, 0x7d, 0x28, 0xe1, 0x7f, 0x72]
  {
    assert Sum(IV, Regs(0x310ade8f, 0xc08226b3, 0xe484b9d8, 0x624d8cb2)) == Regs(0x98500190, 0xb04fd23c, 0x7d3f96d6, 0x727fe128);
  }

  lemma AbcWords()
    ensures |Padded([0x61, 0x62, 0x63])| == 64
    ensures forall j :: 0 <= j < 16 ==> WordAt(Padded([0x61, 0x62, 0x63]), j) == ABC_BLOCK[j]
  {
    var p := Padded([0x61, 0x62, 0x63]);
    assert p[0] == 0x61 && p[1] == 0x62 && p[2] == 0x63 && p[3] == 0x80;
    assert p[56] == 0x18 && forall k :: 4 <= k < 64 && k != 56 ==> p[k] == 0;
  }

}
