/**
 MD5 (src/uct_md5.c) against RFC 1321.

 The first part is the definition of sections 3.1 to 3.4 of RFC 1321: padding, the
 appended length, and the 64 tabulated steps on each block of 16 words.  The second
 part is the streaming code: a buffer of 64 bytes, a bit count in two 32-bit words,
 and four unrolled rounds.  MessageDigest shows that any way of cutting a message
 into pieces gives the digest of the definition.
 */
module Md5 {

  type Byte = bv8
  type Word = bv32

  const W32: nat := 0x1_0000_0000

  datatype Regs = Regs(a: Word, b: Word, c: Word, d: Word)

  // ----- RFC 1321 -----

  function F(x: Word, y: Word, z: Word): Word { (x & y) | (!x & z) }

  function G(x: Word, y: Word, z: Word): Word { (x & z) | (y & !z) }

  function H(x: Word, y: Word, z: Word): Word { x ^ y ^ z }

  function I(x: Word, y: Word, z: Word): Word { y ^ (x | !z) }

  function Rotl(x: Word, n: nat): Word
    requires n <= 32
  {
    (x << n) | (x >> (32 - n))
  }

  function T1(i: nat): Word {
    match i
    case 0 => 0xd76aa478
    case 1 => 0xe8c7b756
    case 2 => 0x242070db
    case 3 => 0xc1bdceee
    case 4 => 0xf57c0faf
    case 5 => 0x4787c62a
    case 6 => 0xa8304613
    case 7 => 0xfd469501
    case 8 => 0x698098d8
    case 9 => 0x8b44f7af
    case 10 => 0xffff5bb1
    case 11 => 0x895cd7be
    case 12 => 0x6b901122
    case 13 => 0xfd987193
    case 14 => 0xa679438e
    case _ => 0x49b40821
  }

  function T2(i: nat): Word {
    match i
    case 0 => 0xf61e2562
    case 1 => 0xc040b340
    case 2 => 0x265e5a51
    case 3 => 0xe9b6c7aa
    case 4 => 0xd62f105d
    case 5 => 0x02441453
    case 6 => 0xd8a1e681
    case 7 => 0xe7d3fbc8
    case 8 => 0x21e1cde6
    case 9 => 0xc33707d6
    case 10 => 0xf4d50d87
    case 11 => 0x455a14ed
    case 12 => 0xa9e3e905
    case 13 => 0xfcefa3f8
    case 14 => 0x676f02d9
    case _ => 0x8d2a4c8a
  }

  function T3(i: nat): Word {
    match i
    case 0 => 0xfffa3942
    case 1 => 0x8771f681
    case 2 => 0x6d9d6122
    case 3 => 0xfde5380c
    case 4 => 0xa4beea44
    case 5 => 0x4bdecfa9
    case 6 => 0xf6bb4b60
    case 7 => 0xbebfbc70
    case 8 => 0x289b7ec6
    case 9 => 0xeaa127fa
    case 10 => 0xd4ef3085
    case 11 => 0x04881d05
    case 12 => 0xd9d4d039
    case 13 => 0xe6db99e5
    case 14 => 0x1fa27cf8
    case _ => 0xc4ac5665
  }

  function T4(i: nat): Word {
    match i
    case 0 => 0xf4292244
    case 1 => 0x432aff97
    case 2 => 0xab9423a7
    case 3 => 0xfc93a039
    case 4 => 0x655b59c3
    case 5 => 0x8f0ccc92
    case 6 => 0xffeff47d
    case 7 => 0x85845dd1
    case 8 => 0x6fa87e4f
    case 9 => 0xfe2ce6e0
    case 10 => 0xa3014314
    case 11 => 0x4e0811a1
    case 12 => 0xf7537e82
    case 13 => 0xbd3af235
    case 14 => 0x2ad7d2bb
    case _ => 0xeb86d391
  }

  // T[i+1] of section 3.4: the integer part of 4294967296 times abs(sin(i+1)).
  function T(i: nat): Word
    requires i < 64
  {
    if i < 16 then T1(i) else if i < 32 then T2(i - 16) else if i < 48 then T3(i - 32) else T4(i - 48)
  }

  // The word that step i reads.
  function K(i: nat): (k: nat)
    requires i < 64
    ensures k < 16
  {
    if i < 16 then i else if i < 32 then (5 * i + 1) % 16 else if i < 48 then (3 * i + 5) % 16 else 7 * i % 16
  }

  // The rotation of step i.
  function S(i: nat): (n: nat)
    requires i < 64
    ensures n <= 32
  {
    if i < 16 then [7, 12, 17, 22][i % 4]
    else if i < 32 then [5, 9, 14, 20][i % 4]
    else if i < 48 then [4, 11, 16, 23][i % 4]
    else [6, 10, 15, 21][i % 4]
  }

  function Mix(i: nat, x: Word, y: Word, z: Word): Word {
    if i < 16 then F(x, y, z) else if i < 32 then G(x, y, z) else if i < 48 then H(x, y, z) else I(x, y, z)
  }

  // b + ((a + f(b,c,d) + X[k] + T[i]) <<< s)
  function Operation(f: Word, a: Word, b: Word, xk: Word, s: nat, ti: Word): Word
    requires s <= 32
  {
    b + Rotl(a + f + xk + ti, s)
  }

  function Step(i: nat, r: Regs, x: seq<Word>): Regs
    requires i < 64 && |x| == 16
  {
    Regs(r.d, Operation(Mix(i, r.b, r.c, r.d), r.a, r.b, x[K(i)], S(i), T(i)), r.b, r.c)
  }

  function Steps(r: Regs, x: seq<Word>, from: nat, to: nat): Regs
    requires from <= to <= 64 && |x| == 16
  {
    if from == to then r else Step(to - 1, Steps(r, x, from, to - 1), x)
  }

  function Sum(r: Regs, s: Regs): Regs {
    Regs(r.a + s.a, r.b + s.b, r.c + s.c, r.d + s.d)
  }

  // Four bytes as a word, low-order byte first.
  function WordAt(block: seq<Byte>, j: nat): Word
    requires 4 * j + 4 <= |block|
  {
    (block[4*j] as Word) + ((block[4*j+1] as Word) << 8) + ((block[4*j+2] as Word) << 16) + ((block[4*j+3] as Word) << 24)
  }

  function Words(block: seq<Byte>): (x: seq<Word>)
    requires |block| == 64
    ensures |x| == 16
  {
    seq(16, j requires 0 <= j < 16 => WordAt(block, j))
  }

  function Compress(r: Regs, block: seq<Byte>): Regs
    requires |block| == 64
  {
    Sum(r, Steps(r, Words(block), 0, 64))
  }

  const IV: Regs := Regs(0x67452301, 0xefcdab89, 0x98badcfe, 0x10325476)

  function Chain(s: seq<Byte>): Regs
    requires |s| % 64 == 0
  {
    if s == [] then IV else Compress(Chain(s[..|s|-64]), s[|s|-64..])
  }

  function Zeros(n: nat): seq<Byte> {
    seq(n, _ => 0)
  }

  // The k-th digit of n in base 256.
  function Digit256(n: nat, k: nat): (d: nat)
    ensures d < 256
  {
    match k
    case 0 => n % 256
    case 1 => n / 0x100 % 256
    case 2 => n / 0x1_0000 % 256
    case 3 => n / 0x100_0000 % 256
    case 4 => n / 0x1_0000_0000 % 256
    case 5 => n / 0x100_0000_0000 % 256
    case 6 => n / 0x1_0000_0000_0000 % 256
    case _ => n / 0x100_0000_0000_0000 % 256
  }

  function ByteOf(n: nat, k: nat): Byte {
    Digit256(n, k) as Byte
  }

  // The low-order 64 bits of n, low-order byte first.
  function Length64(n: nat): seq<Byte> {
    seq(8, k requires 0 <= k < 8 => ByteOf(n, k))
  }

  function PadTail(n: nat): (p: seq<Byte>)
    ensures (n + |p|) % 64 == 56 && 1 <= |p| <= 64
  {
    [0x80] + Zeros((55 - n) % 64)
  }

  // Sections 3.1 and 3.2.
  function Padded(m: seq<Byte>): (p: seq<Byte>)
    ensures |p| % 64 == 0
  {
    m + PadTail(|m|) + Length64(8 * |m|)
  }

  function WordBytes(w: Word): seq<Byte> {
    [(w & 0xff) as Byte, ((w >> 8) & 0xff) as Byte, ((w >> 16) & 0xff) as Byte, ((w >> 24) & 0xff) as Byte]
  }

  // Section 3.5.
  function Output(r: Regs): seq<Byte> {
    WordBytes(r.a) + WordBytes(r.b) + WordBytes(r.c) + WordBytes(r.d)
  }

  /** The MD5 digest of a message. */
  function Digest(m: seq<Byte>): seq<Byte> {
    Output(Chain(Padded(m)))
  }

  // ----- the code -----

  const T_MASK: Word := 0xffff_ffff

  // The SET macro of each round: the new value of register a.
  function Set(f: Word, a: Word, b: Word, xk: Word, s: nat, ti: Word): Word
    requires s <= 32
  {
    Rotl(a + f + xk + ti, s) + b
  }

  lemma Begin(r: Regs, x: seq<Word>, from: nat) returns (s: Regs)
    requires from < 64 && |x| == 16
    ensures s == r == Steps(r, x, from, from)
  {
    s := r;
  }

  // One step of the definition, in the order of operations of the SET macro.
  lemma Follow(i: nat, s: Regs, x: seq<Word>, r: Regs, from: nat) returns (next: Regs)
    requires from <= i < 64 && |x| == 16 && s == Steps(r, x, from, i)
    ensures next == Steps(r, x, from, i + 1)
    ensures next == Regs(s.d, Set(Mix(i, s.b, s.c, s.d), s.a, s.b, x[K(i)], S(i), T(i)), s.b, s.c)
  {
    hide Operation, Set, Mix, K, T, S;
    next := Step(i, s, x);
    SetIsOperation(Mix(i, s.b, s.c, s.d), s.a, s.b, x[K(i)], S(i), T(i));
  }

  lemma SetIsOperation(f: Word, a: Word, b: Word, xk: Word, s: nat, ti: Word)
    requires s <= 32
    ensures Set(f, a, b, xk, s, ti) == Operation(f, a, b, xk, s, ti)
  {
    hide Rotl;
    SumsCommute(b, Rotl(a + f + xk + ti, s));
  }

  lemma SumsCommute(x: Word, y: Word)
    ensures x + y == y + x
  {
  }

  // Round 1 of md5_process, step by step, in four parts.
  method Round1From0(r: Regs, x: seq<Word>) returns (out: Regs)
    requires |x| == 16
    ensures out == Steps(r, x, 0, 4)
  {
    hide Set, Step, Steps, F, G, H, I;
    var a, b, c, d := r.a, r.b, r.c, r.d;
    ghost var s := Begin(r, x, 0);
    a := Set(F(b, c, d), a, b, x[0], 7, T_MASK ^ 0x28955b87);
    s := Follow(0, s, x, r, 0); assert s == Regs(d, a, b, c);
    d := Set(F(a, b, c), d, a, x[1], 12, T_MASK ^ 0x173848a9);
    s := Follow(1, s, x, r, 0); assert s == Regs(c, d, a, b);
    c := Set(F(d, a, b), c, d, x[2], 17, 0x242070db);
    s := Follow(2, s, x, r, 0); assert s == Regs(b, c, d, a);
    b := Set(F(c, d, a), b, c, x[3], 22, T_MASK ^ 0x3e423111);
    s := Follow(3, s, x, r, 0); assert s == Regs(a, b, c, d);
    out := Regs(a, b, c, d);
  }

  method Round1From4(r: Regs, x: seq<Word>) returns (out: Regs)
    requires |x| == 16
    ensures out == Steps(r, x, 4, 8)
  {
    hide Set, Step, Steps, F, G, H, I;
    var a, b, c, d := r.a, r.b, r.c, r.d;
    ghost var s := Begin(r, x, 4);
    a := Set(F(b, c, d), a, b, x[4], 7, T_MASK ^ 0x0a83f050);
    s := Follow(4, s, x, r, 4); assert s == Regs(d, a, b, c);
    d := Set(F(a, b, c), d, a, x[5], 12, 0x4787c62a);
    s := Follow(5, s, x, r, 4); assert s == Regs(c, d, a, b);
    c := Set(F(d, a, b), c, d, x[6], 17, T_MASK ^ 0x57cfb9ec);
    s := Follow(6, s, x, r, 4); assert s == Regs(b, c, d, a);
    b := Set(F(c, d, a), b, c, x[7], 22, T_MASK ^ 0x02b96afe);
    s := Follow(7, s, x, r, 4); assert s == Regs(a, b, c, d);
    out := Regs(a, b, c, d);
  }

  method Round1From8(r: Regs, x: seq<Word>) returns (out: Regs)
    requires |x| == 16
    ensures out == Steps(r, x, 8, 12)
  {
    hide Set, Step, Steps, F, G, H, I;
    var a, b, c, d := r.a, r.b, r.c, r.d;
    ghost var s := Begin(r, x, 8);
    a := Set(F(b, c, d), a, b, x[8], 7, 0x698098d8);
    s := Follow(8, s, x, r, 8); assert s == Regs(d, a, b, c);
    d := Set(F(a, b, c), d, a, x[9], 12, T_MASK ^ 0x74bb0850);
    s := Follow(9, s, x, r, 8); assert s == Regs(c, d, a, b);
    c := Set(F(d, a, b), c, d, x[10], 17, T_MASK ^ 0x0000a44e);
    s := Follow(10, s, x, r, 8); assert s == Regs(b, c, d, a);
    b := Set(F(c, d, a), b, c, x[11], 22, T_MASK ^ 0x76a32841);
    s := Follow(11, s, x, r, 8); assert s == Regs(a, b, c, d);
    out := Regs(a, b, c, d);
  }

  method Round1From12(r: Regs, x: seq<Word>) returns (out: Regs)
    requires |x| == 16
    ensures out == Steps(r, x, 12, 16)
  {
    hide Set, Step, Steps, F, G, H, I;
    var a, b, c, d := r.a, r.b, r.c, r.d;
    ghost var s := Begin(r, x, 12);
    a := Set(F(b, c, d), a, b, x[12], 7, 0x6b901122);
    s := Follow(12, s, x, r, 12); assert s == Regs(d, a, b, c);
    d := Set(F(a, b, c), d, a, x[13], 12, T_MASK ^ 0x02678e6c);
    s := Follow(13, s, x, r, 12); assert s == Regs(c, d, a, b);
    c := Set(F(d, a, b), c, d, x[14], 17, T_MASK ^ 0x5986bc71);
    s := Follow(14, s, x, r, 12); assert s == Regs(b, c, d, a);
    b := Set(F(c, d, a), b, c, x[15], 22, 0x49b40821);
    s := Follow(15, s, x, r, 12); assert s == Regs(a, b, c, d);
    out := Regs(a, b, c, d);
  }

  method Round1(r: Regs, x: seq<Word>) returns (out: Regs)
    requires |x| == 16
    ensures out == Steps(r, x, 0, 16)
  {
    hide Steps;
    out := Round1From0(r, x);
    out := Round1From4(out, x);
    out := Round1From8(out, x);
    out := Round1From12(out, x);
    StepsCompose(r, x, 0, 4, 8);
    StepsCompose(r, x, 0, 8, 12);
    StepsCompose(r, x, 0, 12, 16);
  }

  // Round 2 of md5_process, step by step, in four parts.
  method Round2From16(r: Regs, x: seq<Word>) returns (out: Regs)
    requires |x| == 16
    ensures out == Steps(r, x, 16, 20)
  {
    hide Set, Step, Steps, F, G, H, I;
    var a, b, c, d := r.a, r.b, r.c, r.d;
    ghost var s := Begin(r, x, 16);
    a := Set(G(b, c, d), a, b, x[1], 5, T_MASK ^ 0x09e1da9d);
    s := Follow(16, s, x, r, 16); assert s == Regs(d, a, b, c);
    d := Set(G(a, b, c), d, a, x[6], 9, T_MASK ^ 0x3fbf4cbf);
    s := Follow(17, s, x, r, 16); assert s == Regs(c, d, a, b);
    c := Set(G(d, a, b), c, d, x[11], 14, 0x265e5a51);
    s := Follow(18, s, x, r, 16); assert s == Regs(b, c, d, a);
    b := Set(G(c, d, a), b, c, x[0], 20, T_MASK ^ 0x16493855);
    s := Follow(19, s, x, r, 16); assert s == Regs(a, b, c, d);
    out := Regs(a, b, c, d);
  }

  method Round2From20(r: Regs, x: seq<Word>) returns (out: Regs)
    requires |x| == 16
    ensures out == Steps(r, x, 20, 24)
  {
    hide Set, Step, Steps, F, G, H, I;
    var a, b, c, d := r.a, r.b, r.c, r.d;
    ghost var s := Begin(r, x, 20);
    a := Set(G(b, c, d), a, b, x[5], 5, T_MASK ^ 0x29d0efa2);
    s := Follow(20, s, x, r, 20); assert s == Regs(d, a, b, c);
    d := Set(G(a, b, c), d, a, x[10], 9, 0x02441453);
    s := Follow(21, s, x, r, 20); assert s == Regs(c, d, a, b);
    c := Set(G(d, a, b), c, d, x[15], 14, T_MASK ^ 0x275e197e);
    s := Follow(22, s, x, r, 20); assert s == Regs(b, c, d, a);
    b := Set(G(c, d, a), b, c, x[4], 20, T_MASK ^ 0x182c0437);
    s := Follow(23, s, x, r, 20); assert s == Regs(a, b, c, d);
    out := Regs(a, b, c, d);
  }

  method Round2From24(r: Regs, x: seq<Word>) returns (out: Regs)
    requires |x| == 16
    ensures out == Steps(r, x, 24, 28)
  {
    hide Set, Step, Steps, F, G, H, I;
    var a, b, c, d := r.a, r.b, r.c, r.d;
    ghost var s := Begin(r, x, 24);
    a := Set(G(b, c, d), a, b, x[9], 5, 0x21e1cde6);
    s := Follow(24, s, x, r, 24); assert s == Regs(d, a, b, c);
    d := Set(G(a, b, c), d, a, x[14], 9, T_MASK ^ 0x3cc8f829);
    s := Follow(25, s, x, r, 24); assert s == Regs(c, d, a, b);
    c := Set(G(d, a, b), c, d, x[3], 14, T_MASK ^ 0x0b2af278);
    s := Follow(26, s, x, r, 24); assert s == Regs(b, c, d, a);
    b := Set(G(c, d, a), b, c, x[8], 20, 0x455a14ed);
    s := Follow(27, s, x, r, 24); assert s == Regs(a, b, c, d);
    out := Regs(a, b, c, d);
  }

  method Round2From28(r: Regs, x: seq<Word>) returns (out: Regs)
    requires |x| == 16
    ensures out == Steps(r, x, 28, 32)
  {
    hide Set, Step, Steps, F, G, H, I;
    var a, b, c, d := r.a, r.b, r.c, r.d;
    ghost var s := Begin(r, x, 28);
    a := Set(G(b, c, d), a, b, x[13], 5, T_MASK ^ 0x561c16fa);
    s := Follow(28, s, x, r, 28); assert s == Regs(d, a, b, c);
    d := Set(G(a, b, c), d, a, x[2], 9, T_MASK ^ 0x03105c07);
    s := Follow(29, s, x, r, 28); assert s == Regs(c, d, a, b);
    c := Set(G(d, a, b), c, d, x[7], 14, 0x676f02d9);
    s := Follow(30, s, x, r, 28); assert s == Regs(b, c, d, a);
    b := Set(G(c, d, a), b, c, x[12], 20, T_MASK ^ 0x72d5b375);
    s := Follow(31, s, x, r, 28); assert s == Regs(a, b, c, d);
    out := Regs(a, b, c, d);
  }

  method Round2(r: Regs, x: seq<Word>) returns (out: Regs)
    requires |x| == 16
    ensures out == Steps(r, x, 16, 32)
  {
    hide Steps;
    out := Round2From16(r, x);
    out := Round2From20(out, x);
    out := Round2From24(out, x);
    out := Round2From28(out, x);
    StepsCompose(r, x, 16, 20, 24);
    StepsCompose(r, x, 16, 24, 28);
    StepsCompose(r, x, 16, 28, 32);
  }

  // Round 3 of md5_process, step by step, in four parts.
  method Round3From32(r: Regs, x: seq<Word>) returns (out: Regs)
    requires |x| == 16
    ensures out == Steps(r, x, 32, 36)
  {
    hide Set, Step, Steps, F, G, H, I;
    var a, b, c, d := r.a, r.b, r.c, r.d;
    ghost var s := Begin(r, x, 32);
    a := Set(H(b, c, d), a, b, x[5], 4, T_MASK ^ 0x0005c6bd);
    s := Follow(32, s, x, r, 32); assert s == Regs(d, a, b, c);
    d := Set(H(a, b, c), d, a, x[8], 11, T_MASK ^ 0x788e097e);
    s := Follow(33, s, x, r, 32); assert s == Regs(c, d, a, b);
    c := Set(H(d, a, b), c, d, x[11], 16, 0x6d9d6122);
    s := Follow(34, s, x, r, 32); assert s == Regs(b, c, d, a);
    b := Set(H(c, d, a), b, c, x[14], 23, T_MASK ^ 0x021ac7f3);
    s := Follow(35, s, x, r, 32); assert s == Regs(a, b, c, d);
    out := Regs(a, b, c, d);
  }

  method Round3From36(r: Regs, x: seq<Word>) returns (out: Regs)
    requires |x| == 16
    ensures out == Steps(r, x, 36, 40)
  {
    hide Set, Step, Steps, F, G, H, I;
    var a, b, c, d := r.a, r.b, r.c, r.d;
    ghost var s := Begin(r, x, 36);
    a := Set(H(b, c, d), a, b, x[1], 4, T_MASK ^ 0x5b4115bb);
    s := Follow(36, s, x, r, 36); assert s == Regs(d, a, b, c);
    d := Set(H(a, b, c), d, a, x[4], 11, 0x4bdecfa9);
    s := Follow(37, s, x, r, 36); assert s == Regs(c, d, a, b);
    c := Set(H(d, a, b), c, d, x[7], 16, T_MASK ^ 0x0944b49f);
    s := Follow(38, s, x, r, 36); assert s == Regs(b, c, d, a);
    b := Set(H(c, d, a), b, c, x[10], 23, T_MASK ^ 0x4140438f);
    s := Follow(39, s, x, r, 36); assert s == Regs(a, b, c, d);
    out := Regs(a, b, c, d);
  }

  method Round3From40(r: Regs, x: seq<Word>) returns (out: Regs)
    requires |x| == 16
    ensures out == Steps(r, x, 40, 44)
  {
    hide Set, Step, Steps, F, G, H, I;
    var a, b, c, d := r.a, r.b, r.c, r.d;
    ghost var s := Begin(r, x, 40);
    a := Set(H(b, c, d), a, b, x[13], 4, 0x289b7ec6);
    s := Follow(40, s, x, r, 40); assert s == Regs(d, a, b, c);
    d := Set(H(a, b, c), d, a, x[0], 11, T_MASK ^ 0x155ed805);
    s := Follow(41, s, x, r, 40); assert s == Regs(c, d, a, b);
    c := Set(H(d, a, b), c, d, x[3], 16, T_MASK ^ 0x2b10cf7a);
    s := Follow(42, s, x, r, 40); assert s == Regs(b, c, d, a);
    b := Set(H(c, d, a), b, c, x[6], 23, 0x04881d05);
    s := Follow(43, s, x, r, 40); assert s == Regs(a, b, c, d);
    out := Regs(a, b, c, d);
  }

  method Round3From44(r: Regs, x: seq<Word>) returns (out: Regs)
    requires |x| == 16
    ensures out == Steps(r, x, 44, 48)
  {
    hide Set, Step, Steps, F, G, H, I;
    var a, b, c, d := r.a, r.b, r.c, r.d;
    ghost var s := Begin(r, x, 44);
    a := Set(H(b, c, d), a, b, x[9], 4, T_MASK ^ 0x262b2fc6);
    s := Follow(44, s, x, r, 44); assert s == Regs(d, a, b, c);
    d := Set(H(a, b, c), d, a, x[12], 11, T_MASK ^ 0x1924661a);
    s := Follow(45, s, x, r, 44); assert s == Regs(c, d, a, b);
    c := Set(H(d, a, b), c, d, x[15], 16, 0x1fa27cf8);
    s := Follow(46, s, x, r, 44); assert s == Regs(b, c, d, a);
    b := Set(H(c, d, a), b, c, x[2], 23, T_MASK ^ 0x3b53a99a);
    s := Follow(47, s, x, r, 44); assert s == Regs(a, b, c, d);
    out := Regs(a, b, c, d);
  }

  method Round3(r: Regs, x: seq<Word>) returns (out: Regs)
    requires |x| == 16
    ensures out == Steps(r, x, 32, 48)
  {
    hide Steps;
    out := Round3From32(r, x);
    out := Round3From36(out, x);
    out := Round3From40(out, x);
    out := Round3From44(out, x);
    StepsCompose(r, x, 32, 36, 40);
    StepsCompose(r, x, 32, 40, 44);
    StepsCompose(r, x, 32, 44, 48);
  }

  // Round 4 of md5_process, step by step, in four parts.
  method Round4From48(r: Regs, x: seq<Word>) returns (out: Regs)
    requires |x| == 16
    ensures out == Steps(r, x, 48, 52)
  {
    hide Set, Step, Steps, F, G, H, I;
    var a, b, c, d := r.a, r.b, r.c, r.d;
    ghost var s := Begin(r, x, 48);
    a := Set(I(b, c, d), a, b, x[0], 6, T_MASK ^ 0x0bd6ddbb);
    s := Follow(48, s, x, r, 48); assert s == Regs(d, a, b, c);
    d := Set(I(a, b, c), d, a, x[7], 10, 0x432aff97);
    s := Follow(49, s, x, r, 48); assert s == Regs(c, d, a, b);
    c := Set(I(d, a, b), c, d, x[14], 15, T_MASK ^ 0x546bdc58);
    s := Follow(50, s, x, r, 48); assert s == Regs(b, c, d, a);
    b := Set(I(c, d, a), b, c, x[5], 21, T_MASK ^ 0x036c5fc6);
    s := Follow(51, s, x, r, 48); assert s == Regs(a, b, c, d);
    out := Regs(a, b, c, d);
  }

  method Round4From52(r: Regs, x: seq<Word>) returns (out: Regs)
    requires |x| == 16
    ensures out == Steps(r, x, 52, 56)
  {
    hide Set, Step, Steps, F, G, H, I;
    var a, b, c, d := r.a, r.b, r.c, r.d;
    ghost var s := Begin(r, x, 52);
    a := Set(I(b, c, d), a, b, x[12], 6, 0x655b59c3);
    s := Follow(52, s, x, r, 52); assert s == Regs(d, a, b, c);
    d := Set(I(a, b, c), d, a, x[3], 10, T_MASK ^ 0x70f3336d);
    s := Follow(53, s, x, r, 52); assert s == Regs(c, d, a, b);
    c := Set(I(d, a, b), c, d, x[10], 15, T_MASK ^ 0x00100b82);
    s := Follow(54, s, x, r, 52); assert s == Regs(b, c, d, a);
    b := Set(I(c, d, a), b, c, x[1], 21, T_MASK ^ 0x7a7ba22e);
    s := Follow(55, s, x, r, 52); assert s == Regs(a, b, c, d);
    out := Regs(a, b, c, d);
  }

  method Round4From56(r: Regs, x: seq<Word>) returns (out: Regs)
    requires |x| == 16
    ensures out == Steps(r, x, 56, 60)
  {
    hide Set, Step, Steps, F, G, H, I;
    var a, b, c, d := r.a, r.b, r.c, r.d;
    ghost var s := Begin(r, x, 56);
    a := Set(I(b, c, d), a, b, x[8], 6, 0x6fa87e4f);
    s := Follow(56, s, x, r, 56); assert s == Regs(d, a, b, c);
    d := Set(I(a, b, c), d, a, x[15], 10, T_MASK ^ 0x01d3191f);
    s := Follow(57, s, x, r, 56); assert s == Regs(c, d, a, b);
    c := Set(I(d, a, b), c, d, x[6], 15, T_MASK ^ 0x5cfebceb);
    s := Follow(58, s, x, r, 56); assert s == Regs(b, c, d, a);
    b := Set(I(c, d, a), b, c, x[13], 21, 0x4e0811a1);
    s := Follow(59, s, x, r, 56); assert s == Regs(a, b, c, d);
    out := Regs(a, b, c, d);
  }

  method Round4From60(r: Regs, x: seq<Word>) returns (out: Regs)
    requires |x| == 16
    ensures out == Steps(r, x, 60, 64)
  {
    hide Set, Step, Steps, F, G, H, I;
    var a, b, c, d := r.a, r.b, r.c, r.d;
    ghost var s := Begin(r, x, 60);
    a := Set(I(b, c, d), a, b, x[4], 6, T_MASK ^ 0x08ac817d);
    s := Follow(60, s, x, r, 60); assert s == Regs(d, a, b, c);
    d := Set(I(a, b, c), d, a, x[11], 10, T_MASK ^ 0x42c50dca);
    s := Follow(61, s, x, r, 60); assert s == Regs(c, d, a, b);
    c := Set(I(d, a, b), c, d, x[2], 15, 0x2ad7d2bb);
    s := Follow(62, s, x, r, 60); assert s == Regs(b, c, d, a);
    b := Set(I(c, d, a), b, c, x[9], 21, T_MASK ^ 0x14792c6e);
    s := Follow(63, s, x, r, 60); assert s == Regs(a, b, c, d);
    out := Regs(a, b, c, d);
  }

  method Round4(r: Regs, x: seq<Word>) returns (out: Regs)
    requires |x| == 16
    ensures out == Steps(r, x, 48, 64)
  {
    hide Steps;
    out := Round4From48(r, x);
    out := Round4From52(out, x);
    out := Round4From56(out, x);
    out := Round4From60(out, x);
    StepsCompose(r, x, 48, 52, 56);
    StepsCompose(r, x, 48, 56, 60);
    StepsCompose(r, x, 48, 60, 64);
  }

  lemma {:induction false} StepsCompose(r: Regs, x: seq<Word>, i: nat, j: nat, k: nat)
    requires i <= j <= k <= 64 && |x| == 16
    ensures Steps(Steps(r, x, i, j), x, j, k) == Steps(r, x, i, k)
    decreases k
  {
    hide Step;
    if j < k {
      StepsCompose(r, x, i, j, k - 1);
    }
  }

  method Rounds(r: Regs, x: seq<Word>) returns (out: Regs)
    requires |x| == 16
    ensures out == Steps(r, x, 0, 64)
  {
    hide Steps;
    var r1 := Round1(r, x);
    var r2 := Round2(r1, x);
    var r3 := Round3(r2, x);
    out := Round4(r3, x);
    StepsCompose(r, x, 0, 16, 32);
    StepsCompose(r, x, 0, 32, 48);
    StepsCompose(r, x, 0, 48, 64);
  }

  // The byte-by-byte decoding of a block; a cast does the same on a little-endian machine.
  method DecodeBlock(xp: seq<Byte>) returns (x: seq<Word>)
    requires |xp| == 64
    ensures x == Words(xp)
  {
    hide WordAt;
    x := [];
    var i := 0;
    while i < 16
      invariant 0 <= i <= 16 && |x| == i
      invariant forall k :: 0 <= k < i ==> x[k] == WordAt(xp, k)
    {
      x := x + [WordAt(xp, i)];
      i := i + 1;
    }
  }

  // The bytes of a message of n bytes that lie in full blocks.
  function FullBlocks(n: nat): (k: nat)
    ensures k % 64 == 0 && k <= n < k + 64
  {
    n - n % 64
  }

  lemma SameMultiple(n: nat, a: nat, b: nat)
    requires a % 64 == 0 && a <= n < a + 64
    requires b % 64 == 0 && b <= n < b + 64
    ensures a == b
  {
    assert a == 64 * (a / 64) && b == 64 * (b / 64);
  }

  class State {
    // The message length in bits, low-order word first.
    var count0: nat
    var count1: nat
    var abcd: Regs
    const buf: array<Byte>

    // The state after the bytes of m have been appended.
    ghost predicate Holds(m: seq<Byte>)
      reads this, buf
    {
      var full := FullBlocks(|m|);
      && buf.Length == 64
      && count0 == 8 * |m| % W32
      && count1 == 8 * |m| / W32 % W32
      && abcd == Chain(m[..full])
      && buf[..|m| - full] == m[full..]
    }

    // md5_init
    constructor ()
      ensures Holds([]) && fresh(buf)
    {
      buf := new Byte[64];
      count0, count1 := 0, 0;
      abcd := Regs(0x67452301, T_MASK ^ 0x10325476, T_MASK ^ 0x67452301, 0x10325476);
    }

    // md5_process
    method Process(data: seq<Byte>)
      requires |data| == 64
      modifies this`abcd
      ensures abcd == Compress(old(abcd), data)
    {
      hide Steps, Sum, Words;
      var x := DecodeBlock(data);
      var r := Rounds(abcd, x);
      abcd := Sum(abcd, r);
    }

    // md5_append.  The length of the piece is an int, and so must be its sum with the buffer offset.
    method Append(data: seq<Byte>, ghost m: seq<Byte>)
      requires Holds(m) && |m| % 64 + |data| <= 0x7fff_ffff
      modifies this`count0, this`count1, this`abcd, buf
      ensures Holds(m + data)
    {
      hide Chain, Compress, Holds;
      var nbytes := |data|;
      var offset := Unpack(m);
      if nbytes <= 0 {
        assert m + data == m;
        return;
      }
      AdvanceCount(nbytes, |m|);
      var p, done := TopUp(data, offset, m);
      if done {
        return;
      }
      p := ProcessBlocks(data, p, m);
      if nbytes - p > 0 {
        CopyIn(0, data[p..]);
      }
      Slices(m, data, p, nbytes);
      Pack(m + data, |m| + p);
    }

    // The initial partial block: the buffer is filled up, and processed if it is full.
    method TopUp(data: seq<Byte>, offset: nat, ghost m: seq<Byte>) returns (p: nat, done: bool)
      requires 0 < |data| && offset < 64 && offset <= |m| && (|m| - offset) % 64 == 0
      requires buf.Length == 64 && buf[..offset] == m[|m| - offset..] && abcd == Chain(m[..|m| - offset])
      requires count0 == 8 * |m + data| % W32 && count1 == 8 * |m + data| / W32 % W32
      modifies this`abcd, buf
      ensures done ==> Holds(m + data)
      ensures !done ==> p <= |data| && (|m| + p) % 64 == 0 && abcd == Chain((m + data)[..|m| + p])
    {
      hide Chain, Compress, Holds;
      Slices(m, data, 0, 0);
      Prefix(m, data, |m| - offset);
      p, done := 0, false;
      if offset != 0 {
        var copy := if offset + |data| > 64 then 64 - offset else |data|;
        CopyIn(offset, data[..copy]);
        BufferJoin(m, data, offset, copy);
        if offset + copy < 64 {
          Pack(m + data, |m| - offset);
          return 0, true;
        }
        p := copy;
        assert buf[..] == buf[..64];
        Process(buf[..]);
        ChainStep(m + data, |m| - offset);
      }
    }

    lemma Prefix(m: seq<Byte>, data: seq<Byte>, k: nat)
      requires k <= |m|
      ensures (m + data)[..k] == m[..k]
    {
    }

    lemma Slices(m: seq<Byte>, data: seq<Byte>, i: nat, j: nat)
      requires i <= j <= |data|
      ensures (m + data)[|m| + i..|m| + j] == data[i..j]
      ensures (m + data)[|m| + i..] == data[i..]
    {
    }

    // The buffer offset, as md5_append reads it off the bit count, and the parts of Holds.
    method Unpack(ghost m: seq<Byte>) returns (offset: nat)
      requires Holds(m)
      ensures offset < 64 && offset <= |m| && (|m| - offset) % 64 == 0
      ensures buf.Length == 64 && buf[..offset] == m[|m| - offset..]
      ensures abcd == Chain(m[..|m| - offset])
      ensures count0 == 8 * |m| % W32 && count1 == 8 * |m| / W32 % W32
    {
      hide Chain, Compress, FullBlocks;
      SameMultiple(|m|, FullBlocks(|m|), |m| - |m| % 64);
      OffsetOfCount(|m|);
      offset := count0 / 8 % 64;
    }

    lemma Pack(m: seq<Byte>, full: nat)
      requires full % 64 == 0 && full <= |m| < full + 64
      requires buf.Length == 64 && buf[..|m| - full] == m[full..]
      requires count0 == 8 * |m| % W32 && count1 == 8 * |m| / W32 % W32
      ensures abcd == Chain(m[..full]) ==> Holds(m)
    {
      hide Chain, Compress, FullBlocks;
      SameMultiple(|m|, FullBlocks(|m|), full);
    }

    // What the buffer holds after copy bytes were added to it at offset.
    lemma BufferJoin(m: seq<Byte>, data: seq<Byte>, offset: nat, copy: nat)
      requires offset <= |m| && copy <= |data| && buf.Length == 64 && offset + copy <= 64
      requires buf[..offset] == m[|m| - offset..] && buf[offset..offset + copy] == data[..copy]
      ensures buf[..offset + copy] == (m + data)[|m| - offset..|m| + copy]
      ensures copy == |data| ==> buf[..offset + copy] == (m + data)[|m| - offset..]
    {
      assert buf[..offset + copy] == buf[..offset] + buf[offset..offset + copy];
    }

    // The message length update of md5_append.
    method AdvanceCount(nbytes: nat, ghost l: nat)
      requires count0 == 8 * l % W32 && count1 == 8 * l / W32 % W32
      modifies this`count0, this`count1
      ensures count0 == 8 * (l + nbytes) % W32 && count1 == 8 * (l + nbytes) / W32 % W32
    {
      LengthCarry(l, nbytes);
      var nbits := nbytes * 8 % W32;
      count1 := (count1 + nbytes / 0x2000_0000) % W32;
      count0 := (count0 + nbits) % W32;
      if count0 < nbits {
        count1 := (count1 + 1) % W32;
      }
    }

    // memcpy into the buffer
    method CopyIn(offset: nat, data: seq<Byte>)
      requires buf.Length == 64 && offset + |data| <= 64
      modifies buf
      ensures buf[..offset] == old(buf[..offset]) && buf[offset..offset + |data|] == data
    {
      forall i | 0 <= i < |data| {
        buf[offset + i] := data[i];
      }
    }

    // The full blocks of a piece, from position p on.
    method ProcessBlocks(data: seq<Byte>, p: nat, ghost m: seq<Byte>) returns (q: nat)
      requires p <= |data| && (|m| + p) % 64 == 0
      requires abcd == Chain((m + data)[..|m| + p])
      modifies this`abcd
      ensures p <= q <= |data| && |data| - q < 64 && (|m| + q) % 64 == 0
      ensures abcd == Chain((m + data)[..|m| + q])
    {
      hide Chain, Compress;
      q := p;
      var left := |data| - p;
      while left >= 64
        invariant p <= q && 0 <= left && q + left == |data|
        invariant (|m| + q) % 64 == 0 && abcd == Chain((m + data)[..|m| + q])
      {
        Slices(m, data, q, q + 64);
        Process(data[q..q+64]);
        ChainStep(m + data, |m| + q);
        q := q + 64;
        left := left - 64;
      }
    }

    // md5_finish
    method Finish(ghost m: seq<Byte>) returns (digest: seq<Byte>)
      requires Holds(m)
      modifies this`count0, this`count1, this`abcd, buf
      ensures digest == Digest(m)
    {
      hide Chain, ByteOf;
      var pad: seq<Byte> := [0x80] + seq(63, _ => 0);
      var data: seq<Byte> := [];
      var i := 0;
      while i < 8
        invariant 0 <= i <= 8 && |data| == i
        invariant forall k :: 0 <= k < i ==> data[k] == ByteOf(if k < 4 then count0 else count1, k % 4)
      {
        data := data + [ByteOf(if i < 4 then count0 else count1, i % 4)];
        i := i + 1;
      }
      forall k | 0 <= k < 8 ensures data[k] == ByteOf(8 * |m|, k) {
        LengthBytes(8 * |m|, k);
      }
      assert data == Length64(8 * |m|);
      OffsetOfCount(|m|);
      var n := (55 - count0 / 8) % 64 + 1;
      assert pad[..n] == PadTail(|m|);
      Append(pad[..n], m);
      Append(data, m + pad[..n]);
      ghost var whole := m + pad[..n] + data;
      assert whole == Padded(m) && whole[..|whole|] == whole;
      digest := Output(abcd);
    }
  }

  lemma ChainStep(s: seq<Byte>, k: nat)
    requires k % 64 == 0 && k + 64 <= |s|
    ensures Chain(s[..k+64]) == Compress(Chain(s[..k]), s[k..k+64])
  {
    assert s[..k+64][..k] == s[..k] && s[..k+64][k..] == s[k..k+64];
  }

  // l in units of 2 to the 29 bytes, whose bits fill one word.
  lemma WordsOfLength(l: nat)
    ensures 8 * l % W32 == 8 * (l % 0x2000_0000)
    ensures 8 * l / W32 == l / 0x2000_0000
  {
    var q, r := l / 0x2000_0000, l % 0x2000_0000;
    assert 8 * l == q * W32 + 8 * r;
  }

  lemma OffsetOfCount(l: nat)
    ensures (8 * l % W32) / 8 % 64 == l % 64
    ensures (55 - (8 * l % W32) / 8) % 64 == (55 - l) % 64
  {
    WordsOfLength(l);
    var q, r := l / 0x2000_0000, l % 0x2000_0000;
    EightTimes(r);
    assert l == r + 64 * (q * 0x80_0000);
    Mod64(r, q * 0x80_0000);
    Mod64(55 - l, q * 0x80_0000);
  }

  lemma EightTimes(r: nat)
    ensures 8 * r / 8 == r
  {
  }

  lemma Mod64(x: int, t: int)
    ensures (x + 64 * t) % 64 == x % 64
  {
  }

  lemma ModSum(a: nat, b: nat)
    ensures (a % W32 + b) % W32 == (a + b) % W32
  {
    var q := a / W32;
    assert a + b == q * W32 + (a % W32 + b);
  }

  // The two-word addition of md5_append computes the bit count modulo 2 to the 64.
  lemma LengthCarry(l: nat, n: nat)
    ensures var c0 := 8 * l % W32;
            var c1 := 8 * l / W32 % W32;
            var nbits := n * 8 % W32;
            var sum := (c0 + nbits) % W32;
            && sum == 8 * (l + n) % W32
            && (if sum < nbits then ((c1 + n / 0x2000_0000) % W32 + 1) % W32 else (c1 + n / 0x2000_0000) % W32)
               == 8 * (l + n) / W32 % W32
  {
    WordsOfLength(l);
    WordsOfLength(n);
    WordsOfLength(l + n);
    var ql, qn := l / 0x2000_0000, n / 0x2000_0000;
    ModSum(ql, qn);
    ModSum(ql + qn, 1);
    CarryOfSum(l, n);
  }

  lemma CarryOfSum(l: nat, n: nat)
    ensures var carry := if l % 0x2000_0000 + n % 0x2000_0000 < 0x2000_0000 then 0 else 1;
            && (l + n) / 0x2000_0000 == l / 0x2000_0000 + n / 0x2000_0000 + carry
            && (l + n) % 0x2000_0000 == l % 0x2000_0000 + n % 0x2000_0000 - carry * 0x2000_0000
  {
  }

  // The eight bytes taken from the two words are those of the 64-bit length.
  lemma LengthBytes(n: nat, k: nat)
    requires k < 8
    ensures ByteOf(n, k) == ByteOf(if k < 4 then n % W32 else n / W32 % W32, k % 4)
  {
    hide Digit256;
    var h, lo := n / W32, n % W32;
    if k < 4 {
      LowByte(h, lo, k);
    } else {
      HighByte(n, h, k);
      LowByte(h / W32, h % W32, k - 4);
    }
  }

  // Digit k of a number depends on its low word only, for k below 4.
  lemma LowByte(h: nat, lo: nat, k: nat)
    requires lo < W32 && k < 4
    ensures Digit256(h * W32 + lo, k) == Digit256(lo, k)
  {
    if k == 0 {
      LowDigit0(h, lo);
    } else if k == 1 {
      LowDigit1(h, lo);
    } else if k == 2 {
      LowDigit2(h, lo);
    } else {
      LowDigit3(h, lo);
    }
  }

  lemma LowDigit0(h: nat, lo: nat)
    requires lo < W32
    ensures (h * W32 + lo) % 256 == lo % 256
  {
    assert h * W32 + lo == 256 * (h * 0x100_0000) + lo;
  }

  lemma LowDigit1(h: nat, lo: nat)
    requires lo < W32
    ensures (h * W32 + lo) / 0x100 % 256 == lo / 0x100 % 256
  {
    assert (h * W32 + lo) / 0x100 == 256 * (h * 0x1_0000) + lo / 0x100;
  }

  lemma LowDigit2(h: nat, lo: nat)
    requires lo < W32
    ensures (h * W32 + lo) / 0x1_0000 % 256 == lo / 0x1_0000 % 256
  {
    assert (h * W32 + lo) / 0x1_0000 == 256 * (h * 0x100) + lo / 0x1_0000;
  }

  lemma LowDigit3(h: nat, lo: nat)
    requires lo < W32
    ensures (h * W32 + lo) / 0x100_0000 % 256 == lo / 0x100_0000 % 256
  {
    assert (h * W32 + lo) / 0x100_0000 == 256 * h + lo / 0x100_0000;
  }

  lemma HighByte(n: nat, h: nat, k: nat)
    requires h == n / W32 && 4 <= k < 8
    ensures Digit256(n, k) == Digit256(h, k - 4)
  {
    HighBytes(n, h);
  }

  lemma HighBytes(n: nat, h: nat)
    requires h == n / W32
    ensures n / 0x100_0000_0000 == h / 0x100 && n / 0x1_0000_0000_0000 == h / 0x1_0000
    ensures n / 0x100_0000_0000_0000 == h / 0x100_0000
  {
  }

  function Concat(pieces: seq<seq<Byte>>): seq<Byte> {
    if pieces == [] then [] else Concat(pieces[..|pieces|-1]) + pieces[|pieces|-1]
  }

  /** However a message is cut into pieces, init, append and finish give its digest. */
  method MessageDigest(pieces: seq<seq<Byte>>) returns (digest: seq<Byte>)
    requires forall i :: 0 <= i < |pieces| ==> |Concat(pieces[..i])| % 64 + |pieces[i]| <= 0x7fff_ffff
    ensures digest == Digest(Concat(pieces))
  {
    var s := new State();
    var i := 0;
    while i < |pieces|
      invariant 0 <= i <= |pieces|
      invariant fresh(s) && fresh(s.buf) && s.Holds(Concat(pieces[..i]))
    {
      s.Append(pieces[i], Concat(pieces[..i]));
      assert pieces[..i+1][..i] == pieces[..i];
      i := i + 1;
    }
    assert pieces[..i] == pieces;
    digest := s.Finish(Concat(pieces));
  }
}
