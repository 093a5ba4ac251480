/** The MD5 compression function: the tables and steps of section 3.4 of RFC 1321, and the
    unrolled form with the optimised F and G that the hasher runs.  */
module Md5Rounds {

  type Byte = x: int | 0 <= x < 256
  type Word = bv32
  type Block = s: seq<Byte> | |s| == 64 witness seq(64, _ => 0)

  datatype Registers = Registers(a: Word, b: Word, c: Word, d: Word)

  /** The SET macro, on bytes already widened to words. */
  function SetWord(b0: Word, b1: Word, b2: Word, b3: Word): Word {
    b0 | (b1 << 8) | (b2 << 16) | (b3 << 24)
  }

  /** Four bytes in memory, lowest first. */
  function LittleEndianWord(b0: Byte, b1: Byte, b2: Byte, b3: Byte): Word {
    SetWord(b0 as bv32, b1 as bv32, b2 as bv32, b3 as bv32)
  }

  lemma SetThenMask(b0: Word, b1: Word, b2: Word, b3: Word)
    requires b0 < 256 && b1 < 256 && b2 < 256 && b3 < 256
    ensures var w := SetWord(b0, b1, b2, b3);
      w & 0xff == b0 && (w >> 8) & 0xff == b1 && (w >> 16) & 0xff == b2 && w >> 24 == b3
  {
  }

  lemma ByteFits(b: Byte)
    ensures b as bv32 < 256
  {
  }

  /** Shifting and masking a word gives back its bytes in the order in which they were read. */
  lemma WordGivesBytes(b0: Byte, b1: Byte, b2: Byte, b3: Byte)
    ensures var w := LittleEndianWord(b0, b1, b2, b3);
      && w & 0xff == b0 as bv32 && (w >> 8) & 0xff == b1 as bv32
      && (w >> 16) & 0xff == b2 as bv32 && w >> 24 == b3 as bv32
  {
    hide SetWord;
    ByteFits(b0);
    ByteFits(b1);
    ByteFits(b2);
    ByteFits(b3);
    SetThenMask(b0 as bv32, b1 as bv32, b2 as bv32, b3 as bv32);
  }

  /** Word n of a block, low-order byte first. */
  function X(block: Block, n: nat): Word
    requires n < 16
  {
    LittleEndianWord(block[4 * n], block[4 * n + 1], block[4 * n + 2], block[4 * n + 3])
  }

  /** Word addition, modulo 2^32. */
  function Add(x: Word, y: Word): Word { x + y }

  // ---------- section 3.4 of RFC 1321 ----------

  function RfcF(x: Word, y: Word, z: Word): Word { (x & y) | (!x & z) }
  function RfcG(x: Word, y: Word, z: Word): Word { (x & z) | (y & !z) }
  function H(x: Word, y: Word, z: Word): Word { x ^ y ^ z }
  function I(x: Word, y: Word, z: Word): Word { y ^ (x | !z) }

  /** The auxiliary function of step i, counted from 0. */
  function Mix(i: nat, x: Word, y: Word, z: Word): Word {
    if i < 16 then RfcF(x, y, z) else if i < 32 then RfcG(x, y, z) else if i < 48 then H(x, y, z) else I(x, y, z)
  }

  /** The message word of step i: each round walks the block in its own stride. */
  function K(i: nat): (k: nat)
    ensures k < 16
  {
    if i < 16 then i % 16 else if i < 32 then (5 * i + 1) % 16 else if i < 48 then (3 * i + 5) % 16 else 7 * i % 16
  }

  type Amount = bv6

  function InTurn(i: nat, s0: Amount, s1: Amount, s2: Amount, s3: Amount): Amount {
    if i % 4 == 0 then s0 else if i % 4 == 1 then s1 else if i % 4 == 2 then s2 else s3
  }

  /** The shift amount of step i: four per round, in turn. */
  function S(i: nat): Amount {
    if i < 16 then InTurn(i, 7, 12, 17, 22)
    else if i < 32 then InTurn(i, 5, 9, 14, 20)
    else if i < 48 then InTurn(i, 4, 11, 16, 23)
    else InTurn(i, 6, 10, 15, 21)
  }

  /** Circular shift to the left by one of the amounts in use. */
  function Circular(x: Word, s: Amount): Word {
    match s
    case 4 => x.RotateLeft(4)
    case 5 => x.RotateLeft(5)
    case 6 => x.RotateLeft(6)
    case 7 => x.RotateLeft(7)
    case 9 => x.RotateLeft(9)
    case 10 => x.RotateLeft(10)
    case 11 => x.RotateLeft(11)
    case 12 => x.RotateLeft(12)
    case 14 => x.RotateLeft(14)
    case 15 => x.RotateLeft(15)
    case 16 => x.RotateLeft(16)
    case 17 => x.RotateLeft(17)
    case 20 => x.RotateLeft(20)
    case 21 => x.RotateLeft(21)
    case 22 => x.RotateLeft(22)
    case _ => x.RotateLeft(23)
  }

  /** The additive constant of step i. */
  function T(i: nat): Word {
    if i < 16 then T1(i) else if i < 32 then T2(i - 16) else if i < 48 then T3(i - 32) else T4(i - 48)
  }

  function T1(i: nat): Word {
    match i
    case 0 => 0xd76aa478 case 1 => 0xe8c7b756 case 2 => 0x242070db case 3 => 0xc1bdceee
    case 4 => 0xf57c0faf case 5 => 0x4787c62a case 6 => 0xa8304613 case 7 => 0xfd469501
    case 8 => 0x698098d8 case 9 => 0x8b44f7af case 10 => 0xffff5bb1 case 11 => 0x895cd7be
    case 12 => 0x6b901122 case 13 => 0xfd987193 case 14 => 0xa679438e case _ => 0x49b40821
  }

  function T2(i: nat): Word {
    match i
    case 0 => 0xf61e2562 case 1 => 0xc040b340 case 2 => 0x265e5a51 case 3 => 0xe9b6c7aa
    case 4 => 0xd62f105d case 5 => 0x02441453 case 6 => 0xd8a1e681 case 7 => 0xe7d3fbc8
    case 8 => 0x21e1cde6 case 9 => 0xc33707d6 case 10 => 0xf4d50d87 case 11 => 0x455a14ed
    case 12 => 0xa9e3e905 case 13 => 0xfcefa3f8 case 14 => 0x676f02d9 case _ => 0x8d2a4c8a
  }

  function T3(i: nat): Word {
    match i
    case 0 => 0xfffa3942 case 1 => 0x8771f681 case 2 => 0x6d9d6122 case 3 => 0xfde5380c
    case 4 => 0xa4beea44 case 5 => 0x4bdecfa9 case 6 => 0xf6bb4b60 case 7 => 0xbebfbc70
    case 8 => 0x289b7ec6 case 9 => 0xeaa127fa case 10 => 0xd4ef3085 case 11 => 0x04881d05
    case 12 => 0xd9d4d039 case 13 => 0xe6db99e5 case 14 => 0x1fa27cf8 case _ => 0xc4ac5665
  }

  function T4(i: nat): Word {
    match i
    case 0 => 0xf4292244 case 1 => 0x432aff97 case 2 => 0xab9423a7 case 3 => 0xfc93a039
    case 4 => 0x655b59c3 case 5 => 0x8f0ccc92 case 6 => 0xffeff47d case 7 => 0x85845dd1
    case 8 => 0x6fa87e4f case 9 => 0xfe2ce6e0 case 10 => 0xa3014314 case 11 => 0x4e0811a1
    case 12 => 0xf7537e82 case 13 => 0xbd3af235 case 14 => 0x2ad7d2bb case _ => 0xeb86d391
  }

  /** The word that step i of the operation [abcd k s i] stores. */
  function Stored(i: nat, a: Word, b: Word, c: Word, d: Word, x: Word): Word
    requires i < 64
  {
    Add(b, Circular(Add(Add(Add(a, Mix(i, b, c, d)), x), T(i)), S(i)))
  }

  /** One operation; the registers then change roles, so the next one reads [dabc]. */
  function Step(r: Registers, block: Block, i: nat): Registers
    requires i < 64
  {
    Registers(r.d, Stored(i, r.a, r.b, r.c, r.d, X(block, K(i))), r.b, r.c)
  }

  function Steps(r: Registers, block: Block, n: nat): Registers
    requires n <= 64
  {
    if n == 0 then r else Step(Steps(r, block, n - 1), block, n - 1)
  }

  function Plus(r: Registers, s: Registers): Registers {
    Registers(Add(r.a, s.a), Add(r.b, s.b), Add(r.c, s.c), Add(r.d, s.d))
  }

  /** The digest registers after one more block. */
  function Compress(r: Registers, block: Block): Registers {
    Plus(Steps(r, block, 64), r)
  }

  // ---------- the code's own macros ----------

  function F(x: Word, y: Word, z: Word): Word { z ^ (x & (y ^ z)) }
  function G(x: Word, y: Word, z: Word): Word { y ^ (z & (x ^ y)) }

  lemma OptimisedFIsRfcF(x: Word, y: Word, z: Word)
    ensures F(x, y, z) == RfcF(x, y, z)
  {
    Select(x, y, z);
  }

  lemma GIsTurnedF(x: Word, y: Word, z: Word)
    ensures G(x, y, z) == F(z, x, y) && RfcG(x, y, z) == RfcF(z, x, y)
  {
  }

  lemma OptimisedGIsRfcG(x: Word, y: Word, z: Word)
    ensures G(x, y, z) == RfcG(x, y, z)
  {
    hide *;
    GIsTurnedF(x, y, z);
    OptimisedFIsRfcF(z, x, y);
  }

  /** Choosing y where x has ones and z elsewhere, without an and-not. */
  lemma Select(x: Word, y: Word, z: Word)
    ensures z ^ (x & (y ^ z)) == (x & y) | (!x & z)
  {
    calc {
      z ^ (x & (y ^ z));
      { AndOverXor(x, y, z); }
      z ^ ((x & y) ^ (x & z));
      { XorMoves(z, x & y, x & z); }
      (x & y) ^ (z ^ (x & z));
      { MaskedXor(x, z); }
      (x & y) ^ (!x & z);
      { Disjoint(x, y, z); DisjointXorIsOr(x & y, !x & z); }
      (x & y) | (!x & z);
    }
  }

  lemma XorMoves(p: Word, q: Word, r: Word)
    ensures p ^ (q ^ r) == q ^ (p ^ r)
  {
  }

  lemma Disjoint(x: Word, y: Word, z: Word)
    ensures (x & y) & (!x & z) == 0
  {
  }

  lemma AndOverXor(x: Word, y: Word, z: Word)
    ensures x & (y ^ z) == (x & y) ^ (x & z)
  {
  }

  lemma MaskedXor(x: Word, z: Word)
    ensures z ^ (x & z) == !x & z
  {
  }

  lemma DisjointXorIsOr(p: Word, q: Word)
    requires p & q == 0
    ensures p ^ q == p | q
  {
  }

  function Rotate(x: Word, s: Amount): Word
    requires 0 < s < 32
  {
    (x << s) | ((x & 0xffffffff) >> (32 - s))
  }

  predicate InUse(s: Amount) {
    s == 4 || s == 5 || s == 6 || s == 7 || s == 9 || s == 10 || s == 11 || s == 12 ||
    s == 14 || s == 15 || s == 16 || s == 17 || s == 20 || s == 21 || s == 22 || s == 23
  }

  /** For every shift amount in use, the two shifts of the macro make the circular shift. */
  lemma RotateIsCircular(x: Word, s: Amount)
    requires InUse(s)
    ensures 0 < s < 32 && Rotate(x, s) == Circular(x, s)
  {
  }

  /** The STEP macro, given the value of its auxiliary function. */
  function Macro(f: Word, a: Word, b: Word, x: Word, t: Word, s: Amount): Word
    requires 0 < s < 32
  {
    Add(Rotate(Add(a, Add(Add(f, x), t)), s), b)
  }

  lemma AddIsPlus(a: Word, b: Word)
    ensures Add(a, b) == a + b && Add(a, b) == Add(b, a)
  {
  }

  lemma PlusAssociates(a: Word, b: Word, c: Word)
    ensures (a + b) + c == a + (b + c)
  {
  }

  lemma AddOfPlus(a: Word, b: Word, c: Word)
    ensures Add(a + b, c) == Add(a, b + c)
  {
    PlusAssociates(a, b, c);
  }

  lemma AddAssociates(a: Word, b: Word, c: Word)
    ensures Add(Add(a, b), c) == Add(a, Add(b, c))
  {
    hide Add;
    AddIsPlus(a, b);
    AddIsPlus(b, c);
    AddOfPlus(a, b, c);
  }

  lemma AddsInAnyOrder(a: Word, f: Word, x: Word, t: Word)
    ensures Add(a, Add(Add(f, x), t)) == Add(Add(Add(a, f), x), t)
  {
    hide Add;
    AddAssociates(a, Add(f, x), t);
    AddAssociates(a, f, x);
  }

  /** One STEP stores what the operation of the standard stores. */
  lemma MacroIsStored(i: nat, f: Word, a: Word, b: Word, c: Word, d: Word, x: Word, t: Word, s: Amount)
    requires i < 64 && 0 < s < 32 && s == S(i) && t == T(i) && f == Mix(i, b, c, d)
    requires forall y :: Rotate(y, s) == Circular(y, s)
    ensures Macro(f, a, b, x, t, s) == Stored(i, a, b, c, d, x)
  {
    hide Add, Rotate, Circular, Mix, S, T;
    AddsInAnyOrder(a, f, x, t);
    AddIsPlus(Rotate(Add(a, Add(Add(f, x), t)), s), b);
  }

  /** The auxiliary function that the code uses in step i. */
  function CodeMix(i: nat, x: Word, y: Word, z: Word): Word {
    if i < 16 then F(x, y, z) else if i < 32 then G(x, y, z) else if i < 48 then H(x, y, z) else I(x, y, z)
  }

  lemma CodeMixIsMix(i: nat, x: Word, y: Word, z: Word)
    ensures CodeMix(i, x, y, z) == Mix(i, x, y, z)
  {
    hide F, G, H, I, RfcF, RfcG;
    OptimisedFIsRfcF(x, y, z);
    OptimisedGIsRfcG(x, y, z);
  }

  lemma ShiftsInUse(i: nat)
    requires i < 64
    ensures 0 < S(i) < 32
    ensures forall y :: Rotate(y, S(i)) == Circular(y, S(i))
  {
    var s := S(i);
    assert InUse(s);
    forall y ensures 0 < s < 32 && Rotate(y, s) == Circular(y, s) {
      RotateIsCircular(y, s);
    }
  }

  lemma StepStores(i: nat, a: Word, b: Word, c: Word, d: Word, x: Word)
    requires i < 64
    ensures 0 < S(i) < 32 && Macro(CodeMix(i, b, c, d), a, b, x, T(i), S(i)) == Stored(i, a, b, c, d, x)
  {
    hide *;
    ShiftsInUse(i);
    CodeMixIsMix(i, b, c, d);
    MacroIsStored(i, CodeMix(i, b, c, d), a, b, c, d, x, T(i), S(i));
  }

  /** Four operations bring the registers back to their own names. */
  lemma FourSteps(start: Registers, block: Block, i: nat, r: Registers, a: Word, d: Word, c: Word, b: Word)
    requires i + 4 <= 64 && Steps(start, block, i) == r
    requires a == Stored(i, r.a, r.b, r.c, r.d, X(block, K(i)))
    requires d == Stored(i + 1, r.d, a, r.b, r.c, X(block, K(i + 1)))
    requires c == Stored(i + 2, r.c, d, a, r.b, X(block, K(i + 2)))
    requires b == Stored(i + 3, r.b, c, d, a, X(block, K(i + 3)))
    ensures Steps(start, block, i + 4) == Registers(a, b, c, d)
  {
    hide Stored, X, K;
    var r1 := Registers(r.d, a, r.b, r.c);
    var r2 := Registers(r.c, d, a, r.b);
    var r3 := Registers(r.b, c, d, a);
    assert Steps(start, block, i + 1) == Step(r, block, i) == r1;
    assert Steps(start, block, i + 2) == Step(r1, block, i + 1) == r2;
    assert Steps(start, block, i + 3) == Step(r2, block, i + 2) == r3;
    assert Steps(start, block, i + 4) == Step(r3, block, i + 3) == Registers(a, b, c, d);
  }

  /** The same for the code's macros, with the index, constant and shift it writes out. */
  lemma FourMacros(start: Registers, block: Block, i: nat, r: Registers, a: Word, d: Word, c: Word, b: Word)
    requires i + 4 <= 64 && Steps(start, block, i) == r
    requires 0 < S(i) < 32 && 0 < S(i + 1) < 32 && 0 < S(i + 2) < 32 && 0 < S(i + 3) < 32
    requires a == Macro(CodeMix(i, r.b, r.c, r.d), r.a, r.b, X(block, K(i)), T(i), S(i))
    requires d == Macro(CodeMix(i + 1, a, r.b, r.c), r.d, a, X(block, K(i + 1)), T(i + 1), S(i + 1))
    requires c == Macro(CodeMix(i + 2, d, a, r.b), r.c, d, X(block, K(i + 2)), T(i + 2), S(i + 2))
    requires b == Macro(CodeMix(i + 3, c, d, a), r.b, c, X(block, K(i + 3)), T(i + 3), S(i + 3))
    ensures Steps(start, block, i + 4) == Registers(a, b, c, d)
  {
    hide *;
    StepStores(i, r.a, r.b, r.c, r.d, X(block, K(i)));
    StepStores(i + 1, r.d, a, r.b, r.c, X(block, K(i + 1)));
    StepStores(i + 2, r.c, d, a, r.b, X(block, K(i + 2)));
    StepStores(i + 3, r.b, c, d, a, X(block, K(i + 3)));
    FourSteps(start, block, i, r, a, d, c, b);
  }

  lemma AuxiliaryOfRound()
    ensures forall i, x, y, z | 0 <= i < 16 :: CodeMix(i, x, y, z) == F(x, y, z)
    ensures forall i, x, y, z | 16 <= i < 32 :: CodeMix(i, x, y, z) == G(x, y, z)
    ensures forall i, x, y, z | 32 <= i < 48 :: CodeMix(i, x, y, z) == H(x, y, z)
    ensures forall i, x, y, z | 48 <= i < 64 :: CodeMix(i, x, y, z) == I(x, y, z)
  {
    hide F, G, H, I;
  }

  lemma Strides1()
    ensures K(0) == 0 && K(1) == 1 && K(2) == 2 && K(3) == 3
    ensures K(4) == 4 && K(5) == 5 && K(6) == 6 && K(7) == 7
    ensures K(8) == 8 && K(9) == 9 && K(10) == 10 && K(11) == 11
    ensures K(12) == 12 && K(13) == 13 && K(14) == 14 && K(15) == 15
  {
  }

  lemma Shifts1()
    ensures S(0) == 7 && S(1) == 12 && S(2) == 17 && S(3) == 22
    ensures S(4) == 7 && S(5) == 12 && S(6) == 17 && S(7) == 22
    ensures S(8) == 7 && S(9) == 12 && S(10) == 17 && S(11) == 22
    ensures S(12) == 7 && S(13) == 12 && S(14) == 17 && S(15) == 22
  {
  }

  lemma Constants1()
    ensures T(0) == 0xd76aa478 && T(1) == 0xe8c7b756 && T(2) == 0x242070db && T(3) == 0xc1bdceee
    ensures T(4) == 0xf57c0faf && T(5) == 0x4787c62a && T(6) == 0xa8304613 && T(7) == 0xfd469501
    ensures T(8) == 0x698098d8 && T(9) == 0x8b44f7af && T(10) == 0xffff5bb1 && T(11) == 0x895cd7be
    ensures T(12) == 0x6b901122 && T(13) == 0xfd987193 && T(14) == 0xa679438e && T(15) == 0x49b40821
  {
  }

  /** Round 1, written out step by step. */
  method Round1(block: Block, r: Registers, ghost start: Registers) returns (r': Registers)
    requires r == Steps(start, block, 0)
    ensures r' == Steps(start, block, 16)
  {
    hide *;
    Strides1();
    Shifts1();
    Constants1();
    AuxiliaryOfRound();
    var a, b, c, d := r.a, r.b, r.c, r.d;
    ghost var was := r;
    a := Macro(F(b, c, d), a, b, X(block, 0), 0xd76aa478, 7);
    d := Macro(F(a, b, c), d, a, X(block, 1), 0xe8c7b756, 12);
    c := Macro(F(d, a, b), c, d, X(block, 2), 0x242070db, 17);
    b := Macro(F(c, d, a), b, c, X(block, 3), 0xc1bdceee, 22);
    FourMacros(start, block, 0, was, a, d, c, b);
    was := Registers(a, b, c, d);
    a := Macro(F(b, c, d), a, b, X(block, 4), 0xf57c0faf, 7);
    d := Macro(F(a, b, c), d, a, X(block, 5), 0x4787c62a, 12);
    c := Macro(F(d, a, b), c, d, X(block, 6), 0xa8304613, 17);
    b := Macro(F(c, d, a), b, c, X(block, 7), 0xfd469501, 22);
    FourMacros(start, block, 4, was, a, d, c, b);
    was := Registers(a, b, c, d);
    a := Macro(F(b, c, d), a, b, X(block, 8), 0x698098d8, 7);
    d := Macro(F(a, b, c), d, a, X(block, 9), 0x8b44f7af, 12);
    c := Macro(F(d, a, b), c, d, X(block, 10), 0xffff5bb1, 17);
    b := Macro(F(c, d, a), b, c, X(block, 11), 0x895cd7be, 22);
    FourMacros(start, block, 8, was, a, d, c, b);
    was := Registers(a, b, c, d);
    a := Macro(F(b, c, d), a, b, X(block, 12), 0x6b901122, 7);
    d := Macro(F(a, b, c), d, a, X(block, 13), 0xfd987193, 12);
    c := Macro(F(d, a, b), c, d, X(block, 14), 0xa679438e, 17);
    b := Macro(F(c, d, a), b, c, X(block, 15), 0x49b40821, 22);
    FourMacros(start, block, 12, was, a, d, c, b);
    r' := Registers(a, b, c, d);
  }

  lemma Strides2()
    ensures K(16) == 1 && K(17) == 6 && K(18) == 11 && K(19) == 0
    ensures K(20) == 5 && K(21) == 10 && K(22) == 15 && K(23) == 4
    ensures K(24) == 9 && K(25) == 14 && K(26) == 3 && K(27) == 8
    ensures K(28) == 13 && K(29) == 2 && K(30) == 7 && K(31) == 12
  {
  }

  lemma Shifts2()
    ensures S(16) == 5 && S(17) == 9 && S(18) == 14 && S(19) == 20
    ensures S(20) == 5 && S(21) == 9 && S(22) == 14 && S(23) == 20
    ensures S(24) == 5 && S(25) == 9 && S(26) == 14 && S(27) == 20
    ensures S(28) == 5 && S(29) == 9 && S(30) == 14 && S(31) == 20
  {
  }

  lemma Constants2()
    ensures T(16) == 0xf61e2562 && T(17) == 0xc040b340 && T(18) == 0x265e5a51 && T(19) == 0xe9b6c7aa
    ensures T(20) == 0xd62f105d && T(21) == 0x02441453 && T(22) == 0xd8a1e681 && T(23) == 0xe7d3fbc8
    ensures T(24) == 0x21e1cde6 && T(25) == 0xc33707d6 && T(26) == 0xf4d50d87 && T(27) == 0x455a14ed
    ensures T(28) == 0xa9e3e905 && T(29) == 0xfcefa3f8 && T(30) == 0x676f02d9 && T(31) == 0x8d2a4c8a
  {
  }

  /** Round 2, written out step by step. */
  method Round2(block: Block, r: Registers, ghost start: Registers) returns (r': Registers)
    requires r == Steps(start, block, 16)
    ensures r' == Steps(start, block, 32)
  {
    hide *;
    Strides2();
    Shifts2();
    Constants2();
    AuxiliaryOfRound();
    var a, b, c, d := r.a, r.b, r.c, r.d;
    ghost var was := r;
    a := Macro(G(b, c, d), a, b, X(block, 1), 0xf61e2562, 5);
    d := Macro(G(a, b, c), d, a, X(block, 6), 0xc040b340, 9);
    c := Macro(G(d, a, b), c, d, X(block, 11), 0x265e5a51, 14);
    b := Macro(G(c, d, a), b, c, X(block, 0), 0xe9b6c7aa, 20);
    FourMacros(start, block, 16, was, a, d, c, b);
    was := Registers(a, b, c, d);
    a := Macro(G(b, c, d), a, b, X(block, 5), 0xd62f105d, 5);
    d := Macro(G(a, b, c), d, a, X(block, 10), 0x02441453, 9);
    c := Macro(G(d, a, b), c, d, X(block, 15), 0xd8a1e681, 14);
    b := Macro(G(c, d, a), b, c, X(block, 4), 0xe7d3fbc8, 20);
    FourMacros(start, block, 20, was, a, d, c, b);
    was := Registers(a, b, c, d);
    a := Macro(G(b, c, d), a, b, X(block, 9), 0x21e1cde6, 5);
    d := Macro(G(a, b, c), d, a, X(block, 14), 0xc33707d6, 9);
    c := Macro(G(d, a, b), c, d, X(block, 3), 0xf4d50d87, 14);
    b := Macro(G(c, d, a), b, c, X(block, 8), 0x455a14ed, 20);
    FourMacros(start, block, 24, was, a, d, c, b);
    was := Registers(a, b, c, d);
    a := Macro(G(b, c, d), a, b, X(block, 13), 0xa9e3e905, 5);
    d := Macro(G(a, b, c), d, a, X(block, 2), 0xfcefa3f8, 9);
    c := Macro(G(d, a, b), c, d, X(block, 7), 0x676f02d9, 14);
    b := Macro(G(c, d, a), b, c, X(block, 12), 0x8d2a4c8a, 20);
    FourMacros(start, block, 28, was, a, d, c, b);
    r' := Registers(a, b, c, d);
  }

  lemma Strides3()
    ensures K(32) == 5 && K(33) == 8 && K(34) == 11 && K(35) == 14
    ensures K(36) == 1 && K(37) == 4 && K(38) == 7 && K(39) == 10
    ensures K(40) == 13 && K(41) == 0 && K(42) == 3 && K(43) == 6
    ensures K(44) == 9 && K(45) == 12 && K(46) == 15 && K(47) == 2
  {
  }

  lemma Shifts3()
    ensures S(32) == 4 && S(33) == 11 && S(34) == 16 && S(35) == 23
    ensures S(36) == 4 && S(37) == 11 && S(38) == 16 && S(39) == 23
    ensures S(40) == 4 && S(41) == 11 && S(42) == 16 && S(43) == 23
    ensures S(44) == 4 && S(45) == 11 && S(46) == 16 && S(47) == 23
  {
  }

  lemma Constants3()
    ensures T(32) == 0xfffa3942 && T(33) == 0x8771f681 && T(34) == 0x6d9d6122 && T(35) == 0xfde5380c
    ensures T(36) == 0xa4beea44 && T(37) == 0x4bdecfa9 && T(38) == 0xf6bb4b60 && T(39) == 0xbebfbc70
    ensures T(40) == 0x289b7ec6 && T(41) == 0xeaa127fa && T(42) == 0xd4ef3085 && T(43) == 0x04881d05
    ensures T(44) == 0xd9d4d039 && T(45) == 0xe6db99e5 && T(46) == 0x1fa27cf8 && T(47) == 0xc4ac5665
  {
  }

  /** Round 3, written out step by step. */
  method Round3(block: Block, r: Registers, ghost start: Registers) returns (r': Registers)
    requires r == Steps(start, block, 32)
    ensures r' == Steps(start, block, 48)
  {
    hide *;
    Strides3();
    Shifts3();
    Constants3();
    AuxiliaryOfRound();
    var a, b, c, d := r.a, r.b, r.c, r.d;
    ghost var was := r;
    a := Macro(H(b, c, d), a, b, X(block, 5), 0xfffa3942, 4);
    d := Macro(H(a, b, c), d, a, X(block, 8), 0x8771f681, 11);
    c := Macro(H(d, a, b), c, d, X(block, 11), 0x6d9d6122, 16);
    b := Macro(H(c, d, a), b, c, X(block, 14), 0xfde5380c, 23);
    FourMacros(start, block, 32, was, a, d, c, b);
    was := Registers(a, b, c, d);
    a := Macro(H(b, c, d), a, b, X(block, 1), 0xa4beea44, 4);
    d := Macro(H(a, b, c), d, a, X(block, 4), 0x4bdecfa9, 11);
    c := Macro(H(d, a, b), c, d, X(block, 7), 0xf6bb4b60, 16);
    b := Macro(H(c, d, a), b, c, X(block, 10), 0xbebfbc70, 23);
    FourMacros(start, block, 36, was, a, d, c, b);
    was := Registers(a, b, c, d);
    a := Macro(H(b, c, d), a, b, X(block, 13), 0x289b7ec6, 4);
    d := Macro(H(a, b, c), d, a, X(block, 0), 0xeaa127fa, 11);
    c := Macro(H(d, a, b), c, d, X(block, 3), 0xd4ef3085, 16);
    b := Macro(H(c, d, a), b, c, X(block, 6), 0x04881d05, 23);
    FourMacros(start, block, 40, was, a, d, c, b);
    was := Registers(a, b, c, d);
    a := Macro(H(b, c, d), a, b, X(block, 9), 0xd9d4d039, 4);
    d := Macro(H(a, b, c), d, a, X(block, 12), 0xe6db99e5, 11);
    c := Macro(H(d, a, b), c, d, X(block, 15), 0x1fa27cf8, 16);
    b := Macro(H(c, d, a), b, c, X(block, 2), 0xc4ac5665, 23);
    FourMacros(start, block, 44, was, a, d, c, b);
    r' := Registers(a, b, c, d);
  }

  lemma Strides4()
    ensures K(48) == 0 && K(49) == 7 && K(50) == 14 && K(51) == 5
    ensures K(52) == 12 && K(53) == 3 && K(54) == 10 && K(55) == 1
    ensures K(56) == 8 && K(57) == 15 && K(58) == 6 && K(59) == 13
    ensures K(60) == 4 && K(61) == 11 && K(62) == 2 && K(63) == 9
  {
  }

  lemma Shifts4()
    ensures S(48) == 6 && S(49) == 10 && S(50) == 15 && S(51) == 21
    ensures S(52) == 6 && S(53) == 10 && S(54) == 15 && S(55) == 21
    ensures S(56) == 6 && S(57) == 10 && S(58) == 15 && S(59) == 21
    ensures S(60) == 6 && S(61) == 10 && S(62) == 15 && S(63) == 21
  {
  }

  lemma Constants4()
    ensures T(48) == 0xf4292244 && T(49) == 0x432aff97 && T(50) == 0xab9423a7 && T(51) == 0xfc93a039
    ensures T(52) == 0x655b59c3 && T(53) == 0x8f0ccc92 && T(54) == 0xffeff47d && T(55) == 0x85845dd1
    ensures T(56) == 0x6fa87e4f && T(57) == 0xfe2ce6e0 && T(58) == 0xa3014314 && T(59) == 0x4e0811a1
    ensures T(60) == 0xf7537e82 && T(61) == 0xbd3af235 && T(62) == 0x2ad7d2bb && T(63) == 0xeb86d391
  {
  }

  /** Round 4, written out step by step. */
  method Round4(block: Block, r: Registers, ghost start: Registers) returns (r': Registers)
    requires r == Steps(start, block, 48)
    ensures r' == Steps(start, block, 64)
  {
    hide *;
    Strides4();
    Shifts4();
    Constants4();
    AuxiliaryOfRound();
    var a, b, c, d := r.a, r.b, r.c, r.d;
    ghost var was := r;
    a := Macro(I(b, c, d), a, b, X(block, 0), 0xf4292244, 6);
    d := Macro(I(a, b, c), d, a, X(block, 7), 0x432aff97, 10);
    c := Macro(I(d, a, b), c, d, X(block, 14), 0xab9423a7, 15);
    b := Macro(I(c, d, a), b, c, X(block, 5), 0xfc93a039, 21);
    FourMacros(start, block, 48, was, a, d, c, b);
    was := Registers(a, b, c, d);
    a := Macro(I(b, c, d), a, b, X(block, 12), 0x655b59c3, 6);
    d := Macro(I(a, b, c), d, a, X(block, 3), 0x8f0ccc92, 10);
    c := Macro(I(d, a, b), c, d, X(block, 10), 0xffeff47d, 15);
    b := Macro(I(c, d, a), b, c, X(block, 1), 0x85845dd1, 21);
    FourMacros(start, block, 52, was, a, d, c, b);
    was := Registers(a, b, c, d);
    a := Macro(I(b, c, d), a, b, X(block, 8), 0x6fa87e4f, 6);
    d := Macro(I(a, b, c), d, a, X(block, 15), 0xfe2ce6e0, 10);
    c := Macro(I(d, a, b), c, d, X(block, 6), 0xa3014314, 15);
    b := Macro(I(c, d, a), b, c, X(block, 13), 0x4e0811a1, 21);
    FourMacros(start, block, 56, was, a, d, c, b);
    was := Registers(a, b, c, d);
    a := Macro(I(b, c, d), a, b, X(block, 4), 0xf7537e82, 6);
    d := Macro(I(a, b, c), d, a, X(block, 11), 0xbd3af235, 10);
    c := Macro(I(d, a, b), c, d, X(block, 2), 0x2ad7d2bb, 15);
    b := Macro(I(c, d, a), b, c, X(block, 9), 0xeb86d391, 21);
    FourMacros(start, block, 60, was, a, d, c, b);
    r' := Registers(a, b, c, d);
  }

  /** One block of the body loop: four rounds, then the saved registers are added. */
  method BodyBlock(block: Block, r: Registers) returns (r': Registers)
    ensures r' == Compress(r, block)
  {
    hide Add, Step;
    r' := Round1(block, r, r);
    r' := Round2(block, r', r);
    r' := Round3(block, r', r);
    r' := Round4(block, r', r);
    r' := Plus(r', r);
  }
}
