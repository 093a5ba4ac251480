/** The streaming MD5 hasher: a context with a byte counter split over two words and a 64-byte
    buffer.  The digest of section 3 of RFC 1321 is the specification.  */
module Md5 {
  import opened Basics
  import opened Md5Rounds

  // ---------- the digest of a whole message ----------

  const IV := Registers(0x67452301, 0xefcdab89, 0x98badcfe, 0x10325476)

  /** Absorb the whole blocks of the data, first to last; an incomplete last block is left out. */
  function Absorb(r: Registers, data: seq<Byte>): Registers
    decreases |data|
  {
    if |data| < 64 then r else Absorb(Compress(r, data[..64]), data[64..])
  }

  /** The low k bytes of n, lowest first. */
  function LittleEndian(n: nat, k: nat): (r: seq<Byte>)
    ensures |r| == k
  {
    if k == 0 then [] else [n % 256] + LittleEndian(n / 256, k - 1)
  }

  function Zeros(n: nat): (r: seq<Byte>)
    ensures |r| == n && forall i | 0 <= i < n :: r[i] == 0
  {
    seq(n, _ => 0)
  }

  const TWO29: nat := 0x2000_0000
  const TWO32: nat := 0x1_0000_0000
  const TWO64: nat := 0x1_0000_0000_0000_0000

  /** The fewest zero bytes that, after the byte 0x80, leave room for eight bytes in a block. */
  function ZerosNeeded(length: nat): (z: nat)
    ensures z < 64 && (length + 1 + z + 8) % 64 == 0
  {
    var m := length % 64;
    if m < 56 then 55 - m else 119 - m
  }

  /** Sections 3.1 and 3.2: one byte 0x80, zeros, and the length in bits modulo 2^64. */
  function Padding(length: nat): (r: seq<Byte>)
    ensures (length + |r|) % 64 == 0
  {
    var r := [0x80] + Zeros(ZerosNeeded(length)) + LittleEndian(8 * length % TWO64, 8);
    assert |r| == 1 + ZerosNeeded(length) + 8;
    r
  }

  function Padded(message: seq<Byte>): (r: seq<Byte>)
    ensures |r| % 64 == 0
  {
    message + Padding(|message|)
  }

  function WordBytes(w: Word): seq<Byte> {
    LittleEndian(w as int, 4)
  }

  function Output(r: Registers): (bytes: seq<Byte>)
    ensures |bytes| == 16
  {
    WordBytes(r.a) + WordBytes(r.b) + WordBytes(r.c) + WordBytes(r.d)
  }

  function Digest(message: seq<Byte>): seq<Byte> {
    Output(Absorb(IV, Padded(message)))
  }

  lemma {:induction false} AbsorbConcat(r: Registers, x: seq<Byte>, y: seq<Byte>)
    requires |x| % 64 == 0
    ensures Absorb(r, x + y) == Absorb(Absorb(r, x), y)
    decreases |x|
  {
    hide Compress;
    if x == [] {
      assert x + y == y;
    } else {
      assert (x + y)[..64] == x[..64] && (x + y)[64..] == x[64..] + y;
      AbsorbConcat(Compress(r, x[..64]), x[64..], y);
    }
  }

  // ---------- the padding tells messages apart ----------

  lemma {:induction false} LittleEndianInjective(m: nat, n: nat, k: nat)
    requires LittleEndian(m, k) == LittleEndian(n, k)
    requires m < Pow256(k) && n < Pow256(k)
    ensures m == n
  {
    if k > 0 {
      assert LittleEndian(m, k)[0] == LittleEndian(n, k)[0];
      assert LittleEndian(m, k)[1..] == LittleEndian(m / 256, k - 1);
      assert LittleEndian(n, k)[1..] == LittleEndian(n / 256, k - 1);
      LittleEndianInjective(m / 256, n / 256, k - 1);
    }
  }

  function Pow256(k: nat): nat {
    if k == 0 then 1 else 256 * Pow256(k - 1)
  }

  lemma Pow256Of8()
    ensures Pow256(8) == TWO64
  {
    assert Pow256(2) == 0x10000;
    assert Pow256(4) == 0x10000 * 0x10000;
    assert Pow256(6) == 0x10000 * 0x10000 * 0x10000;
  }

  lemma PaddedEnds(x: seq<Byte>)
    requires |x| < TWO64 / 8
    ensures |Padded(x)| >= 8 && Padded(x)[|Padded(x)| - 8..] == LittleEndian(8 * |x|, 8)
  {
    assert 8 * |x| % TWO64 == 8 * |x|;
    var head := x + ([0x80] + Zeros(ZerosNeeded(|x|)));
    assert Padded(x) == head + LittleEndian(8 * |x|, 8);
  }

  /** Messages shorter than 2^61 bytes are padded to the same blocks only if they are equal. */
  lemma PaddedInjective(x: seq<Byte>, y: seq<Byte>)
    requires |x| < TWO64 / 8 && |y| < TWO64 / 8
    ensures Padded(x) == Padded(y) <==> x == y
  {
    if Padded(x) == Padded(y) {
      PaddedEnds(x);
      PaddedEnds(y);
      Pow256Of8();
      LittleEndianInjective(8 * |x|, 8 * |y|, 8);
      assert x == Padded(x)[..|x|] && y == Padded(y)[..|y|];
    }
  }

  // ---------- the context ----------

  /** The bytes of the message that do not fill a block. */
  function Tail(message: seq<Byte>): (r: seq<Byte>)
    ensures |r| == |message| % 64
  {
    message[|message| - |message| % 64..]
  }

  function Whole(message: seq<Byte>): (r: seq<Byte>)
    ensures |r| % 64 == 0 && r + Tail(message) == message
  {
    message[..|message| - |message| % 64]
  }

  lemma AbsorbWhole(r: Registers, data: seq<Byte>)
    ensures Absorb(r, data) == Absorb(r, Whole(data))
  {
    hide Compress;
    AbsorbConcat(r, Whole(data), Tail(data));
  }

  lemma NoCarry(hi: nat)
    requires hi < TWO32
    ensures (hi + 0) % TWO32 == hi
  {
  }

  lemma LowBits(n: nat)
    ensures n % TWO29 % 64 == n % 64
  {
    assert n == TWO29 * (n / TWO29) + n % TWO29;
  }

  /** The 64-bit sum that is masked may wrap; its low 29 bits do not notice. */
  lemma WideSum(x: nat)
    ensures x % TWO64 % TWO29 == x % TWO29
  {
    assert x == TWO64 * (x / TWO64) + x % TWO64;
    assert TWO64 == TWO29 * 0x8_0000_0000;
  }

  /** The two counters of a context that has hashed n bytes move on together. */
  lemma CounterAdvances(n: nat, size: nat)
    ensures var lo := n % TWO29;
      var lo' := (lo + size) % TWO29;
      var carry := if lo' < lo then 1 else 0;
      && lo' == (n + size) % TWO29
      && ((n / TWO29 % TWO32 + carry) % TWO32 + size / TWO29) % TWO32 == (n + size) / TWO29 % TWO32
  {
    var lo, q, r := n % TWO29, size / TWO29, size % TWO29;
    assert n == TWO29 * (n / TWO29) + lo && size == TWO29 * q + r;
    var carry := if lo + r < TWO29 then 0 else 1;
    assert n + size == TWO29 * (n / TWO29 + q + carry) + (lo + r - TWO29 * carry);
    assert lo + size == TWO29 * (q + carry) + (lo + r - TWO29 * carry);
    assert (n + size) / TWO29 == n / TWO29 + q + carry;
  }

  /** The two words that MD5_Final stores are the length in bits modulo 2^64, lowest byte first. */
  lemma LengthBytes(n: nat)
    ensures var lo, hi := 8 * (n % TWO29), n / TWO29 % TWO32;
      LittleEndian(8 * n % TWO64, 8) == LittleEndian(lo, 4) + LittleEndian(hi, 4) && lo < TWO32
  {
    var lo, hi := 8 * (n % TWO29), n / TWO29 % TWO32;
    assert n == TWO29 * (n / TWO29) + n % TWO29;
    assert 8 * n % TWO64 == TWO32 * hi + lo;
    EightBytes(lo, hi);
    FourBytes(lo);
    FourBytes(hi);
  }

  lemma FourBytes(w: nat)
    ensures LittleEndian(w, 4) == [w % 256, w / 0x100 % 256, w / 0x10000 % 256, w / 0x1000000 % 256]
  {
    assert LittleEndian(w / 0x1000000, 1) == [w / 0x1000000 % 256];
    assert LittleEndian(w / 0x10000, 2) == [w / 0x10000 % 256, w / 0x1000000 % 256];
    assert LittleEndian(w / 0x100, 3) == [w / 0x100 % 256, w / 0x10000 % 256, w / 0x1000000 % 256];
  }

  lemma EightBytes(lo: nat, hi: nat)
    requires lo < TWO32
    ensures LittleEndian(TWO32 * hi + lo, 8)
         == [lo % 256, lo / 0x100 % 256, lo / 0x10000 % 256, lo / 0x1000000 % 256,
             hi % 256, hi / 0x100 % 256, hi / 0x10000 % 256, hi / 0x1000000 % 256]
  {
    hide LittleEndian;
    FourBytes(hi);
    NextByte(0x1000000 * hi, lo, 8);
    NextByte(0x10000 * hi, lo / 0x100, 7);
    NextByte(0x100 * hi, lo / 0x10000, 6);
    NextByte(hi, lo / 0x1000000, 5);
  }

  lemma NextByte(q: nat, x: nat, k: nat)
    requires k > 0
    ensures LittleEndian(0x100 * q + x, k) == [x % 0x100] + LittleEndian(q + x / 0x100, k - 1)
  {
    hide LittleEndian;
    OneByte(0x100 * q + x, k);
  }

  lemma OneByte(n: nat, k: nat)
    requires k > 0
    ensures LittleEndian(n, k) == [n % 256] + LittleEndian(n / 256, k - 1)
  {
  }

  class Context {
    var lo: nat
    var hi: nat
    var a: Word
    var b: Word
    var c: Word
    var d: Word
    const buffer: array<Byte>

    /** Everything hashed since Init. */
    ghost var message: seq<Byte>

    function Regs(): Registers
      reads this
    {
      Registers(a, b, c, d)
    }

    /** lo and hi count the bytes modulo 2^61, the registers have absorbed the whole blocks and the
        buffer begins with the bytes that do not yet fill one. */
    ghost predicate Valid()
      reads this, buffer
    {
      && buffer.Length == 64
      && lo == |message| % TWO29 && hi == |message| / TWO29 % TWO32
      && Regs() == Absorb(IV, message)
      && buffer[..|message| % 64] == Tail(message)
    }

    constructor Init()
      ensures Valid() && fresh(buffer) && message == []
    {
      lo, hi := 0, 0;
      a, b, c, d := 0x67452301, 0xefcdab89, 0x98badcfe, 0x10325476;
      buffer := new Byte[64];
      message := [];
    }

    /** Process one or more whole blocks. */
    method Body(data: seq<Byte>)
      requires data != [] && |data| % 64 == 0
      modifies this`a, this`b, this`c, this`d
      ensures Regs() == Absorb(old(Regs()), data)
    {
      hide Compress;
      var r := Regs();
      var ptr := 0;
      var size := |data|;
      while size != 0
        invariant 0 <= ptr && 0 <= size && ptr + size == |data| && size % 64 == 0
        invariant Absorb(r, data[ptr..]) == Absorb(old(Regs()), data)
      {
        var block := data[ptr..ptr + 64];
        assert data[ptr..][..64] == block && data[ptr..][64..] == data[ptr + 64..];
        r := BodyBlock(block, r);
        ptr := ptr + 64;
        size := size - 64;
      }
      a, b, c, d := r.a, r.b, r.c, r.d;
    }

    /** memcpy into the buffer. */
    method CopyIn(at: nat, data: seq<Byte>)
      requires at + |data| <= buffer.Length
      modifies buffer
      ensures buffer[..] == old(buffer[..at]) + data + old(buffer[at + |data|..])
    {
      for i := 0 to |data|
        invariant forall k | at <= k < at + i :: buffer[k] == data[k - at]
        invariant forall k | 0 <= k < buffer.Length && !(at <= k < at + i) :: buffer[k] == old(buffer[k])
      {
        buffer[at + i] := data[i];
      }
      Overwritten(old(buffer[..]), buffer[..], at, data);
    }

    /** Add `size` to the split byte counter. */
    method Count(size: nat)
      requires lo == |message| % TWO29 && hi == |message| / TWO29 % TWO32 && size < TWO64
      modifies this`lo, this`hi
      ensures lo == (|message| + size) % TWO29 && hi == (|message| + size) / TWO29 % TWO32
    {
      CounterAdvances(|message|, size);
      var savedLo := lo;
      WideSum(savedLo + size);
      lo := (savedLo + size) % TWO64 % TWO29;
      NoCarry(hi);
      if lo < savedLo {
        hi := (hi + 1) % TWO32;
      }
      hi := (hi + size / TWO29) % TWO32;
    }

    method Update(data: seq<Byte>)
      requires Valid() && |data| < TWO64
      modifies this, buffer
      ensures Valid() && message == old(message) + data
    {
      hide Absorb, Tail;
      ghost var before := message;
      LowBits(|before|);
      var used := lo % 64;
      Count(|data|);
      message := message + data;
      var rest := data;
      if used == 0 {
        AbsorbConcat(IV, before, data);
        TailOfConcat(before, data);
      } else {
        var free := 64 - used;
        if |data| < free {
          ShortUpdate(before, data);
          CopyIn(used, data);
          assert buffer[..used + |data|] == old(buffer[..used]) + data;
          return;
        }
        rest := data[free..];
        CopyIn(used, data[..free]);
        assert buffer[..] == Tail(before) + data[..free];
        Body(buffer[..]);
        FilledBlock(before, data[..free], rest);
        assert data[..free] + rest == data;
      }
      FinishUpdate(rest);
    }

    /** Absorb the whole blocks of the data and keep what is left in the buffer. */
    method FinishUpdate(rest: seq<Byte>)
      requires buffer.Length == 64
      requires lo == |message| % TWO29 && hi == |message| / TWO29 % TWO32
      requires Absorb(Regs(), rest) == Absorb(IV, message) && Tail(message) == Tail(rest)
      modifies this`a, this`b, this`c, this`d, buffer
      ensures Valid()
    {
      hide Absorb;
      var left := rest;
      if |rest| >= 64 {
        var n := |rest| - |rest| % 64;
        AbsorbWhole(Regs(), rest);
        Body(rest[..n]);
        left := rest[n..];
      } else {
        AbsorbShort(Regs(), rest);
      }
      CopyIn(0, left);
      assert left == Tail(message);
      assert buffer[..|left|] == left;
    }

    /** Pad, absorb what is left, write the digest and wipe the context. */
    method Final(result: array<Byte>)
      requires Valid() && result.Length == 16 && result != buffer
      modifies this, buffer, result
      ensures result[..] == Digest(old(message))
      ensures lo == hi == 0 && Regs() == Registers(0, 0, 0, 0) && forall i | 0 <= i < 64 :: buffer[i] == 0
    {
      hide Absorb, Output, Padded;
      var used := PutMark();
      AbsorbPadding(used);
      WriteDigest(result);
      lo, hi, a, b, c, d, message := 0, 0, 0, 0, 0, 0, [];
      Clear(0, 64);
    }

    /** The byte 0x80 goes right after the buffered tail. */
    method PutMark() returns (used: nat)
      requires Valid()
      modifies buffer
      ensures used == |message| % 64 + 1 && buffer[..used] == Tail(message) + [0x80]
    {
      hide Absorb, Tail;
      LowBits(|message|);
      used := lo % 64;
      ghost var tail := Tail(message);
      assert buffer[..used] == tail;
      CopyIn(used, [0x80]);
      used := used + 1;
    }

    /** Zeros and the length follow; if they do not fit, the buffer is absorbed in between. */
    method AbsorbPadding(filled: nat)
      requires buffer.Length == 64 && lo == |message| % TWO29 && hi == |message| / TWO29 % TWO32
      requires Regs() == Absorb(IV, message)
      requires filled == |message| % 64 + 1 && buffer[..filled] == Tail(message) + [0x80]
      modifies this`lo, this`a, this`b, this`c, this`d, buffer
      ensures Regs() == Absorb(IV, Padded(message))
    {
      hide Absorb, LittleEndian, Tail, Zeros, LastPart, Padded;
      ghost var length := LittleEndian(8 * |message| % TWO64, 8);
      AbsorbLastPart(message);
      LengthBytes(|message|);
      var used := filled;
      var free := 64 - used;
      if free < 8 {
        LastPartTwo(message, free, length);
        Clear(used, free);
        assert buffer[..] == LastPart(message)[..64];
        Body(buffer[..]);
        used := 0;
        free := 64;
        assert buffer[..used] == [];
        assert [] + Zeros(56) + length == LastPart(message)[64..];
      } else {
        LastPartOne(message, free - 8, length);
      }
      ghost var head := buffer[..used];
      Clear(used, free - 8);
      assert buffer[..56] == head + Zeros(free - 8);
      lo := lo * 8 % TWO32;
      PutLength(length);
      assert buffer[..] == LastPart(message)[|LastPart(message)| - 64..];
      Body(buffer[..]);
    }

    method PutLength(ghost length: seq<Byte>)
      requires buffer.Length == 64 && length == LittleEndian(lo, 4) + LittleEndian(hi, 4)
      modifies buffer
      ensures buffer[..] == old(buffer[..56]) + length
    {
      hide LittleEndian;
      PutWord(buffer, 56, lo);
      Associative(old(buffer[..56]), LittleEndian(lo, 4), LittleEndian(hi, 4));
      PutWord(buffer, 60, hi);
      assert buffer[..64] == buffer[..];
    }

    method WriteDigest(result: array<Byte>)
      requires result.Length == 16
      modifies result
      ensures result[..] == Output(Regs())
    {
      hide LittleEndian;
      PutWord(result, 0, a as int);
      assert result[..4] == WordBytes(a);
      PutWord(result, 4, b as int);
      assert result[..8] == WordBytes(a) + WordBytes(b);
      PutWord(result, 8, c as int);
      assert result[..12] == WordBytes(a) + WordBytes(b) + WordBytes(c);
      PutWord(result, 12, d as int);
      assert result[..16] == result[..];
    }

    /** memset to zero inside the buffer. */
    method Clear(at: nat, n: nat)
      requires at + n <= buffer.Length
      modifies buffer
      ensures buffer[..] == old(buffer[..at]) + Zeros(n) + old(buffer[at + n..])
    {
      for i := 0 to n
        invariant forall k | at <= k < at + i :: buffer[k] == 0
        invariant forall k | 0 <= k < buffer.Length && !(at <= k < at + i) :: buffer[k] == old(buffer[k])
      {
        buffer[at + i] := 0;
      }
      Overwritten(old(buffer[..]), buffer[..], at, Zeros(n));
    }
  }

  lemma Overwritten(before: seq<Byte>, after: seq<Byte>, at: nat, data: seq<Byte>)
    requires |after| == |before| && at + |data| <= |before|
    requires forall k | at <= k < at + |data| :: after[k] == data[k - at]
    requires forall k | 0 <= k < |before| && !(at <= k < at + |data|) :: after[k] == before[k]
    ensures after == before[..at] + data + before[at + |data|..]
  {
  }

  /** Store a 32-bit word, lowest byte first. */
  method PutWord(buf: array<Byte>, at: nat, w: nat)
    requires at + 4 <= buf.Length
    modifies buf
    ensures buf[..] == old(buf[..at]) + LittleEndian(w, 4) + old(buf[at + 4..])
    ensures buf[..at + 4] == old(buf[..at]) + LittleEndian(w, 4)
  {
    hide LittleEndian;
    FourBytes(w);
    buf[at] := w % 256;
    buf[at + 1] := w / 0x100 % 256;
    buf[at + 2] := w / 0x10000 % 256;
    buf[at + 3] := w / 0x1000000 % 256;
  }

  /** What is absorbed after the whole blocks of the message: one or two blocks. */
  function LastPart(m: seq<Byte>): (r: seq<Byte>)
    ensures |r| == if |m| % 64 < 56 then 64 else 128
  {
    Tail(m) + Padding(|m|)
  }

  lemma Halves<T>(p: seq<T>, q: seq<T>)
    ensures (p + q)[..|p|] == p && (p + q)[|p|..] == q
  {
  }

  lemma ZerosSplit(i: nat, j: nat)
    ensures Zeros(i + j) == Zeros(i) + Zeros(j)
  {
  }

  lemma LastPartOne(m: seq<Byte>, z: nat, length: seq<Byte>)
    requires z == ZerosNeeded(|m|) && length == LittleEndian(8 * |m| % TWO64, 8)
    ensures LastPart(m) == Tail(m) + [0x80] + Zeros(z) + length
  {
    hide LittleEndian, Tail, Zeros, ZerosNeeded;
    Associative(Tail(m), [0x80] + Zeros(z), length);
    Associative(Tail(m), [0x80], Zeros(z));
  }

  lemma LastPartTwo(m: seq<Byte>, z: nat, length: seq<Byte>)
    requires z + 56 == ZerosNeeded(|m|) && length == LittleEndian(8 * |m| % TWO64, 8)
    ensures LastPart(m)[..64] == Tail(m) + [0x80] + Zeros(z) && LastPart(m)[64..] == Zeros(56) + length
  {
    hide LittleEndian, Tail, Zeros, LastPart;
    var first := Tail(m) + [0x80] + Zeros(z);
    LastPartOne(m, z + 56, length);
    ZerosSplit(z, 56);
    Associative(Tail(m) + [0x80], Zeros(z), Zeros(56));
    Associative(first, Zeros(56), length);
    Halves(first, Zeros(56) + length);
  }

  /** The padded message is the whole blocks followed by the last part. */
  lemma AbsorbLastPart(m: seq<Byte>)
    ensures Absorb(IV, Padded(m)) == Absorb(Absorb(IV, m), LastPart(m))
    ensures |LastPart(m)| == 128 ==>
      Absorb(IV, Padded(m)) == Absorb(Absorb(Absorb(IV, m), LastPart(m)[..64]), LastPart(m)[64..])
  {
    hide Absorb;
    Associative(Whole(m), Tail(m), Padding(|m|));
    AbsorbWhole(IV, m);
    AbsorbConcat(IV, Whole(m), LastPart(m));
    if |LastPart(m)| == 128 {
      AbsorbConcat(Absorb(IV, m), LastPart(m)[..64], LastPart(m)[64..]);
      assert LastPart(m) == LastPart(m)[..64] + LastPart(m)[64..];
    }
  }

  lemma AbsorbShort(r: Registers, data: seq<Byte>)
    requires |data| < 64
    ensures Absorb(r, data) == r
  {
  }

  lemma TailOfConcat(x: seq<Byte>, y: seq<Byte>)
    requires |x| % 64 == 0
    ensures Tail(x + y) == Tail(y)
  {
    assert |x + y| % 64 == |y| % 64;
  }

  lemma RemainderAdds(n: nat, k: nat)
    requires n % 64 + k < 64
    ensures (n + k) % 64 == n % 64 + k
  {
  }

  lemma ShortSplit(message: seq<Byte>, data: seq<Byte>)
    requires |message| % 64 + |data| < 64
    ensures Whole(message + data) == Whole(message) && Tail(message + data) == Tail(message) + data
  {
    RemainderAdds(|message|, |data|);
    var n := |message| - |message| % 64;
    assert |message + data| - |message + data| % 64 == n;
    assert (message + data)[..n] == message[..n];
    assert (message + data)[n..] == message[n..] + data;
  }

  lemma ShortUpdate(message: seq<Byte>, data: seq<Byte>)
    requires |message| % 64 + |data| < 64
    ensures Absorb(IV, message + data) == Absorb(IV, message) && Tail(message + data) == Tail(message) + data
  {
    hide Absorb, Whole, Tail;
    ShortSplit(message, data);
    AbsorbWhole(IV, message);
    AbsorbWhole(IV, message + data);
  }

  /** The buffered tail and `head` make whole blocks that are absorbed; `rest` follows. */
  lemma FilledBlock(message: seq<Byte>, head: seq<Byte>, rest: seq<Byte>)
    requires |Tail(message) + head| % 64 == 0
    ensures Absorb(Absorb(Absorb(IV, message), Tail(message) + head), rest) == Absorb(IV, message + (head + rest))
    ensures Tail(message + (head + rest)) == Tail(rest)
  {
    hide Absorb;
    var front := Whole(message) + (Tail(message) + head);
    Associative(Whole(message), Tail(message), head);
    Associative(message, head, rest);
    AbsorbWhole(IV, message);
    AbsorbConcat(IV, Whole(message), Tail(message) + head);
    AbsorbConcat(IV, front, rest);
    TailOfConcat(front, rest);
  }

  // ---------- whole messages and files ----------

  function Concat(chunks: seq<seq<Byte>>): seq<Byte> {
    if chunks == [] then [] else Concat(chunks[..|chunks| - 1]) + chunks[|chunks| - 1]
  }

  /** However a message is cut into Update calls, empty pieces included, the context ends up
      as after one call on the whole: same counters, registers and buffered tail. */
  method HashInPieces(chunks: seq<seq<Byte>>) returns (pieces: Context, whole: Context)
    requires forall k | 0 <= k < |chunks| :: |chunks[k]| < TWO64
    requires |Concat(chunks)| < TWO64
    ensures fresh(pieces) && fresh(whole) && pieces.Valid() && whole.Valid()
    ensures pieces.message == whole.message == Concat(chunks)
    ensures pieces.lo == whole.lo && pieces.hi == whole.hi && pieces.Regs() == whole.Regs()
    ensures pieces.buffer[..pieces.lo % 64] == whole.buffer[..whole.lo % 64]
  {
    hide Absorb, Tail;
    pieces := new Context.Init();
    for k := 0 to |chunks|
      invariant fresh(pieces) && fresh(pieces.buffer) && pieces.Valid()
      invariant pieces.message == Concat(chunks[..k])
    {
      pieces.Update(chunks[k]);
      assert chunks[..k + 1][..k] == chunks[..k];
    }
    assert chunks[..|chunks|] == chunks;
    whole := new Context.Init();
    whole.Update(Concat(chunks));
    assert [] + Concat(chunks) == Concat(chunks);
    LowBits(|Concat(chunks)|);
  }

  method Signature(key: seq<Byte>, result: array<Byte>)
    requires |key| < TWO64 && result.Length == 16
    modifies result
    ensures result[..] == Digest(key)
  {
    var ctx := new Context.Init();
    ctx.Update(key);
    assert [] + key == key;
    ctx.Final(result);
  }

  lemma SliceGrows(s: seq<Byte>, at: nat, n: nat)
    requires at + n <= |s|
    ensures s[..at] + s[at..at + n] == s[..at + n]
  {
  }

  /** Read the file in pieces of 1024 bytes until a read comes up short. */
  method FileDigest(content: seq<Byte>, result: array<Byte>)
    requires result.Length == 16
    modifies result
    ensures result[..] == Digest(content)
  {
    hide Digest, Absorb;
    var ctx := new Context.Init();
    var pos, good := 0, true;
    while good
      invariant 0 <= pos <= |content| && fresh(ctx) && fresh(ctx.buffer) && ctx.Valid()
      invariant ctx.message == content[..pos]
      invariant good || pos == |content|
      decreases |content| - pos, good
    {
      var length := if |content| - pos < 1024 then |content| - pos else 1024;
      ctx.Update(content[pos..pos + length]);
      SliceGrows(content, pos, length);
      pos := pos + length;
      good := length == 1024;
    }
    assert content[..pos] == content;
    ctx.Final(result);
  }

  const DIGITS: string := "0123456789abcdef"

  function HexText(bytes: seq<Byte>): (text: string)
    ensures |text| == 2 * |bytes|
  {
    if bytes == [] then "" else [DIGITS[bytes[0] / 16], DIGITS[bytes[0] % 16]] + HexText(bytes[1..])
  }

  lemma DigitsDiffer(i: nat, j: nat)
    requires i < 16 && j < 16 && DIGITS[i] == DIGITS[j]
    ensures i == j
  {
  }

  /** Files have the same stored text only if they have the same digest. */
  lemma {:induction false} HexTextInjective(x: seq<Byte>, y: seq<Byte>)
    ensures HexText(x) == HexText(y) <==> x == y
  {
    if HexText(x) == HexText(y) && x != [] {
      assert |x| == |y|;
      assert HexText(x)[0] == HexText(y)[0] && HexText(x)[1] == HexText(y)[1];
      DigitsDiffer(x[0] / 16, y[0] / 16);
      DigitsDiffer(x[0] % 16, y[0] % 16);
      assert HexText(x)[2..] == HexText(x[1..]) && HexText(y)[2..] == HexText(y[1..]);
      HexTextInjective(x[1..], y[1..]);
      assert x == [x[0]] + x[1..] && y == [y[0]] + y[1..];
    }
  }

  /** The text stored as a file's content_md5. */
  method FileDigestText(content: seq<Byte>) returns (text: string)
    ensures text == HexText(Digest(content)) && |text| == 32
  {
    hide Digest;
    var md5 := new Byte[16];
    FileDigest(content, md5);
    ghost var digest := md5[..];
    text := "";
    for i := 0 to 16
      invariant text + HexText(md5[i..]) == HexText(digest) && md5[..] == digest
    {
      text := text + [DIGITS[md5[i] / 16], DIGITS[md5[i] % 16]];
      assert md5[i..][1..] == md5[i + 1..];
    }
    assert text + "" == text;
  }
}
