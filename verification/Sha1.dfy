/** The hash function of section 6.1.2 of FIPS 180-4, with the 80-word message schedule. */
module Sha1Standard {
  import opened Common

  type Byte = bv8
  type Word = bv32

  /** Addition modulo 2^32. */
  function Add(x: Word, y: Word): Word {
    x + y
  }

  function Sum(u: Word, v: Word, x: Word, y: Word, z: Word): Word {
    u + v + x + y + z
  }

  function Rotl1(x: Word): Word {
    (x << 1) | (x >> 31)
  }

  function Rotl5(x: Word): Word {
    (x << 5) | (x >> 27)
  }

  function Rotl30(x: Word): Word {
    (x << 30) | (x >> 2)
  }

  /** Section 4.1.1. */
  function F(t: nat, x: Word, y: Word, z: Word): Word {
    if t < 20 then (x & y) ^ ((!x) & z)
    else if t < 40 then x ^ y ^ z
    else if t < 60 then (x & y) ^ (x & z) ^ (y & z)
    else x ^ y ^ z
  }

  /** Section 4.2.1. */
  function K(t: nat): Word {
    if t < 20 then 0x5A827999 else if t < 40 then 0x6ED9EBA1 else if t < 60 then 0x8F1BBCDC else 0xCA62C1D6
  }

  /** The message schedule of a block of 16 words. */
  function W(m: seq<Word>, t: nat): Word
    requires |m| == 16
  {
    if t < 16 then m[t] else Rotl1(W(m, t - 3) ^ W(m, t - 8) ^ W(m, t - 14) ^ W(m, t - 16))
  }

  /** The five working variables. */
  datatype Regs = Regs(a: Word, b: Word, c: Word, d: Word, e: Word)

  function T(t: nat, r: Regs, w: Word): Word {
    Sum(Rotl5(r.a), F(t, r.b, r.c, r.d), r.e, K(t), w)
  }

  function Round(t: nat, r: Regs, w: Word): Regs {
    Regs(T(t, r, w), r.a, Rotl30(r.b), r.c, r.d)
  }

  /** The working variables after the first n rounds. */
  function Rounds(h: Regs, m: seq<Word>, n: nat): Regs
    requires |m| == 16
  {
    if n == 0 then h else Round(n - 1, Rounds(h, m, n - 1), W(m, n - 1))
  }

  function Compress(h: Regs, m: seq<Word>): Regs
    requires |m| == 16
  {
    var r := Rounds(h, m, 80);
    Regs(Add(h.a, r.a), Add(h.b, r.b), Add(h.c, r.c), Add(h.d, r.d), Add(h.e, r.e))
  }

  const H0: Regs := Regs(0x67452301, 0xEFCDAB89, 0x98BADCFE, 0x10325476, 0xC3D2E1F0)

  function BigEndian(b0: Byte, b1: Byte, b2: Byte, b3: Byte): Word {
    ((b0 as Word) << 24) | ((b1 as Word) << 16) | ((b2 as Word) << 8) | (b3 as Word)
  }

  /** A block of 64 bytes as 16 words. */
  function BlockWords(b: seq<Byte>): (m: seq<Word>)
    requires |b| == 64
    ensures |m| == 16 && forall i :: 0 <= i < 16 ==> m[i] == BigEndian(b[4 * i], b[4 * i + 1], b[4 * i + 2], b[4 * i + 3])
  {
    seq(16, i requires 0 <= i < 16 => BigEndian(b[4 * i], b[4 * i + 1], b[4 * i + 2], b[4 * i + 3]))
  }

  /** The hash value after the first n blocks of the data. */
  function Blocks(data: seq<Byte>, n: nat): Regs
    requires 64 * n <= |data|
  {
    if n == 0 then H0 else Compress(Blocks(data, n - 1), BlockWords(data[64 * (n - 1)..64 * n]))
  }

  function Zeros(k: nat): seq<Byte> {
    seq(k, _ => 0)
  }

  /** Byte i of the 64-bit big-endian form of a number. */
  function LengthByte(bits: nat, i: nat): Byte
    requires i < 8
  {
    (bits / Pow256(7 - i) % 256) as Byte
  }

  function LengthBytes(bits: nat): (s: seq<Byte>)
    ensures |s| == 8 && forall i :: 0 <= i < 8 ==> s[i] == LengthByte(bits, i)
  {
    seq(8, i requires 0 <= i < 8 => LengthByte(bits, i))
  }

  /** The number of zero bytes that fill the last block but for the length. */
  function PadZeros(n: nat): (k: nat)
    ensures k < 64 && (n + 1 + k) % 64 == 56
  {
    (119 - n % 64) % 64
  }

  /** Section 5.1.1. */
  function Pad(message: seq<Byte>): (p: seq<Byte>)
    ensures |p| % 64 == 0
  {
    message + [0x80] + Zeros(PadZeros(|message|)) + LengthBytes(8 * |message|)
  }

  /** Byte k of a word, most significant first. */
  function ByteOf(w: Word, k: nat): Byte
    requires k < 4
  {
    (match k
     case 0 => (w >> 24) & 255
     case 1 => (w >> 16) & 255
     case 2 => (w >> 8) & 255
     case 3 => w & 255) as Byte
  }

  function RegWord(r: Regs, i: nat): Word
    requires i < 5
  {
    match i case 0 => r.a case 1 => r.b case 2 => r.c case 3 => r.d case 4 => r.e
  }

  function Digest(r: Regs): (s: seq<Byte>)
    ensures |s| == 20 && forall i :: 0 <= i < 20 ==> s[i] == ByteOf(RegWord(r, i / 4), i % 4)
  {
    seq(20, i requires 0 <= i < 20 => ByteOf(RegWord(r, i / 4), i % 4))
  }

  function Hash(message: seq<Byte>): seq<Byte> {
    var p := Pad(message);
    Digest(Blocks(p, |p| / 64))
  }
}

/** The 64-bit bit counter of the SHA-1 context, kept in two 32-bit words (src/WjCryptLib_Sha1.c:195-201,
    237-241). */
module Sha1Counter {
  import opened ModArith
  import FFMod

  const WORD: nat := 0x1_0000_0000
  const DWORD: nat := 0x1_0000_0000_0000_0000

  /** Count[1] and Count[0] together. */
  function Total(count1: nat, count0: nat): nat {
    count1 * WORD + count0
  }

  /** The two words hold the number of bits modulo 2^64. */
  ghost predicate Counts(count1: nat, count0: nat, bytes: nat) {
    count0 < WORD && count1 < WORD && Cong(Total(count1, count0), 8 * bytes, DWORD)
  }

  /** Count[0] += size << 3 with its carry, and Count[1] += size >> 29. */
  function AddCount(count1: nat, count0: nat, size: nat): (c: (nat, nat)) {
    var low := 8 * size % WORD;
    var sum := (count0 + low) % WORD;
    var carry := if sum < low then 1 else 0;
    (((count1 + carry) % WORD + size / 0x2000_0000) % WORD, sum)
  }

  lemma WrapTwice(x: nat, y: nat)
    ensures (x % WORD + y) % WORD == (x + y) % WORD
  {
  }

  lemma EightTimes(size: nat)
    ensures 8 * size == (size / 0x2000_0000) * WORD + 8 * size % WORD
  {
    FFMod.QuotientUnique(8 * size, WORD, size / 0x2000_0000, 8 * (size % 0x2000_0000));
  }

  /** The sum of two words is smaller than the second one exactly when it wraps. */
  lemma CarryOut(x: nat, y: nat)
    requires x < WORD && y < WORD
    ensures x + y == (if (x + y) % WORD < y then 1 else 0) * WORD + (x + y) % WORD
  {
  }

  lemma AddCountCounts(count1: nat, count0: nat, bytes: nat, size: nat)
    requires Counts(count1, count0, bytes) && size < WORD
    ensures var c := AddCount(count1, count0, size); Counts(c.0, c.1, bytes + size)
  {
    hide Cong;
    var low, high := 8 * size % WORD, size / 0x2000_0000;
    EightTimes(size);
    var sum := (count0 + low) % WORD;
    var carry := if sum < low then 1 else 0;
    CarryOut(count0, low);
    WrapTwice(count1 + carry, high);
    var h := count1 + carry + high;
    var q, t := h / WORD, Total(h % WORD, sum);
    assert h == q * WORD + h % WORD;
    CongIntro(t, Total(count1, count0) + 8 * size, -q, DWORD);
    CongRefl(8 * size, DWORD);
    CongAdd(Total(count1, count0), 8 * bytes, 8 * size, 8 * size, DWORD);
    CongTrans(t, Total(count1, count0) + 8 * size, 8 * bytes + 8 * size, DWORD);
  }

  /** (Count[0] >> 3) & 63 is the number of bytes in the buffer. */
  lemma BufferedBytes(count1: nat, count0: nat, bytes: nat)
    requires Counts(count1, count0, bytes)
    ensures count0 / 8 % 64 == bytes % 64
  {
    var k := CongElim(Total(count1, count0), 8 * bytes, DWORD);
    var t := k * 0x80_0000_0000_0000 - count1 * 0x80_0000;
    assert count0 == 8 * bytes + 512 * t;
    FFMod.QuotientUnique(count0, 8, bytes + 64 * t, 0);
    FFMod.QuotientUnique(bytes + 64 * t, 64, bytes / 64 + t, bytes % 64);
  }

  /** Below 2^61 bytes the counter is exact. */
  lemma ExactTotal(count1: nat, count0: nat, bytes: nat)
    requires Counts(count1, count0, bytes) && 8 * bytes < DWORD
    ensures Total(count1, count0) == 8 * bytes
  {
  }

  /** Dividing by a factor of 2^32 up to 2^24 leaves the low byte to Count[0]. */
  lemma LowByte(count1: nat, count0: nat, d: nat, e: nat)
    requires d > 0 && d * (256 * e) == WORD
    ensures Total(count1, count0) / d % 256 == count0 / d % 256
  {
    var q, r := count0 / d, count0 % d;
    assert count0 == q * d + r;
    var p := count1 * e * 256 + q;
    assert Total(count1, count0) == p * d + r by {
      assert count1 * WORD == count1 * (d * (256 * e));
      assert count1 * (d * (256 * e)) == (count1 * e * 256) * d;
      assert p * d == (count1 * e * 256) * d + q * d;
    }
    FFMod.QuotientUnique(Total(count1, count0), d, p, r);
    CongIntro(p, q, count1 * e, 256);
    CongModEq(p, q, 256);
  }

  /** Dividing by a multiple of 2^32 leaves Count[1] alone. */
  lemma HighByte(count1: nat, count0: nat, d: nat)
    requires d > 0 && count0 < WORD
    ensures Total(count1, count0) / (WORD * d) == count1 / d
  {
    var q, r := count1 / d, count1 % d;
    assert count1 == q * d + r;
    var rest := r * WORD + count0;
    assert Total(count1, count0) == q * (WORD * d) + rest by {
      assert q * (WORD * d) == (q * d) * WORD;
    }
    MulMono(r + 1, d, WORD);
    assert rest < WORD * d;
    FFMod.QuotientUnique(Total(count1, count0), WORD * d, q, rest);
  }
}
