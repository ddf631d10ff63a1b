/** SHA-1 as the library computes it: a 16-word schedule updated in place, working variables that
    swap roles instead of values, and updates of any size (src/WjCryptLib_Sha1.c). Words are 32 bits;
    the two words of the bit counter are integers with their wrap-around written out. */
module WjCryptSha1 {
  import opened Common
  import opened Sha1Standard
  import opened Sha1Counter

  // ---- one block ----

  /** The round functions as the macros R0 to R4 write them. */
  function RoundOp(t: nat, w: Word, x: Word, y: Word): Word {
    if t < 20 then (w & (x ^ y)) ^ y
    else if t < 40 then w ^ x ^ y
    else if t < 60 then ((w | x) & y) | (w & x)
    else w ^ x ^ y
  }

  lemma ChooseForms(w: Word, x: Word, y: Word)
    ensures (w & (x ^ y)) ^ y == (w & x) ^ ((!w) & y)
  {
  }

  lemma MajorityForms(w: Word, x: Word, y: Word)
    ensures ((w | x) & y) | (w & x) == (w & x) ^ (w & y) ^ (x & y)
  {
  }

  lemma RoundOpIsF(t: nat, w: Word, x: Word, y: Word)
    ensures RoundOp(t, w, x, y) == F(t, w, x, y)
  {
    ChooseForms(w, x, y);
    MajorityForms(w, x, y);
  }

  /** z += f + blk + k + r */
  function Increased(z: Word, f: Word, blk: Word, k: Word, r: Word): Word {
    z + (f + blk + k + r)
  }

  /** z += f(w, x, y) + blk + K + rol(v, 5). */
  function RoundSum(t: nat, v: Word, w: Word, x: Word, y: Word, z: Word, blk: Word): Word {
    Increased(z, RoundOp(t, w, x, y), blk, K(t), Rotl5(v))
  }

  /** A round leaves the values where they are and gives the variables new roles. */
  lemma RoundStep(t: nat, v: Word, w: Word, x: Word, y: Word, z: Word, blk: Word)
    ensures Round(t, Regs(v, w, x, y, z), blk) == Regs(RoundSum(t, v, w, x, y, z, blk), v, Rotl30(w), x, y)
  {
    hide RoundOp, F, K, Rotl5, Rotl30, Sum, Increased;
    RoundOpIsF(t, w, x, y);
    SumOrder(Rotl5(v), F(t, w, x, y), z, K(t), blk);
  }

  lemma SumOrder(r: Word, f: Word, z: Word, k: Word, blk: Word)
    ensures Sum(r, f, z, k, blk) == Increased(z, f, blk, k, r)
  {
  }

  function LittleEndian(b0: Byte, b1: Byte, b2: Byte, b3: Byte): Word {
    ((b3 as Word) << 24) | ((b2 as Word) << 16) | ((b1 as Word) << 8) | (b0 as Word)
  }

  /** The byte swap of blk0 on little-endian machines. */
  function Swap(x: Word): Word {
    (((x << 24) | (x >> 8)) & 0xFF00FF00) | (((x << 8) | (x >> 24)) & 0x00FF00FF)
  }

  lemma SwapLittleEndian(b0: Byte, b1: Byte, b2: Byte, b3: Byte)
    ensures Swap(LittleEndian(b0, b1, b2, b3)) == BigEndian(b0, b1, b2, b3)
  {
  }

  /** The 16 words at round t: the last 16 words of the schedule, or words still to be swapped. */
  ghost predicate Schedule(m: seq<Word>, l: seq<Word>, t: nat)
  {
    && |m| == |l| == 16
    && (forall s :: 0 <= s < t && t - 16 <= s ==> l[s % 16] == W(m, s))
    && forall j :: t <= j < 16 ==> Swap(l[j]) == m[j]
  }

  /** The recurrence of the schedule in terms of positions modulo 16. */
  lemma ScheduleWord(m: seq<Word>, l: seq<Word>, t: nat)
    requires Schedule(m, l, t) && t >= 16
    ensures Rotl1(l[(t + 13) % 16] ^ l[(t + 8) % 16] ^ l[(t + 2) % 16] ^ l[t % 16]) == W(m, t)
  {
    hide *;
    Positions(t);
    ScheduleAt(m, l, t, t - 3);
    ScheduleAt(m, l, t, t - 8);
    ScheduleAt(m, l, t, t - 14);
    ScheduleAt(m, l, t, t - 16);
    LaterWord(m, t);
  }

  lemma ScheduleAt(m: seq<Word>, l: seq<Word>, t: nat, s: nat)
    requires Schedule(m, l, t) && t - 16 <= s < t
    ensures |m| == |l| == 16 && l[s % 16] == W(m, s)
  {
    hide W, Swap;
  }

  lemma LaterWord(m: seq<Word>, t: nat)
    requires |m| == 16 && t >= 16
    ensures W(m, t) == Rotl1(W(m, t - 3) ^ W(m, t - 8) ^ W(m, t - 14) ^ W(m, t - 16))
  {
  }

  lemma Positions(t: nat)
    requires t >= 16
    ensures (t - 3) % 16 == (t + 13) % 16 && (t - 8) % 16 == (t + 8) % 16
    ensures (t - 14) % 16 == (t + 2) % 16 && (t - 16) % 16 == t % 16
  {
    SixteenMore(t - 3);
    SixteenMore(t - 8);
    SixteenMore(t - 14);
    SixteenMore(t - 16);
  }

  lemma SixteenMore(x: nat)
    ensures (x + 16) % 16 == x % 16
  {
  }

  lemma ModWindow(s: nat, t: nat)
    requires s < t < s + 16
    ensures s % 16 != t % 16
  {
  }

  lemma ScheduleNext(m: seq<Word>, l: seq<Word>, t: nat)
    requires Schedule(m, l, t)
    ensures t < 16 ==> Swap(l[t]) == W(m, t)
    ensures Schedule(m, l[t % 16 := W(m, t)], t + 1)
  {
    hide Swap, Rotl1, W;
    if t < 16 {
      FirstWord(m, t);
    }
    var l' := l[t % 16 := W(m, t)];
    forall s | 0 <= s < t + 1 && t + 1 - 16 <= s
      ensures l'[s % 16] == W(m, s)
    {
      if s < t {
        ModWindow(s, t);
      }
    }
  }

  lemma FirstWord(m: seq<Word>, t: nat)
    requires |m| == 16 && t < 16
    ensures W(m, t) == m[t]
  {
  }

  /** blk0 and blk. */
  method NextWord(block: array<Word>, i: nat, ghost m: seq<Word>) returns (w: Word)
    requires block.Length == 16 && Schedule(m, block[..], i)
    modifies block
    ensures Schedule(m, block[..], i + 1) && w == W(m, i)
  {
    hide *;
    ScheduleNext(m, block[..], i);
    ghost var l := block[..];
    if i >= 16 {
      ScheduleWord(m, block[..], i);
    }
    if i < 16 {
      w := Swap(block[i]);
      block[i] := w;
      assert i % 16 == i && block[..] == l[i := w];
    } else {
      w := Rotl1(block[(i + 13) % 16] ^ block[(i + 8) % 16] ^ block[(i + 2) % 16] ^ block[i % 16]);
      block[i % 16] := w;
      assert block[..] == l[i % 16 := w];
    }
  }

  /** Five rounds, after which every variable is back in its first role. */
  method FiveRounds(block: array<Word>, t: nat, a0: Word, b0: Word, c0: Word, d0: Word, e0: Word, ghost h: Regs, ghost m: seq<Word>)
    returns (a: Word, b: Word, c: Word, d: Word, e: Word)
    requires block.Length == 16 && Schedule(m, block[..], t) && |m| == 16
    requires Rounds(h, m, t) == Regs(a0, b0, c0, d0, e0)
    modifies block
    ensures Schedule(m, block[..], t + 5) && Rounds(h, m, t + 5) == Regs(a, b, c, d, e)
  {
    hide *;
    a, b, c, d, e := a0, b0, c0, d0, e0;
    var w := NextWord(block, t, m);
    RoundsNext(h, m, t, a, b, c, d, e);
    e, b := RoundSum(t, a, b, c, d, e, w), Rotl30(b);
    w := NextWord(block, t + 1, m);
    RoundsNext(h, m, t + 1, e, a, b, c, d);
    d, a := RoundSum(t + 1, e, a, b, c, d, w), Rotl30(a);
    w := NextWord(block, t + 2, m);
    RoundsNext(h, m, t + 2, d, e, a, b, c);
    c, e := RoundSum(t + 2, d, e, a, b, c, w), Rotl30(e);
    w := NextWord(block, t + 3, m);
    RoundsNext(h, m, t + 3, c, d, e, a, b);
    b, d := RoundSum(t + 3, c, d, e, a, b, w), Rotl30(d);
    w := NextWord(block, t + 4, m);
    RoundsNext(h, m, t + 4, b, c, d, e, a);
    a, c := RoundSum(t + 4, b, c, d, e, a, w), Rotl30(c);
  }

  lemma RoundsNext(h: Regs, m: seq<Word>, t: nat, v: Word, w: Word, x: Word, y: Word, z: Word)
    requires |m| == 16 && Rounds(h, m, t) == Regs(v, w, x, y, z)
    ensures Rounds(h, m, t + 1) == Regs(RoundSum(t, v, w, x, y, z, W(m, t)), v, Rotl30(w), x, y)
  {
    hide RoundSum, Rotl30, T;
    RoundStep(t, v, w, x, y, z, W(m, t));
  }

  /** The words of a buffer as they lie in memory. */
  method Load128BitsAsWords(buffer: seq<Byte>) returns (block: array<Word>)
    requires |buffer| == 64
    ensures block.Length == 16 && fresh(block) && Schedule(BlockWords(buffer), block[..], 0)
  {
    hide Swap, LittleEndian, BigEndian, W;
    block := new Word[16];
    for i := 0 to 16
      invariant forall j :: 0 <= j < i ==> Swap(block[j]) == BlockWords(buffer)[j]
    {
      SwapLittleEndian(buffer[4 * i], buffer[4 * i + 1], buffer[4 * i + 2], buffer[4 * i + 3]);
      block[i] := LittleEndian(buffer[4 * i], buffer[4 * i + 1], buffer[4 * i + 2], buffer[4 * i + 3]);
    }
  }

  ghost function StateRegs(s: seq<Word>): Regs
    requires |s| == 5
  {
    Regs(s[0], s[1], s[2], s[3], s[4])
  }

  method TransformFunction(state: array<Word>, buffer: seq<Byte>)
    requires state.Length == 5 && |buffer| == 64
    modifies state
    ensures StateRegs(state[..]) == Compress(StateRegs(old(state[..])), BlockWords(buffer))
  {
    hide *;
    ghost var h, m := StateRegs(state[..]), BlockWords(buffer);
    var block := Load128BitsAsWords(buffer);
    var a, b, c, d, e := state[0], state[1], state[2], state[3], state[4];
    NoRounds(h, m);
    StateIs(state[..]);
    for k := 0 to 16
      invariant Schedule(m, block[..], 5 * k) && Rounds(h, m, 5 * k) == Regs(a, b, c, d, e)
      invariant state[..] == old(state[..])
    {
      a, b, c, d, e := FiveRounds(block, 5 * k, a, b, c, d, e, h, m);
    }
    state[0], state[1], state[2], state[3], state[4] :=
      Add(state[0], a), Add(state[1], b), Add(state[2], c), Add(state[3], d), Add(state[4], e);
    CompressIs(h, m, Regs(a, b, c, d, e));
    StateIs(state[..]);
  }

  lemma StateIs(s: seq<Word>)
    requires |s| == 5
    ensures StateRegs(s) == Regs(s[0], s[1], s[2], s[3], s[4])
  {
  }

  lemma CompressIs(h: Regs, m: seq<Word>, r: Regs)
    requires |m| == 16 && Rounds(h, m, 80) == r
    ensures Compress(h, m) == Regs(Add(h.a, r.a), Add(h.b, r.b), Add(h.c, r.c), Add(h.d, r.d), Add(h.e, r.e))
  {
    hide Rounds, Add;
  }

  lemma NoRounds(h: Regs, m: seq<Word>)
    requires |m| == 16
    ensures Rounds(h, m, 0) == h
  {
  }

  // ---- the final count ----

  /** finalcount: the counter from its most significant byte down. */
  function FinalCount(count1: nat, count0: nat, i: nat): Byte
    requires i < 8
  {
    ((if i >= 4 then count0 else count1) / Pow256(3 - i % 4) % 256) as Byte
  }

  lemma PowersOf256()
    ensures Pow256(0) == 1 && Pow256(1) == 256 && Pow256(2) == 65536 && Pow256(3) == 16777216
    ensures Pow256(4) == WORD * Pow256(0) && Pow256(5) == WORD * Pow256(1)
    ensures Pow256(6) == WORD * Pow256(2) && Pow256(7) == WORD * Pow256(3)
  {
    assert Pow256(4) == 256 * Pow256(3) && Pow256(5) == 256 * Pow256(4);
    assert Pow256(6) == 256 * Pow256(5) && Pow256(7) == 256 * Pow256(6);
  }

  lemma FinalCountIs(count1: nat, count0: nat, bits: nat, i: nat)
    requires count0 < WORD && count1 < WORD && Total(count1, count0) == bits && i < 8
    ensures FinalCount(count1, count0, i) == LengthByte(bits, i)
  {
    hide Pow256, Total;
    PowersOf256();
    if i >= 4 {
      LowByte(count1, count0, Pow256(7 - i), match i case 7 => 16777216 case 6 => 65536 case 5 => 256 case 4 => 1);
    } else {
      HighByte(count1, count0, Pow256(3 - i));
    }
  }

  // ---- blocks of a growing message ----

  lemma {:induction false} BlocksPrefix(data: seq<Byte>, more: seq<Byte>, n: nat)
    requires 64 * n <= |data|
    ensures Blocks(data + more, n) == Blocks(data, n)
    decreases n
  {
    hide Compress, BlockWords;
    if n > 0 {
      BlocksPrefix(data, more, n - 1);
      assert (data + more)[64 * (n - 1)..64 * n] == data[64 * (n - 1)..64 * n];
    }
  }

  lemma BlocksNext(data: seq<Byte>, n: nat)
    requires 64 * (n + 1) <= |data|
    ensures Blocks(data, n + 1) == Compress(Blocks(data, n), BlockWords(data[64 * n..64 * n + 64]))
  {
  }

  lemma NoBlocks()
    ensures Blocks([], 0) == H0
  {
  }

  /** Copies src to the buffer from position j on. */
  method CopyInto(buffer: array<Byte>, j: nat, src: seq<Byte>)
    requires j + |src| <= buffer.Length
    modifies buffer
    ensures buffer[..j] == old(buffer[..j]) && buffer[j..j + |src|] == src
    ensures buffer[j + |src|..] == old(buffer[j + |src|..])
  {
    for i := 0 to |src|
      invariant buffer[..j] == old(buffer[..j]) && buffer[j..j + i] == src[..i]
      invariant buffer[j + i..] == old(buffer[j + i..])
    {
      buffer[j + i] := src[i];
    }
  }

  class Sha1Context {
    const state: array<Word>
    const buffer: array<Byte>
    var count0: nat
    var count1: nat
    /** All data added since initialisation. */
    ghost var message: seq<Byte>

    ghost predicate Valid()
      reads this, state, buffer
    {
      Counts(count1, count0, |message|) && Holds(message)
    }

    constructor ()
      ensures Valid() && message == [] && fresh(state) && fresh(buffer)
    {
      state := new Word[5];
      buffer := new Byte[64];
      count0, count1, message := 0, 0, [];
      new;
      Initialise();
    }

    method Initialise()
      requires state.Length == 5 && buffer.Length == 64
      modifies this, state
      ensures Valid() && message == []
    {
      hide Blocks;
      state[0], state[1], state[2], state[3], state[4] := 0x67452301, 0xEFCDAB89, 0x98BADCFE, 0x10325476, 0xC3D2E1F0;
      count0, count1, message := 0, 0, [];
      StartCounts();
      NoBlocks();
    }

    /** The state and the buffer hold the message. */
    ghost predicate Holds(m: seq<Byte>)
      reads state, buffer
    {
      && state.Length == 5 && buffer.Length == 64
      && StateRegs(state[..]) == Blocks(m, |m| / 64)
      && buffer[..|m| % 64] == m[|m| / 64 * 64..]
    }

    /** Fills the buffer, hashes it, then hashes all whole blocks of the data. The sum i + 63 of the loop
        never reaches 2^32. */
    method FillAndHash(data: seq<Byte>, j: nat, ghost m: seq<Byte>) returns (i: nat, ghost n: nat)
      requires Holds(m) && j == |m| % 64 && 63 < j + |data| < WORD
      modifies state, buffer
      ensures i <= |data| && |m| + i == 64 * n && |data| - i <= 63 && i > 0
      ensures state.Length == 5 && buffer.Length == 64 && StateRegs(state[..]) == Blocks(m + data, n)
    {
      hide Blocks, StateRegs, BlockWords, Compress;
      ghost var full := m + data;
      n := |m| / 64;
      BlocksPrefix(m, data, n);
      i := 64 - j;
      CopyInto(buffer, j, data[..i]);
      BufferIsBlock(m, data, buffer[..], j);
      BlocksNext(full, n);
      TransformFunction(state, buffer[..]);
      n := n + 1;
      NoWrap(|m|, j, |data|, i, n);
      while i + 63 < |data|
        modifies state
        invariant 0 < i <= |data| && |m| + i == 64 * n <= |full| && i + 63 < WORD
        invariant StateRegs(state[..]) == Blocks(full, n)
        decreases |data| - i
      {
        DataIsBlock(m, data, i, n);
        BlocksNext(full, n);
        TransformFunction(state, data[i..i + 64]);
        n := n + 1;
        i := i + 64;
        NoWrap(|m|, j, |data|, i, n);
      }
    }

    /** Hashes whole blocks and buffers the rest. */
    method AddData(data: seq<Byte>, j0: nat, ghost m: seq<Byte>)
      requires Holds(m) && j0 == |m| % 64 && j0 + |data| < WORD
      modifies state, buffer
      ensures Holds(m + data)
    {
      hide Blocks, StateRegs, BlockWords, Compress;
      ghost var n := |m| / 64;
      BlocksPrefix(m, data, n);
      var i, j: nat := 0, j0;
      if j + |data| > 63 {
        i, n := FillAndHash(data, j, m);
        j := 0;
      }
      CopyInto(buffer, j, data[i..]);
      TailIsBuffered(m, data, buffer[..], i, j, n);
    }

    /** Adds data of any size for which the 32-bit sum with the number of buffered bytes does not wrap. */
    method Update(data: seq<Byte>)
      requires Valid() && |message| % 64 + |data| < WORD
      modifies this, state, buffer
      ensures Valid() && message == old(message) + data
    {
      hide Blocks, StateRegs, Counts, AddCount;
      BufferedBytes(count1, count0, |message|);
      var j := count0 / 8 % 64;
      AddCountCounts(count1, count0, |message|, |data|);
      var counts := AddCount(count1, count0, |data|);
      count1, count0 := counts.0, counts.1;
      AddData(data, j, message);
      message := message + data;
    }

    /** The byte 0x80 and zeros up to the place of the bit count. */
    method AddPadding()
      requires Valid()
      modifies this, state, buffer
      ensures Valid() && message == old(message) + [0x80] + Zeros(PadZeros(|old(message)|))
    {
      hide *;
      ghost var m, zeros := message, PadZeros(|message|);
      SmallUpdates(|message|);
      Update([0x80]);
      ghost var k := 0;
      ZerosNext(m + [0x80], 0);
      BufferedCount();
      while count0 / 8 % 64 * 8 != 448
        invariant Valid() && k <= zeros && message == m + [0x80] + Zeros(k) && |message| == |m| + 1 + k
        invariant count0 / 8 % 64 == |message| % 64
        decreases zeros - k
      {
        PadStep(|m|, k, zeros);
        ZerosNext(m + [0x80], k);
        SmallUpdates(|message|);
        Update([0]);
        k := k + 1;
        BufferedCount();
      }
      PadStep(|m|, k, zeros);
    }

    lemma BufferedCount()
      requires Valid()
      ensures count0 / 8 % 64 == |message| % 64 && count0 < WORD && count1 < WORD
      ensures 8 * |message| < DWORD ==> Total(count1, count0) == 8 * |message|
    {
      hide Blocks, StateRegs;
      BufferedBytes(count1, count0, |message|);
      if 8 * |message| < DWORD {
        ExactTotal(count1, count0, |message|);
      }
    }

    lemma StateLength()
      requires Valid()
      ensures state.Length == 5 && StateRegs(state[..]) == Blocks(message, |message| / 64)
    {
    }

    /** Padding, the bit count from before the padding, and the digest. */
    method Finalise() returns (digest: seq<Byte>)
      requires Valid() && 8 * |message| < DWORD
      modifies this, state, buffer
      ensures digest == Hash(old(message))
    {
      hide *;
      ghost var m := message;
      BufferedCount();
      var c1, c0 := count1, count0;
      var finalcount := seq(8, i requires 0 <= i < 8 => FinalCount(c1, c0, i));
      FinalCountBytes(c1, c0, finalcount, 8 * |m|);
      AddPadding();
      SmallUpdates(|message|);
      Update(finalcount);
      PadIs(m, finalcount);
      StateLength();
      var s := state[..];
      digest := seq(20, i requires 0 <= i < 20 => ByteOf(s[i / 4], i % 4));
      DigestIs(s, digest);
      HashIs(m);
    }
  }

  /** Initialise, update and finalise on one buffer. */
  method Sha1Calculate(data: seq<Byte>) returns (digest: seq<Byte>)
    requires |data| < WORD
    ensures digest == Hash(data)
  {
    hide *;
    var context := new Sha1Context();
    assert [] + data == data;
    SmallUpdates(0);
    SmallUpdates(|data|);
    context.Update(data);
    digest := context.Finalise();
  }

  lemma SmallUpdates(n: nat)
    ensures n % 64 + 8 < WORD && (n < WORD ==> 8 * n < DWORD) && (n == 0 ==> n % 64 == 0)
  {
  }

  lemma ZerosNext(data: seq<Byte>, k: nat)
    ensures data + Zeros(0) == data && data + Zeros(k) + [0] == data + Zeros(k + 1) && |Zeros(k)| == k
  {
    assert Zeros(k) + [0] == Zeros(k + 1);
  }

  lemma FinalCountBytes(count1: nat, count0: nat, s: seq<Byte>, bits: nat)
    requires count0 < WORD && count1 < WORD && Total(count1, count0) == bits
    requires |s| == 8 && forall i :: 0 <= i < 8 ==> s[i] == FinalCount(count1, count0, i)
    ensures s == LengthBytes(bits)
  {
    hide FinalCount, LengthByte;
    forall i | 0 <= i < 8
      ensures s[i] == LengthBytes(bits)[i]
    {
      FinalCountIs(count1, count0, bits, i);
    }
  }

  /** The padding loop stops at the first length that leaves 8 bytes of the block. */
  lemma PadStep(n: nat, k: nat, zeros: nat)
    requires zeros == PadZeros(n) && k <= zeros
    ensures (n + 1 + k) % 64 == 56 <==> k == zeros
  {
    var q := (n + 1 + zeros) / 64;
    assert n + 1 + zeros == 64 * q + 56;
  }

  lemma PadIs(m: seq<Byte>, finalcount: seq<Byte>)
    requires finalcount == LengthBytes(8 * |m|)
    ensures m + [0x80] + Zeros(PadZeros(|m|)) + finalcount == Pad(m)
  {
  }

  lemma DigestIs(state: seq<Word>, digest: seq<Byte>)
    requires |state| == 5 && |digest| == 20 && forall i :: 0 <= i < 20 ==> digest[i] == ByteOf(state[i / 4], i % 4)
    ensures digest == Digest(StateRegs(state))
  {
    hide ByteOf;
    forall i | 0 <= i < 20
      ensures RegWord(StateRegs(state), i / 4) == state[i / 4]
    {
    }
  }

  lemma HashIs(m: seq<Byte>)
    ensures Hash(m) == Digest(Blocks(Pad(m), |Pad(m)| / 64))
  {
  }

  lemma StartCounts()
    ensures Counts(0, 0, 0)
  {
    ModArith.CongRefl(0, DWORD);
  }

  lemma BufferIsBlock(message: seq<Byte>, data: seq<Byte>, buffer: seq<Byte>, j: nat)
    requires |buffer| == 64 && j == |message| % 64 && |data| >= 64 - j
    requires buffer[..j] == message[|message| / 64 * 64..] && buffer[j..] == data[..64 - j]
    ensures var n := |message| / 64;
      64 * (n + 1) <= |message + data| && (message + data)[64 * n..64 * n + 64] == buffer
  {
    assert buffer == buffer[..j] + buffer[j..];
  }

  lemma NoWrap(m: nat, j: nat, size: nat, i: nat, n: nat)
    requires j == m % 64 && m + i == 64 * n && i <= size && j + size < WORD
    ensures i + 63 < WORD
  {
    assert i + j == 64 * (n - m / 64);
  }

  lemma DataIsBlock(message: seq<Byte>, data: seq<Byte>, i: nat, n: nat)
    requires |message| + i == 64 * n && i + 64 <= |data|
    ensures 64 * (n + 1) <= |message + data| && (message + data)[64 * n..64 * n + 64] == data[i..i + 64]
  {
  }

  lemma TailIsBuffered(message: seq<Byte>, data: seq<Byte>, buffer: seq<Byte>, i: nat, j: nat, n: nat)
    requires |buffer| == 64 && i <= |data| && j + |data| - i <= 63
    requires if i == 0 then j == |message| % 64 && n == |message| / 64 && buffer[..j] == message[n * 64..]
      else j == 0 && |message| + i == 64 * n
    requires buffer[j..j + |data| - i] == data[i..]
    ensures var full := message + data;
      |full| / 64 == n && buffer[..|full| % 64] == full[|full| / 64 * 64..]
  {
    var full, k := message + data, j + |data| - i;
    assert |full| == 64 * n + k;
    assert buffer[..k] == buffer[..j] + buffer[j..k];
  }
}
