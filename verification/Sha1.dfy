/**
 SHA-1 as sections 4, 5 and 7 of FIPS 180-1 define it: padding, the round
 functions and constants, and the digest of a whole message.
 */
module Sha1Spec {
  import opened Octets

  type Word = bv32
  type Octet = x: bv32 | x <= 0xFF

  datatype State = State(a: Word, b: Word, c: Word, d: Word, e: Word)

  function Rotl5(x: Word): Word { (x << 5) | (x >> 27) }

  function Rotl30(x: Word): Word { (x << 30) | (x >> 2) }

  function Rotl1(x: Word): Word { (x << 1) | (x >> 31) }

  function F(t: nat, x: Word, y: Word, z: Word): Word {
    if t < 20 then (x & y) | (!x & z)
    else if t < 40 then x ^ y ^ z
    else if t < 60 then (x & y) | (x & z) | (y & z)
    else x ^ y ^ z
  }

  function K(t: nat): Word {
    if t < 20 then 0x5A827999
    else if t < 40 then 0x6ED9EBA1
    else if t < 60 then 0x8F1BBCDC
    else 0xCA62C1D6
  }

  const INITIAL: State := State(0x67452301, 0xEFCDAB89, 0x98BADCFE, 0x10325476, 0xC3D2E1F0)

  /** The message schedule, step b of section 7. */
  ghost function Schedule(block: seq<Word>, t: nat): Word
    requires |block| == 16
  {
    if t < 16 then block[t]
    else Rotl1(Schedule(block, t - 3) ^ Schedule(block, t - 8) ^ Schedule(block, t - 14) ^ Schedule(block, t - 16))
  }

  function Round(s: State, w: Word, t: nat): State {
    State(Rotl5(s.a) + F(t, s.b, s.c, s.d) + s.e + w + K(t), s.a, Rotl30(s.b), s.c, s.d)
  }

  /** Step d of section 7, after `t` rounds. */
  ghost function Rounds(s: State, block: seq<Word>, t: nat): State
    requires |block| == 16
  {
    if t == 0 then s else Round(Rounds(s, block, t - 1), Schedule(block, t - 1), t - 1)
  }

  function Plus(s: State, t: State): State {
    State(s.a + t.a, s.b + t.b, s.c + t.c, s.d + t.d, s.e + t.e)
  }

  ghost function Compress(s: State, block: seq<Word>): State
    requires |block| == 16
  {
    Plus(s, Rounds(s, block, 80))
  }

  /** Four bytes as a word, the first the most significant. */
  function BigEndian(a: Octet, b: Octet, c: Octet, d: Octet): Word {
    (a << 24) | (b << 16) | (c << 8) | d
  }

  function BlockWords(s: seq<Octet>): (ws: seq<Word>)
    requires |s| == 64
    ensures |ws| == 16
    ensures forall i :: 0 <= i < 16 ==> ws[i] == BigEndian(s[4 * i], s[4 * i + 1], s[4 * i + 2], s[4 * i + 3])
  {
    seq(16, i requires 0 <= i < 16 => BigEndian(s[4 * i], s[4 * i + 1], s[4 * i + 2], s[4 * i + 3]))
  }

  /** The state after all whole blocks of a byte string. */
  ghost function Blocks(s: State, m: seq<Octet>): State
    decreases |m|
  {
    if |m| < 64 then s else Blocks(Compress(s, BlockWords(m[..64])), m[64..])
  }

  /** Byte `i` of a word, counting from the least significant. */
  function ByteOf(w: Word, i: nat): Octet
    requires i < 4
  {
    match i
    case 0 => w & 0xFF
    case 1 => (w >> 8) & 0xFF
    case 2 => (w >> 16) & 0xFF
    case _ => (w >> 24) & 0xFF
  }

  function WordBytes(w: Word): (s: seq<Octet>)
    ensures |s| == 4
  {
    [ByteOf(w, 3), ByteOf(w, 2), ByteOf(w, 1), ByteOf(w, 0)]
  }

  /** The bit length of section 4, as two words. */
  function LengthHigh(n: nat): Word { (8 * n / TWO32 % TWO32) as Word }

  function LengthLow(n: nat): Word { (8 * n % TWO32) as Word }

  function Zeros(n: nat): (s: seq<Octet>)
    ensures |s| == n && forall i :: 0 <= i < n ==> s[i] == 0
  {
    seq(n, _ => 0)
  }

  function LengthBytes(n: nat): (s: seq<Octet>)
    ensures |s| == 8
  {
    WordBytes(LengthHigh(n)) + WordBytes(LengthLow(n))
  }

  /** Section 4: a one bit, zeros up to 56 bytes modulo 64, and the length in bits. */
  function Padding(n: nat): seq<Octet> {
    [0x80] + Zeros((119 - n % 64) % 64) + LengthBytes(n)
  }

  function Padded(m: seq<Octet>): seq<Octet> {
    m + Padding(|m|)
  }

  /** The state's words, each with its most significant byte first. */
  function StateBytes(s: State): seq<Octet> {
    seq(20, i requires 0 <= i < 20 => ByteOf([s.a, s.b, s.c, s.d, s.e][i / 4], 3 - i % 4))
  }

  ghost function Sha1(m: seq<Octet>): seq<Octet> {
    StateBytes(Blocks(INITIAL, Padded(m)))
  }

  /** Hashing whole blocks first and the rest later is hashing it all. */
  lemma {:induction false} BlocksSplit(s: State, m: seq<Octet>, t: seq<Octet>)
    requires |m| % 64 == 0
    ensures Blocks(s, m + t) == Blocks(Blocks(s, m), t)
    decreases |m|
  {
    if m == [] {
      assert m + t == t;
    } else {
      assert (m + t)[..64] == m[..64] && (m + t)[64..] == m[64..] + t;
      BlocksSplit(Compress(s, BlockWords(m[..64])), m[64..], t);
    }
  }

  lemma WordBytesBack(w: Word)
    ensures BigEndian(ByteOf(w, 3), ByteOf(w, 2), ByteOf(w, 1), ByteOf(w, 0)) == w
  {
  }
}

/** System/SHA1Engine.cpp, the little-endian build. */
module Sha1Engine {
  import opened Octets
  import opened Sha1Spec
  import opened Chunks
  import opened Arith

  /** Writing byte `i` of a word through the byte view of the buffer. */
  function SetByte(w: Word, i: nat, b: Octet): Word
    requires i < 4
  {
    match i
    case 0 => (w & 0xFFFF_FF00) | b
    case 1 => (w & 0xFFFF_00FF) | (b << 8)
    case 2 => (w & 0xFF00_FFFF) | (b << 16)
    case _ => (w & 0x00FF_FFFF) | (b << 24)
  }

  lemma SetByte0(w: Word, b: Octet)
    ensures ByteOf(SetByte(w, 0, b), 0) == b
    ensures ByteOf(SetByte(w, 0, b), 1) == ByteOf(w, 1)
    ensures ByteOf(SetByte(w, 0, b), 2) == ByteOf(w, 2)
    ensures ByteOf(SetByte(w, 0, b), 3) == ByteOf(w, 3)
  {
  }

  lemma SetByte1(w: Word, b: Octet)
    ensures ByteOf(SetByte(w, 1, b), 0) == ByteOf(w, 0)
    ensures ByteOf(SetByte(w, 1, b), 1) == b
    ensures ByteOf(SetByte(w, 1, b), 2) == ByteOf(w, 2)
    ensures ByteOf(SetByte(w, 1, b), 3) == ByteOf(w, 3)
  {
  }

  lemma SetByte2(w: Word, b: Octet)
    ensures ByteOf(SetByte(w, 2, b), 0) == ByteOf(w, 0)
    ensures ByteOf(SetByte(w, 2, b), 1) == ByteOf(w, 1)
    ensures ByteOf(SetByte(w, 2, b), 2) == b
    ensures ByteOf(SetByte(w, 2, b), 3) == ByteOf(w, 3)
  {
  }

  lemma SetByte3(w: Word, b: Octet)
    ensures ByteOf(SetByte(w, 3, b), 0) == ByteOf(w, 0)
    ensures ByteOf(SetByte(w, 3, b), 1) == ByteOf(w, 1)
    ensures ByteOf(SetByte(w, 3, b), 2) == ByteOf(w, 2)
    ensures ByteOf(SetByte(w, 3, b), 3) == b
  {
  }

  lemma SetByteGet(w: Word, i: nat, b: Octet, j: nat)
    requires i < 4 && j < 4
    ensures ByteOf(SetByte(w, i, b), j) == if i == j then b else ByteOf(w, j)
  {
    hide ByteOf, SetByte;
    if i == 0 { SetByte0(w, b); } else if i == 1 { SetByte1(w, b); } else if i == 2 { SetByte2(w, b); } else { SetByte3(w, b); }
    assert j == 0 || j == 1 || j == 2 || j == 3;
  }

  /** One word of byteReverse. */
  function Reverse(w: Word): Word {
    var value := (w << 16) | (w >> 16);
    ((value & 0xFF00_FF00) >> 8) | ((value & 0x00FF_00FF) << 8)
  }

  lemma ReverseIsBigEndian(w: Word)
    ensures Reverse(w) == BigEndian(ByteOf(w, 0), ByteOf(w, 1), ByteOf(w, 2), ByteOf(w, 3))
  {
  }

  /** The buffer holds these bytes at its front, through its byte view. */
  ghost predicate Holds(data: seq<Word>, s: seq<Octet>) {
    |data| == 16 && |s| <= 64 && forall k :: 0 <= k < |s| ==> ByteOf(data[k / 4], k % 4) == s[k]
  }

  lemma HoldsPush(data: seq<Word>, s: seq<Octet>, b: Octet)
    requires Holds(data, s) && |s| < 64
    ensures Holds(data[|s| / 4 := SetByte(data[|s| / 4], |s| % 4, b)], s + [b])
  {
    hide ByteOf, SetByte;
    var n := |s|;
    var w := data[n / 4];
    var d := data[n / 4 := SetByte(w, n % 4, b)];
    forall k | 0 <= k < n + 1 ensures ByteOf(d[k / 4], k % 4) == (s + [b])[k] {
      SetByteGet(w, n % 4, b, k % 4);
      assert k / 4 == n / 4 && k % 4 == n % 4 ==> k == n;
    }
  }

  lemma ReverseWord(data: seq<Word>, s: seq<Octet>, i: nat)
    requires Holds(data, s) && 4 * i + 4 <= |s|
    ensures Reverse(data[i]) == BigEndian(s[4 * i], s[4 * i + 1], s[4 * i + 2], s[4 * i + 3])
  {
    hide ByteOf, Reverse, BigEndian;
    ReverseIsBigEndian(data[i]);
    HeldByte(data, s, i, 0);
    HeldByte(data, s, i, 1);
    HeldByte(data, s, i, 2);
    HeldByte(data, s, i, 3);
  }

  lemma HeldByte(data: seq<Word>, s: seq<Octet>, i: nat, j: nat)
    requires Holds(data, s) && j < 4 && 4 * i + j < |s|
    ensures ByteOf(data[i], j) == s[4 * i + j]
  {
    hide ByteOf;
    assert (4 * i + j) / 4 == i && (4 * i + j) % 4 == j;
  }

  /** byteReverse turns a full buffer into the block's big-endian words. */
  lemma ReverseBlock(data: seq<Word>, s: seq<Octet>, r: seq<Word>)
    requires Holds(data, s) && |s| == 64 && |r| == 16
    requires forall i :: 0 <= i < 16 ==> r[i] == Reverse(data[i])
    ensures r == BlockWords(s)
  {
    hide ByteOf, Reverse, BigEndian, Holds;
    forall i | 0 <= i < 16 ensures r[i] == BlockWords(s)[i] {
      HoldsLength(data, s);
      ReverseWord(data, s, i);
    }
  }

  lemma HoldsLength(data: seq<Word>, s: seq<Octet>)
    requires Holds(data, s)
    ensures |data| == 16
  {
  }

  /** The last block: 56 bytes reversed, and the bit count stored as two words. */
  lemma LastBlock(data: seq<Word>, t: seq<Octet>, r: seq<Word>, hi: Word, lo: Word)
    requires Holds(data, t) && |t| == 56 && |r| == 16
    requires forall i :: 0 <= i < 14 ==> r[i] == Reverse(data[i])
    requires r[14] == hi && r[15] == lo
    ensures r == BlockWords(t + WordBytes(hi) + WordBytes(lo))
  {
    hide ByteOf, Reverse, BigEndian, Holds;
    var s := t + WordBytes(hi) + WordBytes(lo);
    WordBytesBack(hi);
    WordBytesBack(lo);
    HoldsLength(data, t);
    forall i | 0 <= i < 16 ensures r[i] == BlockWords(s)[i] {
      if i < 14 {
        ReverseWord(data, t, i);
      } else if i == 14 {
        assert s[56..60] == WordBytes(hi);
        assert s[56] == s[56..60][0] && s[57] == s[56..60][1] && s[58] == s[56..60][2] && s[59] == s[56..60][3];
      } else {
        assert s[60..64] == WordBytes(lo);
        assert s[60] == s[60..64][0] && s[61] == s[60..64][1] && s[62] == s[60..64][2] && s[63] == s[60..64][3];
      }
    }
  }

  lemma ScheduleStep(block: seq<Word>, t: nat)
    requires |block| == 16
    ensures Schedule(block, t) == if t < 16 then block[t]
      else Rotl1(Schedule(block, t - 3) ^ Schedule(block, t - 8) ^ Schedule(block, t - 14) ^ Schedule(block, t - 16))
  {
  }

  /** One whole block more. */
  lemma BlocksStep(s: State, m: seq<Octet>, block: seq<Octet>)
    requires |m| % 64 == 0 && |block| == 64
    ensures Blocks(s, m + block) == Compress(Blocks(s, m), BlockWords(block))
  {
    hide Compress, BlockWords;
    BlocksSplit(s, m, block);
    assert block[..64] == block && block[64..] == [];
  }

  /** The digest of a message: its whole blocks, then its tail with the padding. */
  lemma PaddedBlocks(m: seq<Octet>, full: seq<Octet>, tail: seq<Octet>)
    requires m == full + tail && |full| % 64 == 0
    ensures Blocks(INITIAL, Padded(m)) == Blocks(Blocks(INITIAL, full), tail + Padding(|m|))
  {
    hide Blocks, Padding;
    BlocksSplit(INITIAL, full, tail + Padding(|m|));
    assert full + tail + Padding(|m|) == full + (tail + Padding(|m|));
  }

  /** The padding fits in the tail's block. */
  lemma OneBlock(h: State, tail: seq<Octet>, n: nat)
    requires n % 64 == |tail| <= 55
    ensures Blocks(h, tail + Padding(n)) == Compress(h, BlockWords(tail + [0x80] + Zeros(55 - |tail|) + LengthBytes(n)))
  {
    hide Compress, BlockWords, LengthBytes;
    var last := tail + [0x80] + Zeros(55 - |tail|) + LengthBytes(n);
    assert (119 - n % 64) % 64 == 55 - |tail|;
    assert tail + Padding(n) == last;
    assert last[..64] == last && last[64..] == [];
  }

  /** The padding needs a block more. */
  lemma TwoBlocks(h: State, tail: seq<Octet>, n: nat)
    requires 56 <= n % 64 == |tail|
    ensures Blocks(h, tail + Padding(n)) ==
      Compress(Compress(h, BlockWords(tail + [0x80] + Zeros(63 - |tail|))), BlockWords(Zeros(56) + LengthBytes(n)))
  {
    hide Blocks, Compress, BlockWords, LengthBytes;
    var one, two := tail + [0x80] + Zeros(63 - |tail|), Zeros(56) + LengthBytes(n);
    assert (119 - n % 64) % 64 == 119 - |tail|;
    assert Zeros(119 - |tail|) == Zeros(63 - |tail|) + Zeros(56);
    assert tail + Padding(n) == one + two;
    BlocksSplit(h, one, two);
    assert [] + one == one && [] + two == two;
    BlocksStep(h, [], one);
    BlocksStep(Compress(h, BlockWords(one)), [], two);
    NoBlocks(h);
    NoBlocks(Compress(h, BlockWords(one)));
  }

  /** The padded tail hashed from state `h`: through `mid` after a first block if there are two. */
  lemma FinalState(h: State, tail: seq<Octet>, n: nat, t: seq<Octet>, mid: State, end: State)
    requires n % 64 == |tail| < 64 && |t| == 56
    requires |tail| <= 55 ==> t == tail + [0x80] + Zeros(55 - |tail|) && mid == h
    requires |tail| > 55 ==> t == Zeros(56) && mid == Compress(h, BlockWords(tail + [0x80] + Zeros(63 - |tail|)))
    requires end == Compress(mid, BlockWords(t + LengthBytes(n)))
    ensures end == Blocks(h, tail + Padding(n))
  {
    hide Blocks, Compress, BlockWords, LengthBytes, Padding;
    if |tail| <= 55 {
      OneBlock(h, tail, n);
    } else {
      TwoBlocks(h, tail, n);
    }
  }

  lemma NoBlocks(h: State)
    ensures Blocks(h, []) == h
  {
  }

  const BLOCK_SIZE: nat := 64

  /** The whole blocks of a message, and the bytes behind them. */
  ghost function Full(m: seq<Octet>): seq<Octet> { m[..|m| - |m| % 64] }

  ghost function Tail(m: seq<Octet>): seq<Octet> { m[|m| - |m| % 64..] }

  lemma SplitWhole(m: seq<Octet>)
    ensures m == Full(m) + Tail(m) && |Full(m)| % 64 == 0 && |Tail(m)| == |m| % 64
  {
  }

  lemma SplitPush(m: seq<Octet>, b: Octet)
    ensures |Tail(m)| < 63 ==> Full(m + [b]) == Full(m) && Tail(m + [b]) == Tail(m) + [b]
    ensures |Tail(m)| == 63 ==> Full(m + [b]) == Full(m) + (Tail(m) + [b]) && Tail(m + [b]) == []
  {
    var n, k := |m|, |m| - |m| % 64;
    assert |m + [b]| == n + 1 && (m + [b])[k..] == m[k..] + [b];
    if n % 64 == 63 {
      assert (n + 1) % 64 == 0 && (m + [b])[..n + 1] == m + [b] && (m + [b])[n + 1..] == [];
      assert m + [b] == m[..k] + (m[k..] + [b]);
    } else {
      assert (n + 1) % 64 == n % 64 + 1;
    }
  }

  class Engine {
    var digest: State
    var countLo: nat
    var countHi: nat
    var slop: nat
    const data: array<Word>

    ghost predicate Shape()
      reads this
    {
      data.Length == 16 && countLo < TWO32 && countHi < TWO32
    }

    /** What the engine remembers of the message `m` it was fed. */
    ghost predicate Fed(m: seq<Octet>)
      reads this, data
    {
      && Shape()
      && countHi * TWO32 + countLo == 8 * |m| < TWO32 * TWO32
      && Buffered(Full(m), Tail(m))
    }

    /** The whole blocks are in the digest, the rest is in the buffer. */
    ghost predicate Buffered(full: seq<Octet>, tail: seq<Octet>)
      reads this`digest, this`slop, data
    {
      && data.Length == 16
      && |full| % 64 == 0 && slop == |tail| < 64
      && digest == Blocks(INITIAL, full)
      && Holds(data[..], tail)
    }

    constructor ()
      ensures Fed([]) && fresh(data)
    {
      data := new Word[16](_ => 0);
      digest, countLo, countHi, slop := INITIAL, 0, 0, 0;
    }

    /** reset */
    method Reset()
      requires Shape()
      modifies this, data
      ensures Fed([]) && data[..] == seq(16, _ => 0)
    {
      digest, countLo, countHi, slop := INITIAL, 0, 0, 0;
      for i := 0 to 16
        modifies data
        invariant forall j :: 0 <= j < i ==> data[j] == 0
      {
        data[i] := 0;
      }
    }

    /** db[k] = b, through the byte view of the buffer. */
    method StoreByte(k: nat, b: Octet)
      requires data.Length == 16 && k < 64
      modifies data
      ensures data[..] == old(data[..])[k / 4 := SetByte(old(data[k / 4]), k % 4, b)]
    {
      data[k / 4] := SetByte(data[k / 4], k % 4, b);
    }

    /** byteReverse over the whole buffer, on a little-endian machine. */
    method ByteReverse()
      requires data.Length == 16
      modifies data
      ensures forall i :: 0 <= i < 16 ==> data[i] == Reverse(old(data[i]))
    {
      hide Reverse;
      for i := 0 to 16
        invariant forall j :: 0 <= j < i ==> data[j] == Reverse(old(data[j]))
        invariant forall j :: i <= j < 16 ==> data[j] == old(data[j])
      {
        data[i] := Reverse(data[i]);
      }
    }

    /** transform: the compression function on the buffer's words. */
    method Transform()
      requires data.Length == 16
      modifies this`digest
      ensures digest == Compress(old(digest), data[..])
    {
      hide Round, Schedule, Plus;
      var w := Expand();
      var s := digest;
      for t := 0 to 80
        modifies {}
        invariant s == Rounds(digest, data[..], t)
      {
        s := Round(s, w[t], t);
      }
      digest := Plus(digest, s);
    }

    /** Steps A and B of transform: the eighty words of the schedule. */
    method Expand() returns (ws: seq<Word>)
      requires data.Length == 16
      ensures |ws| == 80 && forall j :: 0 <= j < 80 ==> ws[j] == Schedule(data[..], j)
    {
      hide Schedule;
      var w := new Word[80];
      ghost var block := data[..];
      for i := 0 to 16
        modifies w
        invariant forall j :: 0 <= j < i ==> w[j] == Schedule(block, j)
      {
        ScheduleStep(block, i);
        w[i] := data[i];
      }
      for i := 16 to 80
        modifies w
        invariant forall j :: 0 <= j < i ==> w[j] == Schedule(block, j)
      {
        ScheduleStep(block, i);
        w[i] := Rotl1(w[i - 3] ^ w[i - 8] ^ w[i - 14] ^ w[i - 16]);
      }
      ws := w[..];
    }

    /** One byte of updateImpl's loop. */
    method Absorb(b: Octet, ghost m: seq<Octet>)
      requires Buffered(Full(m), Tail(m))
      modifies this`digest, this`slop, data
      ensures Buffered(Full(m + [b]), Tail(m + [b]))
    {
      hide Blocks, Compress, Holds, SetByte, Reverse, BlockWords, Full, Tail;
      SplitPush(m, b);
      ghost var full, tail := Full(m), Tail(m);
      HoldsPush(data[..], tail, b);
      StoreByte(slop, b);
      slop := slop + 1;
      if slop == BLOCK_SIZE {
        CloseBlock(full, tail + [b]);
      }
    }

    /** transform this one block */
    method CloseBlock(ghost full: seq<Octet>, ghost block: seq<Octet>)
      requires data.Length == 16 && |full| % 64 == 0 && |block| == 64
      requires digest == Blocks(INITIAL, full) && Holds(data[..], block)
      modifies this`digest, this`slop, data
      ensures Buffered(full + block, [])
    {
      hide Blocks, Compress, Holds, Reverse, BlockWords;
      ghost var held := data[..];
      ByteReverse();
      ReverseBlock(held, block, data[..]);
      Transform();
      slop := 0;
      BlocksStep(INITIAL, full, block);
      HoldsNothing(data[..]);
    }

    /** updateImpl */
    method Update(buffer: seq<Octet>, ghost m: seq<Octet>)
      requires Fed(m) && |buffer| < TWO32 && |m| + |buffer| < 0x2000_0000_0000_0000
      modifies this, data
      ensures Fed(m + buffer)
    {
      hide Buffered, Full, Tail;
      var count := |buffer|;
      CountLemma(countLo, countHi, count);
      CountUpdate(count);
      assert m + buffer[..0] == m;
      for i := 0 to count
        modifies this`digest, this`slop, data
        invariant Buffered(Full(m + buffer[..i]), Tail(m + buffer[..i]))
      {
        assert m + buffer[..i + 1] == (m + buffer[..i]) + [buffer[i]];
        Absorb(buffer[i], m + buffer[..i]);
      }
      assert buffer[..count] == buffer;
    }

    /** The 64-bit bit counter kept as two words (System/SHA1Engine.cpp:48-51). */
    method CountUpdate(count: nat)
      requires Shape() && count < TWO32
      modifies this`countLo, this`countHi
      ensures Shape()
      ensures (countHi, countLo) == Counted(old(countHi), old(countLo), count)
    {
      var bits := 8 * count % TWO32;
      var low := (countLo + bits) % TWO32;
      if low < countLo {
        countHi := (countHi + 1) % TWO32;
      }
      countLo := low;
      countHi := (countHi + count / 0x2000_0000) % TWO32;
    }

    /** memset(0) over bytes from `from` to `to`. */
    method ZeroBytes(from: nat, to: nat, ghost s: seq<Octet>)
      requires Holds(data[..], s) && |s| == from <= to <= 64 && data.Length == 16
      modifies data
      ensures Holds(data[..], s + Zeros(to - from))
    {
      hide Holds, SetByte;
      var k := from;
      assert s + Zeros(0) == s;
      while k < to
        invariant from <= k <= to && Holds(data[..], s + Zeros(k - from))
      {
        HoldsPush(data[..], s + Zeros(k - from), 0);
        StoreByte(k, 0);
        assert s + Zeros(k - from) + [0] == s + Zeros(k + 1 - from);
        k := k + 1;
      }
    }

    /** digest: pad, hash the last block or two, and start over. */
    method Digest(ghost m: seq<Octet>) returns (hash: seq<Octet>)
      requires Fed(m)
      modifies this, data
      ensures hash == Sha1(m)
      ensures Fed([]) && data[..] == seq(16, _ => 0)
    {
      hide Blocks, Compress, Holds, Padding, StateBytes, LengthBytes, WordBytes, BlockWords, Full, Tail;
      ghost var full, tail := Full(m), Tail(m);
      SplitWhole(m);
      PaddedBlocks(m, full, tail);
      var hi, lo, at := SaveCount(|m|);
      ghost var h := digest;
      ghost var t := Pad(at, tail);
      ghost var h' := digest;
      Finish(t, hi, lo, LengthBytes(|m|));
      FinalState(h, tail, |m|, t, h', digest);
      hash := Emit(digest);
      Reset();
    }

    /** lowBitcount, highBitcount and the number of bytes modulo 64. */
    method SaveCount(ghost n: nat) returns (hi: Word, lo: Word, at: nat)
      requires Shape() && countHi * TWO32 + countLo == 8 * n
      ensures LengthBytes(n) == WordBytes(hi) + WordBytes(lo) && at == n % 64
    {
      hide LengthBytes, WordBytes;
      LengthWords(countHi, countLo, n);
      hi, lo, at := countHi as Word, countLo as Word, countLo / 8 % 64;
    }

    /** Set the first byte of padding and pad out to 56 bytes modulo 64 (System/SHA1Engine.cpp:97-116). */
    method Pad(at: nat, ghost tail: seq<Octet>) returns (ghost t: seq<Octet>)
      requires data.Length == 16 && Holds(data[..], tail) && |tail| == at < 64
      modifies this`digest, data
      ensures Holds(data[..], t) && |t| == 56
      ensures at <= 55 ==> t == tail + [0x80] + Zeros(55 - at) && digest == old(digest)
      ensures at > 55 ==>
        t == Zeros(56) && digest == Compress(old(digest), BlockWords(tail + [0x80] + Zeros(63 - at)))
    {
      hide Compress, Holds, SetByte, Reverse, BlockWords;
      HoldsPush(data[..], tail, 0x80);
      StoreByte(at, 0x80);
      var count := at + 1;
      t := tail + [0x80];
      if count > 56 {
        ZeroBytes(count, 64, t);
        ghost var held := data[..];
        ByteReverse();
        ReverseBlock(held, t + Zeros(64 - count), data[..]);
        Transform();
        HoldsNothing(data[..]);
        ZeroBytes(0, 56, []);
        t := Zeros(56);
        assert [] + Zeros(56) == t;
      } else {
        ZeroBytes(count, 56, t);
        t := t + Zeros(56 - count);
      }
    }

    /** Append the length in bits and transform. */
    method Finish(ghost t: seq<Octet>, hi: Word, lo: Word, ghost len: seq<Octet>)
      requires data.Length == 16 && Holds(data[..], t) && |t| == 56 && len == WordBytes(hi) + WordBytes(lo)
      modifies this`digest, data
      ensures digest == Compress(old(digest), BlockWords(t + len))
    {
      hide Compress, Holds, Reverse, WordBytes, BlockWords;
      ghost var held := data[..];
      ByteReverse();
      data[14] := hi;
      data[15] := lo;
      LastBlock(held, t, data[..], hi, lo);
      assert t + WordBytes(hi) + WordBytes(lo) == t + (WordBytes(hi) + WordBytes(lo));
      Transform();
    }
  }

  function Counted(hi: nat, lo: nat, count: nat): (nat, nat) {
    var bits := 8 * count % TWO32;
    var low := (lo + bits) % TWO32;
    var high := if low < lo then (hi + 1) % TWO32 else hi;
    ((high + count / 0x2000_0000) % TWO32, low)
  }

  /** The two counter words add up without loss while the message is under 2^61 bytes. */
  lemma CountLemma(lo: nat, hi: nat, count: nat)
    requires lo < TWO32 && hi < TWO32 && count < TWO32
    requires hi * TWO32 + lo + 8 * count < TWO32 * TWO32
    ensures var (h, l) := Counted(hi, lo, count);
      h < TWO32 && l < TWO32 && h * TWO32 + l == hi * TWO32 + lo + 8 * count
  {
    var bits, top := 8 * count % TWO32, count / 0x2000_0000;
    var low := count % 0x2000_0000;
    assert count == top * 0x2000_0000 + low;
    ModUnique(8 * count, top, 8 * low, TWO32);
    var carry := if lo + bits < TWO32 then 0 else 1;
    ModUnique(lo + bits, carry, lo + bits - carry * TWO32, TWO32);
    assert hi + carry + top < TWO32;
    ModUnique(hi + carry, 0, hi + carry, TWO32);
    ModUnique(hi + carry + top, 0, hi + carry + top, TWO32);
  }

  lemma LengthWords(hi: nat, lo: nat, n: nat)
    requires hi < TWO32 && lo < TWO32 && hi * TWO32 + lo == 8 * n
    ensures LengthBytes(n) == WordBytes(hi as Word) + WordBytes(lo as Word)
    ensures lo / 8 % 64 == n % 64
  {
    hide WordBytes;
    LengthInts(hi, lo, n);
    LengthTail(hi, lo, n);
  }

  lemma LengthInts(hi: nat, lo: nat, n: nat)
    requires hi < TWO32 && lo < TWO32 && hi * TWO32 + lo == 8 * n
    ensures 8 * n / TWO32 % TWO32 == hi && 8 * n % TWO32 == lo
  {
    assert 8 * n / TWO32 == hi;
  }

  lemma LengthTail(hi: nat, lo: nat, n: nat)
    requires hi * TWO32 + lo == 8 * n
    ensures lo / 8 % 64 == n % 64
  {
    var k := n - hi * 0x2000_0000;
    assert lo == 8 * k && lo / 8 == k;
    ModShift(k, hi * 0x80_0000, 64);
    assert n == k + hi * 0x80_0000 * 64;
  }

  lemma HoldsNothing(data: seq<Word>)
    requires |data| == 16
    ensures Holds(data, [])
  {
  }

  /** The digest's words as bytes (System/SHA1Engine.cpp:126-128). */
  method Emit(s: State) returns (hash: seq<Octet>)
    ensures hash == StateBytes(s)
  {
    hide ByteOf;
    var words := [s.a, s.b, s.c, s.d, s.e];
    hash := [];
    for count := 0 to 20
      invariant |hash| == count
      invariant forall i :: 0 <= i < count ==> hash[i] == ByteOf(words[i / 4], 3 - i % 4)
    {
      hash := hash + [ByteOf(words[count / 4], 3 - count % 4)];
    }
    assert hash == StateBytes(s);
  }

  /** However a message is split into update calls, the digest is that of the whole message. */
  method HashPieces(engine: Engine, pieces: seq<seq<Octet>>) returns (hash: seq<Octet>)
    requires engine.Fed([])
    requires |Flat(pieces)| < 0x2000_0000_0000_0000
    requires forall i :: 0 <= i < |pieces| ==> |pieces[i]| < TWO32
    modifies engine, engine.data
    ensures hash == Sha1(Flat(pieces)) && engine.Fed([])
  {
    hide Sha1, Flat, Blocks, Holds, Full, Tail;
    assert pieces[..0] == [];
    FlatEmpty<Octet>([]);
    for i := 0 to |pieces|
      invariant engine.Fed(Flat(pieces[..i]))
    {
      assert pieces[..i + 1] == pieces[..i] + [pieces[i]];
      FlatConcat(pieces[..i], [pieces[i]]);
      FlatSingle(pieces[i]);
      FlatSplit(pieces, i + 1);
      engine.Update(pieces[i], Flat(pieces[..i]));
    }
    assert pieces[..|pieces|] == pieces;
    hash := engine.Digest(Flat(pieces));
  }
}
