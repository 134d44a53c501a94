/** event/event_tagging.c: nibble-packed integers, base-128 tags and tagged records on an evbuffer. */
module EventTagging {
  import opened Octets
  import opened Chunks
  import opened EvBuffer
  import opened EvBufferRun
  import opened SsuUtils
  import opened Arith

  // ---- Integers -------------------------------------------------------------

  /** n >> (4 * i) */
  function Shr(n: nat, i: nat): nat
    decreases i
  {
    if i == 0 then n else Shr(n, i - 1) / 16
  }

  /** How many nibbles an integer takes; 0 takes one. */
  function Nibbles(n: nat): (k: nat)
    ensures k >= 1
  {
    if n < 16 then 1 else 1 + Nibbles(n / 16)
  }

  lemma {:induction false} ShrFront(n: nat, i: nat)
    ensures Shr(n, i + 1) == Shr(n / 16, i)
  {
    if i > 0 { ShrFront(n, i - 1); }
  }

  /** The nibbles counted are exactly the significant ones. */
  lemma {:induction false} ShrNibbles(n: nat)
    ensures Shr(n, Nibbles(n)) == 0
    ensures forall i :: 0 <= i < Nibbles(n) && n > 0 ==> Shr(n, i) > 0
  {
    if n < 16 {
      assert Shr(n, 1) == Shr(n, 0) / 16;
    } else {
      ShrNibbles(n / 16);
      ShrFront(n, Nibbles(n / 16));
      forall i | 0 <= i < Nibbles(n) ensures Shr(n, i) > 0 {
        if i > 0 { ShrFront(n, i - 1); }
      }
    }
  }

  /** Nibble `i` of an encoding: the count less one, then the number's nibbles from the least significant, then zero. */
  function NibbleOf(n: nat, i: nat): nat {
    if i == 0 then Nibbles(n) - 1 else if i <= Nibbles(n) then Shr(n, i - 1) % 16 else 0
  }

  /** The encoding: two nibbles a byte, the high one first. */
  ghost function EncodeInt(n: nat): (s: seq<Byte>)
    requires Nibbles(n) <= 16
    ensures |s| == Nibbles(n) / 2 + 1
  {
    seq(Nibbles(n) / 2 + 1, j requires 0 <= j => NibbleByte(n, j))
  }

  function NibbleByte(n: nat, j: nat): Byte
    requires Nibbles(n) <= 16
  {
    NibbleOf(n, 2 * j) % 16 * 16 + NibbleOf(n, 2 * j + 1) % 16
  }

  /** Nibble `i` of a byte string. */
  function NibbleAt(s: seq<Byte>, i: nat): nat
    requires i / 2 < |s|
  {
    if i % 2 == 1 then s[i / 2] % 16 else s[i / 2] / 16
  }

  lemma ByteNibbles(n: nat, j: nat)
    requires Nibbles(n) <= 16
    ensures NibbleByte(n, j) / 16 == NibbleOf(n, 2 * j) && NibbleByte(n, j) % 16 == NibbleOf(n, 2 * j + 1)
  {
    hide Nibbles, Shr;
    var hi, lo := NibbleOf(n, 2 * j), NibbleOf(n, 2 * j + 1);
    assert hi < 16 && lo < 16;
  }

  lemma EncodedNibble(n: nat, t: seq<Byte>, i: nat)
    requires Nibbles(n) <= 16 && i <= Nibbles(n)
    ensures i / 2 < |EncodeInt(n) + t| && NibbleAt(EncodeInt(n) + t, i) == NibbleOf(n, i)
  {
    hide Nibbles, NibbleOf, NibbleByte;
    ByteNibbles(n, i / 2);
    assert (EncodeInt(n) + t)[i / 2] == NibbleByte(n, i / 2);
    assert i == 2 * (i / 2) + i % 2;
  }

  /** The number in nibbles 1..k of a byte string, nibble k the most significant. */
  ghost function NibbleValue(s: seq<Byte>, i: nat, k: nat): nat
    requires 1 <= i && k / 2 < |s|
    decreases k + 1 - i
  {
    if i > k then 0 else 16 * NibbleValue(s, i + 1, k) + NibbleAt(s, i)
  }

  /** DECODE_INT_INTERNAL: at most `max` nibbles, all of them present. */
  ghost function DecodeInt(s: seq<Byte>, max: nat): (r: Option<(nat, nat)>)
    ensures r.Some? ==> 1 <= r.value.1 <= |s|
  {
    if s == [] then None
    else
      var k := s[0] / 16 + 1;
      if k > max || k / 2 + 1 > |s| then None else Some((NibbleValue(s, 1, k), k / 2 + 1))
  }

  lemma {:induction false} NibbleValueBound(s: seq<Byte>, i: nat, k: nat)
    requires 1 <= i <= k + 1 && k / 2 < |s|
    ensures NibbleValue(s, i, k) < Pow16(k + 1 - i)
    decreases k + 1 - i
  {
    if i <= k {
      NibbleValueBound(s, i + 1, k);
    }
  }

  /** Eight nibbles hold 32 bits. */
  lemma DecodeWord(s: seq<Byte>)
    ensures var p := DecodeInt(s, 8); p.Some? ==> p.value.0 < TWO32
  {
    hide NibbleValue;
    if DecodeInt(s, 8).Some? {
      var k := s[0] / 16 + 1;
      NibbleValueBound(s, 1, k);
      PowAtMost(k);
    }
  }

  lemma PowAtMost(k: nat)
    requires k <= 8
    ensures Pow16(k) <= TWO32
    decreases 8 - k
  {
    if k == 8 {
      assert Pow16(8) == TWO32;
    } else {
      PowAtMost(k + 1);
    }
  }

  lemma {:induction false} NibbleValueOf(n: nat, t: seq<Byte>, i: nat)
    requires Nibbles(n) <= 16 && 1 <= i <= Nibbles(n) + 1
    ensures NibbleValue(EncodeInt(n) + t, i, Nibbles(n)) == Shr(n, i - 1)
    decreases Nibbles(n) + 1 - i
  {
    hide EncodeInt, NibbleAt;
    ShrNibbles(n);
    if i <= Nibbles(n) {
      NibbleValueOf(n, t, i + 1);
      EncodedNibble(n, t, i);
      assert Shr(n, i) == Shr(n, i - 1) / 16;
    }
  }

  /** An encoded integer decodes to itself, whatever follows it, for either width. */
  lemma IntRoundTrip(n: nat, t: seq<Byte>, max: nat)
    requires Nibbles(n) <= max <= 16
    ensures DecodeInt(EncodeInt(n) + t, max) == Some((n, |EncodeInt(n)|))
  {
    hide Nibbles, NibbleValue, EncodeInt, Shr;
    EncodedNibble(n, t, 0);
    NibbleValueOf(n, t, 1);
    ShrStep(n, 0);
  }

  lemma {:induction false} NibblesBound(n: nat, k: nat, p: nat)
    requires k >= 1 && p == Pow16(k) && n < p
    ensures Nibbles(n) <= k
  {
    if n >= 16 && k > 1 {
      NibblesBound(n / 16, k - 1, Pow16(k - 1));
    }
  }

  ghost function Pow16(k: nat): nat {
    if k == 0 then 1 else 16 * Pow16(k - 1)
  }

  lemma WidthBounds(n: nat)
    ensures n < TWO32 ==> Nibbles(n) <= 8
    ensures n < TWO64 ==> Nibbles(n) <= 16
  {
    assert Pow16(2) == 0x100 by { assert Pow16(1) == 16; }
    assert Pow16(4) == 0x1_0000 by { assert Pow16(3) == 16 * Pow16(2); }
    assert Pow16(6) == 0x100_0000 by { assert Pow16(5) == 16 * Pow16(4); }
    assert Pow16(8) == TWO32 by { assert Pow16(7) == 16 * Pow16(6); }
    assert Pow16(10) == 0x100_0000_0000 by { assert Pow16(9) == 16 * Pow16(8); }
    assert Pow16(12) == 0x1_0000_0000_0000 by { assert Pow16(11) == 16 * Pow16(10); }
    assert Pow16(14) == 0x100_0000_0000_0000 by { assert Pow16(13) == 16 * Pow16(12); }
    assert Pow16(16) == TWO64 by { assert Pow16(15) == 16 * Pow16(14); }
    if n < TWO32 { NibblesBound(n, 8, TWO32); }
    if n < TWO64 { NibblesBound(n, 16, TWO64); }
  }

  /** The lowest four bits of `n` as nibble `off`: the low half of a byte if odd, else the high half. */
  method PutNibble(data: array<Byte>, off: nat, n: nat)
    requires off / 2 < data.Length
    modifies data
    ensures data[off / 2] as int == if off % 2 == 1 then old(data[off / 2]) / 16 * 16 + n % 16 else old(data[off / 2]) % 16 + n % 16 * 16
    ensures forall j :: 0 <= j < data.Length && j != off / 2 ==> data[j] == old(data[j])
  {
    if off % 2 == 1 {
      data[off / 2] := data[off / 2] / 16 * 16 + n % 16;
    } else {
      data[off / 2] := data[off / 2] % 16 + n % 16 * 16;
    }
  }

  /** The loop over the number's nibbles. */
  method PutNibbles(data: array<Byte>, number: nat) returns (off: nat)
    requires Nibbles(number) / 2 < data.Length && forall i :: 0 <= i < data.Length ==> data[i] == 0
    modifies data
    ensures if number == 0 then Nibbles(number) == 1 && (off == 1 || off == 2) else off == Nibbles(number) + 1
    ensures forall j :: 0 <= j < data.Length ==> data[j] == PartByte(number, off, j)
  {
    hide PartByte, Shr, Nibbles, PartHi, PartLo;
    ShrNibbles(number);
    ShrStep(number, 0);
    PartStart(number);
    var n := number;
    off := 1;
    while n != 0
      invariant 1 <= off <= Nibbles(number) + 1 && n == Shr(number, off - 1)
      invariant forall j :: 0 <= j < data.Length ==> data[j] == PartByte(number, off, j)
      decreases n
    {
      assert off <= Nibbles(number);
      PartStep(number, off);
      ShrStep(number, off - 1);
      PutNibble(data, off, n);
      n, off := n / 16, off + 1;
    }
    NibblesDone(number, off);
  }

  /** ENCODE_INT_INTERNAL into `data`, which has one byte more than the integer's width. */
  method EncodeIntInternal(data: array<Byte>, number: nat) returns (len: nat)
    requires Nibbles(number) <= 16 && Nibbles(number) / 2 < data.Length
    modifies data
    ensures len <= data.Length && data[..len] == EncodeInt(number)
  {
    hide PartByte, NibbleByte, EncodeInt, Nibbles, PartHi, PartLo;
    for j := 0 to data.Length
      invariant forall i :: 0 <= i < j ==> data[i] == 0
    {
      data[j] := 0;
    }
    var off := PutNibbles(data, number);
    var nibbles := if off > 2 then off - 2 else 0;
    len := (off + 1) / 2;
    PartEnd(number, off);
    data[0] := data[0] % 16 + nibbles % 16 * 16;
    Encoded(number, data[..len]);
  }

  lemma ShrStep(n: nat, i: nat)
    ensures Shr(n, i + 1) == Shr(n, i) / 16 && Shr(n, 0) == n
  {
  }

  lemma NibblesDone(number: nat, off: nat)
    requires 1 <= off <= Nibbles(number) + 1 && Shr(number, off - 1) == 0
    requires number > 0 ==> forall i :: 0 <= i < Nibbles(number) ==> Shr(number, i) > 0
    ensures if number == 0 then Nibbles(number) == 1 && (off == 1 || off == 2) else off == Nibbles(number) + 1
  {
  }

  lemma Encoded(n: nat, s: seq<Byte>)
    requires Nibbles(n) <= 16 && |s| == Nibbles(n) / 2 + 1 && forall j :: 0 <= j < |s| ==> s[j] == NibbleByte(n, j)
    ensures s == EncodeInt(n)
  {
    hide NibbleByte, Nibbles;
  }

  lemma NibbleSplit(hi: nat, lo: nat)
    requires hi < 16 && lo < 16
    ensures (hi * 16 + lo) / 16 == hi && (hi * 16 + lo) % 16 == lo
  {
  }

  /** The nibbles of byte `j` once nibbles 1 up to `off` are written and the count is not. */
  ghost function PartHi(n: nat, off: nat, j: nat): (h: nat)
    ensures h < 16
  {
    if 0 < 2 * j < off then NibbleOf(n, 2 * j) % 16 else 0
  }

  ghost function PartLo(n: nat, off: nat, j: nat): (l: nat)
    ensures l < 16
  {
    if 2 * j + 1 < off then NibbleOf(n, 2 * j + 1) % 16 else 0
  }

  ghost function PartByte(n: nat, off: nat, j: nat): (b: Byte)
    ensures b / 16 == PartHi(n, off, j) && b % 16 == PartLo(n, off, j)
  {
    NibbleSplit(PartHi(n, off, j), PartLo(n, off, j));
    PartHi(n, off, j) * 16 + PartLo(n, off, j)
  }

  lemma PartStart(n: nat)
    ensures forall j: nat :: PartByte(n, 1, j) == 0
  {
    hide NibbleOf;
    assert forall j: nat :: PartHi(n, 1, j) == 0 && PartLo(n, 1, j) == 0;
  }

  lemma PartSame(n: nat, off: nat, j: nat)
    requires j != off / 2
    ensures PartByte(n, off + 1, j) == PartByte(n, off, j)
  {
    hide NibbleOf;
  }

  lemma PartStep(n: nat, off: nat)
    requires 1 <= off <= Nibbles(n)
    ensures forall j: nat :: j != off / 2 ==> PartByte(n, off + 1, j) == PartByte(n, off, j)
    ensures var j, d := off / 2, Shr(n, off - 1) % 16;
      PartByte(n, off + 1, j) as int == if off % 2 == 1 then PartByte(n, off, j) / 16 * 16 + d else PartByte(n, off, j) % 16 + d * 16
  {
    forall j: nat | j != off / 2 ensures PartByte(n, off + 1, j) == PartByte(n, off, j) {
      PartSame(n, off, j);
    }
    var j := off / 2;
    PartNibbles(n, off, j);
    hide PartHi, PartLo, Shr, Nibbles;
  }

  lemma PartNibbles(n: nat, off: nat, j: nat)
    requires 1 <= off <= Nibbles(n) && j == off / 2
    ensures off % 2 == 1 ==> PartHi(n, off + 1, j) == PartHi(n, off, j) && PartLo(n, off + 1, j) == Shr(n, off - 1) % 16
    ensures off % 2 == 0 ==> PartHi(n, off + 1, j) == Shr(n, off - 1) % 16 && PartLo(n, off + 1, j) == PartLo(n, off, j)
  {
    hide Shr, Nibbles;
    assert off == 2 * j + off % 2;
    SmallNibble(Shr(n, off - 1));
  }

  lemma SmallNibble(x: nat)
    ensures x % 16 % 16 == x % 16
  {
  }

  /** With all nibbles written, only the count is missing, and byte count and nibble count agree. */
  lemma PartEnd(n: nat, off: nat)
    requires Nibbles(n) <= 16 && if n == 0 then Nibbles(n) == 1 && (off == 1 || off == 2) else off == Nibbles(n) + 1
    ensures (off + 1) / 2 == Nibbles(n) / 2 + 1
    ensures forall j: nat :: j > 0 && j < (off + 1) / 2 ==> PartByte(n, off, j) == NibbleByte(n, j)
    ensures NibbleByte(n, 0) as int == PartByte(n, off, 0) % 16 + (if off > 2 then off - 2 else 0) % 16 * 16
  {
    hide PartByte, NibbleByte, Nibbles;
    forall j: nat | 0 < j < (off + 1) / 2 ensures PartByte(n, off, j) == NibbleByte(n, j) {
      PartWhole(n, off, j);
    }
    PartFirst(n, off);
  }

  lemma PartWhole(n: nat, off: nat, j: nat)
    requires 0 < Nibbles(n) <= 16 && j > 0 && off == Nibbles(n) + 1
    ensures PartByte(n, off, j) == NibbleByte(n, j)
  {
    hide Nibbles, Shr;
    SmallNibble(NibbleOf(n, 2 * j));
    SmallNibble(NibbleOf(n, 2 * j + 1));
    assert PartHi(n, off, j) == NibbleOf(n, 2 * j) % 16;
    assert PartLo(n, off, j) == NibbleOf(n, 2 * j + 1) % 16;
  }

  lemma PartFirst(n: nat, off: nat)
    requires Nibbles(n) <= 16 && if n == 0 then Nibbles(n) == 1 && (off == 1 || off == 2) else off == Nibbles(n) + 1
    ensures NibbleByte(n, 0) as int == PartByte(n, off, 0) % 16 + (if off > 2 then off - 2 else 0) % 16 * 16
  {
    hide Nibbles, Shr, NibbleOf, PartLo, PartHi, PartByte, NibbleByte;
    FirstNibbles(n, off, if off > 2 then off - 2 else 0);
    FirstByte(n);
  }

  lemma FirstByte(n: nat)
    requires Nibbles(n) <= 16
    ensures NibbleByte(n, 0) as int == NibbleOf(n, 0) % 16 * 16 + NibbleOf(n, 1) % 16
  {
    hide NibbleOf, Nibbles;
  }

  lemma FirstNibbles(n: nat, off: nat, c: nat)
    requires Nibbles(n) <= 16 && if n == 0 then Nibbles(n) == 1 && (off == 1 || off == 2) else off == Nibbles(n) + 1
    requires c == if off > 2 then off - 2 else 0
    ensures NibbleOf(n, 0) == c && PartLo(n, off, 0) == NibbleOf(n, 1) % 16
  {
    assert Shr(n, 0) == n;
    assert Nibbles(n) >= 1;
    hide Nibbles, Shr;
  }

  // ---- Records on a buffer --------------------------------------------------

  /** A buffer the caller may append to and drain. */
  method Put(buf: EvBuffer, data: seq<Byte>)
    requires Ready(buf)
    modifies buf`chains, buf`lastWithData, buf`totalLen
    ensures Ready(buf) && buf.Contents() == old(buf.Contents()) + data
  {
    hide Flat, IsLastData, Tight, AddView, AddSafe;
    var r := buf.Add(data);
  }

  lemma AtMost(a: int, b: int)
    requires a <= b
    ensures Min(a, b) == a
  {
  }

  method Skip(buf: EvBuffer, n: nat)
    requires Ready(buf) && n <= buf.totalLen
    modifies buf`chains, buf`lastWithData, buf`totalLen
    ensures Ready(buf) && buf.Contents() == old(buf.Contents())[n..]
  {
    hide Flat, IsLastData, Tight, Min;
    AtMost(n, buf.totalLen);
    var r := buf.Drain(n);
  }

  /** The first `n` bytes, contiguous. */
  method Front(buf: EvBuffer, n: nat) returns (s: seq<Byte>)
    requires Ready(buf) && 0 < n <= buf.totalLen
    modifies buf`chains, buf`lastWithData, buf`totalLen
    ensures Ready(buf) && buf.Contents() == old(buf.Contents()) && s == buf.Contents()[..n]
  {
    hide Flat, IsLastData, Tight;
    var p := buf.Pullup(n);
    PullPrefix(buf.Data(), n);
    s := p.value;
  }

  /** evtag_encode_int, evtag_encode_int64 */
  method PutInt(buf: EvBuffer, number: nat)
    requires Ready(buf) && number < TWO64
    modifies buf`chains, buf`lastWithData, buf`totalLen
    ensures Nibbles(number) <= 16
    ensures Ready(buf) && buf.Contents() == old(buf.Contents()) + EncodeInt(number)
  {
    WidthBounds(number);
    var data := new Byte[9];
    var len := EncodeIntInternal(data, number);
    Put(buf, data[..len]);
  }

  /** evtag_encode_tag */
  method PutTag(buf: EvBuffer, tag: nat)
    requires Ready(buf) && tag < TWO32
    modifies buf`chains, buf`lastWithData, buf`totalLen
    ensures Ready(buf) && buf.Contents() == old(buf.Contents()) + Varint(tag)
  {
    var data: seq<Byte>, t: nat := [], tag;
    while t >= 128
      invariant data + Varint(t) == Varint(tag)
    {
      assert data + Varint(t) == (data + [128 + t % 128]) + Varint(t / 128);
      data, t := data + [128 + t % 128], t / 128;
    }
    Put(buf, data + [t]);
  }

  /** A record of the stream: raw data, or an integer of 32 or 64 bits. */
  datatype Record = Blob(tag: nat, data: seq<Byte>) | Num(tag: nat, wide: bool, n: nat)

  ghost predicate Sendable(r: Record) {
    r.tag < TWO32 &&
    match r
    case Blob(_, d) => |d| <= INT_MAX
    case Num(_, wide, n) => n < if wide then TWO64 else TWO32
  }

  ghost function Payload(r: Record): (d: seq<Byte>)
    requires Sendable(r)
    ensures |d| <= INT_MAX
  {
    match r
    case Blob(_, d) => d
    case Num(_, _, n) => WidthBounds(n); EncodeInt(n)
  }

  ghost function Header(tag: nat, len: nat): seq<Byte>
    requires len <= INT_MAX
  {
    WidthBounds(len);
    Varint(tag) + EncodeInt(len)
  }

  ghost function RecordBytes(r: Record): seq<Byte>
    requires Sendable(r)
  {
    Header(r.tag, |Payload(r)|) + Payload(r)
  }

  /** Tag, length and data, as evtag_marshal writes them. */
  method PutRecord(buf: EvBuffer, tag: nat, data: seq<Byte>)
    requires Ready(buf) && tag < TWO32 && |data| <= INT_MAX
    modifies buf`chains, buf`lastWithData, buf`totalLen
    ensures Ready(buf) && buf.Contents() == old(buf.Contents()) + (Header(tag, |data|) + data)
  {
    hide EncodeInt, Varint, Nibbles, IsLastData, Tight, Flat;
    ghost var before := buf.Contents();
    PutTag(buf, tag);
    PutInt(buf, |data|);
    Put(buf, data);
    assert before + Varint(tag) + EncodeInt(|data|) + data == before + (Varint(tag) + EncodeInt(|data|) + data);
  }

  /** evtag_marshal, evtag_marshal_int, evtag_marshal_int64 */
  method Marshal(buf: EvBuffer, r: Record)
    requires Ready(buf) && Sendable(r)
    modifies buf`chains, buf`lastWithData, buf`totalLen
    ensures Ready(buf) && buf.Contents() == old(buf.Contents()) + RecordBytes(r)
  {
    hide EncodeInt, Header, Nibbles;
    match r {
      case Blob(_, d) => PutRecord(buf, r.tag, d);
      case Num(_, _, n) =>
        WidthBounds(n);
        var bytes := new Byte[9];
        var len := EncodeIntInternal(bytes, n);
        PutRecord(buf, r.tag, bytes[..len]);
    }
  }

  // ---- Reading --------------------------------------------------------------

  /** TagOverrun: five continuation bytes with more behind them, where the code reads past the pulled-up bytes. */
  datatype TagRead = Tag(tag: nat, used: nat) | NoTag | TagOverrun

  ghost function ReadTag(s: seq<Byte>): (r: TagRead)
    ensures r.Tag? ==> 1 <= r.used <= |s|
  {
    match Parse(s[..Min(|s|, 5)])
    case Some(p) => Tag(p.0 % TWO32, p.1)
    case None => if |s| > 5 then TagOverrun else NoTag
  }

  /** `acc` is the value of the first `k` bytes of `s`, `t` the bytes from there on, each unit of which counts `scale` times. */
  ghost predicate Sofar(s: seq<Byte>, t: seq<Byte>, k: nat, acc: nat, scale: nat) {
    && Parse(s).Some? == Parse(t).Some?
    && (Parse(s).Some? ==>
          && Parse(s).value.1 == k + Parse(t).value.1
          && Parse(s).value.0 == acc + scale * Parse(t).value.0)
  }

  lemma SofarStep(s: seq<Byte>, t: seq<Byte>, k: nat, acc: nat, scale: nat)
    requires Sofar(s, t, k, acc, scale) && t != []
    ensures var acc' := acc + t[0] % 128 * scale;
      if t[0] < 128 then Parse(s) == Some((acc', k + 1)) else Sofar(s, t[1..], k + 1, acc', scale * 128)
  {
    if Parse(s).Some? {
      if t[0] < 128 {
        assert Parse(t) == Some((t[0], 1));
        Times(scale, t[0], 0);
      } else {
        var rest := Parse(t[1..]).value.0;
        assert Parse(t).value.0 == t[0] % 128 + 128 * rest;
        Times(scale, t[0] % 128, rest);
      }
    }
  }

  lemma Times(scale: nat, digit: nat, rest: nat)
    ensures scale * (digit + 128 * rest) == digit * scale + scale * 128 * rest
  {
  }

  /** The loop of decode_tag_internal over the pulled-up bytes of a buffer of `len` bytes. */
  method DecodeTag(data: seq<Byte>, len: nat) returns (r: TagRead)
    requires |data| == Min(len, 5)
    ensures r == match Parse(data)
      case Some(p) => Tag(p.0 % TWO32, p.1)
      case None => if len > 5 then TagOverrun else NoTag
  {
    hide Parse;
    var number: nat, scale: nat, count: nat := 0, 1, 0;
    ghost var acc: nat := 0;
    assert data[0..] == data;
    while count < len
      invariant count <= |data| && number == acc % TWO32
      invariant Sofar(data, data[count..], count, acc, scale)
    {
      if count == |data| {
        ParseNone(data[count..]);
        return TagOverrun;
      }
      var lower := data[count];
      var digit: nat := lower % 128;
      SofarStep(data, data[count..], count, acc, scale);
      ModAdd(acc, digit * scale, TWO32);
      assert data[count..][1..] == data[count + 1..];
      number, acc := (number + digit * scale) % TWO32, acc + digit * scale;
      scale, count := scale * 128, count + 1;
      if lower < 128 { return Tag(number, count); }
    }
    ParseNone(data[count..]);
    r := NoTag;
  }

  lemma ParseNone(s: seq<Byte>)
    ensures s == [] ==> Parse(s) == None
  {
  }

  /** decode_tag_internal, evtag_decode_tag (draining) and evtag_peek (not draining). */
  method GetTag(buf: EvBuffer, drain: bool) returns (r: TagRead)
    requires Ready(buf)
    modifies buf`chains, buf`lastWithData, buf`totalLen
    ensures Ready(buf) && r == ReadTag(old(buf.Contents()))
    ensures buf.Contents() == if drain && r.Tag? then old(buf.Contents())[r.used..] else old(buf.Contents())
  {
    hide Parse;
    var len := buf.totalLen;
    var data := [];
    if len > 0 {
      data := Front(buf, Min(len, 5));
    }
    assert data == old(buf.Contents())[..Min(len, 5)];
    r := DecodeTag(data, len);
    if r.Tag? && drain {
      Skip(buf, r.used);
    }
  }

  /** decode_int_internal, decode_int64_internal: read at `offset` without draining. */
  method GetInt(buf: EvBuffer, offset: nat, max: nat) returns (r: Option<(nat, nat)>)
    requires Ready(buf)
    modifies buf`chains, buf`lastWithData, buf`totalLen
    ensures Ready(buf) && buf.Contents() == old(buf.Contents())
    ensures r == if offset < |buf.Contents()| then DecodeInt(buf.Contents()[offset..], max) else None
  {
    hide IsLastData, Tight, Flat, NibbleValue;
    var total := Length(buf);
    var avail := total - offset;
    if avail <= 0 { return None; }
    ghost var s := buf.Contents()[offset..];
    var data := Front(buf, offset + 1);
    Window(buf.Contents(), offset, 1);
    var k := data[offset] / 16 + 1;
    if k > max || k / 2 + 1 > avail { return None; }
    var len := k / 2 + 1;
    data := Front(buf, offset + len);
    Window(buf.Contents(), offset, len);
    var number := GatherNibbles(data[offset..], k);
    NibbleValuePrefix(s, len, 1, k);
    r := Some((number, len));
  }

  lemma Window(s: seq<Byte>, a: nat, n: nat)
    requires n > 0 && a + n <= |s|
    ensures s[..a + n][a..] == s[a..][..n] && s[..a + n][a] == s[a..][0]
  {
  }

  /** The loop of DECODE_INT_INTERNAL. */
  method GatherNibbles(data: seq<Byte>, k: nat) returns (number: nat)
    requires k / 2 < |data|
    ensures number == NibbleValue(data, 1, k)
  {
    var nibbles := k;
    number := 0;
    while nibbles > 0
      invariant 0 <= nibbles <= k && number == NibbleValue(data, nibbles + 1, k)
    {
      number := 16 * number + if nibbles % 2 == 1 then data[nibbles / 2] % 16 else data[nibbles / 2] / 16;
      nibbles := nibbles - 1;
    }
  }

  lemma {:induction false} NibbleValuePrefix(s: seq<Byte>, len: nat, i: nat, k: nat)
    requires 1 <= i && k / 2 < len <= |s|
    ensures NibbleValue(s, i, k) == NibbleValue(s[..len], i, k)
    decreases k + 1 - i
  {
    if i <= k {
      NibbleValuePrefix(s, len, i + 1, k);
    }
  }

  /** evbuffer_get_length */
  method Length(buf: EvBuffer) returns (n: nat)
    requires Ready(buf)
    ensures n == |buf.Contents()|
  {
    n := buf.totalLen;
  }

  /** evtag_decode_int, evtag_decode_int64 */
  method TakeInt(buf: EvBuffer, max: nat) returns (r: Option<nat>)
    requires Ready(buf)
    modifies buf`chains, buf`lastWithData, buf`totalLen
    ensures Ready(buf)
    ensures match DecodeInt(old(buf.Contents()), max)
      case None => r == None && buf.Contents() == old(buf.Contents())
      case Some(p) => r == Some(p.0) && buf.Contents() == old(buf.Contents())[p.1..]
  {
    hide DecodeInt;
    DecodeNone([], max);
    assert buf.Contents()[0..] == buf.Contents();
    var p := GetInt(buf, 0, max);
    if p.None? { return None; }
    Skip(buf, p.value.1);
    r := Some(p.value.0);
  }

  lemma DecodeNone(s: seq<Byte>, max: nat)
    ensures s == [] ==> DecodeInt(s, max) == None
  {
  }

  datatype HeaderRead = Head(tag: nat, len: nat, used: nat) | NoHead | HeadOverrun

  ghost function ReadHeader(s: seq<Byte>): (r: HeaderRead)
    ensures r.Head? ==> r.used <= |s|
  {
    match ReadTag(s)
    case Tag(t, u) =>
      (match DecodeInt(s[u..], 8)
       case None => NoHead
       case Some(p) => Head(t, p.0, u + p.1))
    case NoTag => NoHead
    case TagOverrun => HeadOverrun
  }

  lemma {:induction false} VarintShort(v: nat)
    requires v < TWO32
    ensures |Varint(v)| <= 5
  {
    var n := SizeUInt32(v);
  }

  lemma {:induction false} ParsePrefix(s: seq<Byte>, k: nat)
    requires k <= |s| && Parse(s).Some? && Parse(s).value.1 <= k
    ensures Parse(s[..k]) == Parse(s)
  {
    if s[0] >= 128 {
      assert s[..k][1..] == s[1..][..k - 1];
      ParsePrefix(s[1..], k - 1);
    }
  }

  /** The header of a record reads back, whatever follows it. */
  lemma HeaderRoundTrip(tag: nat, len: nat, t: seq<Byte>)
    requires tag < TWO32 && len <= INT_MAX
    ensures ReadTag(Header(tag, len) + t) == Tag(tag, |Varint(tag)|)
    ensures ReadHeader(Header(tag, len) + t) == Head(tag, len, |Header(tag, len)|)
  {
    hide EncodeInt, Varint, Nibbles, ReadHeader, ReadTag;
    WidthBounds(len);
    LongHeader(tag, len, t);
    assert Header(tag, len) + t == Varint(tag) + (EncodeInt(len) + t);
  }

  /** So does one with any 32-bit length. */
  lemma LongHeader(tag: nat, len: nat, t: seq<Byte>)
    requires tag < TWO32 && len < TWO32 && Nibbles(len) <= 16
    ensures var a, b := Varint(tag), EncodeInt(len); var s := a + (b + t);
      ReadTag(s) == Tag(tag, |a|) && ReadHeader(s) == Head(tag, len, |a| + |b|)
  {
    hide EncodeInt, Varint, Nibbles, Parse, DecodeInt;
    WidthBounds(len);
    var a, b := Varint(tag), EncodeInt(len);
    var s := a + (b + t);
    VarintShort(tag);
    ParseVarint(tag, b + t);
    ParsePrefix(s, Min(|s|, 5));
    assert s[|a|..] == b + t;
    IntRoundTrip(len, t, 8);
  }

  /**
   How reading a record ends.  Negative: a payload length that is negative as an int passes for success.
   Overrun: the tag runs past the five bytes pulled up; the model stops there.
   */
  datatype Answer<+T> = Got(value: T) | Failed | Negative | Overrun

  /** evtag_peek_length and evtag_payload_length: the whole record's length and the payload's, nothing drained. */
  method PeekLengths(buf: EvBuffer) returns (r: Answer<(nat, nat)>)
    requires Ready(buf)
    modifies buf`chains, buf`lastWithData, buf`totalLen
    ensures Ready(buf) && buf.Contents() == old(buf.Contents())
    ensures r == match ReadHeader(buf.Contents())
      case Head(_, len, used) => Got(((used + len) % TWO32, len))
      case NoHead => Failed
      case HeadOverrun => Overrun
    ensures r.Overrun? <==> ReadTag(buf.Contents()).TagOverrun?
  {
    hide ReadTag, DecodeInt, IsLastData, Tight, Flat;
    var t := GetTag(buf, false);
    if !t.Tag? { return if t.TagOverrun? then Overrun else Failed; }
    DecodeNone(buf.Contents()[t.used..], 8);
    var p := GetInt(buf, t.used, 8);
    if p.None? { return Failed; }
    r := Got(((p.value.0 + p.value.1 + t.used) % TWO32, p.value.0));
  }

  /** What is left when a tag was read, or not. */
  ghost function PastTag(s: seq<Byte>): seq<Byte> {
    match ReadTag(s)
    case Tag(_, u) => s[u..]
    case _ => s
  }

  /** A 32-bit number as an int. */
  function AsInt(n: nat): int
    requires n < TWO32
  {
    if n <= INT_MAX then n else n - TWO32
  }

  /** evtag_unmarshal_header: the payload's length as an int when all of it is there; -1 is a failure. */
  method TakeHeader(buf: EvBuffer) returns (r: Answer<(nat, int)>)
    requires Ready(buf)
    modifies buf`chains, buf`lastWithData, buf`totalLen
    ensures Ready(buf)
    ensures match ReadHeader(old(buf.Contents()))
      case Head(tag, len, used) =>
        && len < TWO32 && buf.Contents() == old(buf.Contents())[used..]
        && r == if len <= |buf.Contents()| && len != TWO32 - 1 then Got((tag, AsInt(len))) else Failed
      case NoHead => r == Failed && buf.Contents() == PastTag(old(buf.Contents()))
      case HeadOverrun => r == Overrun
    ensures r.Overrun? <==> ReadTag(old(buf.Contents())).TagOverrun?
  {
    hide ReadTag, DecodeInt, IsLastData, Tight, Flat;
    ghost var s := buf.Contents();
    var t := GetTag(buf, true);
    if !t.Tag? { return if t.TagOverrun? then Overrun else Failed; }
    var len := TakeInt(buf, 8);
    if len.None? { return Failed; }
    ghost var p := DecodeInt(s[t.used..], 8).value;
    assert s[t.used..][p.1..] == s[t.used + p.1..];
    DecodeWord(s[t.used..]);
    var n := Length(buf);
    if n < len.value { return Failed; }
    var signed := AsInt(len.value);
    r := if signed == -1 then Failed else Got((t.tag, signed));
  }

  /**
   evtag_unmarshal, with the payload as the result.  A negative length other than -1 goes on into
   evbuffer_pullup and evbuffer_add; the model stops there.
   */
  method TakeBlob(buf: EvBuffer) returns (r: Answer<Record>)
    requires Ready(buf)
    modifies buf`chains, buf`lastWithData, buf`totalLen
    ensures Ready(buf)
    ensures match ReadHeader(old(buf.Contents()))
      case Head(tag, len, used) =>
        if used + len > |old(buf.Contents())| || len == TWO32 - 1 then
          r == Failed && buf.Contents() == old(buf.Contents())[used..]
        else if len > INT_MAX then
          r == Negative && buf.Contents() == old(buf.Contents())[used..]
        else
          && r == Got(Blob(tag, old(buf.Contents())[used..used + len]))
          && buf.Contents() == old(buf.Contents())[used + len..]
      case NoHead => r == Failed && buf.Contents() == PastTag(old(buf.Contents()))
      case HeadOverrun => r == Overrun
    ensures r.Overrun? <==> ReadTag(old(buf.Contents())).TagOverrun?
  {
    hide ReadHeader, PastTag, ReadTag, IsLastData, Tight, Flat;
    ghost var s := buf.Contents();
    var h := TakeHeader(buf);
    if !h.Got? { return if h.Overrun? then Overrun else Failed; }
    var (tag, len) := h.value;
    if len < 0 { return Negative; }
    ghost var used := ReadHeader(s).used;
    var data := [];
    if len > 0 { data := Front(buf, len); }
    assert s[used..][..len] == s[used..used + len];
    assert s[used..][len..] == s[used + len..];
    Skip(buf, len);
    r := Got(Blob(tag, data));
  }

  /** What evtag_unmarshal_int returns and leaves. */
  ghost function NumTaken(s: seq<Byte>, needTag: nat, max: nat): (r: (Answer<nat>, seq<Byte>))
    ensures r.0.Overrun? <==> ReadTag(s).TagOverrun?
  {
    match ReadHeader(s)
    case HeadOverrun => (Overrun, s)
    case NoHead => (Failed, PastTag(s))
    case Head(tag, len, used) =>
      if tag != needTag then (Failed, PastTag(s))
      else if used + len > |s| then (Failed, s[used..])
      else (Within(DecodeInt(s[used..], max), len), s[used + len..])
  }

  ghost function Within(p: Option<(nat, nat)>, len: nat): (r: Answer<nat>)
    ensures !r.Overrun?
  {
    if p.Some? && p.value.1 <= len then Got(p.value.0) else Failed
  }

  /** evtag_unmarshal_int, evtag_unmarshal_int64 */
  method TakeNum(buf: EvBuffer, needTag: nat, wide: bool) returns (r: Answer<nat>)
    requires Ready(buf)
    modifies buf`chains, buf`lastWithData, buf`totalLen
    ensures Ready(buf)
    ensures (r, buf.Contents()) == NumTaken(old(buf.Contents()), needTag, if wide then 16 else 8)
  {
    hide ReadTag, DecodeInt, IsLastData, Tight, Flat;
    ghost var s := buf.Contents();
    var t := GetTag(buf, true);
    if !t.Tag? { return if t.TagOverrun? then Overrun else Failed; }
    if t.tag != needTag { return Failed; }
    var len := TakeInt(buf, 8);
    if len.None? { return Failed; }
    ghost var p := DecodeInt(s[t.used..], 8).value;
    var n := Length(buf);
    HeadParts(s, t.used, p.1, len.value);
    if n < len.value { return Failed; }
    r := TakeNumBody(buf, len.value, if wide then 16 else 8);
  }

  /** Dropping tag, length and payload one after the other. */
  lemma HeadParts(s: seq<Byte>, a: nat, b: nat, c: nat)
    requires a + b <= |s|
    ensures s[a..][b..] == s[a + b..]
    ensures a + b + c <= |s| ==> s[a + b..][c..] == s[a + b + c..]
  {
  }

  method Empty() returns (buf: EvBuffer)
    ensures fresh(buf) && Ready(buf) && buf.Contents() == []
  {
    buf := new EvBuffer();
  }

  /** Five continuation bytes and two more: the tag is looked for behind the bytes pulled up. */
  method TagRunsOn() returns (blob: Answer<Record>, num: Answer<nat>)
    ensures blob.Overrun? && num.Overrun?
  {
    var data := [128, 128, 128, 128, 128, 0, 0];
    Runs(data);
    var buf := Empty();
    Put(buf, data);
    assert [] + data == data;
    num := TakeNum(buf, 0, false);
    buf := Empty();
    Put(buf, data);
    blob := TakeBlob(buf);
  }

  lemma Runs(s: seq<Byte>)
    requires s == [128, 128, 128, 128, 128, 0, 0]
    ensures ReadTag(s) == TagOverrun
  {
    hide Parse;
    var t := s[..5];
    AllContinue(t, 5);
    assert t[0..] == t;
  }

  lemma {:induction false} AllContinue(t: seq<Byte>, i: nat)
    requires i <= |t| && forall j :: 0 <= j < |t| ==> t[j] >= 128
    ensures Parse(t[|t| - i..]) == None
  {
    if i > 0 {
      AllContinue(t, i - 1);
      assert t[|t| - i..][1..] == t[|t| - (i - 1)..];
    }
  }

  /** A record of 2^31 bytes, all there: its length is negative as an int and passes for success. */
  method NegativeLength(data: seq<Byte>) returns (r: Answer<Record>)
    requires |data| == 0x8000_0000
    ensures r == Negative
  {
    hide EncodeInt, Varint, ReadTag, DecodeInt, Nibbles, Parse, IsLastData, Tight, Flat;
    var buf := Empty();
    PutTag(buf, 0);
    PutInt(buf, |data|);
    Put(buf, data);
    ghost var a, b := Varint(0), EncodeInt(|data|);
    assert buf.Contents() == a + (b + data);
    LongHeader(0, |data|, data);
    r := TakeBlob(buf);
  }

  method TakeNumBody(buf: EvBuffer, len: nat, max: nat) returns (r: Answer<nat>)
    requires Ready(buf) && len <= |buf.Contents()|
    modifies buf`chains, buf`lastWithData, buf`totalLen
    ensures Ready(buf) && buf.Contents() == old(buf.Contents())[len..]
    ensures r == Within(DecodeInt(old(buf.Contents()), max), len)
  {
    hide DecodeInt, IsLastData, Tight, Flat;
    DecodeNone(buf.Contents(), max);
    assert buf.Contents()[0..] == buf.Contents();
    var p := GetInt(buf, 0, max);
    Skip(buf, len);
    r := if p.Some? && p.value.1 <= len then Got(p.value.0) else Failed;
  }

  // ---- Streams --------------------------------------------------------------

  ghost function StreamBytes(rs: seq<Record>): seq<Byte>
    requires forall r :: r in rs ==> Sendable(r)
  {
    if rs == [] then [] else RecordBytes(rs[0]) + StreamBytes(rs[1..])
  }

  /** Read the record at the front, as the kind it was sent as. */
  method Unmarshal(buf: EvBuffer, ghost sent: Record, tag: nat, isNum: bool, wide: bool, ghost t: seq<Byte>)
    returns (r: Answer<Record>)
    requires Ready(buf) && Sendable(sent) && buf.Contents() == RecordBytes(sent) + t
    requires tag == sent.tag && isNum == sent.Num? && (sent.Num? ==> wide == sent.wide)
    modifies buf`chains, buf`lastWithData, buf`totalLen
    ensures Ready(buf) && r == Got(sent) && buf.Contents() == t
  {
    hide EncodeInt, Header, ReadHeader, ReadTag, DecodeInt, Nibbles, IsLastData, Tight, Flat;
    ghost var d := Payload(sent);
    ghost var h := Header(sent.tag, |d|);
    ghost var s := buf.Contents();
    HeaderRoundTrip(sent.tag, |d|, d + t);
    assert s == h + (d + t);
    assert s[|h|..] == d + t;
    assert s[|h|..|h| + |d|] == d && s[|h| + |d|..] == t;
    if isNum {
      WidthBounds(sent.n);
      IntRoundTrip(sent.n, t, if wide then 16 else 8);
      var n := TakeNum(buf, tag, wide);
      r := if n.Got? then Got(Num(tag, wide, n.value)) else Failed;
    } else {
      r := TakeBlob(buf);
    }
  }

  /** The lengths peeked at are those of the record and of its payload, which reading then consumes. */
  method PeekThenTake(buf: EvBuffer, ghost sent: Record, tag: nat, isNum: bool, wide: bool, ghost t: seq<Byte>)
    returns (total: nat, payload: nat, r: Answer<Record>)
    requires Ready(buf) && Sendable(sent) && buf.Contents() == RecordBytes(sent) + t
    requires tag == sent.tag && isNum == sent.Num? && (sent.Num? ==> wide == sent.wide)
    modifies buf`chains, buf`lastWithData, buf`totalLen
    ensures Ready(buf) && r == Got(sent) && buf.Contents() == t
    ensures total == |RecordBytes(sent)| && payload == |Payload(sent)|
  {
    hide EncodeInt, Varint, Header, ReadTag, ReadHeader, DecodeInt, Nibbles, IsLastData, Tight, Flat, Payload;
    ghost var d := Payload(sent);
    HeaderRoundTrip(sent.tag, |d|, d + t);
    HeaderShort(sent.tag, |d|);
    assert buf.Contents() == Header(sent.tag, |d|) + (d + t);
    var p := PeekLengths(buf);
    total, payload := p.value.0, p.value.1;
    r := Unmarshal(buf, sent, tag, isNum, wide, t);
  }

  lemma HeaderShort(tag: nat, len: nat)
    requires tag < TWO32 && len <= INT_MAX
    ensures |Header(tag, len)| <= 14 && |Header(tag, len)| + len < TWO32
  {
    hide Varint, Nibbles;
    VarintShort(tag);
    WidthBounds(len);
  }

  /** Marshal a list of records and read it back: the same list, and the buffer is empty again. */
  method Stream(buf: EvBuffer, rs: seq<Record>) returns (back: seq<Record>)
    requires Ready(buf) && buf.Contents() == []
    requires forall r :: r in rs ==> Sendable(r)
    modifies buf`chains, buf`lastWithData, buf`totalLen
    ensures Ready(buf) && buf.Contents() == [] && back == rs
  {
    hide RecordBytes, Sendable, IsLastData, Tight, Flat;
    MarshalAll(buf, rs);
    back := [];
    var i := 0;
    assert rs[0..] == rs;
    while i < |rs|
      invariant i <= |rs| && Ready(buf) && buf.Contents() == StreamBytes(rs[i..])
      invariant back == rs[..i]
    {
      assert rs[i..][1..] == rs[i + 1..];
      var r := Unmarshal(buf, rs[i], rs[i].tag, rs[i].Num?, rs[i].Num? && rs[i].wide, StreamBytes(rs[i + 1..]));
      back := back + [r.value];
      i := i + 1;
    }
  }

  method MarshalAll(buf: EvBuffer, rs: seq<Record>)
    requires Ready(buf)
    requires forall r :: r in rs ==> Sendable(r)
    modifies buf`chains, buf`lastWithData, buf`totalLen
    ensures Ready(buf) && buf.Contents() == old(buf.Contents()) + StreamBytes(rs)
  {
    hide RecordBytes, Sendable, IsLastData, Tight, Flat;
    ghost var goal := buf.Contents() + StreamBytes(rs);
    var i := 0;
    assert rs[0..] == rs;
    while i < |rs|
      invariant i <= |rs| && Ready(buf)
      invariant buf.Contents() + StreamBytes(rs[i..]) == goal
    {
      ghost var c := buf.Contents();
      assert rs[i..][1..] == rs[i + 1..];
      Marshal(buf, rs[i]);
      assert c + (RecordBytes(rs[i]) + StreamBytes(rs[i + 1..])) == (c + RecordBytes(rs[i])) + StreamBytes(rs[i + 1..]);
      i := i + 1;
    }
    assert buf.Contents() + [] == buf.Contents();
  }
}
