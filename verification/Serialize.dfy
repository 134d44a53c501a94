/** System/Serialize.cpp: typed integers behind a checked header, as base-64 text. */
module Serialize {
  import opened Octets
  import opened Arith

  // ---- Integers -------------------------------------------------------------

  /** operator << (UInt32): one to five bytes, the width told by the first. */
  function WordBytes(v: nat): (s: seq<Byte>)
    requires v < TWO32
    ensures 1 <= |s| <= 5
  {
    if v < 0x80 then [v]
    else if v < 0x4000 then [v % 64 + 0x80, v / 64]
    else if v < 0x20_0000 then [v % 32 + 0xc0, v / 32 % 256, v / 0x2000]
    else if v < 0x1000_0000 then [v % 16 + 0xe0, v / 16 % 256, v / 0x1000 % 256, v / 0x10_0000]
    else [0xff, v % 256, v / 0x100 % 256, v / 0x1_0000 % 256, v / 0x100_0000]
  }

  /** How many bytes operator >> (UInt32&) takes, from the first. */
  function Width(b: Byte): nat {
    if b < 0x80 then 1 else if b < 0xc0 then 2 else if b < 0xe0 then 3 else if b < 0xf0 then 4 else 5
  }

  /** operator >> (UInt32&) when all its bytes are there. */
  function WordValue(s: seq<Byte>): (v: nat)
    requires s != [] && Width(s[0]) <= |s|
    ensures v < TWO32
  {
    match Width(s[0])
    case 1 => s[0]
    case 2 => s[0] as int % 64 + s[1] as int * 64
    case 3 => s[0] as int % 32 + s[1] as int * 32 + s[2] as int * 0x2000
    case 4 => s[0] as int % 16 + s[1] as int * 16 + s[2] as int * 0x1000 + s[3] as int * 0x10_0000
    case _ => s[1] as int + s[2] as int * 0x100 + s[3] as int * 0x1_0000 + s[4] as int * 0x100_0000
  }

  /** Every width reads back, whatever follows. */
  lemma WordRoundTrip(v: nat, t: seq<Byte>)
    requires v < TWO32
    ensures var s := WordBytes(v) + t;
      Width(s[0]) == |WordBytes(v)| && WordValue(s) == v
  {
    var w := WordBytes(v);
    var s := w + t;
    assert forall i :: 0 <= i < |w| ==> s[i] == w[i];
    WordArith(v);
    WordValuePrefix(w, t);
  }

  lemma WordValuePrefix(w: seq<Byte>, t: seq<Byte>)
    requires w != [] && Width(w[0]) <= |w|
    ensures WordValue(w + t) == WordValue(w)
  {
  }

  lemma WordArith(v: nat)
    requires v < TWO32
    ensures Width(WordBytes(v)[0]) == |WordBytes(v)| && WordValue(WordBytes(v)) == v
  {
    if 0x80 <= v < 0x4000 {
      WordTwo(v);
    } else if 0x4000 <= v < 0x20_0000 {
      WordThree(v);
    } else if 0x20_0000 <= v < 0x1000_0000 {
      WordFour(v);
    } else if v >= 0x1000_0000 {
      WordFive(v);
    }
  }

  lemma WordTwo(v: nat)
    ensures (v % 64 + 0x80) % 64 + v / 64 * 64 == v
  {
  }

  lemma WordThree(v: nat)
    requires v < TWO32
    ensures (v % 32 + 0xc0) % 32 + v / 32 % 256 * 32 + v / 0x2000 * 0x2000 == v
  {
    assert (v % 32 + 0xc0) % 32 == v % 32;
    Divided(v / 32, v / 0x2000);
  }

  lemma WordFour(v: nat)
    requires v < TWO32
    ensures (v % 16 + 0xe0) % 16 + v / 16 % 256 * 16 + v / 0x1000 % 256 * 0x1000 + v / 0x10_0000 * 0x10_0000 == v
  {
    assert (v % 16 + 0xe0) % 16 == v % 16;
    Divided(v / 16, v / 0x1000);
    Divided(v / 0x1000, v / 0x10_0000);
  }

  /** The low byte of a number and the rest. */
  lemma Divided(a: nat, b: nat)
    requires 256 * b <= a < 256 * b + 256
    ensures a == b * 256 + a % 256
  {
  }

  lemma WordFive(v: nat)
    requires v < TWO32
    ensures v % 256 + v / 0x100 % 256 * 0x100 + v / 0x1_0000 % 256 * 0x1_0000 + v / 0x100_0000 * 0x100_0000 == v
  {
    Divided(v, v / 0x100);
    Divided(v / 0x100, v / 0x1_0000);
    Divided(v / 0x1_0000, v / 0x100_0000);
  }

  datatype Type = U8 | I8 | U16 | I16 | U32 | I32 | U64 | I64

  datatype Item = Item(ty: Type, v: int)

  function Bits(ty: Type): (m: nat)
    ensures m in {0x100, 0x1_0000, TWO32, TWO64}
  {
    match ty
    case U8 | I8 => 0x100
    case U16 | I16 => 0x1_0000
    case U32 | I32 => TWO32
    case U64 | I64 => TWO64
  }

  predicate SignedType(ty: Type) {
    ty == I8 || ty == I16 || ty == I32 || ty == I64
  }

  predicate Fits(x: Item) {
    var m := Bits(x.ty);
    if SignedType(x.ty) then -(m as int) <= 2 * x.v < m else 0 <= x.v < m
  }

  /** A word of `m` values read as the type's value. */
  function Cast(ty: Type, n: nat): int {
    var x := n % Bits(ty);
    if SignedType(ty) && 2 * x >= Bits(ty) then x - Bits(ty) else x
  }

  /** The 32-bit words an item is written as: sign-extended to 32 bits, or the low and the high half of 64. */
  function Words(x: Item): (ws: seq<nat>)
    requires Fits(x)
    ensures forall i :: 0 <= i < |ws| ==> ws[i] < TWO32
    ensures |ws| == WordCount(x.ty)
  {
    if x.ty == U64 || x.ty == I64 then
      var n := x.v % TWO64;
      [n % TWO32, n / TWO32]
    else [x.v % TWO32]
  }

  function WordCount(ty: Type): nat {
    if ty == U64 || ty == I64 then 2 else 1
  }

  function FromWords(ty: Type, ws: seq<nat>): int
    requires |ws| == WordCount(ty)
  {
    if |ws| == 2 then Cast(ty, ws[0] + ws[1] * TWO32) else Cast(ty, ws[0])
  }

  /** Truncating the words back to the type undoes the widening. */
  lemma CastRoundTrip(x: Item)
    requires Fits(x)
    ensures FromWords(x.ty, Words(x)) == x.v
  {
    hide Cast, Fits;
    match x.ty {
      case U64 | I64 =>
        var n := x.v % TWO64;
        assert n % TWO32 + n / TWO32 * TWO32 == n;
        CastMod(x.ty, n, x.v);
      case U32 | I32 => CastMod(x.ty, x.v % TWO32, x.v);
      case U16 | I16 | U8 | I8 =>
        FitsBits(x);
        NarrowMod(x.v, Bits(x.ty));
        CastMod(x.ty, x.v % TWO32, x.v);
    }
  }

  lemma FitsBits(x: Item)
    requires Fits(x)
    ensures -(Bits(x.ty) as int) <= x.v < Bits(x.ty)
  {
  }

  lemma CastMod(ty: Type, n: nat, v: int)
    requires Fits(Item(ty, v)) && n % Bits(ty) == v % Bits(ty)
    ensures Cast(ty, n) == v
  {
    var m := Bits(ty);
    assert v % m == if v < 0 then v + m else v;
  }

  lemma NarrowMod(v: int, m: nat)
    requires (m == 0x100 || m == 0x1_0000) && -(m as int) <= v < m
    ensures v % TWO32 % m == v % m
  {
    if v < 0 {
      ModUnique(v, -1, v + TWO32, TWO32);
      ModUnique(v, -1, v + m, m);
      ModUnique(v + TWO32, TWO32 / m - 1, v + m, m);
    } else {
      ModUnique(v, 0, v, TWO32);
    }
  }

  function WordsBytes(ws: seq<nat>): seq<Byte>
    requires forall i :: 0 <= i < |ws| ==> ws[i] < TWO32
  {
    if ws == [] then [] else WordBytes(ws[0]) + WordsBytes(ws[1..])
  }

  function ItemsBytes(xs: seq<Item>): seq<Byte>
    requires forall x :: x in xs ==> Fits(x)
  {
    if xs == [] then [] else WordsBytes(Words(xs[0])) + ItemsBytes(xs[1..])
  }

  // ---- Base 64 --------------------------------------------------------------

  /** table64 */
  function Char64(x: nat): char
    requires x < 64
  {
    if x < 26 then 'A' + x as char
    else if x < 52 then 'a' + (x - 26) as char
    else if x < 62 then '0' + (x - 52) as char
    else if x == 62 then '+' else '/'
  }

  /** table128, with -1 for every character that is not in the alphabet; the padding character counts as 0. */
  function Val64(c: char): (v: int)
    ensures -1 <= v < 64
  {
    if 'A' <= c <= 'Z' then c as int - 'A' as int
    else if 'a' <= c <= 'z' then c as int - 'a' as int + 26
    else if '0' <= c <= '9' then c as int - '0' as int + 52
    else if c == '+' then 62
    else if c == '/' then 63
    else if c == '=' then 0
    else -1
  }

  lemma CharRoundTrip(x: nat)
    requires x < 64
    ensures Val64(Char64(x)) == x && Char64(x) != '='
  {
  }

  /** Three bytes as four characters; the code packs from the low end. */
  function Group(a: Byte, b: Byte, c: Byte): (s: string)
    ensures |s| == 4
  {
    [Char64(a % 64), Char64(a / 64 + b % 16 * 4), Char64(b / 16 + c % 4 * 16), Char64(c / 4)]
  }

  /** ToString's text for a byte string, in its three padding cases. */
  function Encode64(s: seq<Byte>): (r: string)
    ensures |r| % 4 == 0 && (s != [] ==> |r| >= 4)
  {
    if |s| == 0 then []
    else if |s| == 1 then [Char64(s[0] % 64), Char64(s[0] / 64), '=', '=']
    else if |s| == 2 then [Char64(s[0] % 64), Char64(s[0] / 64 + s[1] % 16 * 4), Char64(s[1] / 16), '=']
    else Group(s[0], s[1], s[2]) + Encode64(s[3..])
  }

  /** The three bytes of four alphabet values. */
  function Ungroup(p: int, q: int, r: int, t: int): (s: seq<Byte>)
    requires 0 <= p < 64 && 0 <= q < 64 && 0 <= r < 64 && 0 <= t < 64
    ensures |s| == 3
  {
    [p + q % 4 * 64, q / 4 + r % 16 * 16, r / 16 + t * 4]
  }

  /** One round of the decoding loop: the three bytes, and how many of them count; None outside the alphabet. */
  function DecodeGroup(s: string): (r: Option<(seq<Byte>, nat)>)
    requires |s| == 4
    ensures r.Some? ==> |r.value.0| == 3 && 1 <= r.value.1 <= 3
  {
    var p, q, r, t := Val64(s[0]), Val64(s[1]), Val64(s[2]), Val64(s[3]);
    if p < 0 || q < 0 || r < 0 || t < 0 then None
    else Some((Ungroup(p, q, r, t), if s[2] == '=' then 1 else if s[3] == '=' then 2 else 3))
  }

  /** The decoding loop: all bytes of all groups, and how many of them count. */
  function Decode64(s: string): (r: Option<(seq<Byte>, nat)>)
    requires |s| % 4 == 0
    ensures r.Some? ==> r.value.1 <= |r.value.0|
  {
    if s == [] then Some(([], 0))
    else
      match DecodeGroup(s[..4])
      case None => None
      case Some(g) => Ahead(g.0, g.1, Decode64(s[4..]))
  }

  function Ahead(bytes: seq<Byte>, sz: nat, rest: Option<(seq<Byte>, nat)>): Option<(seq<Byte>, nat)> {
    if rest.Some? then Some((bytes + rest.value.0, sz + rest.value.1)) else None
  }

  lemma UngroupThree(a: Byte, b: Byte, c: Byte)
    ensures Ungroup(a % 64, a / 64 + b % 16 * 4, b / 16 + c % 4 * 16, c / 4) == [a, b, c]
  {
    assert (a as int / 64 + b as int % 16 * 4) % 4 == a as int / 64;
    assert (b as int / 16 + c as int % 4 * 16) % 16 == b as int / 16;
  }

  lemma GroupRoundTrip(a: Byte, b: Byte, c: Byte)
    ensures DecodeGroup(Group(a, b, c)) == Some(([a, b, c], 3))
  {
    hide Char64, Val64, Ungroup;
    CharRoundTrip(a % 64);
    CharRoundTrip(a / 64 + b % 16 * 4);
    CharRoundTrip(b / 16 + c % 4 * 16);
    CharRoundTrip(c / 4);
    UngroupThree(a, b, c);
  }

  lemma PadValue()
    ensures Val64('=') == 0
  {
  }

  lemma TailOne(a: Byte)
    ensures DecodeGroup([Char64(a % 64), Char64(a / 64), '=', '=']) == Some(([a, 0, 0], 1))
  {
    hide Char64, Val64, Ungroup;
    CharRoundTrip(a % 64);
    CharRoundTrip(a / 64);
    PadValue();
    UngroupThree(a, 0, 0);
    assert Ungroup(a % 64, a / 64, 0, 0) == [a, 0, 0];
  }

  lemma TailTwo(a: Byte, b: Byte)
    ensures DecodeGroup([Char64(a % 64), Char64(a / 64 + b % 16 * 4), Char64(b / 16), '=']) == Some(([a, b, 0], 2))
  {
    hide Char64, Val64, Ungroup;
    CharRoundTrip(a % 64);
    CharRoundTrip(a / 64 + b % 16 * 4);
    CharRoundTrip(b / 16);
    PadValue();
    UngroupThree(a, b, 0);
    assert Ungroup(a % 64, a / 64 + b % 16 * 4, b / 16, 0) == [a, b, 0];
  }

  /** Encoded text decodes to the bytes, padded with zeros to whole groups, and counts exactly the bytes. */
  lemma {:induction false} TextRoundTrip(s: seq<Byte>)
    ensures var r := Decode64(Encode64(s));
      r.Some? && r.value.1 == |s| && |r.value.0| == (|s| + 2) / 3 * 3 && r.value.0[..|s|] == s
  {
    hide Group, DecodeGroup, Char64, Decode64;
    var e := Encode64(s);
    if |s| == 0 {
      DecodeNothing();
    } else if |s| <= 2 {
      if |s| == 1 { TailOne(s[0]); } else { TailTwo(s[0], s[1]); }
      DecodeNothing();
      DecodeStep(e, []);
      assert e + [] == e;
    } else {
      GroupRoundTrip(s[0], s[1], s[2]);
      TextRoundTrip(s[3..]);
      DecodeStep(Group(s[0], s[1], s[2]), Encode64(s[3..]));
      HeadThree(s, Decode64(Encode64(s[3..])).value.0);
    }
  }

  lemma DecodeNothing()
    ensures Decode64([]) == Some(([], 0))
  {
  }

  lemma DecodeStep(g: string, t: string)
    requires |g| == 4 && |t| % 4 == 0
    ensures Decode64(g + t) == match DecodeGroup(g)
      case None => None
      case Some(p) => Ahead(p.0, p.1, Decode64(t))
  {
    hide DecodeGroup;
    assert (g + t)[..4] == g && (g + t)[4..] == t;
  }

  lemma HeadThree(s: seq<Byte>, d: seq<Byte>)
    requires 3 <= |s| <= |d| + 3 && d[..|s| - 3] == s[3..]
    ensures ([s[0], s[1], s[2]] + d)[..|s|] == s
  {
  }

  // ---- The two classes ------------------------------------------------------

  /** The sum of the bytes, in a byte. */
  function Sum8(s: seq<Byte>): Byte {
    if s == [] then 0 else (Sum8(s[..|s| - 1]) + s[|s| - 1]) as int % 256
  }

  lemma Sum8None()
    ensures Sum8([]) == 0
  {
  }

  lemma Sum8More(s: seq<Byte>, n: nat)
    requires n < |s|
    ensures Sum8(s[..n + 1]) == (Sum8(s[..n]) + s[n]) as int % 256
  {
    assert s[..n + 1][..n] == s[..n];
  }

  /** The three bytes ToString patches in: the payload's length in 16 bits and its sum. */
  function HeaderOf(payload: seq<Byte>): seq<Byte> {
    [|payload| % 256, |payload| / 256 % 256, Sum8(payload)]
  }

  class SerializeInfo {
    var buffer: seq<Byte>

    constructor (version: Byte)
      ensures buffer == [0, 0, 0, version]
    {
      buffer := [0, 0, 0, version];
    }

    /** operator << (UInt32) */
    method WriteWord(v: nat)
      requires v < TWO32
      modifies this
      ensures buffer == old(buffer) + WordBytes(v)
    {
      buffer := buffer + WordBytes(v);
    }

    /** operator << for every integer type */
    method Write(x: Item)
      requires Fits(x)
      modifies this
      ensures buffer == old(buffer) + WordsBytes(Words(x))
    {
      hide WordBytes, Fits;
      var ws := Words(x);
      WriteWord(ws[0]);
      if |ws| == 2 {
        WriteWord(ws[1]);
        assert ws[1..] == [ws[1]] && ws[1..][1..] == [];
        assert WordsBytes(ws[1..]) == WordBytes(ws[1]) + [];
        assert old(buffer) + WordBytes(ws[0]) + WordBytes(ws[1]) == old(buffer) + (WordBytes(ws[0]) + WordBytes(ws[1]));
      } else {
        assert ws[1..] == [];
        assert WordsBytes(ws) == WordBytes(ws[0]) + [];
      }
    }

    /** ToString */
    method ToString() returns (str: string)
      requires |buffer| >= 4
      modifies this
      ensures buffer == HeaderOf(old(buffer)[4..]) + old(buffer)[3..]
      ensures str == Encode64(buffer)
    {
      hide Sum8, Encode64;
      ghost var payload := buffer[4..];
      var len := |buffer| - 4;
      var sum: Byte := 0;
      var i := 4;
      Sum8None();
      assert payload[..0] == [];
      while i < |buffer|
        modifies {}
        invariant 4 <= i <= |buffer| && sum == Sum8(payload[..i - 4])
      {
        Sum8More(payload, i - 4);
        sum := (sum + buffer[i]) as int % 256;
        i := i + 1;
      }
      assert payload[..i - 4] == payload;
      buffer := [len % 256, len / 256 % 256, sum] + buffer[3..];
      str := EncodeText(buffer);
    }
  }

  /** The encoding loop of ToString and its three tails. */
  method EncodeText(buffer: seq<Byte>) returns (str: string)
    requires |buffer| >= 4
    ensures str == Encode64(buffer)
  {
    hide Group, Char64, Encode64;
    str := [];
    var i := 0;
    assert buffer[0..] == buffer;
    while i < |buffer| - 3
      invariant 0 <= i < |buffer| && i % 3 == 0
      invariant str + Encode64(buffer[i..]) == Encode64(buffer)
    {
      var g := Group(buffer[i], buffer[i + 1], buffer[i + 2]);
      EncodeStep(buffer, i, str);
      str := str + g;
      i := i + 3;
    }
    LeftOver(|buffer|, i);
    var tail := EncodeTail(buffer[i..], |buffer| % 3);
    str := str + tail;
  }

  /** One turn of the encoding loop. */
  lemma EncodeStep(s: seq<Byte>, i: nat, str: string)
    requires i + 3 <= |s|
    ensures str + Encode64(s[i..]) == (str + Group(s[i], s[i + 1], s[i + 2])) + Encode64(s[i + 3..])
  {
    hide Group;
    var t := s[i..];
    assert |t| >= 3 && t[3..] == s[i + 3..] && t[0] == s[i] && t[1] == s[i + 1] && t[2] == s[i + 2];
    assert Encode64(t) == Group(t[0], t[1], t[2]) + Encode64(t[3..]);
  }

  lemma LeftOver(n: nat, i: nat)
    requires i % 3 == 0 && i < n <= i + 3
    ensures (n - i) % 3 == n % 3
  {
  }

  /** The last one to three bytes, told apart by the buffer's size modulo 3. */
  method EncodeTail(t: seq<Byte>, left: nat) returns (str: string)
    requires 1 <= |t| <= 3 && left == |t| % 3
    ensures str == Encode64(t)
  {
    hide Char64;
    if left == 1 {
      str := [Char64(t[0] % 64), Char64(t[0] / 64), '=', '='];
    } else if left == 2 {
      str := [Char64(t[0] % 64), Char64(t[0] / 64 + t[1] % 16 * 4), Char64(t[1] / 16), '='];
    } else {
      assert t[3..] == [];
      str := Group(t[0], t[1], t[2]);
    }
  }

  /** The decoding loop of DeserializeInfo's constructor. */
  method DecodeText(text: string) returns (r: Option<(seq<Byte>, nat)>)
    requires |text| % 4 == 0
    ensures r == Decode64(text)
  {
    hide DecodeGroup;
    var bytes: seq<Byte>, sz: nat, i := [], 0, 0;
    assert text[0..] == text;
    AheadNil(Decode64(text));
    while i < |text|
      invariant 0 <= i <= |text| && i % 4 == 0
      invariant Ahead(bytes, sz, Decode64(text[i..])) == Decode64(text)
    {
      var g := DecodeGroup(text[i..i + 4]);
      assert text[i..][..4] == text[i..i + 4] && text[i..][4..] == text[i + 4..];
      if g.None? { return None; }
      AheadStep(bytes, g.value.0, sz, g.value.1, Decode64(text[i + 4..]));
      bytes, sz := bytes + g.value.0, sz + g.value.1;
      i := i + 4;
    }
    assert text[i..] == [];
    assert bytes + [] == bytes;
    r := Some((bytes, sz));
  }

  lemma AheadNil(rest: Option<(seq<Byte>, nat)>)
    ensures Ahead([], 0, rest) == rest
  {
    if rest.Some? {
      assert [] + rest.value.0 == rest.value.0;
    }
  }

  lemma AheadStep(a: seq<Byte>, b: seq<Byte>, m: nat, n: nat, rest: Option<(seq<Byte>, nat)>)
    ensures Ahead(a, m, Ahead(b, n, rest)) == Ahead(a + b, m + n, rest)
  {
    if rest.Some? {
      assert a + (b + rest.value.0) == (a + b) + rest.value.0;
    }
  }

  /** The checks of DeserializeInfo's constructor on what the text decodes to. */
  predicate Accepts(text: string) {
    && |text| % 4 == 0 && |text| >= 4
    && Decode64(text).Some?
    && var (b, sz) := Decode64(text).value;
       && sz >= 4 && b[0] as int + b[1] as int * 256 == sz - 4
       && Sum8(b[4..sz]) == b[2]
  }

  /** A value read, the cursor behind it, and whether a byte past the buffer was looked at for it. */
  datatype Got = Got(v: int, next: nat, past: bool)

  /** The word at `at`; 0 and the end when it is cut short. */
  function WordAt(b: seq<Byte>, pend: nat, at: nat): (g: Got)
    requires at <= pend <= |b|
    ensures g.v >= 0 && g.next <= pend
  {
    if at == |b| then Got(0, at, true)
    else
      var w := Width(b[at]);
      if at + w > pend then Got(0, pend, false) else Got(WordValue(b[at..]), at + w, false)
  }

  function ItemAt(ty: Type, b: seq<Byte>, pend: nat, at: nat): (g: Got)
    requires at <= pend <= |b|
    ensures g.next <= pend
  {
    var lo := WordAt(b, pend, at);
    if lo.past then Got(0, lo.next, true)
    else if WordCount(ty) == 1 then Got(FromWords(ty, [lo.v]), lo.next, false)
    else
      var hi := WordAt(b, pend, lo.next);
      if hi.past then Got(0, hi.next, true) else Got(FromWords(ty, [lo.v, hi.v]), hi.next, false)
  }

  lemma WordReads(b: seq<Byte>, pend: nat, at: nat, w: nat, t: seq<Byte>)
    requires at <= pend <= |b| && w < TWO32 && b[at..pend] == WordBytes(w) + t
    ensures WordAt(b, pend, at) == Got(w, at + |WordBytes(w)|, false)
    ensures b[at + |WordBytes(w)|..pend] == t
  {
    hide WordBytes, WordValue;
    ghost var s := b[at..pend];
    assert b[at] == s[0];
    assert b[at..] == s + b[pend..];
    assert b[at..] == WordBytes(w) + (t + b[pend..]);
    WordRoundTrip(w, t + b[pend..]);
    assert b[at + |WordBytes(w)|..pend] == s[|WordBytes(w)|..];
  }

  /** Where an item was written, it is read, and the cursor ends behind it. */
  lemma ItemReads(x: Item, b: seq<Byte>, pend: nat, at: nat, t: seq<Byte>)
    requires Fits(x) && at <= pend <= |b| && b[at..pend] == WordsBytes(Words(x)) + t
    ensures var g := ItemAt(x.ty, b, pend, at);
      g.v == x.v && !g.past && b[g.next..pend] == t
  {
    hide WordBytes, Fits, Words, FromWords, WordAt;
    var ws := Words(x);
    CastRoundTrip(x);
    var rest := WordsBytes(ws[1..]) + t;
    assert WordsBytes(ws) + t == WordBytes(ws[0]) + rest;
    WordReads(b, pend, at, ws[0], rest);
    if WordCount(x.ty) == 1 {
      assert ws == [ws[0]] && ws[1..] == [];
      assert [] + t == t;
    } else {
      assert ws == [ws[0], ws[1]] && ws[1..] == [ws[1]] && ws[1..][1..] == [];
      assert WordsBytes(ws[1..]) == WordBytes(ws[1]) + [];
      assert rest == WordBytes(ws[1]) + t;
      WordReads(b, pend, at + |WordBytes(ws[0])|, ws[1], t);
    }
  }

  class DeserializeInfo {
    var valid: bool
    var pbuf: seq<Byte>
    var pend: nat
    var current: nat

    constructor (text: string)
      ensures valid == Accepts(text)
      ensures valid ==> (pbuf, pend) == Decode64(text).value && current == 4
    {
      valid, pbuf, pend, current := false, [], 0, 0;
      new;
      if |text| % 4 == 0 && |text| >= 4 {
        var r := DecodeText(text);
        if r.Some? {
          var (b, sz) := r.value;
          if sz >= 4 && b[0] as int + b[1] as int * 256 == sz - 4 {
            var check := SumOf(b[4..sz]);
            if check == b[2] {
              valid, pbuf, pend, current := true, b, sz, 4;
            }
          }
        }
      }
    }

    predicate IsEnd()
      reads this
    {
      current >= pend
    }

    /** operator >> (UInt32&): the value, or 0 and the end when it is cut short. */
    method ReadWord() returns (v: nat, past: bool)
      requires current <= pend <= |pbuf|
      modifies this`current
      ensures Got(v, current, past) == WordAt(pbuf, pend, old(current))
    {
      past := current == |pbuf|;
      if past { return 0, true; }
      var w := Width(pbuf[current]);
      if current + w > pend {
        current := pend;
        return 0, false;
      }
      v := WordValue(pbuf[current..]);
      current := current + w;
    }

    /** operator >> for every integer type. */
    method Read(ty: Type) returns (v: int, past: bool)
      requires current <= pend <= |pbuf|
      modifies this`current
      ensures Got(v, current, past) == ItemAt(ty, pbuf, pend, old(current))
    {
      hide WordAt, Cast;
      var a, b;
      a, past := ReadWord();
      if past { return 0, true; }
      if WordCount(ty) == 1 {
        v := FromWords(ty, [a]);
      } else {
        b, past := ReadWord();
        v := if past then 0 else FromWords(ty, [a, b]);
      }
    }
  }

  method SumOf(s: seq<Byte>) returns (sum: Byte)
    ensures sum == Sum8(s)
  {
    sum := 0;
    for i := 0 to |s|
      invariant sum == Sum8(s[..i])
    {
      assert s[..i + 1][..i] == s[..i];
      sum := (sum + s[i]) as int % 256;
    }
    assert s[..|s|] == s;
  }

  // ---- The whole trip -------------------------------------------------------

  /** The bytes ToString encodes. */
  function Packet(version: Byte, payload: seq<Byte>): seq<Byte> {
    HeaderOf(payload) + [version] + payload
  }

  lemma LengthField(n: nat)
    ensures n % 256 + n / 256 % 256 * 256 == n <==> n <= 65535
  {
    assert n == n / 256 * 256 + n % 256;
  }

  /** Text made by ToString is accepted exactly when the payload's length fits its 16-bit field. */
  lemma AcceptsIff(version: Byte, payload: seq<Byte>)
    ensures Accepts(Encode64(Packet(version, payload))) <==> |payload| <= 65535
  {
    hide Encode64, Decode64, Sum8;
    var p := Packet(version, payload);
    TextRoundTrip(p);
    var (b, sz) := Decode64(Encode64(p)).value;
    assert b[..sz] == p;
    assert b[0] == p[0] && b[1] == p[1] && b[2] == p[2];
    assert b[4..sz] == p[4..] == payload;
    LengthField(|payload|);
  }

  /**
   When operator >> looks past the buffer, for text from ToString and `done` bytes of the payload read: the packet is
   whole groups of three, and the word, or the second of two, begins at its end.
   */
  lemma PastIff(version: Byte, payload: seq<Byte>, done: nat, ty: Type)
    requires |payload| <= 65535 && done <= |payload|
    ensures Decode64(Encode64(Packet(version, payload))).Some?
    ensures var (b, sz) := Decode64(Encode64(Packet(version, payload))).value;
      && sz == 4 + |payload| <= |b|
      && (ItemAt(ty, b, sz, 4 + done).past <==>
            && (|payload| + 4) % 3 == 0
            && (done == |payload| || (WordCount(ty) == 2 && done + Width(payload[done]) >= |payload|)))
  {
    hide Encode64, Decode64, HeaderOf, WordValue, Width;
    var p := Packet(version, payload);
    PacketLayout(version, payload);
    TextRoundTrip(p);
    var (b, sz) := Decode64(Encode64(p)).value;
    WholeGroups(|payload| + 4);
    if done < |payload| {
      assert b[4 + done] == b[..sz][4 + done] == p[4..][done];
    }
  }

  lemma WholeGroups(n: nat)
    ensures n <= (n + 2) / 3 * 3 && ((n + 2) / 3 * 3 == n <==> n % 3 == 0)
  {
  }

  /** Writing any items, reading them all, and reading on. */
  method ReadOn(version: Byte, xs: seq<Item>, ty: Type) returns (valid: bool, past: bool)
    requires forall x :: x in xs ==> Fits(x)
    ensures valid <==> |ItemsBytes(xs)| <= 65535
    ensures valid ==> (past <==> (|ItemsBytes(xs)| + 4) % 3 == 0)
  {
    hide Fits, Encode64, Decode64, HeaderOf, Words, Cast, WordAt, Width;
    var w := new SerializeInfo(version);
    WriteItems(w, xs);
    var str := w.ToString();
    ghost var payload := ItemsBytes(xs);
    PacketLayout(version, payload);
    AcceptsIff(version, payload);
    TextRoundTrip(Packet(version, payload));
    var d := new DeserializeInfo(str);
    valid, past := d.valid, false;
    if valid {
      PastIff(version, payload, |payload|, ty);
      AcceptedSize(str);
      assert d.pbuf[d.current..d.pend] == d.pbuf[..d.pend][4..];
      var vs := ReadItems(d, xs);
      var v;
      v, past := d.Read(ty);
    }
  }

  /** Two bytes are written and read; the next read looks past the buffer. */
  method ReadsBehindTwoBytes() returns (past: bool)
    ensures past
  {
    var xs := [Item(U8, 1), Item(U8, 2)];
    TwoBytes(xs);
    var valid;
    valid, past := ReadOn(0, xs, U8);
  }

  lemma TwoBytes(xs: seq<Item>)
    requires xs == [Item(U8, 1), Item(U8, 2)]
    ensures (forall x :: x in xs ==> Fits(x)) && |ItemsBytes(xs)| == 2
  {
    var ys := xs[1..];
    assert ys == [xs[1]] && ys[1..] == [];
    forall x | x in xs ensures Fits(x) && |WordsBytes(Words(x))| == 1 {
      var ws := Words(x);
      assert ws == [x.v] && ws[1..] == [];
    }
    assert |ItemsBytes(xs)| == |WordsBytes(Words(xs[0]))| + |ItemsBytes(ys)|;
    assert |ItemsBytes(ys)| == |WordsBytes(Words(ys[0]))| + |ItemsBytes(ys[1..])|;
  }

  /**
   Writing any items and reading the text back as the same types: valid exactly when
   the payload is at most 65535 bytes, and then the version and all values are the
   same and the reader is at its end.
   */
  method RoundTrip(version: Byte, xs: seq<Item>)
    returns (valid: bool, gotVersion: Byte, vs: seq<int>, atEnd: bool)
    requires forall x :: x in xs ==> Fits(x)
    ensures valid <==> |ItemsBytes(xs)| <= 65535
    ensures valid ==> gotVersion == version && atEnd
    ensures valid ==> |vs| == |xs| && forall i :: 0 <= i < |xs| ==> vs[i] == xs[i].v
  {
    hide Fits, Accepts, Encode64, Decode64, HeaderOf, Words;
    var w := new SerializeInfo(version);
    WriteItems(w, xs);
    var str := w.ToString();
    ghost var payload := ItemsBytes(xs);
    PacketLayout(version, payload);
    AcceptsIff(version, payload);
    TextRoundTrip(Packet(version, payload));
    var d := new DeserializeInfo(str);
    valid, gotVersion, vs, atEnd := d.valid, 0, [], false;
    if valid {
      AcceptedSize(str);
      gotVersion := d.pbuf[3];
      assert d.pbuf[3] == d.pbuf[..d.pend][3];
      assert d.pbuf[d.current..d.pend] == d.pbuf[..d.pend][4..];
      vs := ReadItems(d, xs);
      atEnd := d.IsEnd();
    }
  }

  lemma AcceptedSize(text: string)
    requires Accepts(text)
    ensures var (b, sz) := Decode64(text).value; 4 <= sz <= |b|
  {
  }

  lemma PacketLayout(version: Byte, payload: seq<Byte>)
    ensures var p := Packet(version, payload);
      && p == HeaderOf(payload) + ([0, 0, 0, version] + payload)[3..]
      && ([0, 0, 0, version] + payload)[4..] == payload
      && |p| == 4 + |payload| && p[3] == version && p[4..] == payload
  {
    assert ([0, 0, 0, version] + payload)[3..] == [version] + payload;
  }

  method WriteItems(w: SerializeInfo, xs: seq<Item>)
    requires forall x :: x in xs ==> Fits(x)
    modifies w
    ensures w.buffer == old(w.buffer) + ItemsBytes(xs)
  {
    hide Fits, Words, WordsBytes;
    ghost var goal := w.buffer + ItemsBytes(xs);
    assert xs[0..] == xs;
    var i := 0;
    while i < |xs|
      invariant 0 <= i <= |xs| && w.buffer + ItemsBytes(xs[i..]) == goal
    {
      ghost var b := w.buffer;
      assert xs[i..][1..] == xs[i + 1..];
      w.Write(xs[i]);
      assert b + (WordsBytes(Words(xs[i])) + ItemsBytes(xs[i + 1..])) == w.buffer + ItemsBytes(xs[i + 1..]);
      i := i + 1;
    }
    assert w.buffer + [] == w.buffer;
  }

  /** Read as many values as there are items, using only their types. */
  method ReadItems(d: DeserializeInfo, xs: seq<Item>) returns (vs: seq<int>)
    requires forall x :: x in xs ==> Fits(x)
    requires d.current <= d.pend <= |d.pbuf| && d.pbuf[d.current..d.pend] == ItemsBytes(xs)
    modifies d`current
    ensures d.current == d.pend
    ensures |vs| == |xs| && forall i :: 0 <= i < |xs| ==> vs[i] == xs[i].v
  {
    hide Fits, Words, WordsBytes;
    vs := [];
    assert xs[0..] == xs;
    var i := 0;
    while i < |xs|
      invariant 0 <= i <= |xs| && |vs| == i
      invariant d.current <= d.pend && d.pbuf[d.current..d.pend] == ItemsBytes(xs[i..])
      invariant forall j :: 0 <= j < i ==> vs[j] == xs[j].v
    {
      assert xs[i..][1..] == xs[i + 1..];
      ItemReads(xs[i], d.pbuf, d.pend, d.current, ItemsBytes(xs[i + 1..]));
      var v, past := d.Read(xs[i].ty);
      vs := vs + [v];
      i := i + 1;
    }
  }
}
