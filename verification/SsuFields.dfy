/** Ssu/SsuUtils.h above the varint: integer kinds, zigzag, tags, strings and packed repeated fields. */
module SsuFields {
  import opened Octets
  import opened SsuUtils
  import opened Arith

  datatype Kind = Int32 | SInt32 | UInt32 | Int64 | SInt64 | UInt64

  predicate InRange(k: Kind, v: int) {
    match k
    case Int32 | SInt32 => -0x8000_0000 <= v < 0x8000_0000
    case UInt32 => 0 <= v < TWO32
    case Int64 | SInt64 => -TWO63 <= v < TWO63
    case UInt64 => 0 <= v < TWO64
  }

  /** Exclusive or with all ones, or with zero, in a word of `m` values. */
  function Flip(x: nat, m: nat, on: bool): (r: nat)
    requires x < m
    ensures r < m && (on ==> x + r == m - 1)
  {
    if on then m - 1 - x else x
  }

  function Pow2(bits: nat): (m: nat)
    ensures m >= 1
  {
    if bits == 0 then 1 else 2 * Pow2(bits - 1)
  }

  /** Exclusive or of the low bits of two numbers. */
  function Xor(x: nat, y: nat, bits: nat): nat {
    if bits == 0 then 0 else (if x % 2 == y % 2 then 0 else 1) + 2 * Xor(x / 2, y / 2, bits - 1)
  }

  /** Flipping is exclusive or with all ones, not flipping with zero. */
  lemma {:induction false} FlipIsXor(x: nat, bits: nat, on: bool)
    requires x < Pow2(bits)
    ensures Flip(x, Pow2(bits), on) == Xor(x, if on then Pow2(bits) - 1 else 0, bits)
  {
    hide Xor;
    if bits == 0 {
      XorUnfold(x, 0, 0);
    } else {
      var half := Pow2(bits - 1);
      FlipIsXor(x / 2, bits - 1, on);
      XorUnfold(x, if on then 2 * half - 1 else 0, bits);
      assert (2 * half - 1) / 2 == half - 1 && (2 * half - 1) % 2 == 1;
    }
  }

  lemma XorUnfold(x: nat, y: nat, bits: nat)
    ensures Xor(x, y, bits) == if bits == 0 then 0 else (if x % 2 == y % 2 then 0 else 1) + 2 * Xor(x / 2, y / 2, bits - 1)
  {
  }

  lemma {:induction false} PowAdd(a: nat, b: nat)
    ensures Pow2(a + b) == Pow2(a) * Pow2(b)
  {
    if a > 0 {
      PowAdd(a - 1, b);
      Twice(Pow2(a - 1), Pow2(b));
    }
  }

  lemma Twice(x: nat, y: nat)
    ensures 2 * x * y == 2 * (x * y)
  {
  }

  lemma Widths()
    ensures Pow2(32) == TWO32 && Pow2(64) == TWO64
  {
    assert Pow2(4) == 16;
    PowAdd(4, 4);
    assert Pow2(8) == 0x100 by { assert 4 + 4 == 8; }
    DoubleWidth(8, 0x100);
    DoubleWidth(16, 0x1_0000);
    DoubleWidth(32, TWO32);
  }

  lemma DoubleWidth(a: nat, m: nat)
    requires Pow2(a) == m
    ensures Pow2(2 * a) == m * m
  {
    hide Pow2;
    PowAdd(a, a);
    assert a + a == 2 * a;
  }

  /** A word of `m` values read as two's complement. */
  function Signed(x: nat, m: nat): int {
    if 2 * x >= m then x - m else x
  }

  /** zzEncode32, zzEncode64: (n << 1) ^ (n >> (bits - 1)), the shift being arithmetic. */
  function ZzEncode(n: int, m: nat): (u: nat)
    requires m == TWO32 || m == TWO64
    requires -(m as int) <= 2 * n < m
    ensures u < m && u == if n >= 0 then 2 * n else -2 * n - 1
  {
    Flip((2 * n) % m, m, n < 0)
  }

  /** zzDecode32, zzDecode64: (n >> 1) ^ -(n & 1) */
  function ZzDecode(u: nat, m: nat): (n: int)
    requires (m == TWO32 || m == TWO64) && u < m
    ensures -(m as int) <= 2 * n < m
    ensures n == if u % 2 == 0 then u / 2 else -(u / 2) - 1
  {
    Signed(Flip(u / 2, m, u % 2 == 1), m)
  }

  /** The zigzag functions as the code writes them: (n << 1) ^ (n >> (bits - 1)) and (n >> 1) ^ -(n & 1). */
  lemma ZigzagIsXor(n: int, u: nat, bits: nat)
    requires bits == 32 || bits == 64
    requires -(Pow2(bits) as int) <= 2 * n < Pow2(bits) && u < Pow2(bits)
    ensures Pow2(bits) == TWO32 || Pow2(bits) == TWO64
    ensures ZzEncode(n, Pow2(bits)) == Xor(2 * n % Pow2(bits), n / Pow2(bits - 1) % Pow2(bits), bits)
    ensures ZzDecode(u, Pow2(bits)) == Signed(Xor(u / 2, -(u % 2) % Pow2(bits), bits), Pow2(bits))
  {
    hide Xor, Flip;
    Widths();
    var m, half := Pow2(bits), Pow2(bits - 1);
    assert m == 2 * half;
    FlipIsXor(2 * n % m, bits, n < 0);
    FlipIsXor(u / 2, bits, u % 2 == 1);
    ModUnique(n, if n < 0 then -1 else 0, if n < 0 then n + half else n, half);
    ModUnique(-1, -1, m - 1, m);
    ModUnique(0, 0, 0, m);
  }

  /** The unsigned number a pack function sends; a negative int32 is sign-extended to 64 bits. */
  function Wire(k: Kind, v: int): (n: nat)
    requires InRange(k, v)
    ensures n < Modulus(k)
  {
    match k
    case Int32 | Int64 => v % TWO64
    case SInt32 => ZzEncode(v, TWO32)
    case SInt64 => ZzEncode(v, TWO64)
    case UInt32 | UInt64 => v
  }

  /** The width the matching unpack function reads with. */
  function Modulus(k: Kind): (m: nat)
    ensures m == TWO32 || m == TWO64
  {
    if k == SInt32 || k == UInt32 then TWO32 else TWO64
  }

  function Unwire(k: Kind, n: nat): (v: int)
    requires n < Modulus(k)
    ensures InRange(k, v)
  {
    match k
    case Int32 => Signed(n % TWO32, TWO32)
    case SInt32 => ZzDecode(n, TWO32)
    case UInt32 | UInt64 => n
    case Int64 => Signed(n, TWO64)
    case SInt64 => ZzDecode(n, TWO64)
  }

  lemma UnwireWire(k: Kind, v: int)
    requires InRange(k, v)
    ensures Unwire(k, Wire(k, v)) == v
  {
    hide ZzEncode, ZzDecode;
    match k {
      case Int32 =>
        WrapSigned(v, TWO32);
        if v < 0 {
          ModUnique(v, -1, TWO64 + v, TWO64);
          ModUnique(TWO64 + v, TWO32 - 1, TWO32 + v, TWO32);
        } else {
          ModUnique(v, 0, v, TWO64);
          ModUnique(v, 0, v, TWO32);
        }
      case Int64 => WrapSigned(v, TWO64);
      case SInt32 | SInt64 | UInt32 | UInt64 =>
    }
  }

  lemma WrapSigned(v: int, m: nat)
    requires m > 0 && -(m as int) <= 2 * v < m
    ensures v % m == (if v < 0 then m + v else v) && Signed(v % m, m) == v
  {
    ModUnique(v, if v < 0 then -1 else 0, if v < 0 then m + v else v, m);
  }

  /** sizeInt32, sizeSInt32, sizeUInt32, sizeInt64, sizeSInt64, sizeUInt64 */
  function SizeOf(k: Kind, v: int): (n: nat)
    requires InRange(k, v)
    ensures n == |Varint(Wire(k, v))|
  {
    match k
    case Int32 => if v < 0 then SizeUInt64(Wire(k, v)) else SizeUInt32(v)
    case SInt32 | UInt32 => SizeUInt32(Wire(k, v))
    case Int64 | SInt64 | UInt64 => SizeUInt64(Wire(k, v))
  }

  /** sizeRepeated */
  function SizeAll(k: Kind, vs: seq<int>): (n: nat)
    requires forall v :: v in vs ==> InRange(k, v)
    ensures n == |AllBytes(k, vs)|
  {
    if vs == [] then 0 else SizeOf(k, vs[0]) + SizeAll(k, vs[1..])
  }

  /** The payload of a packed repeated field. */
  ghost function AllBytes(k: Kind, vs: seq<int>): seq<Byte>
    requires forall v :: v in vs ==> InRange(k, v)
  {
    if vs == [] then [] else Varint(Wire(k, vs[0])) + AllBytes(k, vs[1..])
  }

  ghost function ParseKind(k: Kind, s: seq<Byte>): (r: Option<(int, nat)>)
    ensures r.Some? ==> 1 <= r.value.1 <= |s|
  {
    match Parse(s)
    case None => None
    case Some(p) => Some((Unwire(k, p.0 % Modulus(k)), p.1))
  }

  /** Values read one after the other until nothing is left. */
  ghost function ParseAll(k: Kind, s: seq<Byte>): Option<seq<int>>
    decreases |s|
  {
    if s == [] then Some([])
    else
      match ParseKind(k, s)
      case None => None
      case Some(p) =>
        Glue([p.0], ParseAll(k, s[p.1..]))
  }

  /** Any value of any kind reads back, whatever follows it. */
  lemma ParseKindWire(k: Kind, v: int, t: seq<Byte>)
    requires InRange(k, v)
    ensures ParseKind(k, Varint(Wire(k, v)) + t) == Some((v, SizeOf(k, v)))
  {
    hide Wire, Unwire;
    ParseVarint(Wire(k, v), t);
    UnwireWire(k, v);
  }

  lemma {:induction false} ParseAllBytes(k: Kind, vs: seq<int>)
    requires forall v :: v in vs ==> InRange(k, v)
    ensures ParseAll(k, AllBytes(k, vs)) == Some(vs)
  {
    if vs != [] {
      var w, t := Varint(Wire(k, vs[0])), AllBytes(k, vs[1..]);
      ParseKindWire(k, vs[0], t);
      assert (w + t)[|w|..] == t;
      ParseAllBytes(k, vs[1..]);
      assert [vs[0]] + vs[1..] == vs;
    }
  }

  datatype Field =
    | Scalar(id: nat, kind: Kind, v: int)
    | Text(id: nat, bytes: seq<Byte>)
    | Packed(id: nat, kind: Kind, vs: seq<int>)

  datatype FieldType = AsScalar(kind: Kind) | AsText | AsPacked(kind: Kind)

  function TypeOf(f: Field): FieldType {
    match f
    case Scalar(_, k, _) => AsScalar(k)
    case Text(_, _) => AsText
    case Packed(_, k, _) => AsPacked(k)
  }

  /** What the pack functions are called with: ids of 29 bits, lengths of 32 bits. */
  ghost predicate Packable(f: Field) {
    f.id < 0x2000_0000 &&
    match f
    case Scalar(_, k, v) => InRange(k, v)
    case Text(_, b) => |b| < TWO32
    case Packed(_, k, vs) => (forall v :: v in vs ==> InRange(k, v)) && |AllBytes(k, vs)| < TWO32
  }

  function WireType(ft: FieldType): nat {
    if ft.AsScalar? then 0 else 2
  }

  /** packTag's number, in 32-bit arithmetic. */
  function TagNumber(id: nat, type_: nat): nat {
    (id * 8 % TWO32 + type_) % TWO32
  }

  /** A field behind its tag. */
  ghost function BodyBytes(f: Field): seq<Byte>
    requires Packable(f)
  {
    match f
    case Scalar(_, k, v) => Varint(Wire(k, v))
    case Text(_, b) => Varint(|b|) + b
    case Packed(_, k, vs) => Varint(|AllBytes(k, vs)|) + AllBytes(k, vs)
  }

  /** sizeInt32 .. sizeUInt64, sizeString and sizeRepeatedPacked */
  function SizeBody(f: Field): (n: nat)
    requires Packable(f)
    ensures n == |BodyBytes(f)|
  {
    match f
    case Scalar(_, k, v) => SizeOf(k, v)
    case Text(_, b) => |b| + SizeUInt32(|b|)
    case Packed(_, k, vs) =>
      var sz := SizeAll(k, vs);
      sz + SizeUInt32(sz)
  }

  ghost function FieldBytes(f: Field): seq<Byte>
    requires Packable(f)
  {
    Varint(TagNumber(f.id, WireType(TypeOf(f)))) + BodyBytes(f)
  }

  /** Bad: an unpack function returned false.  Overrun: a packed field claims more bytes than there are. */
  datatype Read<+T> = Got(value: T, used: nat) | Bad | Overrun

  ghost function ParseField(ft: FieldType, s: seq<Byte>): (r: Read<Field>)
    ensures r.Got? ==> r.used <= |s|
  {
    match Parse(s)
    case None => Bad
    case Some(p) =>
      var n := p.0 % TWO32;
      if n % 8 != WireType(ft) then Bad
      else
        match ParseBody(ft, n / 8, s[p.1..])
        case Got(f, used) => Got(f, p.1 + used)
        case Bad => Bad
        case Overrun => Overrun
  }

  ghost function ParseBody(ft: FieldType, id: nat, s: seq<Byte>): (r: Read<Field>)
    ensures r.Got? ==> r.used <= |s|
  {
    match ft
    case AsScalar(k) =>
      (match ParseKind(k, s)
       case None => Bad
       case Some(p) => Got(Scalar(id, k, p.0), p.1))
    case AsText =>
      (match Parse(s)
       case None => Bad
       case Some(p) =>
         var t := s[p.1..];
         var n := Min(p.0 % TWO32, |t|);
         Got(Text(id, t[..n]), p.1 + n))
    case AsPacked(k) =>
      match Parse(s)
      case None => Bad
      case Some(p) =>
        var t := s[p.1..];
        var n := p.0 % TWO32;
        if n > |t| then Overrun
        else
          match ParseAll(k, t[..n])
          case None => Bad
          case Some(vs) => Got(Packed(id, k, vs), p.1 + n)
  }

  /** A length-prefixed payload reads back, whatever follows it. */
  lemma PrefixedRead(b: seq<Byte>, t: seq<Byte>)
    requires |b| < TWO32
    ensures var s := Varint(|b|) + b + t; var r := Parse(s);
      && r.Some? && r.value.0 == |b| && r.value.1 == |Varint(|b|)|
      && s[r.value.1..] == b + t && (b + t)[..|b|] == b
  {
    ParseVarint(|b|, b + t);
    assert Varint(|b|) + b + t == Varint(|b|) + (b + t);
  }

  lemma BodyRoundTrip(f: Field, t: seq<Byte>)
    requires Packable(f)
    ensures ParseBody(TypeOf(f), f.id, BodyBytes(f) + t) == Got(f, |BodyBytes(f)|)
  {
    hide Wire, Unwire, ParseAll, AllBytes, Varint, Parse, ParseKind;
    match f {
      case Scalar(_, k, v) =>
        ParseKindWire(k, v, t);
      case Text(_, b) =>
        PrefixedRead(b, t);
      case Packed(_, k, vs) =>
        PrefixedRead(AllBytes(k, vs), t);
        ParseAllBytes(k, vs);
    }
  }

  lemma TagExact(id: nat, type_: nat)
    requires id < 0x2000_0000 && type_ < 8
    ensures TagNumber(id, type_) == 8 * id + type_ < TWO32
  {
  }

  /** A packed field, whatever follows it, unpacks to itself and leaves exactly what follows. */
  lemma FieldRoundTrip(f: Field, t: seq<Byte>)
    requires Packable(f)
    ensures ParseField(TypeOf(f), FieldBytes(f) + t) == Got(f, |FieldBytes(f)|)
  {
    hide BodyBytes, ParseBody;
    var tag := TagNumber(f.id, WireType(TypeOf(f)));
    TagExact(f.id, WireType(TypeOf(f)));
    ParseVarint(tag, BodyBytes(f) + t);
    BodyRoundTrip(f, t);
    assert FieldBytes(f) + t == Varint(tag) + (BodyBytes(f) + t);
    assert (Varint(tag) + (BodyBytes(f) + t))[|Varint(tag)|..] == BodyBytes(f) + t;
  }

  ghost function MessageBytes(fs: seq<Field>): seq<Byte>
    requires forall f :: f in fs ==> Packable(f)
  {
    if fs == [] then [] else FieldBytes(fs[0]) + MessageBytes(fs[1..])
  }

  ghost function ParseMessage(fts: seq<FieldType>, s: seq<Byte>): Option<(seq<Field>, seq<Byte>)> {
    if fts == [] then Some(([], s))
    else
      match ParseField(fts[0], s)
      case Got(f, used) =>
        (match ParseMessage(fts[1..], s[used..])
         case None => None
         case Some(p) => Some(([f] + p.0, p.1)))
      case _ => None
  }

  ghost function TypesOf(fs: seq<Field>): (ts: seq<FieldType>)
    ensures |ts| == |fs| && forall i :: 0 <= i < |fs| ==> ts[i] == TypeOf(fs[i])
  {
    if fs == [] then [] else [TypeOf(fs[0])] + TypesOf(fs[1..])
  }

  /** A whole message read back with its field types, whatever follows it. */
  lemma {:induction false} MessageRoundTrip(fs: seq<Field>, t: seq<Byte>)
    requires forall f :: f in fs ==> Packable(f)
    ensures ParseMessage(TypesOf(fs), MessageBytes(fs) + t) == Some((fs, t))
  {
    hide FieldBytes, ParseField, Packable;
    if fs == [] {
      assert MessageBytes(fs) + t == t;
    } else {
      var rest := MessageBytes(fs[1..]) + t;
      var s := MessageBytes(fs) + t;
      assert s == FieldBytes(fs[0]) + rest;
      FieldRoundTrip(fs[0], rest);
      assert s[|FieldBytes(fs[0])|..] == rest;
      MessageRoundTrip(fs[1..], t);
      assert TypesOf(fs)[0] == TypeOf(fs[0]) && TypesOf(fs)[1..] == TypesOf(fs[1..]);
      assert [fs[0]] + fs[1..] == fs;
    }
  }

  ghost predicate OnlyWrote(was: seq<Byte>, now: seq<Byte>, at: nat, end: nat) {
    |now| == |was| && forall i :: 0 <= i < |now| && !(at <= i < end) ==> now[i] == was[i]
  }

  /** packBinary, packString */
  method PackBinary(buf: array<Byte>, at: nat, data: seq<Byte>) returns (end: nat)
    requires at + |data| <= buf.Length
    modifies buf
    ensures end == at + |data| && OnlyWrote(old(buf[..]), buf[..], at, end)
    ensures buf[at..end] == data
  {
    end := at;
    while end < at + |data|
      invariant at <= end <= at + |data|
      invariant forall i :: 0 <= i < buf.Length && !(at <= i < end) ==> buf[i] == old(buf[i])
      invariant forall i :: at <= i < end ==> buf[i] == data[i - at]
    {
      buf[end] := data[end - at];
      end := end + 1;
    }
  }

  /** The element loop of packRepeatedPackedTag. */
  method PackAll(buf: array<Byte>, at: nat, k: Kind, vs: seq<int>) returns (end: nat)
    requires forall v :: v in vs ==> InRange(k, v)
    requires at + |AllBytes(k, vs)| <= buf.Length
    modifies buf
    ensures end == at + |AllBytes(k, vs)| && OnlyWrote(old(buf[..]), buf[..], at, end)
    ensures buf[at..end] == AllBytes(k, vs)
  {
    hide Wire, Varint;
    end := at;
    var i := 0;
    assert vs[0..] == vs;
    while i < |vs|
      invariant i <= |vs| && at <= end && end + |AllBytes(k, vs[i..])| == at + |AllBytes(k, vs)|
      invariant OnlyWrote(old(buf[..]), buf[..], at, end)
      invariant buf[at..end] + AllBytes(k, vs[i..]) == AllBytes(k, vs)
    {
      ghost var done, mid, now := buf[at..end], end, buf[..];
      assert vs[i..][1..] == vs[i + 1..];
      end := PackUInt(buf, end, Wire(k, vs[i]));
      WrittenAfter(now, buf[..], at, mid, end);
      ConcatAssoc(done, Varint(Wire(k, vs[i])), AllBytes(k, vs[i + 1..]));
      i := i + 1;
    }
  }

  /** Writing from `mid` to `end` extends what was written from `at` to `mid`. */
  lemma WrittenAfter(was: seq<Byte>, now: seq<Byte>, at: nat, mid: nat, end: nat)
    requires at <= mid <= end <= |was| && OnlyWrote(was, now, mid, end)
    ensures now[at..end] == was[at..mid] + now[mid..end]
  {
  }

  /** packInt32Tag .. packUInt64Tag, packStringTag, packRepeatedPackedTag */
  method PackField(buf: array<Byte>, at: nat, f: Field) returns (end: nat)
    requires Packable(f) && at + |FieldBytes(f)| <= buf.Length
    modifies buf
    ensures end == at + |FieldBytes(f)| && OnlyWrote(old(buf[..]), buf[..], at, end)
    ensures buf[at..end] == FieldBytes(f)
  {
    hide Wire, Varint, AllBytes, TagNumber;
    var mid := PackUInt(buf, at, TagNumber(f.id, WireType(TypeOf(f))));
    ghost var tagged := buf[..];
    end := PackBody(buf, mid, f);
    WrittenAfter(tagged, buf[..], at, mid, end);
    assert tagged[at..mid] == Varint(TagNumber(f.id, WireType(TypeOf(f))));
  }

  method PackBody(buf: array<Byte>, at: nat, f: Field) returns (end: nat)
    requires Packable(f) && at + |BodyBytes(f)| <= buf.Length
    modifies buf
    ensures end == at + |BodyBytes(f)| && OnlyWrote(old(buf[..]), buf[..], at, end)
    ensures buf[at..end] == BodyBytes(f)
  {
    hide Wire, Varint, AllBytes;
    match f {
      case Scalar(_, k, v) =>
        end := PackUInt(buf, at, Wire(k, v));
      case Text(_, b) =>
        var mid := PackUInt(buf, at, |b|);
        ghost var now := buf[..];
        end := PackBinary(buf, mid, b);
        WrittenAfter(now, buf[..], at, mid, end);
      case Packed(_, k, vs) =>
        var mid := PackUInt(buf, at, SizeAll(k, vs));
        ghost var now := buf[..];
        end := PackAll(buf, mid, k, vs);
        WrittenAfter(now, buf[..], at, mid, end);
    }
  }

  /** unpackInt32 .. unpackUInt64 */
  method UnpackKind(k: Kind, mem: seq<Byte>, pos: nat, left: nat) returns (r: Option<int>, pos': nat, left': nat)
    requires pos + left <= |mem|
    ensures pos' + left' == pos + left
    ensures match ParseKind(k, mem[pos..pos + left])
      case None => r == None
      case Some(p) => r == Some(p.0) && pos' == pos + p.1
  {
    hide Unwire, Parse;
    var ok, n;
    ok, pos', left', n := UnpackUInt(mem, pos, left, Modulus(k));
    r := if ok then Some(Unwire(k, n)) else None;
  }

  /** The element loop of unpackRepeatedPacked over the `n` bytes at `pos`. */
  method UnpackAll(k: Kind, mem: seq<Byte>, pos: nat, n: nat) returns (r: Option<seq<int>>)
    requires pos + n <= |mem|
    ensures r == ParseAll(k, mem[pos..pos + n])
  {
    hide ParseKind, Parse;
    var at, lsize, vs := pos, n, [];
    ghost var s := mem[pos..pos + n];
    GlueNil(ParseAll(k, s));
    while lsize > 0
      invariant at + lsize == pos + n && pos <= at
      invariant Glue(vs, ParseAll(k, mem[at..pos + n])) == ParseAll(k, s)
      decreases lsize
    {
      ghost var t := mem[at..pos + n];
      var v, at', lsize' := UnpackKind(k, mem, at, lsize);
      if v.None? { return None; }
      assert t[at' - at..] == mem[at'..pos + n];
      GlueStep(vs, v.value, ParseAll(k, t[at' - at..]));
      at, lsize, vs := at', lsize', vs + [v.value];
    }
    assert mem[at..pos + n] == [];
    r := Some(vs);
  }

  ghost function Glue(vs: seq<int>, rest: Option<seq<int>>): Option<seq<int>> {
    if rest.Some? then Some(vs + rest.value) else None
  }

  lemma GlueNil(rest: Option<seq<int>>)
    ensures Glue([], rest) == rest
    ensures forall vs: seq<int> :: vs + [] == vs
  {
    if rest.Some? {
      assert [] + rest.value == rest.value;
    }
  }

  lemma GlueStep(vs: seq<int>, v: int, rest: Option<seq<int>>)
    ensures Glue(vs + [v], rest) == Glue(vs, Glue([v], rest))
  {
    if rest.Some? {
      assert (vs + [v]) + rest.value == vs + ([v] + rest.value);
    }
  }

  /** unpackTag, then the unpack function of the field's type. */
  method UnpackField(ft: FieldType, mem: seq<Byte>, pos: nat, left: nat)
    returns (r: Read<Field>, pos': nat, left': nat)
    requires pos + left <= |mem|
    ensures r == ParseField(ft, mem[pos..pos + left])
    ensures r.Got? ==> pos' == pos + r.used && left' == left - r.used
  {
    hide ParseBody, Parse;
    var ok, n;
    ok, pos', left', n := UnpackUInt(mem, pos, left, TWO32);
    if !ok || n % 8 != WireType(ft) { return Bad, pos', left'; }
    assert mem[pos..pos + left][pos' - pos..] == mem[pos'..pos' + left'];
    var used := pos' - pos;
    r, pos', left' := UnpackBody(ft, n / 8, mem, pos', left');
    if r.Got? { r := Got(r.value, used + r.used); }
  }

  method UnpackBody(ft: FieldType, id: nat, mem: seq<Byte>, pos: nat, left: nat)
    returns (r: Read<Field>, pos': nat, left': nat)
    requires pos + left <= |mem|
    ensures r == ParseBody(ft, id, mem[pos..pos + left])
    ensures r.Got? ==> pos' == pos + r.used && left' == left - r.used
  {
    hide Parse, ParseKind, ParseAll;
    ghost var s := mem[pos..pos + left];
    if ft.AsScalar? {
      var v;
      v, pos', left' := UnpackKind(ft.kind, mem, pos, left);
      return if v.Some? then Got(Scalar(id, ft.kind, v.value), pos' - pos) else Bad, pos', left';
    }
    var ok, n;
    ok, pos', left', n := UnpackUInt(mem, pos, left, TWO32);
    if !ok { return Bad, pos', left'; }
    var head := pos' - pos;
    assert s[head..] == mem[pos'..pos' + left'];
    if ft.AsText? {
      var len := Min(n, left');
      assert s[head..][..len] == mem[pos'..pos' + len];
      r := Got(Text(id, mem[pos'..pos' + len]), head + len);
      pos', left' := pos' + len, left' - len;
    } else {
      if n > left' { return Overrun, pos', left'; }
      assert s[head..][..n] == mem[pos'..pos' + n];
      var vs := UnpackAll(ft.kind, mem, pos', n);
      if vs.None? { return Bad, pos', left'; }
      r := Got(Packed(id, ft.kind, vs.value), head + n);
      pos', left' := pos' + n, left' - n;
    }
  }
}
