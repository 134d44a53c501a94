/**
 Ssu/SsuUtils.h: base-128 varints, zigzag integers, tags, strings and packed
 repeated fields (the Protocol Buffers encoding, "Base 128 Varints" and "Signed Integers").
 */
module SsuUtils {
  import opened Octets
  import opened Arith

  const TWO63: int := 0x8000_0000_0000_0000

  /** The varint of a number: seven bits a byte, least significant first, high bit set on all but the last. */
  ghost function Varint(v: nat): (s: seq<Byte>)
    ensures |s| >= 1
  {
    if v < 128 then [v] else [128 + v % 128] + Varint(v / 128)
  }

  /** The number at the front of a byte string and the bytes it takes; None when it is cut short. */
  ghost function Parse(s: seq<Byte>): (r: Option<(nat, nat)>)
    ensures r.Some? ==> 1 <= r.value.1 <= |s|
  {
    if s == [] then None
    else if s[0] < 128 then Some((s[0], 1))
    else
      match Parse(s[1..])
      case None => None
      case Some(p) => Some((s[0] - 128 + 128 * p.0, p.1 + 1))
  }

  /** Reading back what was written, whatever follows. */
  lemma {:induction false} ParseVarint(v: nat, t: seq<Byte>)
    ensures Parse(Varint(v) + t) == Some((v, |Varint(v)|))
  {
    var s := Varint(v) + t;
    if v < 128 {
      assert s[0] == v;
    } else {
      ParseVarint(v / 128, t);
      assert s[0] == 128 + v % 128;
      assert s[1..] == Varint(v / 128) + t;
    }
  }

  ghost function Pow128(k: nat): nat {
    if k == 0 then 1 else 128 * Pow128(k - 1)
  }

  lemma {:induction false} VarintLength(v: nat, k: nat)
    requires k >= 1 && v < Pow128(k) && (k > 1 ==> Pow128(k - 1) <= v)
    ensures |Varint(v)| == k
  {
    if k > 1 {
      PowPositive(k - 2);
      VarintLength(v / 128, k - 1);
    }
  }

  lemma {:induction false} PowPositive(k: nat)
    ensures Pow128(k) >= 1
  {
    if k > 0 { PowPositive(k - 1); }
  }

  lemma PowValues()
    ensures Pow128(1) == 0x80 && Pow128(2) == 0x4000 && Pow128(3) == 0x20_0000 && Pow128(4) == 0x1000_0000
    ensures Pow128(5) == 0x8_0000_0000 && Pow128(6) == 0x400_0000_0000 && Pow128(7) == 0x2_0000_0000_0000
    ensures Pow128(8) == 0x100_0000_0000_0000 && Pow128(9) == TWO63 && Pow128(10) == 128 * TWO63
  {
    assert Pow128(1) == 128 * Pow128(0);
    assert Pow128(2) == 128 * Pow128(1);
    assert Pow128(3) == 128 * Pow128(2);
    assert Pow128(4) == 128 * Pow128(3);
    assert Pow128(5) == 128 * Pow128(4);
    assert Pow128(6) == 128 * Pow128(5);
    assert Pow128(7) == 128 * Pow128(6);
    assert Pow128(8) == 128 * Pow128(7);
    assert Pow128(9) == 128 * Pow128(8);
    assert Pow128(10) == 128 * Pow128(9);
  }

  /** sizeUInt32 */
  function SizeUInt32(val: nat): (n: nat)
    requires val < TWO32
    ensures n == |Varint(val)|
  {
    PowValues();
    var n :=
      if val < 0x4000 then (if val < 0x80 then 1 else 2)
      else if val < 0x20_0000 then 3
      else if val < 0x1000_0000 then 4
      else 5;
    VarintLength(val, n);
    n
  }

  /** sizeUInt64 */
  function SizeUInt64(val: nat): (n: nat)
    requires val < TWO64
    ensures n == |Varint(val)|
  {
    PowValues();
    var n :=
      if val < 0x1000_0000 then
        if val < 0x4000 then (if val < 0x80 then 1 else 2)
        else if val < 0x20_0000 then 3 else 4
      else if val < 0x400_0000_0000 then
        if val < 0x8_0000_0000 then 5 else 6
      else if val < 0x100_0000_0000_0000 then
        if val < 0x2_0000_0000_0000 then 7 else 8
      else if val < TWO63 then 9 else 10;
    VarintLength(val, n);
    n
  }

  /** packUInt32 and packUInt64: the loop is the same, only the width of `val` differs. */
  method PackUInt(buf: array<Byte>, at: nat, val: nat) returns (end: nat)
    requires at + |Varint(val)| <= buf.Length
    modifies buf
    ensures end == at + |Varint(val)|
    ensures forall i :: 0 <= i < buf.Length && !(at <= i < end) ==> buf[i] == old(buf[i])
    ensures buf[at..end] == Varint(val)
  {
    var v := val;
    end := at;
    while v >= 128
      invariant at <= end && end + |Varint(v)| == at + |Varint(val)|
      invariant forall i :: 0 <= i < buf.Length && !(at <= i < end) ==> buf[i] == old(buf[i])
      invariant buf[at..end] + Varint(v) == Varint(val)
      decreases v
    {
      ghost var done := buf[at..end];
      buf[end] := 128 + v % 128;
      end := end + 1;
      PackStep(done, v, buf[at..end]);
      v := v / 128;
    }
    ghost var done := buf[at..end];
    buf[end] := v;
    end := end + 1;
    assert buf[at..end] == done + [v];
  }

  lemma PackStep(done: seq<Byte>, v: nat, now: seq<Byte>)
    requires v >= 128 && now == done + [128 + v % 128]
    ensures now + Varint(v / 128) == done + Varint(v)
  {
  }

  /** unpackUInt32 and unpackUInt64 over the `left` bytes at `pos`; `modulus` is the width's 2^32 or 2^64. */
  method UnpackUInt(mem: seq<Byte>, pos: nat, left: nat, modulus: nat)
    returns (ok: bool, pos': nat, left': nat, val: nat)
    requires pos + left <= |mem| && modulus >= 128
    ensures ok == Parse(mem[pos..pos + left]).Some?
    ensures pos' + left' == pos + left
    ensures ok ==> var p := Parse(mem[pos..pos + left]).value;
      val == p.0 % modulus && pos' == pos + p.1
    ensures !ok ==> left' == 0
  {
    if left == 0 { return false, pos, left, 0; }
    ghost var s := mem[pos..pos + left];
    pos', left', val := pos, left, mem[pos] % 128;
    var scale: nat := 128;
    ghost var t: seq<Byte>, acc: nat, p: nat := s, mem[pos] % 128, 1;
    while mem[pos'] >= 128
      invariant pos' + left' == pos + left && 0 < left'
      invariant t == mem[pos'..pos + left] && scale == 128 * p
      invariant val == acc % modulus
      invariant Continues(s, t, pos' - pos, acc, p)
      decreases left'
    {
      ContinueStep(s, t, pos' - pos, acc, p, scale);
      left' := left' - 1;
      pos' := pos' + 1;
      if left' == 0 {
        return false, pos', left', val;
      }
      var digit: nat := mem[pos'] % 128;
      assert mem[pos'] == t[1];
      ModAdd(acc, digit * scale, modulus);
      val := (val + digit * scale) % modulus;
      t, acc, p := t[1..], acc + digit * scale, scale;
      scale := scale * 128;
    }
    ContinueEnd(s, t, pos' - pos, acc, p);
    ok, left', pos' := true, left' - 1, pos' + 1;
  }

  /** `acc` is the value of the first `k` + 1 bytes of `s`, `t` the bytes from the `k`-th on, which counts `p` times. */
  ghost predicate Continues(s: seq<Byte>, t: seq<Byte>, k: int, acc: nat, p: nat) {
    && t != []
    && Parse(s).Some? == Parse(t).Some?
    && (Parse(s).Some? ==>
          && Parse(s).value.1 == k + Parse(t).value.1
          && Parse(s).value.0 == acc + p * (Parse(t).value.0 - t[0] % 128))
  }

  lemma ContinueStep(s: seq<Byte>, t: seq<Byte>, k: int, acc: nat, p: nat, scale: nat)
    requires Continues(s, t, k, acc, p) && t[0] >= 128 && scale == 128 * p
    ensures |t| == 1 ==> Parse(s).None?
    ensures |t| > 1 ==> Continues(s, t[1..], k + 1, acc + t[1] % 128 * scale, scale)
  {
    if |t| > 1 && Parse(s).Some? {
      var rest, digit := Parse(t[1..]).value.0, t[1] % 128;
      assert Parse(t).value.0 - t[0] % 128 == 128 * rest;
      Regroup(p, rest, digit, scale);
    }
  }

  lemma ContinueEnd(s: seq<Byte>, t: seq<Byte>, k: nat, acc: nat, p: nat)
    requires Continues(s, t, k, acc, p) && t[0] < 128
    ensures Parse(s) == Some((acc, k + 1))
  {
    assert Parse(t) == Some((t[0], 1));
    assert p * (t[0] - t[0] % 128) == 0;
  }

  lemma Regroup(p: nat, rest: nat, digit: nat, scale: nat)
    requires scale == 128 * p
    ensures p * (128 * rest) == digit * scale + scale * (rest - digit)
  {
    assert p * (128 * rest) == scale * rest;
    assert scale * (rest - digit) == scale * rest - scale * digit;
  }
}
