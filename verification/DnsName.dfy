/** Domain names on the wire, as section 4.1.4 of RFC 1035 defines them: reading. */
module DnsName {
  import opened Octets

  type Label = seq<Byte>

  const DOT: Byte := 46

  /** What a name at some offset says, and the index just past its encoding there. */
  datatype Reading = Reading(labels: seq<Label>, past: nat)

  /** The offset in a pointer of two bytes. */
  function Target(hi: Byte, lo: Byte): nat {
    (hi as int % 64) * 256 + lo as int
  }

  /**
   * The reference reading of the name at `p`, in a run of labels that began at `bound`:
   * a pointer must go strictly before the run that holds it.
   */
  ghost function NameAt(s: seq<Byte>, p: nat, bound: nat): Option<Reading>
    decreases bound, |s| - p
  {
    if p >= |s| then None
    else if s[p] == 0 then Some(Reading([], p + 1))
    else if s[p] >= 64 then
      if p + 1 >= |s| || Target(s[p], s[p + 1]) >= bound then None
      else
        var q := Target(s[p], s[p + 1]);
        match NameAt(s, q, q)
        case None => None
        case Some(r) => Some(Reading(r.labels, p + 2))
    else if p + 1 + s[p] > |s| then None
    else
      match NameAt(s, p + 1 + s[p], bound)
      case None => None
      case Some(r) => Some(Reading([s[p + 1..p + 1 + s[p]]] + r.labels, r.past))
  }

  /**
   * What the loop of name_parse finds in any packet, however its pointers go; Overread if, after
   * some labels, one of `len` bytes leaves the packet.
   */
  datatype Parsed = Found(reading: Reading) | Bad | Overread(labels: seq<Label>, len: nat)

  ghost function Parse(s: seq<Byte>, p: nat, hops: nat): Parsed
    decreases hops, |s| - p
  {
    if p >= |s| then Bad
    else if s[p] == 0 then Found(Reading([], p + 1))
    else if s[p] >= 64 then
      if p + 1 >= |s| || Target(s[p], s[p + 1]) >= |s| || hops == 0 then Bad
      else
        match Parse(s, Target(s[p], s[p + 1]), hops - 1)
        case Found(r) => Found(Reading(r.labels, p + 2))
        case bad => bad
    else if p + 1 + s[p] > |s| then Overread([], s[p])
    else
      match Parse(s, p + 1 + s[p], hops)
      case Found(r) => Found(Reading([s[p + 1..p + 1 + s[p]]] + r.labels, r.past))
      case Overread(ls, len) => Overread([s[p + 1..p + 1 + s[p]]] + ls, len)
      case Bad => Bad
  }

  /** Pointers that go backwards never use up the jumps. */
  lemma {:induction false} NameParses(s: seq<Byte>, p: nat, bound: nat, hops: nat)
    requires NameAt(s, p, bound).Some? && hops >= bound
    ensures Parse(s, p, hops) == Found(NameAt(s, p, bound).value)
    decreases bound, |s| - p
  {
    if s[p] == 0 {
    } else if s[p] >= 64 {
      var q := Target(s[p], s[p + 1]);
      NameParses(s, q, q, hops - 1);
    } else {
      NameParses(s, p + 1 + s[p], bound, hops);
    }
  }

  ghost predicate Agree(s: seq<Byte>, t: seq<Byte>) {
    |s| <= |t| && forall i :: 0 <= i < |s| ==> t[i] == s[i]
  }

  /** A reading depends only on bytes it covers and on an upper bound for its first pointer. */
  lemma {:induction false} NameStable(s: seq<Byte>, t: seq<Byte>, p: nat, b: nat, c: nat)
    requires Agree(s, t) && b <= c && NameAt(s, p, b).Some?
    ensures NameAt(t, p, c) == NameAt(s, p, b)
    decreases b, |s| - p
  {
    if s[p] == 0 {
    } else if s[p] >= 64 {
      var q := Target(s[p], s[p + 1]);
      NameStable(s, t, q, q, q);
    } else {
      assert t[p + 1..p + 1 + s[p]] == s[p + 1..p + 1 + s[p]];
      NameStable(s, t, p + 1 + s[p], b, c);
    }
  }

  /** Labels joined by dots. */
  function Join(ls: seq<Label>): seq<Byte> {
    if ls == [] then []
    else if |ls| == 1 then ls[0]
    else ls[0] + [DOT] + Join(ls[1..])
  }

  ghost predicate NonEmpty(ls: seq<Label>) {
    forall i :: 0 <= i < |ls| ==> ls[i] != []
  }

  lemma {:induction false} JoinMore(a: seq<Label>, l: Label)
    ensures Join(a + [l]) == if a == [] then l else Join(a) + [DOT] + l
  {
    if a == [] {
      assert (a + [l]) == [l];
    } else if |a| > 1 {
      JoinMore(a[1..], l);
      assert (a + [l])[1..] == a[1..] + [l];
    } else {
      assert (a + [l])[1..] == [l];
    }
  }

  lemma {:induction false} JoinGrows(a: seq<Label>, b: seq<Label>)
    requires NonEmpty(a) && NonEmpty(b)
    ensures |Join(a + b)| >= |Join(a)|
    ensures a != [] ==> Join(a) != []
    decreases |b|
  {
    if a != [] {
      assert a == a[..|a| - 1] + [a[|a| - 1]];
      JoinMore(a[..|a| - 1], a[|a| - 1]);
    }
    if b == [] {
      assert a + b == a;
    } else {
      JoinMore(a, b[0]);
      assert a + b == (a + [b[0]]) + b[1..];
      JoinGrows(a + [b[0]], b[1..]);
    }
  }

  lemma {:induction false} ParseNonEmpty(s: seq<Byte>, p: nat, hops: nat)
    ensures match Parse(s, p, hops)
      case Found(r) => NonEmpty(r.labels)
      case Overread(ls, _) => NonEmpty(ls)
      case Bad => true
    decreases hops, |s| - p
  {
    if p >= |s| || s[p] == 0 {
    } else if s[p] >= 64 {
      if p + 1 < |s| && Target(s[p], s[p + 1]) < |s| && hops > 0 {
        ParseNonEmpty(s, Target(s[p], s[p + 1]), hops - 1);
      }
    } else if p + 1 + s[p] <= |s| {
      ParseNonEmpty(s, p + 1 + s[p], hops);
    }
  }

  // ---- name_parse -----------------------------------------------------------

  datatype ParseResult = Text(text: seq<Byte>, next: nat) | Fail | ReadPast

  /** What name_parse returns, given what the packet holds and the size of the output. */
  ghost predicate Answers(o: Parsed, outLen: nat, r: ParseResult) {
    match o
    case Found(rd) => r == if |Join(rd.labels)| < outLen then Text(Join(rd.labels), rd.past) else Fail
    case Bad => r == Fail
    case Overread(ls, len) => r == if |Join(ls)| + (if ls == [] then 0 else 1) + len < outLen then ReadPast else Fail
  }

  /** The reading of the whole, from the labels so far, the end found at the first pointer, and what remains. */
  ghost function Resume(acc: seq<Label>, end: Option<nat>, o: Parsed): Parsed {
    match o
    case Found(r) => Found(Reading(acc + r.labels, if end.Some? then end.value else r.past))
    case Overread(ls, len) => Overread(acc + ls, len)
    case Bad => Bad
  }

  lemma ResumeStart(o: Parsed)
    ensures Resume([], None, o) == o && Join([]) == [] && NonEmpty([])
  {
    match o {
      case Found(r) => assert [] + r.labels == r.labels;
      case Overread(ls, _) => assert [] + ls == ls;
      case Bad =>
    }
  }

  lemma NonEmptyMore(acc: seq<Label>, l: Label)
    requires NonEmpty(acc) && l != []
    ensures NonEmpty(acc + [l])
  {
  }

  lemma ParseStops(s: seq<Byte>, acc: seq<Label>, end: Option<nat>, p: nat, hops: nat)
    ensures p >= |s| ==> Resume(acc, end, Parse(s, p, hops)) == Bad
    ensures p < |s| && s[p] == 0 ==>
      Resume(acc, end, Parse(s, p, hops)) == Found(Reading(acc, if end.Some? then end.value else p + 1))
    ensures p < |s| && s[p] >= 64 && (p + 1 >= |s| || Target(s[p], s[p + 1]) >= |s| || hops == 0) ==>
      Resume(acc, end, Parse(s, p, hops)) == Bad
    ensures p < |s| && 0 < s[p] < 64 && p + 1 + s[p] > |s| ==> Resume(acc, end, Parse(s, p, hops)) == Overread(acc, s[p])
  {
    assert acc + [] == acc;
  }

  lemma ResumeJump(s: seq<Byte>, acc: seq<Label>, end: Option<nat>, p: nat, hops: nat)
    requires p + 1 < |s| && s[p] >= 64 && Target(s[p], s[p + 1]) < |s| && hops > 0
    ensures Resume(acc, end, Parse(s, p, hops))
         == Resume(acc, if end.Some? then end else Some(p + 2), Parse(s, Target(s[p], s[p + 1]), hops - 1))
  {
  }

  lemma ResumeLabel(s: seq<Byte>, acc: seq<Label>, end: Option<nat>, p: nat, hops: nat)
    requires p < |s| && 0 < s[p] < 64 && p + 1 + s[p] <= |s|
    ensures Resume(acc, end, Parse(s, p, hops))
         == Resume(acc + [s[p + 1..p + 1 + s[p]]], end, Parse(s, p + 1 + s[p], hops))
  {
    var l := s[p + 1..p + 1 + s[p]];
    match Parse(s, p + 1 + s[p], hops) {
      case Found(r) => assert acc + ([l] + r.labels) == acc + [l] + r.labels;
      case Overread(ls, _) => assert acc + ([l] + ls) == acc + [l] + ls;
      case Bad =>
    }
  }

  /** No room in the output for the labels so far: whatever follows, the answer is a failure. */
  lemma NoRoom(s: seq<Byte>, acc: seq<Label>, end: Option<nat>, p: nat, hops: nat, outLen: nat)
    requires NonEmpty(acc) && |Join(acc)| >= outLen
    ensures Answers(Resume(acc, end, Parse(s, p, hops)), outLen, Fail)
  {
    ParseNonEmpty(s, p, hops);
    match Parse(s, p, hops) {
      case Found(r) => JoinGrows(acc, r.labels);
      case Overread(ls, _) => JoinGrows(acc, ls);
      case Bad =>
    }
  }

  /** name_parse */
  method NameParse(packet: array<Byte>, idx: nat, outLen: nat) returns (r: ParseResult)
    ensures Answers(Parse(packet[..], idx, packet.Length), outLen, r)
    ensures r == ReadPast <==>
      var o := Parse(packet[..], idx, packet.Length);
      o.Overread? && |Join(o.labels)| + (if o.labels == [] then 0 else 1) + o.len < outLen
  {
    hide Parse, Join, NonEmpty, Resume;
    ghost var s := packet[..];
    ghost var acc: seq<Label> := [];
    var length := packet.Length;
    var nameEnd: Option<nat> := None;
    var j: nat, jumps: nat, out: seq<Byte> := idx, 0, [];
    ResumeStart(Parse(s, idx, length));
    while true
      invariant jumps <= length
      invariant out == Join(acc) && NonEmpty(acc) && (acc != [] ==> out != [])
      invariant acc != [] ==> |out| < outLen
      invariant Parse(s, idx, length) == Resume(acc, nameEnd, Parse(s, j, length - jumps))
      decreases length - jumps, length - j
    {
      ParseStops(s, acc, nameEnd, j, length - jumps);
      if j >= length { return Fail; }
      var len := packet[j];
      if len == 0 {
        j := j + 1;
        break;
      }
      if len >= 64 {
        if j + 1 >= length { return Fail; }
        var t := Target(len, packet[j + 1]);
        if t >= length || jumps + 1 > length { return Fail; }
        ResumeJump(s, acc, nameEnd, j, length - jumps);
        if nameEnd.None? { nameEnd := Some(j + 2); }
        j, jumps := t, jumps + 1;
        continue;
      }
      if j + 1 + len > length { return Overrun(out, len, outLen); }
      var lab := packet[j + 1..j + 1 + len];
      ResumeLabel(s, acc, nameEnd, j, length - jumps);
      JoinMore(acc, lab);
      NonEmptyMore(acc, lab);
      acc := acc + [lab];
      if out != [] {
        if |out| + 1 >= outLen {
          NoRoom(s, acc, nameEnd, j + 1 + len, length - jumps, outLen);
          return Fail;
        }
        out := out + [DOT];
      }
      if |out| + len >= outLen {
        NoRoom(s, acc, nameEnd, j + 1 + len, length - jumps, outLen);
        return Fail;
      }
      out := out + lab;
      j := j + 1 + len;
    }
    if |out| >= outLen { return Fail; }
    return Text(out, if nameEnd.Some? then nameEnd.value else j);
  }

  /** A label that leaves the packet is copied all the same if the output has room. */
  function Overrun(out: seq<Byte>, len: Byte, outLen: nat): ParseResult {
    if (out != [] && |out| + 1 >= outLen) || |out| + (if out == [] then 0 else 1) + len >= outLen then Fail else ReadPast
  }

  /** A packet of two bytes whose label claims five: the bytes behind the packet are copied. */
  method ReadsBehindPacket() returns (r: ParseResult)
    ensures r == ReadPast
  {
    var packet := new Byte[][5, 65];
    assert packet[..] == [5, 65];
    r := NameParse(packet, 0, 256);
  }
}
