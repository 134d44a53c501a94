/** Domain names on the wire: writing with the compression table, and the round trip. */
module DnsLabels {
  import opened Octets
  import opened DnsName

  const MAX_LABELS := 128
  const MAX_LABEL := 63
  const MAX_NAME := 255
  const OFFSET_LIMIT := 0x4000

  ghost predicate NoZero(name: seq<Byte>) {
    forall i :: 0 <= i < |name| ==> name[i] != 0
  }

  /** strchr(name, '.'): the first dot, or the length. */
  function Dot(name: seq<Byte>): (d: nat)
    ensures d <= |name| && (d < |name| ==> name[d] == DOT)
    ensures forall i :: 0 <= i < d ==> name[i] != DOT
  {
    if name == [] || name[0] == DOT then 0 else 1 + Dot(name[1..])
  }

  /** The labels between the dots; a name has at least one, perhaps empty. */
  ghost function Split(name: seq<Byte>): (ls: seq<Label>)
    ensures ls != []
    decreases |name|
  {
    var d := Dot(name);
    if d == |name| then [name] else [name[..d]] + Split(name[d + 1..])
  }

  lemma {:induction false} JoinSplit(name: seq<Byte>)
    ensures Join(Split(name)) == name
    decreases |name|
  {
    hide Dot, Split;
    SplitUnfold(name);
    var d := Dot(name);
    if d < |name| {
      JoinSplit(name[d + 1..]);
      assert name == name[..d] + [DOT] + name[d + 1..];
      assert Split(name)[1..] == Split(name[d + 1..]);
    }
  }

  /** An empty label reads as the end of the name. */
  ghost function Cut(ls: seq<Label>): seq<Label> {
    if ls == [] || ls[0] == [] then [] else [ls[0]] + Cut(ls[1..])
  }

  /** No empty label but perhaps the last, that is, a trailing dot. */
  ghost predicate Plain(ls: seq<Label>) {
    forall i :: 0 <= i < |ls| - 1 ==> ls[i] != []
  }

  lemma {:induction false} CutWhole(ls: seq<Label>)
    ensures NonEmpty(ls) ==> Cut(ls) == ls
    ensures !NonEmpty(ls) && |Join(ls)| > 0 ==> |Join(Cut(ls))| < |Join(ls)|
    ensures |Join(Cut(ls))| <= |Join(ls)|
  {
    if ls != [] {
      CutWhole(ls[1..]);
      assert ls == [ls[0]] + ls[1..];
      assert NonEmpty(ls) <==> ls[0] != [] && NonEmpty(ls[1..]);
      if ls[0] != [] {
        assert Cut(ls)[1..] == Cut(ls[1..]);
      }
    }
  }

  /** Which names come back as they were written: those without an empty label, and the empty name. */
  lemma SameNameIff(name: seq<Byte>)
    ensures Join(Cut(Split(name))) == name <==> name == [] || NonEmpty(Split(name))
  {
    JoinSplit(name);
    CutWhole(Split(name));
  }

  // ---- The label table ------------------------------------------------------

  datatype Entry = Entry(v: seq<Byte>, pos: nat)

  /** The entry's name can be read at its position, which lies before `j`. */
  ghost predicate Denotes(e: Entry, s: seq<Byte>, j: nat) {
    e.pos < j && NameAt(s, e.pos, e.pos).Some? && NameAt(s, e.pos, e.pos).value.labels == Cut(Split(e.v))
  }

  ghost predicate TableOk(es: seq<Entry>, s: seq<Byte>, j: nat) {
    forall i :: 0 <= i < |es| ==> Denotes(es[i], s, j)
  }

  class LabelTable {
    var labels: seq<Entry>

    constructor ()
      ensures labels == []
    {
      labels := [];
    }

    /** dnslabel_table_get_pos */
    method GetPos(name: seq<Byte>) returns (r: Option<nat>)
      ensures r.Some? ==>
        exists i :: (0 <= i < |labels| && labels[i] == Entry(name, r.value) && forall k :: 0 <= k < i ==> labels[k].v != name)
      ensures r.None? ==> forall i :: 0 <= i < |labels| ==> labels[i].v != name
    {
      for i := 0 to |labels|
        invariant forall k :: 0 <= k < i ==> labels[k].v != name
      {
        if labels[i].v == name {
          assert labels[i] == Entry(name, labels[i].pos);
          return Some(labels[i].pos);
        }
      }
      return None;
    }

    /** dnslabel_table_add: a full table forgets. */
    method Add(name: seq<Byte>, pos: nat)
      modifies this
      ensures labels == if old(|labels|) == MAX_LABELS then old(labels) else old(labels) + [Entry(name, pos)]
    {
      if |labels| != MAX_LABELS {
        labels := labels + [Entry(name, pos)];
      }
    }
  }

  // ---- Runs of labels in the packet ----------------------------------------

  ghost predicate Has(s: seq<Byte>, p: nat, l: Label) {
    && p + 1 + |l| <= |s| && |l| <= MAX_LABEL && s[p] as int == |l|
    && forall x :: 0 <= x < |l| ==> s[p + 1 + x] == l[x]
  }

  /** Where label `k` of a run that starts at `j` begins. */
  ghost function At(ls: seq<Label>, j: nat, k: nat): nat
    requires k <= |ls|
  {
    if k == 0 then j else At(ls, j, k - 1) + 1 + |ls[k - 1]|
  }

  ghost predicate Run(s: seq<Byte>, ls: seq<Label>, j: nat, k: nat)
    requires k <= |ls|
  {
    forall i :: 0 <= i < k ==> Has(s, At(ls, j, i), ls[i])
  }

  lemma AtNext(ls: seq<Label>, j: nat, i: nat)
    requires i < |ls|
    ensures At(ls, j, i + 1) == At(ls, j, i) + 1 + |ls[i]|
  {
  }

  lemma CutHead(ls: seq<Label>, i: nat)
    requires i < |ls|
    ensures Cut(ls[i..]) == if ls[i] == [] then [] else [ls[i]] + Cut(ls[i + 1..])
  {
    assert ls[i..][0] == ls[i] && ls[i..][1..] == ls[i + 1..];
  }

  lemma CutNone()
    ensures Cut([]) == []
  {
  }

  lemma NameHead(s: seq<Byte>, p: nat, l: Label, b: nat)
    requires Has(s, p, l) && NameAt(s, p + 1 + |l|, b).Some?
    ensures var r := NameAt(s, p + 1 + |l|, b).value;
      NameAt(s, p, b) == Some(if l == [] then Reading([], p + 1) else Reading([l] + r.labels, r.past))
  {
    assert s[p + 1..p + 1 + |l|] == l;
  }

  /** If the tail of a name can be read where its run stops, the name can be read from any of its labels. */
  lemma {:induction false} RunReads(s: seq<Byte>, ls: seq<Label>, j: nat, i: nat, k: nat, b: nat)
    requires i <= k <= |ls| && Run(s, ls, j, k)
    requires NameAt(s, At(ls, j, k), b).Some? && NameAt(s, At(ls, j, k), b).value.labels == Cut(ls[k..])
    ensures NameAt(s, At(ls, j, i), b).Some? && NameAt(s, At(ls, j, i), b).value.labels == Cut(ls[i..])
    ensures (forall x :: i <= x < k ==> ls[x] != []) ==>
      NameAt(s, At(ls, j, i), b).value.past == NameAt(s, At(ls, j, k), b).value.past
    decreases k - i
  {
    hide NameAt, Cut, At, Has;
    if i < k {
      RunReads(s, ls, j, i + 1, k, b);
      var p := At(ls, j, i);
      AtNext(ls, j, i);
      assert Has(s, p, ls[i]);
      NameHead(s, p, ls[i], b);
      CutHead(ls, i);
    }
  }

  lemma {:induction false} AtGrows(ls: seq<Label>, j: nat, i: nat, k: nat)
    requires i <= k <= |ls|
    ensures At(ls, j, k) >= At(ls, j, i) + (k - i)
  {
    if i < k {
      AtGrows(ls, j, i, k - 1);
    }
  }

  /** Entries added while the run was written. */
  ghost predicate Pending(es: seq<Entry>, n: nat, cap: nat, ls: seq<Label>, j: nat, k: nat)
    requires k <= |ls|
  {
    && n <= |es| <= n + k && (|es| < n + k ==> |es| == cap)
    && forall i :: n <= i < |es| ==> es[i].pos == At(ls, j, i - n) && Split(es[i].v) == ls[i - n..]
  }

  /** Once the tail reads, the whole table does. */
  lemma TableGrows(s: seq<Byte>, t: seq<Byte>, es: seq<Entry>, n: nat, cap: nat, ls: seq<Label>, j: nat, k: nat, m: nat)
    requires k <= |ls| && m <= k + 1 && m <= |ls| && |s| == j && Agree(s, t) && At(ls, j, k) < |t| && Run(t, ls, j, k)
    requires TableOk(es[..Min(n, |es|)], s, j) && Pending(es, n, cap, ls, j, m)
    requires NameAt(t, At(ls, j, k), j).Some? && NameAt(t, At(ls, j, k), j).value.labels == Cut(ls[k..])
    ensures TableOk(es, t, |t|)
  {
    hide NameAt, Cut, Split, At, Run, Denotes, Agree;
    forall i | 0 <= i < |es| ensures Denotes(es[i], t, |t|) {
      if i < n {
        assert es[..Min(n, |es|)][i] == es[i];
        OldDenotes(es[i], s, t, j);
      } else {
        NewDenotes(es[i], t, ls, j, i - n, k);
      }
    }
  }

  /** An entry from before still denotes its name. */
  lemma OldDenotes(e: Entry, s: seq<Byte>, t: seq<Byte>, j: nat)
    requires Denotes(e, s, j) && |s| == j && Agree(s, t)
    ensures Denotes(e, t, |t|)
  {
    hide NameAt, Cut, Split;
    NameStable(s, t, e.pos, e.pos, e.pos);
  }

  /** An entry of this name denotes the labels from its own on. */
  lemma NewDenotes(e: Entry, t: seq<Byte>, ls: seq<Label>, j: nat, x: nat, k: nat)
    requires x <= k <= |ls| && Run(t, ls, j, k) && At(ls, j, k) < |t|
    requires e.pos == At(ls, j, x) && Split(e.v) == ls[x..]
    requires NameAt(t, At(ls, j, k), j).Some? && NameAt(t, At(ls, j, k), j).value.labels == Cut(ls[k..])
    ensures Denotes(e, t, |t|)
  {
    hide NameAt, Cut, Split, At, Run;
    RunReads(t, ls, j, x, k, j);
    AtStart(ls, j);
    AtGrows(ls, j, 0, x);
    AtGrows(ls, j, x, k);
    AgreeSelf(t);
    NameStable(t, t, e.pos, j, e.pos);
  }

  lemma AgreeSelf(t: seq<Byte>)
    ensures Agree(t, t)
  {
  }

  // ---- dnsname_to_labels ----------------------------------------------------

  /** The two bytes of (u16)(ref | 0xc000), high byte first. */
  function PointerHi(ref: nat): Byte {
    0xc0 + (ref % OFFSET_LIMIT) / 256
  }

  function PointerLo(ref: nat): Byte {
    ref % 256
  }

  /** A pointer keeps only 14 bits of its offset. */
  lemma PointerTarget(ref: nat)
    ensures PointerHi(ref) >= 0xc0 && Target(PointerHi(ref), PointerLo(ref)) == ref % OFFSET_LIMIT
    ensures Target(PointerHi(ref), PointerLo(ref)) == ref <==> ref < OFFSET_LIMIT
  {
    var r := ref % OFFSET_LIMIT;
    assert r % 256 == ref % 256;
    assert (0xc0 + r / 256) % 64 == r / 256;
  }

  /** -1, -2, and the terminator written past the end of the buffer. */
  datatype Written = Done(next: nat) | LabelTooLong | TooLong | WrotePast

  /** The name reads back at `j`, the index ends up past it, and so does every entry of the table. */
  ghost predicate Encoded(t: seq<Byte>, es: seq<Entry>, name: seq<Byte>, j: nat) {
    && TableOk(es, t, |t|)
    && NameAt(t, j, j).Some? && NameAt(t, j, j).value.labels == Cut(Split(name))
    && (Plain(Split(name)) ==> NameAt(t, j, j).value.past == |t|)
  }

  /** State of the loop: `k` labels of the name are written, and `rest` is left. */
  ghost predicate Underway(t: seq<Byte>, es: seq<Entry>, n: nat, cap: nat, ls: seq<Label>, rest: seq<Byte>, j: nat, k: nat) {
    k < |ls| && Run(t, ls, j, k) && Pending(es, n, cap, ls, j, k) && Split(rest) == ls[k..]
  }

  lemma HasFrame(s: seq<Byte>, t: seq<Byte>, p: nat, l: Label)
    requires Has(s, p, l) && p + 1 + |l| <= |t| && forall i :: p <= i < p + 1 + |l| && i < |s| ==> t[i] == s[i]
    ensures Has(t, p, l)
  {
  }

  lemma RunPrefix(s: seq<Byte>, t: seq<Byte>, ls: seq<Label>, j: nat, k: nat)
    requires k <= |ls| && Run(s, ls, j, k) && At(ls, j, k) <= |t|
    requires forall i :: 0 <= i < |s| && i < At(ls, j, k) ==> i < |t| && t[i] == s[i]
    ensures Run(t, ls, j, k)
  {
    hide At, Has;
    forall i | 0 <= i < k ensures Has(t, At(ls, j, i), ls[i]) {
      AtNext(ls, j, i);
      AtGrows(ls, j, i + 1, k);
      HasFrame(s, t, At(ls, j, i), ls[i]);
    }
  }

  /** A run that stops where the tail of the name can be read. */
  lemma Closed(s: seq<Byte>, t: seq<Byte>, es: seq<Entry>, n: nat, cap: nat, name: seq<Byte>, j: nat, k: nat, m: nat)
    requires var ls := Split(name);
      && k <= |ls| && m <= k + 1 && m <= |ls| && |s| == j && Agree(s, t) && At(ls, j, k) < |t| && Run(t, ls, j, k)
      && TableOk(es[..Min(n, |es|)], s, j) && Pending(es, n, cap, ls, j, m)
      && NameAt(t, At(ls, j, k), j).Some? && NameAt(t, At(ls, j, k), j).value.labels == Cut(ls[k..])
      && (k < |ls| || ls[k - 1] != []) && NameAt(t, At(ls, j, k), j).value.past == |t|
    ensures Encoded(t, es, name, j)
  {
    hide NameAt, Cut, Has, Split, At, TableOk, Pending, Run, Agree;
    var ls := Split(name);
    TableGrows(s, t, es, n, cap, ls, j, k, m);
    AtStart(ls, j);
    RunReads(t, ls, j, 0, k, j);
    assert ls[0..] == ls;
  }

  lemma AtStart(ls: seq<Label>, j: nat)
    ensures At(ls, j, 0) == j
  {
  }

  /** No two suffixes of one name are equal. */
  lemma OldEntry(es: seq<Entry>, n: nat, cap: nat, ls: seq<Label>, rest: seq<Byte>, j: nat, k: nat, x: nat)
    requires k < |ls| && Pending(es, n, cap, ls, j, k) && x < |es| && es[x].v == rest && Split(rest) == ls[k..]
    ensures x < n
  {
    hide At, Split;
  }

  /** The rest of the name was written before. */
  lemma ClosedByPointer(s: seq<Byte>, t: seq<Byte>, es: seq<Entry>, n: nat, cap: nat, name: seq<Byte>, rest: seq<Byte>, j: nat, k: nat, x: nat)
    requires var ls := Split(name);
      && Underway(t, es, n, cap, ls, rest, j, k) && |s| == j && Agree(s, t) && j <= OFFSET_LIMIT
      && TableOk(es[..Min(n, |es|)], s, j)
      && x < |es| && es[x].v == rest
      && At(ls, j, k) + 2 == |t| && t[|t| - 2] == PointerHi(es[x].pos) && t[|t| - 1] == PointerLo(es[x].pos)
    ensures Encoded(t, es, name, j)
  {
    hide NameAt, Cut, Has, Split, At, Run, PointerHi, PointerLo, Target;
    var ls := Split(name);
    var p := At(ls, j, k);
    AtGrows(ls, j, 0, k);
    AtStart(ls, j);
    OldEntry(es, n, cap, ls, rest, j, k, x);
    assert es[..n][x] == es[x];
    var q := es[x].pos;
    PointerTarget(q);
    PointerReads(s, t, p, q, j);
    Closed(s, t, es, n, cap, name, j, k, k);
  }

  lemma PointerReads(s: seq<Byte>, t: seq<Byte>, p: nat, q: nat, j: nat)
    requires |s| == j <= p && p + 2 == |t| && Agree(s, t) && q < j && NameAt(s, q, q).Some?
    requires t[p] >= 64 && Target(t[p], t[p + 1]) == q
    ensures NameAt(t, p, j) == Some(Reading(NameAt(s, q, q).value.labels, p + 2))
  {
    NameStable(s, t, q, q, q);
  }

  /** The last label was written, with the terminator it needs. */
  lemma ClosedByZero(s: seq<Byte>, t: seq<Byte>, es: seq<Entry>, n: nat, cap: nat, name: seq<Byte>, j: nat)
    requires var ls := Split(name);
      && |s| == j && Agree(s, t) && Run(t, ls, j, |ls|) && Pending(es, n, cap, ls, j, |ls|)
      && TableOk(es[..Min(n, |es|)], s, j)
      && |t| == At(ls, j, |ls|) + (if ls[|ls| - 1] == [] then 0 else 1)
      && t != [] && t[|t| - 1] == 0
    ensures Encoded(t, es, name, j)
  {
    hide Cut, Has, Split, At, Pending, TableOk, Agree;
    var ls := Split(name);
    var m := |ls| - 1;
    AtNext(ls, j, m);
    if ls[m] == [] {
      CutHead(ls, m);
      Closed(s, t, es, n, cap, name, j, m, m + 1);
    } else {
      assert ls[m + 1..] == [];
      CutNone();
      Closed(s, t, es, n, cap, name, j, m + 1, m + 1);
    }
  }

  lemma SplitHead(rest: seq<Byte>, ls: seq<Label>, k: nat)
    requires k < |ls| && Split(rest) == ls[k..]
    ensures ls[k] == rest[..Dot(rest)]
    ensures if Dot(rest) == |rest| then k + 1 == |ls| else k + 1 < |ls| && Split(rest[Dot(rest) + 1..]) == ls[k + 1..]
  {
    hide Dot, Split;
    SplitUnfold(rest);
    assert ls[k..][0] == ls[k] && ls[k..][1..] == ls[k + 1..];
  }

  lemma SplitUnfold(name: seq<Byte>)
    ensures Split(name) == if Dot(name) == |name| then [name] else [name[..Dot(name)]] + Split(name[Dot(name) + 1..])
  {
    hide Dot;
  }

  /** The table after a name was offered to it; a full one forgets. */
  ghost function Entered(es: seq<Entry>, cap: nat, name: seq<Byte>, pos: nat): (fs: seq<Entry>)
    ensures es <= fs
  {
    if |es| == cap then es else es + [Entry(name, pos)]
  }

  /** One more label in the run. */
  lemma Stepped(s: seq<Byte>, t: seq<Byte>, es: seq<Entry>, fs: seq<Entry>, n: nat, cap: nat, ls: seq<Label>, rest: seq<Byte>, j: nat, k: nat)
    requires Underway(s, es, n, cap, ls, rest, j, k) && |s| == |t| && At(ls, j, k) <= |t|
    requires forall i :: 0 <= i < At(ls, j, k) ==> t[i] == s[i]
    requires Has(t, At(ls, j, k), ls[k])
    requires fs == Entered(es, cap, rest, At(ls, j, k))
    ensures Run(t, ls, j, k + 1) && Pending(fs, n, cap, ls, j, k + 1)
  {
    hide At, Has, Split;
    RunPrefix(s, t, ls, j, k);
  }

  /** The length byte and the label. */
  method PutLabel(buf: array<Byte>, j: nat, l: Label)
    requires |l| <= MAX_LABEL && j + 1 + |l| <= buf.Length
    modifies buf
    ensures Has(buf[..], j, l)
    ensures forall i :: 0 <= i < buf.Length && (i < j || i > j + |l|) ==> buf[i] == old(buf[i])
  {
    buf[j] := |l|;
    for x := 0 to |l|
      invariant buf[j] as int == |l|
      invariant forall y :: 0 <= y < x ==> buf[j + 1 + y] == l[y]
      invariant forall i :: 0 <= i < buf.Length && (i < j || i > j + |l|) ==> buf[i] == old(buf[i])
    {
      buf[j + 1 + x] := l[x];
    }
  }

  ghost function Entries(table: LabelTable?): seq<Entry>
    reads table
  {
    if table == null then [] else table.labels
  }

  /** One turn of the loop that writes a label. */
  method PutNext(buf: array<Byte>, j: nat, rest: seq<Byte>, d: nat, table: LabelTable?,
                 ghost start: nat, ghost n: nat, ghost cap: nat, ghost ls: seq<Label>, ghost k: nat)
    requires Underway(buf[..], Entries(table), n, cap, ls, rest, start, k) && j == At(ls, start, k)
    requires d == Dot(rest) <= MAX_LABEL && j + d + 1 <= buf.Length
    requires cap == Capacity(table)
    modifies buf, table
    ensures Run(buf[..], ls, start, k + 1) && Pending(Entries(table), n, cap, ls, start, k + 1)
    ensures At(ls, start, k + 1) == j + 1 + d
    ensures Entries(table) == Entered(old(Entries(table)), cap, rest, j)
    ensures if d == |rest| then k + 1 == |ls| && ls[k] == rest
            else k + 1 < |ls| && Underway(buf[..], Entries(table), n, cap, ls, rest[d + 1..], start, k + 1)
    ensures forall i :: 0 <= i < buf.Length && (i < j || i > j + d) ==> buf[i] == old(buf[i])
  {
    hide At, Has, Split, Run, Pending;
    SplitHead(rest, ls, k);
    ghost var before, es := buf[..], Entries(table);
    if table != null {
      table.Add(rest, j);
    }
    PutLabel(buf, j, rest[..d]);
    NoTable(es, n, cap, ls, start, k);
    Stepped(before, buf[..], es, Entries(table), n, cap, ls, rest, start, k);
    AtNext(ls, start, k);
  }

  lemma NoTable(es: seq<Entry>, n: nat, cap: nat, ls: seq<Label>, j: nat, k: nat)
    requires k <= |ls| && Pending(es, n, cap, ls, j, k)
    ensures n <= |es|
  {
  }

  /** An earlier name was entered as this one. */
  ghost predicate Shared(es: seq<Entry>, rest: seq<Byte>) {
    exists i :: 0 <= i < |es| && es[i].v == rest
  }

  /** How writing `rest` from `j` on ends, in a buffer of `room` bytes, after the names in `es`. */
  ghost function Ends(rest: seq<Byte>, j: nat, room: nat, es: seq<Entry>): Written
    decreases |rest|
  {
    var d := Dot(rest);
    if Shared(es, rest) then if j + 2 > room then TooLong else Done(j + 2)
    else if d > MAX_LABEL then LabelTooLong
    else if j + d + 1 > room then TooLong
    else if d < |rest| then Ends(rest[d + 1..], j + 1 + d, room, es)
    else if d == 0 then Done(j + 1)
    else if j + 1 + d == room then WrotePast
    else Done(j + d + 2)
  }

  /** The table `es` after that, `es0` being what it was before the name. */
  ghost function Grown(rest: seq<Byte>, j: nat, room: nat, es0: seq<Entry>, cap: nat, es: seq<Entry>): seq<Entry>
    decreases |rest|
  {
    var d := Dot(rest);
    if Shared(es0, rest) || d > MAX_LABEL || j + d + 1 > room then es
    else
      var fs := Entered(es, cap, rest, j);
      if d < |rest| then Grown(rest[d + 1..], j + 1 + d, room, es0, cap, fs) else fs
  }

  lemma GrownUnfold(rest: seq<Byte>, j: nat, room: nat, es0: seq<Entry>, cap: nat, es: seq<Entry>)
    ensures var d := Dot(rest);
      Grown(rest, j, room, es0, cap, es) ==
        if Shared(es0, rest) || d > MAX_LABEL || j + d + 1 > room then es
        else if d < |rest| then Grown(rest[d + 1..], j + 1 + d, room, es0, cap, Entered(es, cap, rest, j))
        else Entered(es, cap, rest, j)
  {
    hide Dot, Shared, Entered;
  }

  ghost function Outcome(name: seq<Byte>, start: nat, room: nat, es: seq<Entry>): Written {
    if |name| > MAX_NAME then TooLong else Ends(name, start, room, es)
  }

  ghost function After(name: seq<Byte>, start: nat, room: nat, es: seq<Entry>, cap: nat): seq<Entry> {
    if |name| > MAX_NAME then es else Grown(name, start, room, es, cap, es)
  }

  /** The name, and what follows each of its dots. */
  ghost function Suffixes(name: seq<Byte>): (ss: seq<seq<Byte>>)
    ensures |ss| == |Split(name)|
    decreases |name|
  {
    var d := Dot(name);
    if d == |name| then [name] else [name] + Suffixes(name[d + 1..])
  }

  ghost predicate NoneShared(es: seq<Entry>, ss: seq<seq<Byte>>) {
    forall k :: 0 <= k < |ss| ==> !Shared(es, ss[k])
  }

  ghost predicate Unlisted(es: seq<Entry>, name: seq<Byte>) {
    NoneShared(es, Suffixes(name))
  }

  ghost predicate Short(ls: seq<Label>) {
    forall k :: 0 <= k < |ls| ==> |ls[k]| <= MAX_LABEL
  }

  lemma EndsUnfold(rest: seq<Byte>, j: nat, room: nat, es: seq<Entry>)
    ensures var d := Dot(rest);
      Ends(rest, j, room, es) ==
        if Shared(es, rest) then if j + 2 > room then TooLong else Done(j + 2)
        else if d > MAX_LABEL then LabelTooLong
        else if j + d + 1 > room then TooLong
        else if d < |rest| then Ends(rest[d + 1..], j + 1 + d, room, es)
        else if d == 0 then Done(j + 1)
        else if j + 1 + d == room then WrotePast
        else Done(j + d + 2)
  {
  }

  /** Labels and suffixes of a name, by its first dot. */
  lemma HeadAndTail(es: seq<Entry>, name: seq<Byte>)
    ensures var d, ls := Dot(name), Split(name);
      if d == |name| then
        && (Short(ls) <==> |name| <= MAX_LABEL) && (Unlisted(es, name) <==> !Shared(es, name)) && ls[|ls| - 1] == name
      else var t := name[d + 1..];
        && (Short(ls) <==> d <= MAX_LABEL && Short(Split(t))) && ls[|ls| - 1] == Split(t)[|Split(t)| - 1]
        && (Unlisted(es, name) <==> !Shared(es, name) && Unlisted(es, t))
  {
    hide Dot, Split, Short, NoneShared, Suffixes;
    SplitUnfold(name);
    SuffixesUnfold(name);
    var d := Dot(name);
    if d < |name| {
      ShortCons(name[..d], Split(name[d + 1..]));
      NoneCons(es, name, Suffixes(name[d + 1..]));
    } else {
      ShortCons(name, []);
      NoneCons(es, name, []);
      assert [name] + [] == [name];
    }
  }

  lemma SuffixesUnfold(name: seq<Byte>)
    ensures Suffixes(name) == if Dot(name) == |name| then [name] else [name] + Suffixes(name[Dot(name) + 1..])
  {
    hide Dot;
  }

  lemma ShortCons(l: Label, ls: seq<Label>)
    ensures Short([l] + ls) <==> |l| <= MAX_LABEL && Short(ls)
    ensures Short([])
  {
    var all := [l] + ls;
    assert all[0] == l && forall k :: 0 <= k < |ls| ==> ls[k] == all[k + 1];
  }

  lemma NoneCons(es: seq<Entry>, x: seq<Byte>, ss: seq<seq<Byte>>)
    ensures NoneShared(es, [x] + ss) <==> !Shared(es, x) && NoneShared(es, ss)
    ensures NoneShared(es, [])
  {
    hide Shared;
    var all := [x] + ss;
    assert all[0] == x && forall k :: 0 <= k < |ss| ==> ss[k] == all[k + 1];
  }

  lemma {:induction false} EndsPast(rest: seq<Byte>, j: nat, room: nat, es: seq<Entry>)
    requires j <= room
    ensures Ends(rest, j, room, es).WrotePast? <==>
      var ls := Split(rest);
      Short(ls) && ls[|ls| - 1] != [] && j + |rest| + 1 == room && Unlisted(es, rest)
    decreases |rest|
  {
    hide Dot, Split, Ends, Short, Unlisted, Shared;
    EndsUnfold(rest, j, room, es);
    HeadAndTail(es, rest);
    var d := Dot(rest);
    if d < |rest| && j + d + 1 <= room {
      EndsPast(rest[d + 1..], j + 1 + d, room, es);
    }
  }

  /** When the terminator is written past the buffer: nothing of the name is in the table, its labels fit exactly, and the last is not empty. */
  lemma WrotePastIff(name: seq<Byte>, start: nat, room: nat, es: seq<Entry>)
    requires start <= room
    ensures Outcome(name, start, room, es).WrotePast? <==>
      var ls := Split(name);
      |name| <= MAX_NAME && Short(ls) && ls[|ls| - 1] != [] && start + |name| + 1 == room && Unlisted(es, name)
  {
    hide Ends, Split, Short, Unlisted;
    EndsPast(name, start, room, es);
  }

  lemma HeadTooLong(t: seq<Byte>, es: seq<Entry>, n: nat, cap: nat, ls: seq<Label>, rest: seq<Byte>, j: nat, k: nat)
    requires Underway(t, es, n, cap, ls, rest, j, k) && Dot(rest) > MAX_LABEL
    ensures exists i :: 0 <= i < |ls| && |ls[i]| > MAX_LABEL
  {
    hide Dot, Split;
    SplitHead(rest, ls, k);
    assert |ls[k]| > MAX_LABEL;
  }

  /** dnsname_to_labels */
  method ToLabels(buf: array<Byte>, start: nat, name: seq<Byte>, table: LabelTable?) returns (r: Written)
    requires start <= buf.Length && NoZero(name)
    modifies buf, table
    ensures r.Done? ==> start < r.next <= buf.Length && r.next <= start + |name| + 2
    ensures forall i :: 0 <= i < buf.Length && (i < start || (r.Done? && i >= r.next)) ==> buf[i] == old(buf[i])
    ensures r.Done? && start <= OFFSET_LIMIT && TableOk(old(Entries(table)), old(buf[..start]), start) ==>
      Encoded(buf[..r.next], Entries(table), name, start)
    ensures r.LabelTooLong? ==> exists k :: 0 <= k < |Split(name)| && |Split(name)[k]| > MAX_LABEL
    ensures r.TooLong? || r.WrotePast? ==> |name| > MAX_NAME || start + |name| + 2 > buf.Length
    ensures r == Outcome(name, start, buf.Length, old(Entries(table)))
    ensures Entries(table) == After(name, start, buf.Length, old(Entries(table)), Capacity(table))
    ensures r.WrotePast? <==>
      var ls := Split(name);
      && |name| <= MAX_NAME && Short(ls) && ls[|ls| - 1] != [] && start + |name| + 1 == buf.Length
      && Unlisted(old(Entries(table)), name)
  {
    hide NoZero, Encoded, TableOk, Ends, Grown, Unlisted, Short, Split;
    WrotePastIff(name, start, buf.Length, Entries(table));
    if |name| > MAX_NAME { return TooLong; }
    r := WriteLabels(buf, start, name, table);
  }

  /** How far the loop is: what is left to write, and where. */
  ghost predicate Left(name: seq<Byte>, start: nat, rest: seq<Byte>, j: nat) {
    start <= j <= start + |name| && rest == name[j - start..]
  }

  lemma LeftNext(name: seq<Byte>, start: nat, rest: seq<Byte>, j: nat, d: nat)
    requires Left(name, start, rest, j) && d <= |rest|
    ensures |rest| <= |name| && j + |rest| == start + |name| && rest == name[|name| - |rest|..]
    ensures d < |rest| ==> Left(name, start, rest[d + 1..], j + 1 + d)
  {
  }

  lemma LeftAll(name: seq<Byte>, start: nat)
    ensures Left(name, start, name, start)
  {
  }

  /** The loop of dnsname_to_labels, and the terminator. */
  method WriteLabels(buf: array<Byte>, start: nat, name: seq<Byte>, table: LabelTable?) returns (r: Written)
    requires start <= buf.Length && NoZero(name)
    modifies buf, table
    ensures r == Ends(name, start, buf.Length, old(Entries(table)))
    ensures Entries(table) == Grown(name, start, buf.Length, old(Entries(table)), Capacity(table), old(Entries(table)))
    ensures r.Done? ==> start < r.next <= buf.Length && r.next <= start + |name| + 2
    ensures forall i :: 0 <= i < buf.Length && (i < start || (r.Done? && i >= r.next)) ==> buf[i] == old(buf[i])
    ensures r.Done? && start <= OFFSET_LIMIT && TableOk(old(Entries(table)), old(buf[..start]), start) ==>
      Encoded(buf[..r.next], Entries(table), name, start)
    ensures r.LabelTooLong? ==> exists k :: 0 <= k < |Split(name)| && |Split(name)[k]| > MAX_LABEL
    ensures r.TooLong? || r.WrotePast? ==> start + |name| + 2 > buf.Length
  {
    hide At, Has, Split, Run, Pending, NoZero, Encoded, TableOk, PointerHi, PointerLo, Dot, Underway, Ends, Grown, Entered, Shared, Left;
    ghost var s, es0 := buf[..start], Entries(table);
    ghost var n, cap := |es0|, Capacity(table);
    var j, rest := start, name;
    ghost var ls, k := Split(name), 0;
    Begun(buf[..], es0, cap, name, start);
    LeftAll(name, start);
    while true
      invariant start <= j <= buf.Length && Left(name, start, rest, j)
      invariant k < |ls| && Underway(buf[..], Entries(table), n, cap, ls, rest, start, k) && j == At(ls, start, k)
      invariant es0 <= Entries(table) && Ends(name, start, buf.Length, es0) == Ends(rest, j, buf.Length, es0)
      invariant Grown(name, start, buf.Length, es0, cap, es0) == Grown(rest, j, buf.Length, es0, cap, Entries(table))
      invariant forall i :: 0 <= i < buf.Length && (i < start || i >= j) ==> buf[i] == old(buf[i])
      decreases |rest|
    {
      var ref := None;
      if table != null {
        ref := table.GetPos(rest);
      }
      ghost var es := Entries(table);
      EndsUnfold(rest, j, buf.Length, es0);
      GrownUnfold(rest, j, buf.Length, es0, cap, es);
      Lookup(buf[..], es, es0, cap, ls, rest, start, k, ref);
      var d := Dot(rest);
      LeftNext(name, start, rest, j, d);
      if ref.Some? {
        r := PutPointer(buf, j, rest, ref.value, s, es, es0, cap, name, start, k);
        return;
      }
      if d > MAX_LABEL {
        HeadTooLong(buf[..], es, n, cap, ls, rest, start, k);
        return LabelTooLong;
      }
      if j + d + 1 > buf.Length { return TooLong; }
      PutNext(buf, j, rest, d, table, start, n, cap, ls, k);
      j, k := j + 1 + d, k + 1;
      if d == |rest| { break; }
      rest := rest[d + 1..];
    }
    r := Terminate(buf, j, rest, s, Entries(table), es0, cap, name, start);
  }

  ghost function Capacity(table: LabelTable?): nat {
    if table == null then 0 else MAX_LABELS
  }

  /** What the lookup in the table says of the entries there were before the name. */
  lemma Lookup(t: seq<Byte>, es: seq<Entry>, es0: seq<Entry>, cap: nat, ls: seq<Label>, rest: seq<Byte>, j: nat, k: nat, ref: Option<nat>)
    requires Underway(t, es, |es0|, cap, ls, rest, j, k) && es0 <= es
    requires ref.Some? ==> exists i :: 0 <= i < |es| && es[i].v == rest
    requires ref.None? ==> forall i :: 0 <= i < |es| ==> es[i].v != rest
    ensures ref.Some? <==> Shared(es0, rest)
  {
    hide Split, Run, Pending;
    if ref.Some? {
      var i :| 0 <= i < |es| && es[i].v == rest;
      OldEntry(es, |es0|, cap, ls, rest, j, k, i);
      assert es0[i] == es[i];
    } else {
      assert forall i :: 0 <= i < |es0| ==> es0[i] == es[i];
    }
  }

  /** APPEND16(ref | 0xc000) */
  method PutPointer(buf: array<Byte>, j: nat, ghost rest: seq<Byte>, ref: nat,
                    ghost s: seq<Byte>, ghost es: seq<Entry>, ghost es0: seq<Entry>, ghost cap: nat, ghost name: seq<Byte>, ghost start: nat, ghost k: nat)
    returns (r: Written)
    requires Underway(buf[..], es, |es0|, cap, Split(name), rest, start, k) && j == At(Split(name), start, k) && es0 <= es
    requires |s| == start <= j <= buf.Length && forall i :: 0 <= i < start ==> s[i] == buf[i]
    requires exists x :: 0 <= x < |es| && es[x].v == rest && es[x].pos == ref
    modifies buf
    ensures r == if j + 2 > buf.Length then TooLong else Done(j + 2)
    ensures forall i :: 0 <= i < buf.Length && (i < j || i >= j + 2) ==> buf[i] == old(buf[i])
    ensures r.Done? && start <= OFFSET_LIMIT && TableOk(es0, s, start) ==> Encoded(buf[..j + 2], es, name, start)
  {
    hide At, Has, Split, Run, Pending, Encoded, TableOk, PointerHi, PointerLo, Underway;
    if j + 2 > buf.Length { return TooLong; }
    ghost var before := buf[..];
    buf[j], buf[j + 1] := PointerHi(ref), PointerLo(ref);
    if start <= OFFSET_LIMIT && TableOk(es0, s, start) {
      ByPointer(s, before, buf[..j + 2], es, es0, cap, name, rest, start, k, ref);
    }
    return Done(j + 2);
  }

  /** The terminator, unless an empty last label already is one.  There is no check for room. */
  method Terminate(buf: array<Byte>, j: nat, ghost rest: seq<Byte>,
                   ghost s: seq<Byte>, ghost es: seq<Entry>, ghost es0: seq<Entry>, ghost cap: nat, ghost name: seq<Byte>, ghost start: nat)
    returns (r: Written)
    requires var ls := Split(name);
      && Run(buf[..], ls, start, |ls|) && Pending(es, |es0|, cap, ls, start, |ls|) && At(ls, start, |ls|) == j
      && ls[|ls| - 1] == rest && |rest| <= |name| && rest == name[|name| - |rest|..]
    requires NoZero(name) && es0 <= es
    requires |s| == start < j <= buf.Length && forall i :: 0 <= i < start ==> s[i] == buf[i]
    modifies buf
    ensures r == if rest == [] then Done(j) else if j == buf.Length then WrotePast else Done(j + 1)
    ensures forall i :: 0 <= i < buf.Length && (i != j || rest == []) ==> buf[i] == old(buf[i])
    ensures r.Done? && TableOk(es0, s, start) ==> Encoded(buf[..r.next], es, name, start)
  {
    hide At, Has, Split, Run, Pending, NoZero, Encoded, TableOk;
    ghost var before := buf[..];
    LastByte(before, name, rest, Split(name), start, j);
    var end := j;
    if j == 0 || buf[j - 1] != 0 {
      if j >= buf.Length { return WrotePast; }
      buf[j] := 0;
      end := j + 1;
    }
    if TableOk(es0, s, start) {
      ByZero(s, before, buf[..end], es, es0, cap, name, start);
    }
    r := Done(end);
  }

  lemma ByPointer(s: seq<Byte>, u: seq<Byte>, t: seq<Byte>, es: seq<Entry>, es0: seq<Entry>, cap: nat, name: seq<Byte>, rest: seq<Byte>, j: nat, k: nat, ref: nat)
    requires var ls := Split(name);
      && Underway(u, es, |es0|, cap, ls, rest, j, k) && |s| == j <= OFFSET_LIMIT && TableOk(es0, s, j) && es0 <= es
      && |t| == At(ls, j, k) + 2 <= |u| && j <= |t| && (forall i :: 0 <= i < At(ls, j, k) ==> t[i] == u[i])
      && (forall i :: 0 <= i < j ==> t[i] == s[i])
      && (exists x :: 0 <= x < |es| && es[x].v == rest && es[x].pos == ref)
      && t[|t| - 2] == PointerHi(ref) && t[|t| - 1] == PointerLo(ref)
    ensures Encoded(t, es, name, j)
  {
    hide At, Has, Split, Pending, Encoded, TableOk, NameAt, PointerHi, PointerLo;
    var ls := Split(name);
    var x :| 0 <= x < |es| && es[x].v == rest && es[x].pos == ref;
    RunPrefix(u, t, ls, j, k);
    assert es[..|es0|] == es0;
    ClosedByPointer(s, t, es, |es0|, cap, name, rest, j, k, x);
  }

  /** The byte before the end of the run is zero exactly if the last label is empty. */
  lemma LastByte(t: seq<Byte>, name: seq<Byte>, rest: seq<Byte>, ls: seq<Label>, start: nat, j: nat)
    requires ls != [] && Run(t, ls, start, |ls|) && At(ls, start, |ls|) == j && NoZero(name)
    requires ls[|ls| - 1] == rest && |rest| <= |name| && rest == name[|name| - |rest|..]
    ensures 0 < j <= |t| && (t[j - 1] == 0 <==> rest == [])
  {
    var m := |ls| - 1;
    AtNext(ls, start, m);
    assert Has(t, At(ls, start, m), ls[m]);
    if rest != [] {
      assert t[j - 1] == rest[|rest| - 1] == name[|name| - 1];
    }
  }

  lemma ByZero(s: seq<Byte>, u: seq<Byte>, t: seq<Byte>, es: seq<Entry>, es0: seq<Entry>, cap: nat, name: seq<Byte>, j: nat)
    requires var ls := Split(name);
      && Run(u, ls, j, |ls|) && Pending(es, |es0|, cap, ls, j, |ls|) && |s| == j && TableOk(es0, s, j) && es0 <= es
      && |t| == At(ls, j, |ls|) + (if ls[|ls| - 1] == [] then 0 else 1)
      && j < |t| && t[|t| - 1] == 0 && At(ls, j, |ls|) <= |u|
      && (forall i :: 0 <= i < At(ls, j, |ls|) ==> t[i] == u[i])
      && (forall i :: 0 <= i < j ==> t[i] == s[i])
    ensures Encoded(t, es, name, j)
  {
    hide At, Has, Split, Pending, Encoded, TableOk, NameAt, Run;
    var ls := Split(name);
    RunPrefix(u, t, ls, j, |ls|);
    assert es[..|es0|] == es0;
    ClosedByZero(s, t, es, |es0|, cap, name, j);
  }

  lemma Begun(s: seq<Byte>, es: seq<Entry>, cap: nat, name: seq<Byte>, j: nat)
    ensures Underway(s, es, |es|, cap, Split(name), name, j, 0) && At(Split(name), j, 0) == j
  {
    assert Split(name)[0..] == Split(name);
  }

  // ---- Whole messages -------------------------------------------------------

  /** A name and the bytes that follow it in the message. */
  datatype Item = Item(name: seq<Byte>, gap: seq<Byte>)

  /** Room for the names as labels, uncompressed. */
  ghost function Room(items: seq<Item>): nat {
    if items == [] then 0 else |items[0].name| + 2 + |items[0].gap| + Room(items[1..])
  }

  ghost predicate Wellformed(name: seq<Byte>) {
    NoZero(name) && |name| <= MAX_NAME && forall k :: 0 <= k < |Split(name)| ==> |Split(name)[k]| <= MAX_LABEL
  }

  ghost predicate ReadsAt(t: seq<Byte>, name: seq<Byte>, p: nat, e: nat) {
    && NameAt(t, p, p).Some? && NameAt(t, p, p).value.labels == Cut(Split(name))
    && (Plain(Split(name)) ==> NameAt(t, p, p).value.past == e)
  }

  lemma ReadsStable(s: seq<Byte>, t: seq<Byte>, name: seq<Byte>, p: nat, e: nat)
    requires ReadsAt(s, name, p, e) && Agree(s, t)
    ensures ReadsAt(t, name, p, e)
  {
    hide NameAt, Cut, Split, Plain;
    NameStable(s, t, p, p, p);
  }

  lemma TableStable(es: seq<Entry>, s: seq<Byte>, t: seq<Byte>)
    requires TableOk(es, s, |s|) && Agree(s, t)
    ensures TableOk(es, t, |t|)
  {
    hide NameAt, Cut, Split;
    forall i | 0 <= i < |es| ensures Denotes(es[i], t, |t|) {
      NameStable(s, t, es[i].pos, es[i].pos, es[i].pos);
    }
  }

  method PutGap(buf: array<Byte>, j: nat, gap: seq<Byte>)
    requires j + |gap| <= buf.Length
    modifies buf
    ensures forall i :: 0 <= i < buf.Length && (i < j || i >= j + |gap|) ==> buf[i] == old(buf[i])
    ensures forall x :: 0 <= x < |gap| ==> buf[j + x] == gap[x]
  {
    for x := 0 to |gap|
      invariant forall i :: 0 <= i < buf.Length && (i < j || i >= j + |gap|) ==> buf[i] == old(buf[i])
      invariant forall y :: 0 <= y < x ==> buf[j + y] == gap[y]
    {
      buf[j + x] := gap[x];
    }
  }

  /** The names lie one behind the other from `start` on, each with its gap behind it. */
  ghost predicate Laid(items: seq<Item>, offs: seq<nat>, ends: seq<nat>, start: nat, next: nat) {
    && |offs| == |ends| == |items|
    && if items == [] then next == start
       else offs[0] == start < ends[0] && Laid(items[1..], offs[1..], ends[1..], ends[0] + |items[0].gap|, next)
  }

  /** Every name so far reads back where it was written. */
  ghost predicate AllRead(t: seq<Byte>, items: seq<Item>, offs: seq<nat>, ends: seq<nat>) {
    && |offs| == |ends| <= |items|
    && forall i :: 0 <= i < |offs| ==> ReadsAt(t, items[i].name, offs[i], ends[i])
  }

  lemma AllStable(s: seq<Byte>, t: seq<Byte>, items: seq<Item>, offs: seq<nat>, ends: seq<nat>)
    requires AllRead(s, items, offs, ends) && Agree(s, t)
    ensures AllRead(t, items, offs, ends)
  {
    hide ReadsAt;
    forall i | 0 <= i < |offs| ensures ReadsAt(t, items[i].name, offs[i], ends[i]) {
      ReadsStable(s, t, items[i].name, offs[i], ends[i]);
    }
  }

  lemma AllMore(u: seq<Byte>, s: seq<Byte>, t: seq<Byte>, es: seq<Entry>, items: seq<Item>, offs: seq<nat>, ends: seq<nat>, p: nat)
    requires AllRead(u, items, offs, ends) && Agree(u, s) && Agree(s, t) && |offs| < |items|
    requires Encoded(s, es, items[|offs|].name, p)
    ensures AllRead(t, items, offs + [p], ends + [|s|]) && TableOk(es, t, |t|)
  {
    hide TableOk, Plain, NameAt, Cut, Split;
    AllStable(u, t, items, offs, ends);
    ReadsStable(s, t, items[|offs|].name, p, |s|);
    TableStable(es, s, t);
  }

  lemma NoneRead(t: seq<Byte>, items: seq<Item>)
    ensures AllRead(t, items, [], [])
  {
  }

  // ---- Where everything will lie ---------------------------------------------

  datatype Layout = Layout(offs: seq<nat>, ends: seq<nat>, next: nat)

  /** The offsets and ends of the names, if each can be written and each gap fits. */
  ghost function Plan(items: seq<Item>, next: nat, room: nat, es: seq<Entry>): Option<Layout> {
    if items == [] then Some(Layout([], [], next))
    else
      match Outcome(items[0].name, next, room, es)
      case Done(e) =>
        var end := e + |items[0].gap|;
        if end > room then None
        else Behind([next], [e], Plan(items[1..], end, room, After(items[0].name, next, room, es, MAX_LABELS)))
      case _ => None
  }

  ghost function Behind(offs: seq<nat>, ends: seq<nat>, rest: Option<Layout>): Option<Layout> {
    match rest
    case None => None
    case Some(l) => Some(Layout(offs + l.offs, ends + l.ends, l.next))
  }

  /** Every name starts where a pointer can reach. */
  predicate Low(offs: seq<nat>) {
    forall i :: 0 <= i < |offs| ==> offs[i] <= OFFSET_LIMIT
  }

  lemma PlanNext(items: seq<Item>, n: nat, next: nat, room: nat, es: seq<Entry>, offs: seq<nat>, ends: seq<nat>)
    requires n < |items|
    ensures var plan := Behind(offs, ends, Plan(items[n..], next, room, es));
      match Outcome(items[n].name, next, room, es)
      case Done(e) =>
        var end := e + |items[n].gap|;
        plan == if end > room then None
          else Behind(offs + [next], ends + [e], Plan(items[n + 1..], end, room, After(items[n].name, next, room, es, MAX_LABELS)))
      case _ => plan == None
  {
    hide Outcome, After;
    var e := Outcome(items[n].name, next, room, es);
    assert items[n..][0] == items[n] && items[n..][1..] == items[n + 1..];
    if e.Done? && e.next + |items[n].gap| <= room {
      var rest := Plan(items[n + 1..], e.next + |items[n].gap|, room, After(items[n].name, next, room, es, MAX_LABELS));
      if rest.Some? {
        assert offs + ([next] + rest.value.offs) == (offs + [next]) + rest.value.offs;
        assert ends + ([e.next] + rest.value.ends) == (ends + [e.next]) + rest.value.ends;
      }
    }
  }

  lemma PlanNone(items: seq<Item>, next: nat, room: nat, es: seq<Entry>, offs: seq<nat>, ends: seq<nat>)
    ensures Behind(offs, ends, Plan(items[|items|..], next, room, es)) == Some(Layout(offs, ends, next))
    ensures items[0..] == items && Behind([], [], Plan(items, next, room, es)) == Plan(items, next, room, es)
  {
    assert items[|items|..] == [] && offs + [] == offs && ends + [] == ends;
    var plan := Plan(items, next, room, es);
    if plan.Some? {
      assert [] + plan.value.offs == plan.value.offs && [] + plan.value.ends == plan.value.ends;
    }
  }

  /** A plan lays the names out in order, each with its gap behind it. */
  lemma {:induction false} PlanLaid(items: seq<Item>, next: nat, room: nat, es: seq<Entry>)
    requires next <= room
    ensures var plan := Plan(items, next, room, es);
      plan.Some? ==> var l := plan.value;
        |l.offs| == |items| && Laid(items, l.offs, l.ends, next, l.next) && next <= l.next <= room
  {
    hide Ends, Grown;
    if items != [] && Plan(items, next, room, es).Some? {
      EndsPastStart(items[0].name, next, room, es);
      var e := Outcome(items[0].name, next, room, es).next;
      var more := After(items[0].name, next, room, es, MAX_LABELS);
      PlanLaid(items[1..], e + |items[0].gap|, room, more);
      var rest := Plan(items[1..], e + |items[0].gap|, room, more).value;
      assert ([next] + rest.offs)[1..] == rest.offs && ([e] + rest.ends)[1..] == rest.ends;
    }
  }

  lemma {:induction false} EndsPastStart(rest: seq<Byte>, j: nat, room: nat, es: seq<Entry>)
    ensures Ends(rest, j, room, es).Done? ==> j < Ends(rest, j, room, es).next
    decreases |rest|
  {
    hide Dot, Ends, Shared;
    EndsUnfold(rest, j, room, es);
    var d := Dot(rest);
    if d < |rest| {
      EndsPastStart(rest[d + 1..], j + 1 + d, room, es);
    }
  }

  lemma {:induction false} EndsDone(rest: seq<Byte>, j: nat, room: nat, es: seq<Entry>)
    requires Short(Split(rest)) && j + |rest| + 2 <= room
    ensures Ends(rest, j, room, es).Done? && j < Ends(rest, j, room, es).next <= j + |rest| + 2
    decreases |rest|
  {
    hide Dot, Split, Ends, Short, Unlisted, Shared;
    EndsUnfold(rest, j, room, es);
    HeadAndTail(es, rest);
    var d := Dot(rest);
    if d < |rest| && d <= MAX_LABEL {
      EndsDone(rest[d + 1..], j + 1 + d, room, es);
    }
  }

  /** With room for all names uncompressed, all can be written, none behind where it would lie uncompressed. */
  lemma {:induction false} RoomPlans(items: seq<Item>, next: nat, room: nat, es: seq<Entry>)
    requires next + Room(items) <= room && forall i :: 0 <= i < |items| ==> Wellformed(items[i].name)
    ensures var plan := Plan(items, next, room, es);
      && plan.Some? && plan.value.next <= next + Room(items)
      && forall i :: 0 <= i < |plan.value.offs| ==> plan.value.offs[i] <= next + Room(items)
  {
    hide Split, NoZero, Ends, Grown;
    if items != [] {
      assert Wellformed(items[0].name);
      EndsDone(items[0].name, next, room, es);
      var e := Outcome(items[0].name, next, room, es).next;
      RoomPlans(items[1..], e + |items[0].gap|, room, After(items[0].name, next, room, es, MAX_LABELS));
    }
  }

  /** One name and the bytes after it. */
  method PutItem(buf: array<Byte>, next: nat, items: seq<Item>, offs: seq<nat>, ends: seq<nat>, table: LabelTable)
    returns (ok: bool, e: nat)
    requires |offs| < |items| && NoZero(items[|offs|].name) && next <= buf.Length
    requires Low(offs) ==> AllRead(buf[..next], items, offs, ends) && TableOk(table.labels, buf[..next], next)
    modifies buf, table
    ensures var out := Outcome(items[|offs|].name, next, buf.Length, old(table.labels));
      && (ok <==> out.Done? && out.next + |items[|offs|].gap| <= buf.Length) && (ok ==> out == Done(e))
    ensures table.labels == After(items[|offs|].name, next, buf.Length, old(table.labels), MAX_LABELS)
    ensures ok ==> next < e && e + |items[|offs|].gap| <= buf.Length
    ensures ok && Low(offs + [next]) ==> var end := e + |items[|offs|].gap|;
      AllRead(buf[..end], items, offs + [next], ends + [e]) && TableOk(table.labels, buf[..end], end)
    ensures forall i :: 0 <= i < next ==> buf[i] == old(buf[i])
  {
    hide TableOk, NameAt, Cut, Split, ReadsAt, Encoded, NoZero, AllRead, Ends, Grown, Unlisted;
    var item := items[|offs|];
    ghost var u := buf[..next];
    LowLast(offs, next);
    var r := ToLabels(buf, next, item.name, table);
    ok, e := r.Done? && r.next + |item.gap| <= buf.Length, 0;
    if ok {
      e := r.next;
      ghost var s := buf[..e];
      PutGap(buf, e, item.gap);
      if Low(offs + [next]) {
        AllMore(u, s, buf[..e + |item.gap|], table.labels, items, offs, ends, next);
      }
    }
  }

  lemma LowLast(offs: seq<nat>, next: nat)
    ensures Low(offs + [next]) <==> Low(offs) && next <= OFFSET_LIMIT
  {
    if Low(offs + [next]) {
      assert (offs + [next])[|offs|] == next;
      assert forall i :: 0 <= i < |offs| ==> offs[i] == (offs + [next])[i];
    }
  }

  /** Writes names with one table, other bytes between them, until one does not fit or cannot be written. */
  method WriteNames(buf: array<Byte>, start: nat, items: seq<Item>, table: LabelTable)
    returns (ok: bool, offs: seq<nat>, ends: seq<nat>, next: nat)
    requires start <= buf.Length && forall i :: 0 <= i < |items| ==> NoZero(items[i].name)
    requires TableOk(table.labels, buf[..start], start)
    modifies buf, table
    ensures ok <==> Plan(items, start, buf.Length, old(table.labels)).Some?
    ensures ok ==> Plan(items, start, buf.Length, old(table.labels)) == Some(Layout(offs, ends, next))
    ensures ok ==> |offs| == |items| && start <= next <= buf.Length && Laid(items, offs, ends, start, next)
    ensures ok && Low(offs) ==> AllRead(buf[..next], items, offs, ends) && TableOk(table.labels, buf[..next], next)
    ensures forall i :: 0 <= i < start ==> buf[i] == old(buf[i])
  {
    hide TableOk, AllRead, Laid, NoZero, Low, Plan, Outcome, After, Behind;
    offs, ends, next := [], [], start;
    ghost var es0 := table.labels;
    NoneRead(buf[..start], items);
    PlanNone(items, start, buf.Length, es0, [], []);
    while |offs| < |items|
      invariant |offs| <= |items| && start <= next <= buf.Length
      invariant Behind(offs, ends, Plan(items[|offs|..], next, buf.Length, table.labels)) == Plan(items, start, buf.Length, es0)
      invariant Low(offs) ==> AllRead(buf[..next], items, offs, ends) && TableOk(table.labels, buf[..next], next)
      invariant forall i :: 0 <= i < start ==> buf[i] == old(buf[i])
      decreases |items| - |offs|
    {
      PlanNext(items, |offs|, next, buf.Length, table.labels, offs, ends);
      var e;
      ok, e := PutItem(buf, next, items, offs, ends, table);
      if !ok { return; }
      offs, ends, next := offs + [next], ends + [e], e + |items[|offs|].gap|;
    }
    PlanNone(items, next, buf.Length, table.labels, offs, ends);
    PlanLaid(items, start, buf.Length, es0);
    ok := true;
  }

  /** A name up to its first empty label, and the index behind it if that is its whole; the name itself unless it has an empty label. */
  ghost predicate ReadBackIs(name: seq<Byte>, e: nat, text: seq<Byte>, next: nat) {
    && text == Join(Cut(Split(name)))
    && (Plain(Split(name)) ==> next == e)
    && (text == name <==> name == [] || NonEmpty(Split(name)))
  }

  /** Parsing a name where it was written. */
  method ReadBack(packet: array<Byte>, p: nat, outLen: nat, ghost name: seq<Byte>, ghost e: nat) returns (r: ParseResult)
    requires ReadsAt(packet[..], name, p, e) && |name| < outLen
    ensures r.Text? && ReadBackIs(name, e, r.text, r.next)
  {
    r := NameParse(packet, p, outLen);
    NameParses(packet[..], p, p, packet.Length);
    SameNameIff(name);
    JoinSplit(name);
    CutWhole(Split(name));
  }

  /**
   Writing any names, then parsing each at its offset.  It works exactly when all can be written and each starts
   where a pointer can reach; what comes back is each name up to its first empty label.
   */
  method RoundTrip(buf: array<Byte>, start: nat, items: seq<Item>, outLen: nat)
    returns (ok: bool, texts: seq<seq<Byte>>, nexts: seq<nat>, ghost lay: Layout)
    requires start <= buf.Length && forall i :: 0 <= i < |items| ==> NoZero(items[i].name) && |items[i].name| < outLen
    modifies buf
    ensures var plan := Plan(items, start, buf.Length, []);
      && (ok <==> plan.Some? && Low(plan.value.offs)) && (ok ==> lay == plan.value)
    ensures ok ==> |texts| == |nexts| == |lay.offs| == |items| && Laid(items, lay.offs, lay.ends, start, lay.next)
    ensures ok ==> forall i :: 0 <= i < |items| ==> ReadBackIs(items[i].name, lay.ends[i], texts[i], nexts[i])
  {
    hide Split, NameAt, Cut, Plain, NonEmpty, Join, ReadsAt, Laid, Low, Plan, ReadBackIs, NoZero;
    var table := new LabelTable();
    var offs, ends, end;
    ok, offs, ends, end := WriteNames(buf, start, items, table);
    texts, nexts, lay := [], [], Layout(offs, ends, end);
    if !ok { return; }
    ok := Low(offs);
    if !ok { return; }
    ghost var s := buf[..end];
    assert Agree(s, buf[..]);
    AllStable(s, buf[..], items, offs, ends);
    for i := 0 to |items|
      invariant |texts| == |nexts| == i
      invariant forall k :: 0 <= k < i ==> ReadBackIs(items[k].name, ends[k], texts[k], nexts[k])
      invariant AllRead(buf[..], items, offs, ends)
    {
      var r := ReadBack(buf, offs[i], outLen, items[i].name, ends[i]);
      texts, nexts := texts + [r.text], nexts + [r.next];
    }
  }

  /** A buffer of two bytes takes the label of a one-letter name, and the zero goes behind it. */
  method WritesBehindBuffer() returns (r: Written)
    ensures r == WrotePast
  {
    var buf, name := new Byte[2], [65];
    SplitUnfold(name);
    OneSuffix(name);
    r := ToLabels(buf, 0, name, null);
  }

  /** A name with two dots in a row is written whole and reads back as what is before them. */
  method LosesBehindEmptyLabel() returns (name: seq<Byte>, text: seq<Byte>)
    ensures name == [65, DOT, DOT, 66] && text == [65]
  {
    hide Plan, Join, Cut, NonEmpty, Plain;
    name := [65, DOT, DOT, 66];
    TwoDots(name);
    var buf, items := new Byte[6], [Item(name, [])];
    assert items[1..] == [];
    RoomPlans(items, 0, 6, []);
    var ok, texts, nexts, lay := RoundTrip(buf, 0, items, 256);
    assert ReadBackIs(items[0].name, lay.ends[0], texts[0], nexts[0]);
    text := texts[0];
  }

  lemma TwoDots(name: seq<Byte>)
    requires name == [65, DOT, DOT, 66]
    ensures Wellformed(name) && Split(name) == [[65], [], [66]] && Join(Cut(Split(name))) == [65]
  {
    hide Split, Cut, Join;
    var tail, last := name[2..], name[3..];
    assert name[1..] == [DOT, DOT, 66] && tail == [DOT, 66] && last == [66];
    SplitUnfold(name);
    SplitUnfold(tail);
    SplitUnfold(last);
    assert tail[1..] == last;
    DotAt(name, 1);
    DotAt(tail, 0);
    DotAt(last, 1);
    assert Split(last) == [[66]] && name[..1] == [65] && tail[..0] == [];
    assert Split(tail) == [[], [66]];
    assert Split(name) == [[65]] + Split(tail) == [[65], [], [66]];
    var ls := Split(name);
    assert ls[1..] == [[], [66]];
    CutHead(ls, 0);
    CutHead(ls, 1);
    assert ls[0..] == ls;
    assert [ls[0]] + [] == [[65]];
    JoinOne([65]);
  }

  lemma JoinOne(l: Label)
    ensures Join([l]) == l
  {
  }

  lemma {:induction false} DotAt(name: seq<Byte>, d: nat)
    requires d <= |name| && (d < |name| ==> name[d] == DOT) && forall i :: 0 <= i < d ==> name[i] != DOT
    ensures Dot(name) == d
  {
  }

  lemma OneSuffix(name: seq<Byte>)
    requires Dot(name) == |name|
    ensures Suffixes(name) == [name]
  {
  }
}
