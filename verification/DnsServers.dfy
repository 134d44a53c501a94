/** The ring of nameservers in evdns.c, as the order of its members and the index server_head points at. */
module DnsServers {

  type States = map<nat, bool>

  ghost predicate NoDup(s: seq<nat>) {
    forall i, j :: 0 <= i < j < |s| ==> s[i] != s[j]
  }

  predicate IsUp(up: States, ns: nat) {
    ns in up && up[ns]
  }

  /** How many servers of the sequence are up. */
  ghost function Count(s: seq<nat>, up: States): nat {
    if s == [] then 0 else Count(s[..|s| - 1], up) + if IsUp(up, s[|s| - 1]) then 1 else 0
  }

  /** global_good_nameservers counts the members with state 1. */
  ghost predicate RingOk(ring: seq<nat>, head: nat, up: States, good: int) {
    && NoDup(ring) && (ring != [] ==> head < |ring|)
    && (forall i :: 0 <= i < |ring| ==> ring[i] in up)
    && good == Count(ring, up)
  }

  lemma {:induction false} CountConcat(a: seq<nat>, b: seq<nat>, up: States)
    ensures Count(a + b, up) == Count(a, up) + Count(b, up)
    decreases |b|
  {
    if b == [] {
      assert a + b == a;
    } else {
      CountConcat(a, b[..|b| - 1], up);
      assert (a + b)[..|a + b| - 1] == a + b[..|b| - 1];
    }
  }

  lemma {:induction false} CountSame(s: seq<nat>, up: States, up1: States)
    requires forall i :: 0 <= i < |s| ==> (IsUp(up, s[i]) <==> IsUp(up1, s[i]))
    ensures Count(s, up) == Count(s, up1)
  {
    if s != [] {
      CountSame(s[..|s| - 1], up, up1);
    }
  }

  lemma CountAt(s: seq<nat>, i: nat, up: States)
    requires i < |s|
    ensures Count(s, up) == Count(s[..i], up) + (if IsUp(up, s[i]) then 1 else 0) + Count(s[i + 1..], up)
  {
    hide Count;
    assert s == s[..i] + [s[i]] + s[i + 1..];
    CountConcat(s[..i] + [s[i]], s[i + 1..], up);
    CountConcat(s[..i], [s[i]], up);
    CountOne(s[i], up);
  }

  /** One server changes its state. */
  lemma CountFlip(s: seq<nat>, up: States, ns: nat, state: bool)
    requires NoDup(s) && ns in s && IsUp(up, ns) != state
    ensures Count(s, up[ns := state]) == Count(s, up) + if state then 1 else -1
  {
    hide Count;
    var i :| 0 <= i < |s| && s[i] == ns;
    var a, b, up1 := s[..i], s[i + 1..], up[ns := state];
    CountAt(s, i, up);
    CountAt(s, i, up1);
    assert forall k :: 0 <= k < |b| ==> b[k] == s[i + 1 + k];
    CountSame(a, up, up1);
    CountSame(b, up, up1);
  }

  lemma CountOne(ns: nat, up: States)
    ensures Count([ns], up) == if IsUp(up, ns) then 1 else 0
  {
    assert [ns][..0] == [];
  }

  lemma NoCount(up: States)
    ensures Count([], up) == 0 && NoDup([])
  {
  }

  /** A new server goes in after the head. */
  function Inserted(ring: seq<nat>, head: nat, ns: nat): seq<nat>
    requires ring != [] ==> head < |ring|
  {
    if ring == [] then [ns] else ring[..head + 1] + [ns] + ring[head + 1..]
  }

  lemma InsertedOk(ring: seq<nat>, head: nat, up: States, good: int, ns: nat)
    requires RingOk(ring, head, up, good) && ns !in ring
    ensures RingOk(Inserted(ring, head, ns), if ring == [] then 0 else head, up[ns := true], good + 1)
    ensures forall x :: x in Inserted(ring, head, ns) <==> x in ring || x == ns
  {
    hide Count;
    var up1 := up[ns := true];
    CountSame(ring, up, up1);
    CountOne(ns, up1);
    NoCount(up1);
    if ring != [] {
      var a, b := ring[..head + 1], ring[head + 1..];
      assert ring == a + b;
      CountConcat(a, b, up1);
      CountConcat(a, [ns], up1);
      CountConcat(a + [ns], b, up1);
    }
  }

  lemma {:induction false} CountZero(s: seq<nat>, up: States)
    ensures Count(s, up) == 0 <==> forall i :: 0 <= i < |s| ==> !IsUp(up, s[i])
  {
    if s != [] {
      CountZero(s[..|s| - 1], up);
    }
  }

  // ---- Going round ----------------------------------------------------------

  /** The index after `i` in the ring. */
  function Next(ring: seq<nat>, i: nat): nat {
    if i + 1 == |ring| then 0 else i + 1
  }

  /** The server at a distance from the start of the ring, up to twice round. */
  function Around(ring: seq<nat>, v: nat): nat
    requires v < 2 * |ring|
  {
    if v < |ring| then ring[v] else ring[v - |ring|]
  }

  ghost function UpIn(ring: seq<nat>, up: States, a: nat, b: nat): nat
    requires a <= b <= 2 * |ring|
    decreases b
  {
    if a == b then 0 else UpIn(ring, up, a, b - 1) + if IsUp(up, Around(ring, b - 1)) then 1 else 0
  }

  lemma {:induction false} UpInSplit(ring: seq<nat>, up: States, a: nat, b: nat, c: nat)
    requires a <= b <= c <= 2 * |ring|
    ensures UpIn(ring, up, a, c) == UpIn(ring, up, a, b) + UpIn(ring, up, b, c)
    decreases c
  {
    if b < c {
      UpInSplit(ring, up, a, b, c - 1);
    }
  }

  lemma {:induction false} UpInShift(ring: seq<nat>, up: States, a: nat, b: nat)
    requires a <= b <= |ring|
    ensures UpIn(ring, up, a + |ring|, b + |ring|) == UpIn(ring, up, a, b)
    decreases b
  {
    if a < b {
      UpInShift(ring, up, a, b - 1);
    }
  }

  lemma {:induction false} UpInCount(ring: seq<nat>, up: States, k: nat)
    requires k <= |ring|
    ensures UpIn(ring, up, 0, k) == Count(ring[..k], up)
  {
    if k > 0 {
      UpInCount(ring, up, k - 1);
      CountConcat(ring[..k - 1], [ring[k - 1]], up);
      CountOne(ring[k - 1], up);
      assert ring[..k] == ring[..k - 1] + [ring[k - 1]];
    }
  }

  /** Every full turn meets each server that is up once. */
  lemma FullTurn(ring: seq<nat>, up: States, h: nat)
    requires h < |ring|
    ensures UpIn(ring, up, h, h + |ring|) == Count(ring, up)
  {
    var n := |ring|;
    UpInSplit(ring, up, h, n, h + n);
    UpInShift(ring, up, 0, h);
    UpInSplit(ring, up, 0, h, n);
    UpInCount(ring, up, n);
    assert ring[..n] == ring;
  }

  lemma {:induction false} NoneUp(ring: seq<nat>, up: States, a: nat, b: nat)
    requires a <= b <= 2 * |ring|
    ensures UpIn(ring, up, a, b) == 0 <==> forall v :: a <= v < b ==> !IsUp(up, Around(ring, v))
    decreases b
  {
    if a < b {
      NoneUp(ring, up, a, b - 1);
    }
  }

  lemma AroundOnce(ring: seq<nat>, h: nat, u: nat, w: nat)
    requires NoDup(ring) && h < |ring| && h <= u < w < h + |ring|
    ensures Around(ring, u) != Around(ring, w)
  {
  }

  /** The picks so far, at the positions `pos`, are the servers that are up from `h` to `v`. */
  ghost predicate Rounds(ring: seq<nat>, up: States, h: nat, v: nat, pos: seq<nat>, picked: seq<nat>) {
    && h <= v <= h + |ring| && h < |ring|
    && |picked| == |pos| == UpIn(ring, up, h, v)
    && (forall i :: 0 <= i < |pos| ==> h <= pos[i] < v && picked[i] == Around(ring, pos[i]) && IsUp(up, picked[i]))
    && (forall w :: h <= w < v && IsUp(up, Around(ring, w)) ==> w in pos)
    && (forall i, j :: 0 <= i < j < |pos| ==> pos[i] < pos[j])
  }

  /** The next pick is the first server up from `v` on, and the turn is not over while some are missing. */
  lemma RoundStep(ring: seq<nat>, up: States, h: nat, v: nat, w: nat, pos: seq<nat>, picked: seq<nat>)
    requires Rounds(ring, up, h, v, pos, picked) && |picked| < Count(ring, up)
    requires v <= w < 2 * |ring| && IsUp(up, Around(ring, w)) && forall u :: v <= u < w ==> !IsUp(up, Around(ring, u))
    ensures w < h + |ring| && Rounds(ring, up, h, w + 1, pos + [w], picked + [Around(ring, w)])
  {
    var end := h + |ring|;
    FullTurn(ring, up, h);
    UpInSplit(ring, up, h, v, end);
    NoneUp(ring, up, v, end);
    UpInSplit(ring, up, h, v, w);
    NoneUp(ring, up, v, w);
    assert UpIn(ring, up, h, w + 1) == UpIn(ring, up, h, w) + 1;
    forall u | h <= u < w + 1 && IsUp(up, Around(ring, u)) ensures u in pos + [w] {
      assert u < v ==> u in pos;
    }
  }

  lemma RoundEnd(ring: seq<nat>, up: States, h: nat, v: nat, pos: seq<nat>, picked: seq<nat>)
    requires NoDup(ring) && Rounds(ring, up, h, v, pos, picked) && |picked| == Count(ring, up)
    ensures NoDup(picked) && forall ns :: ns in picked <==> ns in ring && IsUp(up, ns)
  {
    var end := h + |ring|;
    forall i, j | 0 <= i < j < |picked| ensures picked[i] != picked[j] {
      AroundOnce(ring, h, pos[i], pos[j]);
    }
    FullTurn(ring, up, h);
    UpInSplit(ring, up, h, v, end);
    NoneUp(ring, up, v, end);
    forall ns | ns in ring && IsUp(up, ns) ensures ns in picked {
      var i :| 0 <= i < |ring| && ring[i] == ns;
      var w := if i < h then i + |ring| else i;
      assert Around(ring, w) == ns;
      assert w in pos;
    }
  }

  lemma NoRounds(ring: seq<nat>, up: States, h: nat)
    requires h < |ring|
    ensures Rounds(ring, up, h, h, [], [])
  {
  }

  /** `at` is the first server up from index `hd` on. */
  ghost predicate FirstUp(ring: seq<nat>, up: States, hd: nat, at: nat) {
    && hd <= at < hd + |ring| && hd < |ring| && IsUp(up, Around(ring, at))
    && forall v :: hd <= v < at ==> !IsUp(up, Around(ring, v))
  }

  /** Where the pick lies in the turn that began at `h`. */
  lemma RoundPick(ring: seq<nat>, up: States, h: nat, v: nat, pos: seq<nat>, picked: seq<nat>, hd: nat, at: nat) returns (w: nat)
    requires Rounds(ring, up, h, v, pos, picked) && |picked| < Count(ring, up)
    requires v < h + |ring| ==> hd == if v < |ring| then v else v - |ring|
    requires FirstUp(ring, up, hd, at)
    ensures v <= w < h + |ring| && Rounds(ring, up, h, w + 1, pos + [w], picked + [Around(ring, at)])
    ensures (if at + 1 < |ring| then at + 1 else at + 1 - |ring|) == (if w + 1 < |ring| then w + 1 else w + 1 - |ring|)
  {
    hide Rounds;
    var u := RoundOpen(ring, up, h, v, pos, picked);
    w := if v < |ring| then at else at + |ring|;
    if v >= |ring| {
      assert Around(ring, u - |ring|) == Around(ring, u);
      forall x: nat | v <= x < w && x < 2 * |ring| ensures !IsUp(up, Around(ring, x)) {
        assert Around(ring, x) == Around(ring, x - |ring|);
      }
    }
    RoundStep(ring, up, h, v, w, pos, picked);
  }

  lemma RoundOpen(ring: seq<nat>, up: States, h: nat, v: nat, pos: seq<nat>, picked: seq<nat>) returns (u: nat)
    requires Rounds(ring, up, h, v, pos, picked) && |picked| < Count(ring, up)
    ensures h < |ring| && v <= u < h + |ring| && IsUp(up, Around(ring, u))
  {
    FullTurn(ring, up, h);
    UpInSplit(ring, up, h, v, h + |ring|);
    NoneUp(ring, up, v, h + |ring|);
    u :| v <= u < h + |ring| && IsUp(up, Around(ring, u));
  }
}
