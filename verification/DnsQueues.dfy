/** The request lists of evdns.c: buckets of inflight requests, and the waiting list, head first. */
module DnsQueues {
  import opened Octets
  import opened DnsServers

  const NO_ID := 0xffff

  datatype Request = Request(ns: Option<nat>, transId: nat)

  type Requests = map<nat, Request>

  type Buckets = seq<seq<nat>>

  /** REQ_HEAD: trans_id % n_req_heads */
  function Bucket(transId: nat, n: nat): (b: nat)
    requires n > 0
    ensures b < n
  {
    transId % n
  }

  ghost predicate Inflight(reqs: Requests, id: nat) {
    id in reqs && reqs[id].ns.Some?
  }

  /** The buckets hold exactly the inflight requests, each once, where its id says. */
  ghost predicate Filed(reqs: Requests, heads: Buckets) {
    && |heads| > 0
    && (forall b :: 0 <= b < |heads| ==> NoDup(heads[b]))
    && (forall b, id :: 0 <= b < |heads| && id in heads[b] ==> Inflight(reqs, id) && Bucket(reqs[id].transId, |heads|) == b)
    && (forall id :: Inflight(reqs, id) ==> id in heads[Bucket(reqs[id].transId, |heads|)])
  }

  /** The waiting list holds exactly the requests without a nameserver, each once. */
  ghost predicate Parked(reqs: Requests, waiting: seq<nat>) {
    && NoDup(waiting)
    && (forall id :: id in waiting <==> id in reqs && reqs[id].ns.None?)
  }

  ghost predicate DistinctIds(reqs: Requests) {
    && (forall id :: Inflight(reqs, id) ==> reqs[id].transId < NO_ID)
    && (forall a, b :: Inflight(reqs, a) && Inflight(reqs, b) && a != b ==> reqs[a].transId != reqs[b].transId)
  }

  ghost predicate QueuesOk(reqs: Requests, heads: Buckets, waiting: seq<nat>) {
    Filed(reqs, heads) && Parked(reqs, waiting) && DistinctIds(reqs)
  }

  ghost predicate FreshId(reqs: Requests, t: nat) {
    t < NO_ID && forall id :: Inflight(reqs, id) ==> reqs[id].transId != t
  }

  ghost function Total(heads: Buckets): nat {
    if heads == [] then 0 else Total(heads[..|heads| - 1]) + |heads[|heads| - 1]|
  }

  lemma {:induction false} TotalUpdate(heads: Buckets, b: nat, l: seq<nat>)
    requires b < |heads|
    ensures Total(heads[b := l]) == Total(heads) - |heads[b]| + |l|
  {
    var n := |heads| - 1;
    if b < n {
      TotalUpdate(heads[..n], b, l);
      assert heads[b := l][..n] == heads[..n][b := l];
    } else {
      assert heads[b := l][..n] == heads[..n];
    }
  }

  /** A list after evdns_request_remove. */
  function Without(s: seq<nat>, id: nat): (r: seq<nat>)
    ensures id !in s ==> r == s
  {
    if s == [] then [] else if s[0] == id then s[1..] else [s[0]] + Without(s[1..], id)
  }

  lemma {:induction false} WithoutLemma(s: seq<nat>, id: nat)
    requires NoDup(s)
    ensures NoDup(Without(s, id))
    ensures forall x :: x in Without(s, id) <==> x in s && x != id
    ensures |Without(s, id)| == |s| - if id in s then 1 else 0
  {
    hide NoDup;
    if s != [] {
      NoDupTail(s);
      assert s == [s[0]] + s[1..];
      WithoutLemma(s[1..], id);
      if s[0] != id {
        NoDupCons(s[0], Without(s[1..], id));
      }
    }
  }

  lemma NoDupTail(l: seq<nat>)
    requires NoDup(l) && l != []
    ensures NoDup(l[1..]) && l[0] !in l[1..]
  {
  }

  lemma NoDupCons(x: nat, l: seq<nat>)
    requires NoDup(l) && x !in l
    ensures NoDup([x] + l)
  {
  }

  /** The same requests are inflight, under the same ids. */
  ghost predicate SameInflight(r0: Requests, r1: Requests) {
    forall x :: (Inflight(r0, x) <==> Inflight(r1, x)) && (Inflight(r0, x) ==> r0[x].transId == r1[x].transId)
  }

  lemma FiledSame(r0: Requests, r1: Requests, heads: Buckets)
    requires Filed(r0, heads) && DistinctIds(r0) && SameInflight(r0, r1)
    ensures Filed(r1, heads) && DistinctIds(r1)
  {
    hide Bucket, Inflight;
  }

  lemma FiledMore(reqs: Requests, heads: Buckets, id: nat, ns: nat, t: nat)
    requires Filed(reqs, heads) && !Inflight(reqs, id)
    ensures var b := Bucket(t, |heads|); Filed(reqs[id := Request(Some(ns), t)], heads[b := heads[b] + [id]])
  {
    var b := Bucket(t, |heads|);
    var reqs1, heads1 := reqs[id := Request(Some(ns), t)], heads[b := heads[b] + [id]];
    assert forall x: nat :: x != id ==> (Inflight(reqs1, x) <==> Inflight(reqs, x)) && (Inflight(reqs, x) ==> reqs1[x] == reqs[x]);
    assert Inflight(reqs1, id) && reqs1[id].transId == t;
    hide Bucket, Inflight;
    assert 0 <= b < |heads|;
    assert id in heads[b] ==> Inflight(reqs, id);
    assert forall x :: x in heads[b] + [id] <==> x in heads[b] || x == id;
    assert NoDup(heads[b] + [id]);
  }

  lemma FiledLess(reqs: Requests, heads: Buckets, id: nat)
    requires Filed(reqs, heads) && Inflight(reqs, id)
    ensures var b := Bucket(reqs[id].transId, |heads|); Filed(reqs - {id}, heads[b := Without(heads[b], id)])
  {
    var b := Bucket(reqs[id].transId, |heads|);
    var reqs1, heads1 := reqs - {id}, heads[b := Without(heads[b], id)];
    assert forall x: nat :: x != id ==> (Inflight(reqs1, x) <==> Inflight(reqs, x)) && (Inflight(reqs, x) ==> reqs1[x] == reqs[x]);
    assert !Inflight(reqs1, id);
    hide Bucket, Inflight, Without;
    assert 0 <= b < |heads|;
    WithoutLemma(heads[b], id);
    forall c, x | 0 <= c < |heads1| && x in heads1[c] ensures Inflight(reqs1, x) && Bucket(reqs1[x].transId, |heads1|) == c {
      assert x in heads[c];
      assert x != id;
    }
  }

  /** Insertion at the tail of the bucket of a fresh id. */
  lemma Insert(reqs: Requests, heads: Buckets, waiting: seq<nat>, id: nat, ns: nat, t: nat)
    requires QueuesOk(reqs, heads, waiting) && id !in reqs && FreshId(reqs, t)
    ensures var b := Bucket(t, |heads|);
      && QueuesOk(reqs[id := Request(Some(ns), t)], heads[b := heads[b] + [id]], waiting)
      && Total(heads[b := heads[b] + [id]]) == Total(heads) + 1
  {
    hide Bucket, Total, Filed;
    FiledMore(reqs, heads, id, ns, t);
    assert |heads| > 0;
    var b := Bucket(t, |heads|);
    TotalUpdate(heads, b, heads[b] + [id]);
  }

  lemma Park(reqs: Requests, heads: Buckets, waiting: seq<nat>, id: nat, t: nat)
    requires QueuesOk(reqs, heads, waiting) && id !in reqs
    ensures QueuesOk(reqs[id := Request(None, t)], heads, waiting + [id])
    ensures QueuesOk(reqs[id := Request(None, t)], heads, [id] + waiting)
  {
    hide Filed, DistinctIds;
    FiledSame(reqs, reqs[id := Request(None, t)], heads);
    assert id !in waiting;
    assert forall x :: x in waiting + [id] <==> x in waiting || x == id;
    assert forall x :: x in [id] + waiting <==> x in waiting || x == id;
  }

  lemma RemoveInflight(reqs: Requests, heads: Buckets, waiting: seq<nat>, id: nat)
    requires QueuesOk(reqs, heads, waiting) && Inflight(reqs, id)
    ensures var b := Bucket(reqs[id].transId, |heads|);
      && QueuesOk(reqs - {id}, heads[b := Without(heads[b], id)], waiting)
      && Total(heads[b := Without(heads[b], id)]) == Total(heads) - 1
  {
    hide Bucket, Total, Without;
    var b := Bucket(reqs[id].transId, |heads|);
    assert id in heads[b];
    WithoutLemma(heads[b], id);
    TotalUpdate(heads, b, Without(heads[b], id));
    FiledLess(reqs, heads, id);
    hide Filed;
  }

  lemma RemoveWaiting(reqs: Requests, heads: Buckets, waiting: seq<nat>, id: nat)
    requires QueuesOk(reqs, heads, waiting) && id in waiting
    ensures QueuesOk(reqs - {id}, heads, Without(waiting, id)) && |Without(waiting, id)| == |waiting| - 1
  {
    hide Filed, DistinctIds, Without;
    WithoutLemma(waiting, id);
    FiledSame(reqs, reqs - {id}, heads);
  }

  /** Another nameserver for an inflight request. */
  lemma Reassign(reqs: Requests, heads: Buckets, waiting: seq<nat>, id: nat, ns: nat)
    requires QueuesOk(reqs, heads, waiting) && Inflight(reqs, id)
    ensures QueuesOk(reqs[id := Request(Some(ns), reqs[id].transId)], heads, waiting)
  {
    hide Filed, DistinctIds;
    FiledSame(reqs, reqs[id := Request(Some(ns), reqs[id].transId)], heads);
  }

  // ---- There is a free id while fewer than 65535 requests are inflight --------

  ghost function IdsIn(reqs: Requests, l: seq<nat>): set<nat> {
    if l == [] then {}
    else IdsIn(reqs, l[..|l| - 1]) + if l[|l| - 1] in reqs then {reqs[l[|l| - 1]].transId} else {}
  }

  lemma {:induction false} IdsInSize(reqs: Requests, l: seq<nat>)
    ensures |IdsIn(reqs, l)| <= |l|
    ensures forall id :: id in l && id in reqs ==> reqs[id].transId in IdsIn(reqs, l)
  {
    if l != [] {
      IdsInSize(reqs, l[..|l| - 1]);
      assert l == l[..|l| - 1] + [l[|l| - 1]];
    }
  }

  ghost function AllIds(reqs: Requests, heads: Buckets): set<nat> {
    if heads == [] then {} else AllIds(reqs, heads[..|heads| - 1]) + IdsIn(reqs, heads[|heads| - 1])
  }

  lemma {:induction false} AllIdsSize(reqs: Requests, heads: Buckets)
    ensures |AllIds(reqs, heads)| <= Total(heads)
    ensures forall b, id :: 0 <= b < |heads| && id in heads[b] && id in reqs ==> reqs[id].transId in AllIds(reqs, heads)
  {
    if heads != [] {
      var n := |heads| - 1;
      AllIdsSize(reqs, heads[..n]);
      IdsInSize(reqs, heads[n]);
      assert forall b :: 0 <= b < n ==> heads[..n][b] == heads[b];
    }
  }

  lemma {:induction false} Below(n: nat, s: set<nat>)
    requires |s| < n
    ensures exists t: nat :: t < n && t !in s
    decreases n
  {
    if n - 1 in s {
      Below(n - 1, s - {n - 1});
      var t: nat :| t < n - 1 && t !in s - {n - 1};
      assert t < n && t !in s;
    }
  }

  lemma FreeIdExists(reqs: Requests, heads: Buckets, waiting: seq<nat>)
    requires QueuesOk(reqs, heads, waiting) && Total(heads) < NO_ID
    ensures exists t :: FreshId(reqs, t)
  {
    hide Bucket, Total;
    AllIdsSize(reqs, heads);
    Below(NO_ID, AllIds(reqs, heads));
    var t: nat :| t < NO_ID && t !in AllIds(reqs, heads);
    assert FreshId(reqs, t);
  }

  /** request_find_from_trans_id: a search of one bucket. */
  function FindIn(reqs: Requests, l: seq<nat>, t: nat): Option<nat> {
    if l == [] then None
    else if l[0] in reqs && reqs[l[0]].transId == t then Some(l[0])
    else FindIn(reqs, l[1..], t)
  }

  lemma {:induction false} FindInLemma(reqs: Requests, l: seq<nat>, t: nat)
    ensures FindIn(reqs, l, t).None? <==> forall id :: id in l && id in reqs ==> reqs[id].transId != t
    ensures FindIn(reqs, l, t).Some? ==> var id := FindIn(reqs, l, t).value; id in l && id in reqs && reqs[id].transId == t
  {
    if l != [] {
      FindInLemma(reqs, l[1..], t);
      assert l == [l[0]] + l[1..];
    }
  }

  /** One bucket tells whether an id is taken anywhere. */
  lemma FindExact(reqs: Requests, heads: Buckets, waiting: seq<nat>, t: nat)
    requires QueuesOk(reqs, heads, waiting) && t < NO_ID
    ensures var r := FindIn(reqs, heads[Bucket(t, |heads|)], t);
      && (r.None? <==> FreshId(reqs, t))
      && (r.Some? ==> Inflight(reqs, r.value) && reqs[r.value].transId == t)
  {
    hide Bucket, FindIn;
    var b := Bucket(t, |heads|);
    assert 0 <= b < |heads|;
    FindInLemma(reqs, heads[b], t);
    assert forall id :: id in heads[b] ==> Inflight(reqs, id);
  }

  // ---- Rehashing ------------------------------------------------------------

  /** Each inflight request is in its old bucket or in its new one, not in both. */
  ghost predicate Moving(reqs: Requests, from: Buckets, to: Buckets) {
    && |from| > 0 && |to| > 0
    && (forall b :: 0 <= b < |from| ==> NoDup(from[b]))
    && (forall b :: 0 <= b < |to| ==> NoDup(to[b]))
    && (forall b, id :: 0 <= b < |from| && id in from[b] ==> Inflight(reqs, id) && Bucket(reqs[id].transId, |from|) == b)
    && (forall b, id :: 0 <= b < |to| && id in to[b] ==> Inflight(reqs, id) && Bucket(reqs[id].transId, |to|) == b)
    && (forall id :: Inflight(reqs, id) ==>
          (id in from[Bucket(reqs[id].transId, |from|)]) != (id in to[Bucket(reqs[id].transId, |to|)]))
  }

  lemma MoveStart(reqs: Requests, heads: Buckets, to: Buckets)
    requires Filed(reqs, heads) && |to| > 0 && forall b :: 0 <= b < |to| ==> to[b] == []
    ensures Moving(reqs, heads, to)
    ensures Total(to) == 0
  {
    hide Bucket, Total, NoDup;
    TotalNone(to);
    NoneIn(to);
    forall id | Inflight(reqs, id)
      ensures (id in heads[Bucket(reqs[id].transId, |heads|)]) != (id in to[Bucket(reqs[id].transId, |to|)])
    {
      assert id in heads[Bucket(reqs[id].transId, |heads|)];
    }
  }

  lemma NoneIn(to: Buckets)
    requires forall b :: 0 <= b < |to| ==> to[b] == []
    ensures forall b :: 0 <= b < |to| ==> NoDup(to[b])
    ensures forall b, id :: 0 <= b < |to| ==> id !in to[b]
  {
  }

  lemma {:induction false} TotalNone(heads: Buckets)
    requires forall b :: 0 <= b < |heads| ==> heads[b] == []
    ensures Total(heads) == 0
  {
    if heads != [] {
      TotalNone(heads[..|heads| - 1]);
    }
  }

  lemma MoveOne(reqs: Requests, from: Buckets, to: Buckets, b: nat)
    requires Moving(reqs, from, to) && b < |from| && from[b] != []
    ensures var id := from[b][0];
      && id in reqs && var c := Bucket(reqs[id].transId, |to|);
      && Moving(reqs, from[b := from[b][1..]], to[c := to[c] + [id]])
      && Total(from[b := from[b][1..]]) + Total(to[c := to[c] + [id]]) == Total(from) + Total(to)
  {
    var id := from[b][0];
    assert id in from[b];
    assert Inflight(reqs, id);
    hide Bucket, Inflight, Total;
    var c := Bucket(reqs[id].transId, |to|);
    assert 0 <= c < |to|;
    var rest := from[b][1..];
    TotalUpdate(from, b, rest);
    TotalUpdate(to, c, to[c] + [id]);
    assert from[b] == [id] + rest;
    assert id !in rest;
    assert forall x :: x in from[b] <==> x == id || x in rest;
    assert forall x :: x in to[c] + [id] <==> x == id || x in to[c];
    NoDupTail(from[b]);
    assert id !in to[c];
  }

  lemma MoveEnd(reqs: Requests, from: Buckets, to: Buckets)
    requires Moving(reqs, from, to) && forall b :: 0 <= b < |from| ==> from[b] == []
    ensures Filed(reqs, to) && Total(from) == 0
  {
    hide Moving, Bucket, Total, NoDup;
    TotalNone(from);
    ToHolds(reqs, from, to);
    forall id | Inflight(reqs, id) ensures id in to[Bucket(reqs[id].transId, |to|)] {
      Arrived(reqs, from, to, id);
    }
  }

  lemma Arrived(reqs: Requests, from: Buckets, to: Buckets, id: nat)
    requires Moving(reqs, from, to) && Inflight(reqs, id) && forall b :: 0 <= b < |from| ==> from[b] == []
    ensures id in to[Bucket(reqs[id].transId, |to|)]
  {
    hide Bucket, Total, NoDup;
    assert id !in from[Bucket(reqs[id].transId, |from|)];
  }

  lemma ToHolds(reqs: Requests, from: Buckets, to: Buckets)
    requires Moving(reqs, from, to)
    ensures |to| > 0 && forall b :: 0 <= b < |to| ==> NoDup(to[b])
    ensures forall b, id :: 0 <= b < |to| && id in to[b] ==> Inflight(reqs, id) && Bucket(reqs[id].transId, |to|) == b
  {
  }
}
