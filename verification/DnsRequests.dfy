/** evdns.c: requests on their way to nameservers, inflight or waiting. */
module DnsRequests {
  import opened Octets
  import opened DnsServers
  import opened DnsQueues

  /** strtoint_clipped(val, 1, 65000) bounds the option max-inflight. */
  const MOST_INFLIGHT := 65000

  /** Every inflight request goes to a configured nameserver. */
  ghost predicate Assigned(reqs: Requests, ring: seq<nat>) {
    forall id :: Inflight(reqs, id) ==> reqs[id].ns.value in ring
  }

  /** Requests may have changed their nameserver, nothing else. */
  ghost predicate Retargeted(r0: Requests, r1: Requests) {
    && (forall id :: id in r0 <==> id in r1)
    && (forall id :: id in r0 ==> r1[id].transId == r0[id].transId && (r1[id].ns.Some? <==> r0[id].ns.Some?))
  }

  /** One request is gone; those inflight still are, under their ids. */
  ghost predicate Kept(r0: Requests, r1: Requests, gone: set<nat>) {
    && (forall id :: id in r1 <==> id in r0 && id !in gone)
    && (forall id :: id in r1 && Inflight(r0, id) ==> Inflight(r1, id) && r1[id].transId == r0[id].transId)
  }

  /** No server came up. */
  ghost predicate Lowered(u0: States, u1: States) {
    forall ns :: IsUp(u1, ns) ==> IsUp(u0, ns)
  }

  /** One more request is inflight; others may have changed their nameserver. */
  ghost predicate Launched(r0: Requests, r1: Requests, id: nat) {
    && (forall x :: x in r1 <==> x in r0 || x == id) && Inflight(r1, id)
    && (forall x :: x in r0 && x != id ==> r1[x].transId == r0[x].transId && (r1[x].ns.Some? <==> r0[x].ns.Some?))
  }

  /** How many waiting requests there is room for. */
  function Room(inflight: int, max: int, waiting: nat): nat {
    if inflight >= max then 0 else Min(max - inflight, waiting)
  }

  /** What sending has done with a request: tx_count and transmit_me. */
  datatype Sent = Sent(count: nat, again: bool)

  /**
   How a step ended.  NullServer: a request was sent with no nameserver to send it to.  FreedServer: the waiting
   list was pumped while the nameservers were being freed; the model stops there.
   */
  datatype Ending = Ran | NullServer | FreedServer

  // ---- Cancelling the probes of a suspend -----------------------------------

  /** The requests there are, those waiting, and how many are inflight. */
  datatype Line = Line(live: set<nat>, waiting: seq<nat>, inflight: int)

  /** How many waiting requests go out when request `id` ends. */
  ghost function Released(l: Line, max: int, id: nat): nat {
    Room(if id in l.waiting then l.inflight else l.inflight - 1, max, |Without(l.waiting, id)|)
  }

  /** Request `id` ends, and the room is filled. */
  ghost function Ended(l: Line, max: int, id: nat): Line {
    if id !in l.live then l
    else
      var n, k := if id in l.waiting then l.inflight else l.inflight - 1, Released(l, max, id);
      var left := Without(l.waiting, id);
      Line(l.live - {id}, left[k..], n + k)
  }

  /** Each server's probe is cancelled, then the server freed; None when a waiting request goes out while one is. */
  ghost function Dismissed(l: Line, max: int, servers: seq<nat>, probes: map<nat, nat>, freed: bool): Option<Line>
    decreases |servers|
  {
    if servers == [] then Some(l)
    else
      var ns := servers[0];
      if ns in probes && probes[ns] in l.live then
        if freed && Released(l, max, probes[ns]) > 0 then None
        else Dismissed(Ended(l, max, probes[ns]), max, servers[1..], probes, true)
      else Dismissed(l, max, servers[1..], probes, true)
  }

  /** Servers whose probe is out. */
  ghost function ProbesOut(l: Line, servers: seq<nat>, probes: map<nat, nat>): nat {
    if servers == [] then 0
    else ProbesOut(l, servers[1..], probes) + if servers[0] in probes && probes[servers[0]] in l.live then 1 else 0
  }

  /** Each server has a probe of its own, not waiting. */
  ghost predicate OwnProbes(l: Line, servers: seq<nat>, probes: map<nat, nat>) {
    && (forall i :: 0 <= i < |servers| && servers[i] in probes ==> probes[servers[i]] !in l.waiting)
    && (forall i, j :: 0 <= i < j < |servers| && servers[i] in probes && servers[j] in probes ==> probes[servers[i]] != probes[servers[j]])
  }

  /** Without a probe out nothing is pumped. */
  lemma {:induction false} NoProbeOut(l: Line, max: int, servers: seq<nat>, probes: map<nat, nat>, freed: bool)
    requires ProbesOut(l, servers, probes) == 0
    ensures Dismissed(l, max, servers, probes, freed) == Some(l)
  {
    if servers != [] {
      NoProbeOut(l, max, servers[1..], probes, true);
    }
  }

  lemma {:induction false} OutWithout(l: Line, m: Line, servers: seq<nat>, probes: map<nat, nat>, id: nat)
    requires m.live == l.live - {id} && forall i :: 0 <= i < |servers| && servers[i] in probes ==> probes[servers[i]] != id
    ensures ProbesOut(m, servers, probes) == ProbesOut(l, servers, probes)
  {
    if servers != [] {
      OutWithout(l, m, servers[1..], probes, id);
    }
  }

  /** An inflight request ends: what goes out, and what is left when nothing does. */
  lemma InflightEnds(l: Line, max: int, id: nat)
    requires id in l.live && id !in l.waiting
    ensures Released(l, max, id) > 0 <==> l.waiting != [] && l.inflight - 1 < max
    ensures Released(l, max, id) == 0 ==> Ended(l, max, id) == Line(l.live - {id}, l.waiting, l.inflight - 1)
  {
    hide Without;
    assert l.waiting[0..] == l.waiting;
  }

  lemma OwnNext(l: Line, m: Line, servers: seq<nat>, probes: map<nat, nat>)
    requires OwnProbes(l, servers, probes) && servers != [] && m.waiting == l.waiting
    ensures OwnProbes(m, servers[1..], probes)
    ensures servers[0] in probes ==> probes[servers[0]] !in l.waiting
    ensures servers[0] in probes ==>
      forall i :: 0 <= i < |servers[1..]| && servers[1..][i] in probes ==> probes[servers[1..][i]] != probes[servers[0]]
  {
    assert forall i :: 0 <= i < |servers[1..]| ==> servers[1..][i] == servers[i + 1];
  }

  /** Once a server is freed: requests wait, and cancelling the probes that are out makes room. */
  lemma {:induction false} FreesIff(l: Line, max: int, servers: seq<nat>, probes: map<nat, nat>)
    requires OwnProbes(l, servers, probes)
    ensures var out := ProbesOut(l, servers, probes);
      Dismissed(l, max, servers, probes, true).None? <==> l.waiting != [] && out > 0 && l.inflight - out < max
    decreases |servers|
  {
    hide Ended, Released, OwnProbes;
    if servers != [] {
      var ns, rest := servers[0], servers[1..];
      OwnNext(l, l, servers, probes);
      if ns in probes && probes[ns] in l.live {
        InflightEnds(l, max, probes[ns]);
        if Released(l, max, probes[ns]) == 0 {
          var m := Ended(l, max, probes[ns]);
          OutWithout(l, m, rest, probes, probes[ns]);
          OwnNext(l, m, servers, probes);
          FreesIff(m, max, rest, probes);
        }
      } else {
        FreesIff(l, max, rest, probes);
      }
    }
  }

  class EvdnsBase {
    var reqs: Requests
    var heads: Buckets
    var waiting: seq<nat>
    var inflight: int
    var waitingCount: int
    var maxInflight: int

    var ring: seq<nat>
    var head: nat
    var up: States
    var good: int
    var probes: map<nat, nat>

    var sent: map<nat, Sent>
    var choked: set<nat>

    ghost predicate Valid()
      reads this
    {
      && QueuesOk(reqs, heads, waiting)
      && inflight == Total(heads) && waitingCount == |waiting|
      && 1 <= maxInflight <= MOST_INFLIGHT
      && RingOk(ring, head, up, good) && Assigned(reqs, ring)
    }

    /** No request waits while there is room. */
    ghost predicate Full()
      reads this
    {
      waiting == [] || inflight >= maxInflight
    }

    /** nameserver_pick: the first server up from the head on; when none is up, the one after the head. */
    method NameserverPick() returns (r: Option<nat>, ghost at: nat)
      requires RingOk(ring, head, up, good)
      modifies this`head
      ensures RingOk(ring, head, up, good)
      ensures ring == [] ==> r.None? && head == old(head)
      ensures ring != [] && good == 0 ==> head == Next(ring, old(head)) && r == Some(ring[head])
      ensures good > 0 ==>
        && FirstUp(ring, up, old(head), at) && r == Some(Around(ring, at))
        && head == if at + 1 < |ring| then at + 1 else at + 1 - |ring|
      ensures if ring == [] then r.None? else r.Some? && r.value in ring
    {
      hide Count, UpIn, NoDup;
      NoCount(up);
      at := head;
      if ring == [] { return None, at; }
      if good == 0 {
        head := Next(ring, head);
        return Some(ring[head]), at;
      }
      ghost var start := head;
      FullTurn(ring, up, start);
      NoneUp(ring, up, start, start + |ring|);
      while !IsUp(up, ring[head])
        invariant start <= at < start + |ring| && head < |ring| && ring[head] == Around(ring, at)
        invariant head == if at < |ring| then at else at - |ring|
        invariant forall v :: start <= v < at ==> !IsUp(up, Around(ring, v))
        decreases start + |ring| - at
      {
        head, at := Next(ring, head), at + 1;
        assert head != start;
      }
      r := Some(ring[head]);
      head := Next(ring, head);
    }

    /** As many picks as servers are up, nothing else happening: each of them comes once. */
    method PickRound() returns (picked: seq<nat>)
      requires RingOk(ring, head, up, good) && good > 0
      modifies this`head
      ensures RingOk(ring, head, up, good)
      ensures |picked| == good && NoDup(picked)
      ensures forall ns :: ns in picked <==> ns in ring && IsUp(up, ns)
    {
      hide UpIn, Rounds;
      CountZero(ring, up);
      ghost var start: nat, v: nat, pos: seq<nat> := head, head, [];
      picked := [];
      NoRounds(ring, up, start);
      while |picked| < good
        invariant RingOk(ring, head, up, good) && ring != [] && |picked| <= good
        invariant start < |ring|
        invariant Rounds(ring, up, start, v, pos, picked)
        invariant v < start + |ring| ==> head == if v < |ring| then v else v - |ring|
        decreases good - |picked|
      {
        ghost var hd := head;
        var r, at := NameserverPick();
        ghost var w := RoundPick(ring, up, start, v, pos, picked, hd, at);
        v, pos, picked := w + 1, pos + [w], picked + [r.value];
      }
      RoundEnd(ring, up, start, v, pos, picked);
    }

    constructor (max: int)
      requires 1 <= max <= MOST_INFLIGHT
      ensures Valid() && reqs == map[] && waiting == [] && inflight == 0 && maxInflight == max && ring == [] && probes == map[]
    {
      var n := (max + 4) / 5;
      reqs, heads, waiting, inflight, waitingCount, maxInflight := map[], seq(n, _ => []), [], 0, 0, max;
      ring, head, up, good, probes, sent, choked := [], 0, map[], 0, map[], map[], {};
      new;
      TotalNone(heads);
      NoneIn(heads);
      NoCount(up);
    }

    /** _evdns_nameserver_add_impl */
    method AddServer(ns: nat)
      requires Valid() && ns !in ring
      modifies this`ring, this`head, this`up, this`good
      ensures Valid() && ring == Inserted(old(ring), old(head), ns) && IsUp(up, ns) && good == old(good) + 1
    {
      hide QueuesOk, Count, NoDup;
      InsertedOk(ring, head, up, good, ns);
      ring, head, up, good := Inserted(ring, head, ns), if ring == [] then 0 else head, up[ns := true], good + 1;
    }

    /** transaction_id_pick: draws until an id is neither 0xffff nor found. */
    method TransactionIdPick() returns (t: nat)
      requires QueuesOk(reqs, heads, waiting) && Total(heads) < NO_ID
      ensures FreshId(reqs, t)
    {
      hide Bucket, FindIn, Total;
      FreeIdExists(reqs, heads, waiting);
      ghost var free: nat :| FreshId(reqs, free);
      FindExact(reqs, heads, waiting, free);
      t :| 0 <= t < NO_ID && FindIn(reqs, heads[Bucket(t, |heads|)], t) == None;
      FindExact(reqs, heads, waiting, t);
    }

    /** Whether the request has not been sent since it was made or reissued. */
    predicate Unsent(id: nat)
      reads this`sent
    {
      id !in sent || sent[id].count == 0
    }

    /** nameserver_failed: requests not yet sent move to another server, if one is up. */
    method Failed(ns: nat)
      requires Valid() && ns in ring
      modifies this`reqs, this`head, this`up, this`good
      ensures Valid() && Retargeted(old(reqs), reqs)
      ensures Lowered(old(up), up)
      ensures up == if IsUp(old(up), ns) then old(up)[ns := false] else old(up)
      ensures old(IsUp(up, ns)) && good > 0 ==> forall id :: Inflight(reqs, id) && Unsent(id) ==> reqs[id].ns != Some(ns)
    {
      hide QueuesOk, Total, Count, NoDup;
      if !IsUp(up, ns) { return; }
      CountFlip(ring, up, ns, false);
      good := good - 1;
      assert good >= 0;
      up := up[ns := false];
      if good == 0 { return; }
      MoveAll(ns);
    }

    /** One step of the walk over the inflight requests. */
    method MoveAway(id: nat, ns: nat)
      requires Valid() && good > 0 && !IsUp(up, ns) && Inflight(reqs, id)
      modifies this`reqs, this`head
      ensures Valid() && Retargeted(old(reqs), reqs)
      ensures Inflight(reqs, id) && (Unsent(id) ==> reqs[id].ns != Some(ns))
      ensures forall x :: x in reqs && x != id ==> reqs[x] == old(reqs)[x]
    {
      hide QueuesOk, Total, Count, NoDup;
      if Unsent(id) && reqs[id].ns == Some(ns) {
        var r, at := NameserverPick();
        Reassign(reqs, heads, waiting, id, r.value);
        reqs := reqs[id := Request(r, reqs[id].transId)];
      }
    }

    /** No request of the list that could be moved is left with the server. */
    ghost predicate Moved(l: seq<nat>, ns: nat)
      reads this`reqs, this`sent
    {
      forall x :: 0 <= x < |l| ==> Inflight(reqs, l[x]) && (Unsent(l[x]) ==> reqs[l[x]].ns != Some(ns))
    }

    method MoveBucket(i: nat, ns: nat)
      requires Valid() && good > 0 && !IsUp(up, ns) && i < |heads|
      requires forall b :: 0 <= b < i ==> Moved(heads[b], ns)
      modifies this`reqs, this`head
      ensures Valid() && Retargeted(old(reqs), reqs)
      ensures forall b :: 0 <= b <= i ==> Moved(heads[b], ns)
    {
      hide QueuesOk, Total, Count, NoDup, RingOk;
      var l, k := heads[i], 0;
      while k < |l|
        invariant 0 <= k <= |l| && Valid() && Retargeted(old(reqs), reqs) && Moved(l[..k], ns)
        invariant forall b :: 0 <= b < i ==> Moved(heads[b], ns)
        modifies this`reqs, this`head
      {
        InBucket(reqs, heads, waiting, i, k);
        MoveAway(l[k], ns);
        k := k + 1;
      }
      assert l[..k] == l;
    }

    method MoveAll(ns: nat)
      requires Valid() && good > 0 && !IsUp(up, ns)
      modifies this`reqs, this`head
      ensures Valid() && Retargeted(old(reqs), reqs)
      ensures forall id :: Inflight(reqs, id) && Unsent(id) ==> reqs[id].ns != Some(ns)
    {
      hide QueuesOk, Total, Count, NoDup, RingOk;
      var i := 0;
      while i < |heads|
        invariant 0 <= i <= |heads| && Valid() && Retargeted(old(reqs), reqs)
        invariant forall b :: 0 <= b < i ==> Moved(heads[b], ns)
        modifies this`reqs, this`head
      {
        MoveBucket(i, ns);
        i := i + 1;
      }
      EveryBucket(reqs, heads, waiting);
    }

    /** evdns_request_transmit, whatever sendto answers: 0 sent, 1 not now, 2 the server has failed. */
    method Transmit(id: nat)
      requires Valid() && Inflight(reqs, id)
      modifies this`reqs, this`head, this`up, this`good, this`sent, this`choked
      ensures Lowered(old(up), up)
      ensures Valid() && Retargeted(old(reqs), reqs)
      ensures var count := if id in old(sent) then old(sent)[id].count else 0;
        || (sent == old(sent)[id := Sent(count, true)] && old(reqs[id].ns.value) in choked)
        || (sent == old(sent)[id := Sent(count + 1, false)] && choked == old(choked))
    {
      hide QueuesOk, Total, Count, NoDup, RingOk;
      RealId(reqs, heads, waiting, id);
      assert reqs[id].transId != NO_ID;
      var count := if id in sent then sent[id].count else 0;
      sent := sent[id := Sent(count, true)];
      var ns := reqs[id].ns.value;
      if ns in choked { return; }
      var answer: int := *;
      if answer == 1 {
        choked := choked + {ns};
        return;
      }
      if answer == 2 {
        Failed(ns);
      }
      sent := sent[id := Sent(count + 1, false)];
    }

    /** evdns_transmit: everything marked for it is sent. */
    method TransmitAll()
      requires Valid()
      modifies this`reqs, this`head, this`up, this`good, this`sent, this`choked
      ensures Lowered(old(up), up)
      ensures Valid() && Retargeted(old(reqs), reqs)
    {
      hide QueuesOk, Total, Count, NoDup, RingOk;
      var i := 0;
      while i < |heads|
        invariant 0 <= i && Valid() && Retargeted(old(reqs), reqs) && Lowered(old(up), up)
        modifies this`reqs, this`head, this`up, this`good, this`sent, this`choked
      {
        var k := 0;
        while k < |heads[i]|
          invariant 0 <= k && Valid() && Retargeted(old(reqs), reqs) && Lowered(old(up), up)
          modifies this`reqs, this`head, this`up, this`good, this`sent, this`choked
        {
          var id := heads[i][k];
          if id in sent && sent[id].again {
            InBucket(reqs, heads, waiting, i, k);
            Transmit(id);
          }
          k := k + 1;
        }
        i := i + 1;
      }
    }

    /** evdns_request_insert into the bucket of the id, and the count. */
    method File(id: nat, ns: nat, t: nat)
      requires Valid() && id !in reqs && FreshId(reqs, t) && ns in ring
      modifies this`reqs, this`heads, this`inflight
      ensures Valid() && reqs == old(reqs)[id := Request(Some(ns), t)] && inflight == old(inflight) + 1
    {
      hide QueuesOk, Total, Count, NoDup, RingOk, Bucket;
      Insert(reqs, heads, waiting, id, ns, t);
      HasBuckets(reqs, heads, waiting);
      var b := Bucket(t, |heads|);
      assert forall x :: x != id ==> (Inflight(reqs[id := Request(Some(ns), t)], x) <==> Inflight(reqs, x));
      reqs, heads, inflight := reqs[id := Request(Some(ns), t)], heads[b := heads[b] + [id]], inflight + 1;
    }

    /** evdns_requests_pump_waiting_queue: the first in the waiting list go out, as many as there is room for. */
    method Pump() returns (r: Ending)
      requires Valid()
      modifies this
      ensures !r.FreedServer? && (r.NullServer? <==> old(ring == [] && waiting != []))
      ensures r.Ran? ==> Lowered(old(up), up)
      ensures r.Ran? ==> Valid() && Full() && ring == old(ring) && maxInflight == old(maxInflight) && probes == old(probes)
      ensures r.Ran? ==> var k := Room(old(inflight), maxInflight, |old(waiting)|);
        && waiting == old(waiting)[k..] && inflight == old(inflight) + k
        && forall id :: id in old(waiting)[..k] ==> Inflight(reqs, id)
      ensures r.Ran? ==> Kept(old(reqs), reqs, {})
    {
      hide QueuesOk, Total, Count, NoDup, RingOk;
      NoServers(reqs, heads, waiting, ring);
      ghost var k := 0;
      while inflight < maxInflight && waitingCount != 0
        invariant Valid() && ring == old(ring) && maxInflight == old(maxInflight) && probes == old(probes)
        invariant 0 <= k <= Room(old(inflight), maxInflight, |old(waiting)|) && (ring == [] ==> k == 0 && inflight == 0)
        invariant waiting == old(waiting)[k..] && inflight == old(inflight) + k
        invariant forall id :: id in old(waiting)[..k] ==> Inflight(reqs, id)
        invariant Kept(old(reqs), reqs, {}) && Lowered(old(up), up)
        decreases waitingCount
      {
        // nameserver_pick gives NULL, and evdns_request_transmit goes through it
        if ring == [] { return NullServer; }
        ghost var id := waiting[0];
        Promote();
        assert old(waiting)[..k + 1] == old(waiting)[..k] + [id];
        k := k + 1;
      }
      r := Ran;
    }

    /** One turn of the pump. */
    method Promote()
      requires Valid() && ring != [] && waiting != [] && inflight < maxInflight
      modifies this
      ensures Lowered(old(up), up)
      ensures Valid() && ring == old(ring) && maxInflight == old(maxInflight) && probes == old(probes)
      ensures waiting == old(waiting)[1..] && inflight == old(inflight) + 1
      ensures Kept(old(reqs), reqs, {}) && Inflight(reqs, old(waiting[0]))
    {
      hide QueuesOk, Total, Count, NoDup, RingOk, Kept, Assigned, Launched;
      var id := waiting[0];
      IsWaiting(reqs, heads, waiting, id);
      Unpark(id);
      Launch(id);
      Promoted(old(reqs), reqs, id);
    }

    /** A nameserver, an id, a place in the buckets, and off. */
    method Launch(id: nat)
      requires Valid() && ring != [] && id !in reqs && inflight < maxInflight
      modifies this`reqs, this`heads, this`inflight, this`head, this`up, this`good, this`sent, this`choked
      ensures Lowered(old(up), up)
      ensures Valid() && Launched(old(reqs), reqs, id) && inflight == old(inflight) + 1
    {
      hide QueuesOk, Total, Count, NoDup, RingOk, Retargeted, Assigned, FreshId, FirstUp, Around, Launched;
      var r, at := NameserverPick();
      var t := TransactionIdPick();
      File(id, r.value, t);
      ghost var r1 := reqs;
      Transmit(id);
      ghost var r2 := reqs;
      TransmitAll();
      LaunchedLemma(old(reqs), r1, r2, reqs, id, Request(r, t));
    }

    /** evdns_request_remove from the waiting list, and the count. */
    method Unpark(id: nat)
      requires Valid() && id in waiting
      modifies this`reqs, this`waiting, this`waitingCount
      ensures Valid() && reqs == old(reqs) - {id} && waiting == Without(old(waiting), id) && |waiting| == old(|waiting|) - 1
    {
      hide QueuesOk, Total, Count, NoDup, RingOk, Without;
      RemoveWaiting(reqs, heads, waiting, id);
      reqs, waiting, waitingCount := reqs - {id}, Without(waiting, id), waitingCount - 1;
    }

    /** evdns_request_remove from the bucket, and the count. */
    method Unfile(id: nat)
      requires Valid() && Inflight(reqs, id)
      modifies this`reqs, this`heads, this`inflight
      ensures Valid() && reqs == old(reqs) - {id} && inflight == old(inflight) - 1
    {
      hide QueuesOk, Total, Count, NoDup, RingOk, Without, Bucket;
      RemoveInflight(reqs, heads, waiting, id);
      HasBuckets(reqs, heads, waiting);
      var b := Bucket(reqs[id].transId, |heads|);
      assert forall x :: Inflight(reqs - {id}, x) ==> Inflight(reqs, x);
      reqs, heads, inflight := reqs - {id}, heads[b := Without(heads[b], id)], inflight - 1;
    }

    /** request_new and request_submit: straight out if there is room and a nameserver, else to the end of the waiting list. */
    method Submit(id: nat)
      requires Valid() && id !in reqs
      modifies this`reqs, this`heads, this`waiting, this`inflight, this`waitingCount, this`head, this`up, this`good, this`sent, this`choked
      ensures Valid() && Lowered(old(up), up)
      ensures if old(inflight) < maxInflight && ring != []
              then Launched(old(reqs), reqs, id) && waiting == old(waiting) && inflight == old(inflight) + 1
              else Inserts(old(reqs), reqs, id) && waiting == old(waiting) + [id] && inflight == old(inflight)
      ensures ring != [] && old(Full()) ==> Full()
    {
      hide QueuesOk, Total, Count, NoDup, RingOk, FreshId, FirstUp, Around, Launched, Retargeted, Assigned, Lowered;
      NotLower(up);
      var issuing := inflight < maxInflight;
      var t: nat, ns: Option<nat> := NO_ID, None;
      if issuing {
        t := TransactionIdPick();
        var r, at := NameserverPick();
        ns := r;
      }
      sent := sent[id := Sent(0, false)];
      if ns.Some? {
        File(id, ns.value, t);
        ghost var r1 := reqs;
        Transmit(id);
        SameTarget(reqs);
        LaunchedLemma(old(reqs), r1, reqs, reqs, id, Request(ns, t));
      } else {
        Wait(id, t);
      }
    }

    /** evdns_request_insert into the waiting list, and the count. */
    method Wait(id: nat, t: nat)
      requires Valid() && id !in reqs
      modifies this`reqs, this`waiting, this`waitingCount
      ensures Valid() && reqs == old(reqs)[id := Request(None, t)] && waiting == old(waiting) + [id]
    {
      hide QueuesOk, Total, Count, NoDup, RingOk;
      Park(reqs, heads, waiting, id, t);
      assert forall x :: Inflight(reqs[id := Request(None, t)], x) ==> Inflight(reqs, x);
      reqs, waiting, waitingCount := reqs[id := Request(None, t)], waiting + [id], waitingCount + 1;
    }

    /** nameserver_send_probe: forced inflight, to the given server. */
    method Probe(ns: nat, id: nat)
      requires Valid() && id !in reqs && ns in ring && inflight < NO_ID
      modifies this`reqs, this`heads, this`inflight, this`head, this`up, this`good, this`sent, this`choked, this`probes
      ensures Valid() && Lowered(old(up), up) && probes == old(probes)[ns := id]
      ensures Launched(old(reqs), reqs, id) && inflight == old(inflight) + 1
      ensures old(Full()) ==> Full()
    {
      hide QueuesOk, Total, Count, NoDup, RingOk, FreshId, FirstUp, Around, Launched, Retargeted, Assigned, Lowered;
      if inflight < maxInflight {
        var unused := TransactionIdPick();
        var r, at := NameserverPick();
      }
      probes := probes[ns := id];
      var t := TransactionIdPick();
      sent := sent[id := Sent(0, false)];
      File(id, ns, t);
      ghost var r1 := reqs;
      Transmit(id);
      SameTarget(reqs);
      LaunchedLemma(old(reqs), r1, reqs, reqs, id, Request(Some(ns), t));
    }

    /** request_finished for an inflight request, or a waiting one; the room it leaves is filled. */
    method Finish(id: nat) returns (r: Ending)
      requires Valid() && id in reqs
      modifies this
      ensures !r.FreedServer? && (r.NullServer? <==> old(ring == [] && exists x :: x in waiting && x != id))
      ensures r.Ran? ==> Valid() && Full() && Lowered(old(up), up)
      ensures r.Ran? ==> ring == old(ring) && maxInflight == old(maxInflight) && probes == old(probes)
      ensures r.Ran? ==> Kept(old(reqs), reqs, {id})
      ensures r.Ran? ==> var n := old(inflight) - (if old(Inflight(reqs, id)) then 1 else 0);
        var left := if old(Inflight(reqs, id)) then old(waiting) else Without(old(waiting), id);
        var k := Room(n, maxInflight, |left|);
        waiting == left[k..] && inflight == n + k
    {
      hide QueuesOk, Total, Count, NoDup, RingOk, Without, Lowered;
      IsWaiting(reqs, heads, waiting, id);
      OthersWait(reqs, heads, waiting, id);
      if reqs[id].ns.Some? {
        Unfile(id);
      } else {
        Unpark(id);
      }
      ghost var r1 := reqs;
      r := Pump();
      if r.Ran? {
        Finished(old(reqs), r1, reqs, id);
      }
    }

    /** nameserver_up: a probe still out is cancelled. */
    method Up(ns: nat)
      requires Valid() && ns in ring
      modifies this
      ensures Valid() && IsUp(up, ns) && ring == old(ring) && maxInflight == old(maxInflight)
      ensures Kept(old(reqs), reqs, if !old(IsUp(up, ns)) && ns in old(probes) then {old(probes)[ns]} else {})
      ensures old(Full()) ==> Full()
    {
      hide QueuesOk, Total, Count, NoDup;
      if IsUp(up, ns) { return; }
      if ns in probes {
        var p := probes[ns];
        if p in reqs {
          var r := Finish(p);
        }
        probes := probes - {ns};
      }
      CountFlip(ring, up, ns, true);
      up, good := up[ns := true], good + 1;
    }

    /** request_reissue: false if the request would go to the same server again. */
    method Reissue(id: nat) returns (again: bool)
      requires Valid() && Inflight(reqs, id)
      modifies this`reqs, this`head, this`sent
      ensures Valid() && Retargeted(old(reqs), reqs) && (again <==> reqs[id].ns != old(reqs[id].ns))
      ensures sent == if again then old(sent)[id := Sent(0, true)] else old(sent)
    {
      hide QueuesOk, Total, Count, NoDup, RingOk, FirstUp, Around;
      var r, at := NameserverPick();
      Reassign(reqs, heads, waiting, id, r.value);
      again := r != reqs[id].ns;
      reqs := reqs[id := Request(r, reqs[id].transId)];
      if again {
        sent := sent[id := Sent(0, true)];
      }
    }

    /** evdns_request_timeout_callback: `down` says the server has timed out too often. */
    method Timeout(id: nat, down: bool, maxRetransmits: nat)
      requires Valid() && Inflight(reqs, id)
      modifies this
      ensures Valid() && ring == old(ring) && maxInflight == old(maxInflight)
      ensures Kept(old(reqs), reqs, if old(!Unsent(id) && sent[id].count >= maxRetransmits) || maxRetransmits == 0 then {id} else {})
      ensures old(Full()) ==> Full()
    {
      hide QueuesOk, Total, Count, NoDup, RingOk, FirstUp, Around, Lowered;
      if down {
        Failed(reqs[id].ns.value);
      }
      if (if id in sent then sent[id].count else 0) >= maxRetransmits {
        var r := Finish(id);
      } else {
        Retry(id);
      }
    }

    /** The retransmission, to the next server. */
    method Retry(id: nat)
      requires Valid() && Inflight(reqs, id)
      modifies this`reqs, this`head, this`up, this`good, this`sent, this`choked
      ensures Valid() && Retargeted(old(reqs), reqs)
    {
      hide QueuesOk, Total, Count, NoDup, RingOk, FirstUp, Around, Lowered;
      var r, at := NameserverPick();
      Reassign(reqs, heads, waiting, id, r.value);
      reqs := reqs[id := Request(r, reqs[id].transId)];
      Transmit(id);
    }

    /** reply_handle: a bad server is replaced while reissues are left; any answer but SERVFAIL shows the server is up. */
    method Reply(id: nat, kind: Answer)
      requires Valid() && Inflight(reqs, id)
      modifies this
      ensures Valid() && ring == old(ring) && maxInflight == old(maxInflight)
      ensures id in reqs ==> kind == BadServer(true)
      ensures Kept(old(reqs), reqs, (if id in reqs then {} else {id}) +
        var ns := old(reqs)[id].ns.value;
        if kind.Good? && !old(IsUp(up, ns)) && ns in old(probes) then {old(probes)[ns]} else {})
      ensures old(Full()) ==> Full()
    {
      hide QueuesOk, Total, Count, NoDup, RingOk, Lowered, Kept, Retargeted;
      var ns := reqs[id].ns.value;
      SameTarget(reqs);
      RetargetedKept(reqs, reqs);
      ghost var gone: set<nat> := {};
      ghost var probe: set<nat> := if kind.Good? && !IsUp(up, ns) && ns in probes then {probes[ns]} else {};
      match kind {
        case BadServer(reissue) =>
          if reissue {
            Failed(ns);
            RetargetedKept(old(reqs), reqs);
            KeptStill(old(reqs), reqs, {}, id);
            ghost var r1 := reqs;
            var again := Reissue(id);
            RetargetedKept(r1, reqs);
            KeptTwice(old(reqs), r1, reqs, gone, gone);
            KeptStill(old(reqs), reqs, gone + gone, id);
            assert gone + gone == gone + probe;
            if again { return; }
          }
        case ServFail =>
        case Good =>
          if ns in probes && probes[ns] == id {
            probes := probes - {ns};
          }
          gone := if !IsUp(up, ns) && ns in probes then {probes[ns]} else {};
          Up(ns);
          KeptStill(old(reqs), reqs, gone, id);
      }
      ghost var r2 := reqs;
      var r := Finish(id);
      KeptStill(r2, reqs, {id}, id);
      KeptTwice(old(reqs), r2, reqs, gone, {id});
      assert gone + {id} == {id} + probe;
    }

    /** evdns_base_resume */
    method Resume() returns (r: Ending)
      requires Valid()
      modifies this
      ensures !r.FreedServer? && (r.NullServer? <==> old(ring == [] && waiting != []))
      ensures r.Ran? ==> Valid() && Full() && ring == old(ring) && maxInflight == old(maxInflight) && Kept(old(reqs), reqs, {})
    {
      r := Pump();
    }

    /** evdns_base_set_max_requests_inflight: every inflight request moves to the bucket of its id among the new ones. */
    method SetMax(max: int)
      requires Valid() && max <= MOST_INFLIGHT
      modifies this`heads, this`maxInflight
      ensures Valid() && maxInflight == (if max < 1 then 1 else max) && |heads| == (maxInflight + 4) / 5
      ensures Full() <==> waiting == [] || inflight >= maxInflight
    {
      hide QueuesOk, Total, Count, NoDup, RingOk, Filed, Moving;
      var most := if max < 1 then 1 else max;
      var n := (most + 4) / 5;
      var moved: Buckets := seq(n, _ => []);
      var left := heads;
      RehashStart(reqs, heads, waiting, moved);
      var i := 0;
      while i < |left|
        invariant 0 <= i <= |left| && |moved| == n && |left| == |heads|
        invariant Moving(reqs, left, moved) && Total(left) + Total(moved) == inflight
        invariant forall b :: 0 <= b < i ==> left[b] == []
        decreases |heads| - i
        modifies {}
      {
        while left[i] != []
          invariant i < |left| && |moved| == n && |left| == |heads|
          invariant Moving(reqs, left, moved) && Total(left) + Total(moved) == inflight
          invariant forall b :: 0 <= b < i ==> left[b] == []
          decreases |left[i]|
          modifies {}
        {
          MoveOne(reqs, left, moved, i);
          var id := left[i][0];
          var c := Bucket(reqs[id].transId, n);
          left, moved := left[i := left[i][1..]], moved[c := moved[c] + [id]];
        }
        i := i + 1;
      }
      RehashEnd(reqs, heads, left, moved, waiting);
      heads, maxInflight := moved, most;
    }

    ghost function Now(): Line
      reads this
    {
      Line(reqs.Keys, waiting, inflight)
    }

    /** The servers in the order of the ring, from the head on. */
    function FromHead(): seq<nat>
      requires ring != [] ==> head < |ring|
      reads this
    {
      if ring == [] then [] else ring[head..] + ring[..head]
    }

    /** evdns_base_clear_nameservers_and_suspend: the probes are cancelled, and inflight requests go to the front of the waiting list. */
    method Suspend() returns (r: Ending)
      requires Valid()
      modifies this
      ensures !r.NullServer?
      ensures r.FreedServer? <==> old(Dismissed(Now(), maxInflight, FromHead(), probes, false)).None?
      ensures r.Ran? ==> Valid() && maxInflight == old(maxInflight) && ring == [] && good == 0 && inflight == 0
      ensures r.Ran? ==> var l := old(Dismissed(Now(), maxInflight, FromHead(), probes, false)).value;
        reqs.Keys == l.live && Shifted(l.waiting, waiting, l.inflight)
    {
      hide QueuesOk, Total, Count, NoDup, Bucket, Dismissed, Shifted;
      r := Dismiss();
      if r.Ran? {
        Retire();
      }
    }

    /** The loop over the nameservers.  They are freed behind it, so none is while the first one's probe is cancelled. */
    method Dismiss() returns (r: Ending)
      requires Valid()
      modifies this
      ensures !r.NullServer?
      ensures r.FreedServer? <==> old(Dismissed(Now(), maxInflight, FromHead(), probes, false)).None?
      ensures r.Ran? ==> Valid() && maxInflight == old(maxInflight) && ring == old(ring)
      ensures r.Ran? ==> Some(Now()) == old(Dismissed(Now(), maxInflight, FromHead(), probes, false))
    {
      hide QueuesOk, Total, Count, NoDup, Bucket, Dismissed, Ended, Without, Lowered, Kept;
      var servers := FromHead();
      assert servers[0..] == servers;
      ghost var answer := Dismissed(Now(), maxInflight, servers, probes, false);
      for i := 0 to |servers|
        invariant Valid() && maxInflight == old(maxInflight) && ring == old(ring) && probes == old(probes)
        invariant Dismissed(Now(), maxInflight, servers[i..], probes, i > 0) == answer
      {
        var ns := servers[i];
        DismissNext(Now(), maxInflight, servers, i, probes);
        if ns in probes && probes[ns] in reqs {
          var id := probes[ns];
          WithoutCount(reqs, heads, waiting, id);
          var stays := reqs[id].ns.None?;
          var k := Room(if stays then inflight else inflight - 1, maxInflight, if stays then waitingCount - 1 else waitingCount);
          if i > 0 && k > 0 { return FreedServer; }
          ghost var before, was := Now(), reqs;
          r := Finish(id);
          KeptKeys(was, reqs, id);
          EndedIs(before, Now(), old(maxInflight), id, k);
        }
      }
      assert servers[|servers|..] == [];
      DismissNone(Now(), maxInflight, probes);
      r := Ran;
    }

    /** The servers are gone, and every inflight request waits again. */
    method Retire()
      requires Valid()
      modifies this
      ensures Valid() && maxInflight == old(maxInflight) && ring == [] && good == 0 && inflight == 0
      ensures reqs.Keys == old(reqs.Keys) && Shifted(old(waiting), waiting, old(inflight))
    {
      hide QueuesOk, Total, Count, NoDup, Bucket;
      if ring == [] {
        NoneInflight(reqs, heads, waiting);
        NoCount(up);
        return;
      }
      ghost var before := inflight;
      var i := 0;
      while i < |heads|
        invariant 0 <= i <= |heads| && |heads| == |old(heads)|
        invariant QueuesOk(reqs, heads, waiting) && waitingCount == |waiting|
        invariant forall id :: id in reqs <==> id in old(reqs)
        invariant forall b :: 0 <= b < i ==> heads[b] == []
        invariant Shifted(old(waiting), waiting, before - Total(heads))
        modifies this`reqs, this`heads, this`waiting, this`waitingCount, this`sent
      {
        SuspendBucket(i, before, old(waiting));
        i := i + 1;
      }
      TotalNone(heads);
      NoneFiled(reqs, heads, waiting);
      ring, head, good, probes, inflight := [], 0, 0, map[], 0;
      NoCount(up);
    }

    /** One bucket of the walk in Suspend. */
    method SuspendBucket(i: nat, ghost before: int, ghost w0: seq<nat>)
      requires QueuesOk(reqs, heads, waiting) && waitingCount == |waiting| && i < |heads|
      requires Shifted(w0, waiting, before - Total(heads))
      modifies this`reqs, this`heads, this`waiting, this`waitingCount, this`sent
      ensures QueuesOk(reqs, heads, waiting) && waitingCount == |waiting|
      ensures heads == old(heads)[i := []] && Shifted(w0, waiting, before - Total(heads))
      ensures forall id :: id in reqs <==> id in old(reqs)
    {
      hide QueuesOk, Total, Bucket, NoDup, Shifted;
      while heads[i] != []
        invariant QueuesOk(reqs, heads, waiting) && waitingCount == |waiting|
        invariant |heads| == |old(heads)| && heads == old(heads)[i := heads[i]]
        invariant Shifted(w0, waiting, before - Total(heads))
        invariant forall id :: id in reqs <==> id in old(reqs)
        decreases |heads[i]|
        modifies this`reqs, this`heads, this`waiting, this`waitingCount, this`sent
      {
        var id := heads[i][0];
        SuspendOne(reqs, heads, waiting, i);
        ShiftedMore(w0, waiting, before - Total(heads), id);
        sent := sent[id := Sent(0, false)];
        reqs, heads, waiting, waitingCount :=
          reqs[id := Request(None, 0)], heads[i := heads[i][1..]], [id] + waiting, waitingCount + 1;
      }
    }
  }

  /** A run of the resolver, each step taken when its own precondition holds. */
  datatype Op =
    | Asked(id: nat) | Probed(ns: nat, id: nat) | Answered(id: nat, kind: Answer)
    | TimedOut(id: nat, down: bool, maxRetransmits: nat) | Cancelled(id: nat)
    | Lost(ns: nat) | Back(ns: nat) | Added(ns: nat)
    | Limited(max: int) | Suspended | Resumed

  /** Neither the limit nor the nameservers are taken away. */
  ghost predicate Steady(ops: seq<Op>) {
    forall i :: 0 <= i < |ops| ==> !ops[i].Limited? && !ops[i].Suspended?
  }

  /** A request ends, or a resume is asked for, with no nameserver and another request waiting. */
  ghost predicate Strands(base: EvdnsBase, op: Op)
    reads base
  {
    && base.ring == []
    && match op
       case Cancelled(id) => id in base.reqs && exists x :: x in base.waiting && x != id
       case Resumed => base.waiting != []
       case _ => false
  }

  /** A suspend cancels a probe and sends a waiting request while nameservers are being freed. */
  ghost predicate Frees(base: EvdnsBase, op: Op)
    requires base.Valid()
    reads base
  {
    op.Suspended? && Dismissed(base.Now(), base.maxInflight, base.FromHead(), base.probes, false).None?
  }

  method Do(base: EvdnsBase, op: Op) returns (r: Ending)
    requires base.Valid()
    modifies base
    ensures r.NullServer? <==> old(Strands(base, op))
    ensures r.FreedServer? <==> old(Frees(base, op))
    ensures r.Ran? ==> base.Valid()
    ensures r.Ran? && old(base.ring != []) && !op.Suspended? ==> base.ring != []
    ensures r.Ran? && old(base.ring != [] && base.Full()) && !op.Limited? && !op.Suspended? ==> base.Full()
  {
    hide QueuesOk, Total, RingOk, Assigned, Dismissed;
    r := Ran;
    match op {
      case Asked(id) => if id !in base.reqs { base.Submit(id); }
      case Probed(ns, id) =>
        if id !in base.reqs && ns in base.ring && base.inflight < NO_ID { base.Probe(ns, id); }
      case Answered(id, kind) =>
        if id in base.reqs && base.reqs[id].ns.Some? { base.Reply(id, kind); }
      case TimedOut(id, down, most) =>
        if id in base.reqs && base.reqs[id].ns.Some? { base.Timeout(id, down, most); }
      case Cancelled(id) => if id in base.reqs { r := base.Finish(id); }
      case Lost(ns) => if ns in base.ring { base.Failed(ns); }
      case Back(ns) => if ns in base.ring { base.Up(ns); }
      case Added(ns) => if ns !in base.ring { base.AddServer(ns); }
      case Limited(max) => if max <= MOST_INFLIGHT { base.SetMax(max); }
      case Suspended => r := base.Suspend();
      case Resumed => r := base.Resume();
    }
  }

  /**
   * Every run keeps the invariants, or ends at a step that goes through a null server or a freed one, which no run does
   * whose servers stay.  Without suspends and new limits no request waits while there is room.
   */
  method Run(base: EvdnsBase, ops: seq<Op>) returns (r: Ending)
    requires base.Valid()
    modifies base
    ensures r.Ran? ==> base.Valid()
    ensures old(base.ring != []) && (forall i :: 0 <= i < |ops| ==> !ops[i].Suspended?) ==> r.Ran? && base.ring != []
    ensures old(base.ring != [] && base.Full()) && Steady(ops) ==> r.Ran? && base.Full()
  {
    hide QueuesOk, Total, RingOk, Assigned;
    for i := 0 to |ops|
      invariant base.Valid()
      invariant old(base.ring != []) && (forall k :: 0 <= k < |ops| ==> !ops[k].Suspended?) ==> base.ring != []
      invariant old(base.ring != [] && base.Full()) && Steady(ops) ==> base.ring != [] && base.Full()
    {
      r := Do(base, ops[i]);
      if !r.Ran? { return; }
    }
    r := Ran;
  }

  /** Two requests wait with no nameserver; when one is cancelled, the other is sent to a null server. */
  method CancelWithoutServer() returns (r: Ending)
    ensures r == NullServer
  {
    var base := new EvdnsBase(1);
    base.Submit(1);
    base.Submit(2);
    assert base.waiting == [1, 2] && 1 in base.reqs && base.waiting[1] == 2;
    r := base.Finish(1);
  }

  /** Two probes are out and a request waits; a suspend cancels the second probe when the first server is freed. */
  method SuspendWithProbes() returns (r: Ending)
    ensures r == FreedServer
  {
    hide QueuesOk, Total, Assigned, Count, RingOk, Dismissed, Launched, Inserts;
    var base := TwoServers();
    ghost var r0 := base.reqs;
    base.Probe(7, 1);
    LaunchedKeys(r0, base.reqs, 1);
    ghost var r1 := base.reqs;
    base.Probe(8, 2);
    LaunchedKeys(r1, base.reqs, 2);
    ghost var r2 := base.reqs;
    base.Submit(3);
    InsertsKeys(r2, base.reqs, 3);
    HeadInside(base.ring, base.head, base.up, base.good);
    BothProbes(base.Now(), base.FromHead(), base.probes);
    r := base.Suspend();
  }

  method TwoServers() returns (base: EvdnsBase)
    ensures fresh(base) && base.Valid() && base.ring == [7, 8] && base.maxInflight == 1
    ensures base.reqs == map[] && base.waiting == [] && base.inflight == 0 && base.probes == map[]
  {
    hide QueuesOk, Total, Assigned, Count, NoDup;
    base := new EvdnsBase(1);
    base.AddServer(7);
    assert base.ring == [7];
    base.AddServer(8);
  }

  lemma LaunchedKeys(r0: Requests, r1: Requests, id: nat)
    requires Launched(r0, r1, id)
    ensures r1.Keys == r0.Keys + {id}
  {
  }

  lemma InsertsKeys(r0: Requests, r1: Requests, id: nat)
    requires Inserts(r0, r1, id)
    ensures r1.Keys == r0.Keys + {id}
  {
  }

  lemma HeadInside(ring: seq<nat>, head: nat, up: States, good: int)
    requires RingOk(ring, head, up, good)
    ensures ring != [] ==> head < |ring|
    ensures ring == [7, 8] ==> ring[head..] + ring[..head] == [7, 8] || ring[head..] + ring[..head] == [8, 7]
  {
    hide NoDup, Count;
    if ring == [7, 8] {
      if head == 0 {
        assert ring[0..] + ring[..0] == [7, 8];
      } else {
        assert ring[1..] == [8] && ring[..1] == [7];
      }
    }
  }

  lemma BothProbes(l: Line, servers: seq<nat>, probes: map<nat, nat>)
    requires l.waiting == [3] && l.inflight == 2 && 1 in l.live && 2 in l.live
    requires (servers == [7, 8] || servers == [8, 7]) && 7 in probes && probes[7] == 1 && 8 in probes && probes[8] == 2
    ensures Dismissed(l, 1, servers, probes, false) == None
  {
    var id, rest := probes[servers[0]], servers[1..];
    assert Released(l, 1, id) == 0;
    var m := Ended(l, 1, id);
    assert l.waiting[0..] == l.waiting && m == Line(l.live - {id}, [3], 1);
    assert rest[1..] == [];
    assert Released(m, 1, probes[rest[0]]) == 1;
    assert Dismissed(m, 1, rest, probes, true) == None;
  }

  /** Each request is in exactly one list, once. */
  lemma OneList(reqs: Requests, heads: Buckets, waiting: seq<nat>, id: nat, b: nat, c: nat)
    requires QueuesOk(reqs, heads, waiting) && id in reqs && b < |heads| && c < |heads|
    ensures id in waiting <==> forall k :: 0 <= k < |heads| ==> id !in heads[k]
    ensures id in waiting <==> reqs[id].ns.None?
    ensures id in heads[b] && id in heads[c] ==> b == c == Bucket(reqs[id].transId, |heads|)
    ensures NoDup(waiting) && NoDup(heads[b])
  {
    hide Bucket;
    IsWaiting(reqs, heads, waiting, id);
    EveryBucket(reqs, heads, waiting);
    assert forall k :: 0 <= k < |heads| && id in heads[k] ==> Inflight(reqs, id);
  }

  /** `k` requests were put before those waiting. */
  ghost predicate Shifted(w0: seq<nat>, w: seq<nat>, k: int) {
    k >= 0 && |w| == |w0| + k && w[k..] == w0
  }

  lemma DismissNext(l: Line, max: int, servers: seq<nat>, i: nat, probes: map<nat, nat>)
    requires i < |servers|
    ensures var ns, rest := servers[i], servers[i + 1..];
      Dismissed(l, max, servers[i..], probes, i > 0) ==
        if ns in probes && probes[ns] in l.live then
          if i > 0 && Released(l, max, probes[ns]) > 0 then None
          else Dismissed(Ended(l, max, probes[ns]), max, rest, probes, true)
        else Dismissed(l, max, rest, probes, true)
  {
    hide Ended, Released;
    assert servers[i..][0] == servers[i] && servers[i..][1..] == servers[i + 1..];
  }

  lemma DismissNone(l: Line, max: int, probes: map<nat, nat>)
    ensures forall freed :: Dismissed(l, max, [], probes, freed) == Some(l)
  {
  }

  lemma KeptKeys(r0: Requests, r1: Requests, id: nat)
    requires Kept(r0, r1, {id})
    ensures r1.Keys == r0.Keys - {id}
  {
  }

  lemma WithoutCount(reqs: Requests, heads: Buckets, waiting: seq<nat>, id: nat)
    requires QueuesOk(reqs, heads, waiting) && id in reqs
    ensures id in waiting <==> reqs[id].ns.None?
    ensures |Without(waiting, id)| == |waiting| - if id in waiting then 1 else 0
  {
    hide NoDup, Filed, DistinctIds;
    WithoutLemma(waiting, id);
  }

  lemma EndedIs(l: Line, m: Line, max: int, id: nat, k: nat)
    requires id in l.live && k == Released(l, max, id) && k <= |Without(l.waiting, id)|
    requires m == Line(l.live - {id}, Without(l.waiting, id)[k..], (if id in l.waiting then l.inflight else l.inflight - 1) + k)
    ensures Ended(l, max, id) == m
  {
    hide Without;
  }

  lemma ShiftedMore(w0: seq<nat>, w: seq<nat>, k: int, id: nat)
    requires Shifted(w0, w, k)
    ensures Shifted(w0, [id] + w, k + 1)
  {
  }

  lemma SuspendOne(reqs: Requests, heads: Buckets, waiting: seq<nat>, b: nat)
    requires QueuesOk(reqs, heads, waiting) && b < |heads| && heads[b] != []
    ensures var id := heads[b][0];
      && id in reqs && QueuesOk(reqs[id := Request(None, 0)], heads[b := heads[b][1..]], [id] + waiting)
      && Total(heads[b := heads[b][1..]]) == Total(heads) - 1
  {
    var id := heads[b][0];
    assert id in heads[b];
    assert Inflight(reqs, id) && Bucket(reqs[id].transId, |heads|) == b;
    hide Bucket, Total, QueuesOk;
    InBucket(reqs, heads, waiting, b, 0);
    RemoveInflight(reqs, heads, waiting, id);
    assert Without(heads[b], id) == heads[b][1..];
    Park(reqs - {id}, heads[b := heads[b][1..]], waiting, id, 0);
    assert (reqs - {id})[id := Request(None, 0)] == reqs[id := Request(None, 0)];
  }

  lemma NoneFiled(reqs: Requests, heads: Buckets, waiting: seq<nat>)
    requires QueuesOk(reqs, heads, waiting) && forall b :: 0 <= b < |heads| ==> heads[b] == []
    ensures forall id :: !Inflight(reqs, id)
  {
    hide Bucket, NoDup;
    EveryBucket(reqs, heads, waiting);
  }

  lemma NoneInflight(reqs: Requests, heads: Buckets, waiting: seq<nat>)
    requires QueuesOk(reqs, heads, waiting) && forall id :: !Inflight(reqs, id)
    ensures Total(heads) == 0
  {
    hide Bucket, NoDup, Total;
    forall b | 0 <= b < |heads| ensures heads[b] == [] {
      if heads[b] != [] {
        InBucket(reqs, heads, waiting, b, 0);
      }
    }
    TotalNone(heads);
  }

  lemma RehashStart(reqs: Requests, heads: Buckets, waiting: seq<nat>, moved: Buckets)
    requires QueuesOk(reqs, heads, waiting) && |moved| > 0 && forall b :: 0 <= b < |moved| ==> moved[b] == []
    ensures Moving(reqs, heads, moved) && Total(moved) == 0
  {
    hide Filed, Moving, Total;
    MoveStart(reqs, heads, moved);
  }

  lemma RehashEnd(reqs: Requests, heads: Buckets, left: Buckets, moved: Buckets, waiting: seq<nat>)
    requires QueuesOk(reqs, heads, waiting) && Moving(reqs, left, moved) && forall b :: 0 <= b < |left| ==> left[b] == []
    ensures QueuesOk(reqs, moved, waiting) && Total(left) == 0
  {
    hide Filed, Moving, Total;
    MoveEnd(reqs, left, moved);
  }

  datatype Answer = Good | ServFail | BadServer(reissue: bool)

  ghost predicate Inserts(r0: Requests, r1: Requests, id: nat) {
    && (forall x :: x in r1 <==> x in r0 || x == id) && r1[id].ns.None?
    && (forall x :: x in r0 && x != id ==> r1[x] == r0[x])
  }

  lemma NotLower(up: States)
    ensures Lowered(up, up)
  {
  }

  lemma SameTarget(r: Requests)
    ensures Retargeted(r, r)
  {
  }

  lemma RetargetedKept(r0: Requests, r1: Requests)
    requires Retargeted(r0, r1)
    ensures Kept(r0, r1, {})
  {
  }

  lemma KeptStill(r0: Requests, r1: Requests, gone: set<nat>, id: nat)
    requires Kept(r0, r1, gone) && Inflight(r0, id)
    ensures if id in gone then id !in r1 else Inflight(r1, id)
  {
  }

  lemma KeptTwice(r0: Requests, r1: Requests, r2: Requests, a: set<nat>, b: set<nat>)
    requires Kept(r0, r1, a) && Kept(r1, r2, b)
    ensures Kept(r0, r2, a + b)
  {
  }

  lemma Finished(r0: Requests, r1: Requests, r2: Requests, id: nat)
    requires r1 == r0 - {id} && Kept(r1, r2, {})
    ensures Kept(r0, r2, {id})
  {
  }

  lemma RealId(reqs: Requests, heads: Buckets, waiting: seq<nat>, id: nat)
    requires QueuesOk(reqs, heads, waiting) && Inflight(reqs, id)
    ensures reqs[id].transId < NO_ID
  {
  }

  lemma NoServers(reqs: Requests, heads: Buckets, waiting: seq<nat>, ring: seq<nat>)
    requires QueuesOk(reqs, heads, waiting) && Assigned(reqs, ring)
    ensures ring == [] ==> Total(heads) == 0
  {
    if ring == [] {
      NoneInflight(reqs, heads, waiting);
    }
  }

  /** What is left of the waiting list when `id` is gone. */
  lemma OthersWait(reqs: Requests, heads: Buckets, waiting: seq<nat>, id: nat)
    requires QueuesOk(reqs, heads, waiting) && id in reqs
    ensures (if Inflight(reqs, id) then waiting else Without(waiting, id)) != [] <==> exists x :: x in waiting && x != id
  {
    hide Filed, DistinctIds, Without;
    WithoutLemma(waiting, id);
    var left := if Inflight(reqs, id) then waiting else Without(waiting, id);
    if left != [] {
      assert left[0] in left;
    }
  }

  lemma IsWaiting(reqs: Requests, heads: Buckets, waiting: seq<nat>, id: nat)
    requires QueuesOk(reqs, heads, waiting)
    ensures id in waiting <==> id in reqs && reqs[id].ns.None?
  {
  }

  lemma LaunchedLemma(r0: Requests, r1: Requests, r2: Requests, r3: Requests, id: nat, r: Request)
    requires id !in r0 && r.ns.Some? && r1 == r0[id := r] && Retargeted(r1, r2) && Retargeted(r2, r3)
    ensures Launched(r0, r3, id)
  {
  }

  lemma Promoted(r0: Requests, r1: Requests, id: nat)
    requires id in r0 && r0[id].ns.None? && Launched(r0 - {id}, r1, id)
    ensures Kept(r0, r1, {}) && Inflight(r1, id)
  {
  }

  lemma HasBuckets(reqs: Requests, heads: Buckets, waiting: seq<nat>)
    requires QueuesOk(reqs, heads, waiting)
    ensures |heads| > 0
  {
  }

  lemma InBucket(reqs: Requests, heads: Buckets, waiting: seq<nat>, b: nat, k: nat)
    requires QueuesOk(reqs, heads, waiting) && b < |heads| && k < |heads[b]|
    ensures Inflight(reqs, heads[b][k])
  {
  }

  lemma EveryBucket(reqs: Requests, heads: Buckets, waiting: seq<nat>)
    requires QueuesOk(reqs, heads, waiting)
    ensures forall id :: Inflight(reqs, id) ==> exists b :: 0 <= b < |heads| && id in heads[b]
  {
    hide Bucket;
    forall id | Inflight(reqs, id) ensures exists b :: 0 <= b < |heads| && id in heads[b] {
      var b := Bucket(reqs[id].transId, |heads|);
      assert 0 <= b < |heads| && id in heads[b];
    }
  }
}
