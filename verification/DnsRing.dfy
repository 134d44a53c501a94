/** The circular lists of evdns.c as links: what insertion and removal do to the order of the members. */
module DnsRing {
  import opened Octets
  import opened DnsServers
  import opened DnsQueues

  function After(s: seq<nat>, i: nat): nat
    requires i < |s|
  {
    if i + 1 == |s| then s[0] else s[i + 1]
  }

  function Before(s: seq<nat>, i: nat): nat
    requires i < |s|
  {
    if i == 0 then s[|s| - 1] else s[i - 1]
  }

  type Pointers = map<nat, nat>

  /** From `head`, the links go through the members in order and back. */
  ghost predicate Circle(next: Pointers, prev: Pointers, head: Option<nat>, s: seq<nat>) {
    && NoDup(s) && head == (if s == [] then None else Some(s[0]))
    && (forall i :: 0 <= i < |s| ==> s[i] in next && next[s[i]] == After(s, i))
    && (forall i :: 0 <= i < |s| ==> s[i] in prev && prev[s[i]] == Before(s, i))
  }

  /** Links of other requests are as they were. */
  ghost predicate Elsewhere(p0: Pointers, p1: Pointers, s: seq<nat>) {
    forall x :: x !in s ==> (x in p0 <==> x in p1) && (x in p0 ==> p1[x] == p0[x])
  }

  class Links {
    var next: Pointers
    var prev: Pointers

    /** evdns_request_insert: the request becomes the last. */
    method Insert(req: nat, head: Option<nat>, ghost s: seq<nat>) returns (h: Option<nat>)
      requires Circle(next, prev, head, s) && req !in s
      modifies this
      ensures Circle(next, prev, h, s + [req])
      ensures Elsewhere(old(next), next, s + [req]) && Elsewhere(old(prev), prev, s + [req])
    {
      if head.None? {
        next, prev := next[req := req], prev[req := req];
        return Some(req);
      }
      assert head.value == s[0];
      assert prev[s[0]] == s[|s| - 1];
      prev := prev[req := prev[head.value]];
      next := next[prev[req] := req];
      next := next[req := head.value];
      prev := prev[head.value := req];
      h := head;
      InsertLemma(old(next), old(prev), next, prev, s, req);
    }

    /** evdns_request_remove: the next becomes the head if the head is removed. */
    method Remove(req: nat, head: Option<nat>, ghost s: seq<nat>) returns (h: Option<nat>)
      requires Circle(next, prev, head, s) && req in s
      modifies this
      ensures Circle(next, prev, h, Without(s, req))
      ensures Elsewhere(old(next), next, s) && Elsewhere(old(prev), prev, s)
    {
      hide Circle, Without, NoDup, After, Before;
      ghost var i :| 0 <= i < |s| && s[i] == req;
      CircleAt(next, prev, head, s, i);
      WithoutAt(s, i);
      if next[req] == req {
        OnlyOne(s, i);
        next, prev := next - {req}, prev - {req};
        EmptyCircle(next, prev);
        return None;
      }
      prev := prev[next[req] := prev[req]];
      next := next[prev[req] := next[req]];
      h := if head == Some(req) then Some(next[req]) else head;
      RemoveLemma(old(next), old(prev), next, prev, s, i);
      CircleOutside(next, prev, next - {req}, prev - {req}, h, s[..i] + s[i + 1..], req);
      next, prev := next - {req}, prev - {req};
    }

    /** The head moved back by one. */
    method ShiftBack(head: Option<nat>, ghost s: seq<nat>) returns (h: Option<nat>)
      requires Circle(next, prev, head, s) && s != []
      ensures Circle(next, prev, h, [s[|s| - 1]] + s[..|s| - 1])
    {
      assert head.value == s[0] && prev[s[0]] == s[|s| - 1];
      h := Some(prev[head.value]);
      ghost var t := [s[|s| - 1]] + s[..|s| - 1];
      forall i | 0 <= i < |t| ensures t[i] in next && next[t[i]] == After(t, i) && t[i] in prev && prev[t[i]] == Before(t, i) {
        ghost var k := if i == 0 then |s| - 1 else i - 1;
        assert t[i] == s[k];
      }
    }
  }

  lemma InsertLemma(n0: Pointers, p0: Pointers, n1: Pointers, p1: Pointers, s: seq<nat>, req: nat)
    requires s != [] && Circle(n0, p0, Some(s[0]), s) && req !in s
    requires n1 == n0[s[|s| - 1] := req][req := s[0]] && p1 == p0[req := s[|s| - 1]][s[0] := req]
    ensures Circle(n1, p1, Some(s[0]), s + [req])
  {
    var t := s + [req];
    hide NoDup, After, Before;
    NoDupSnoc(s, req);
    forall i | 0 <= i < |t| ensures t[i] in n1 && n1[t[i]] == After(t, i) && t[i] in p1 && p1[t[i]] == Before(t, i) {
      assert i < |s| ==> s[i] in n0 && n0[s[i]] == After(s, i) && s[i] in p0 && p0[s[i]] == Before(s, i);
      InsertAt(n0, p0, n1, p1, s, req, i);
    }
  }

  lemma NoDupSnoc(s: seq<nat>, x: nat)
    requires NoDup(s) && x !in s
    ensures NoDup(s + [x])
  {
  }

  /** The links at one member. */
  lemma InsertAt(n0: Pointers, p0: Pointers, n1: Pointers, p1: Pointers, s: seq<nat>, req: nat, i: nat)
    requires s != [] && NoDup(s) && req !in s && i <= |s|
    requires i < |s| ==> s[i] in n0 && n0[s[i]] == After(s, i) && s[i] in p0 && p0[s[i]] == Before(s, i)
    requires n1 == n0[s[|s| - 1] := req][req := s[0]] && p1 == p0[req := s[|s| - 1]][s[0] := req]
    ensures var t := s + [req];
      t[i] in n1 && n1[t[i]] == After(t, i) && t[i] in p1 && p1[t[i]] == Before(t, i)
  {
    var t := s + [req];
    assert t[|s|] == req && t[0] == s[0];
    if i < |s| {
      assert t[i] == s[i] && s[i] != req;
      assert i + 1 < |s| ==> t[i + 1] == s[i + 1] && s[i] != s[|s| - 1];
      assert i > 0 ==> t[i - 1] == s[i - 1] && s[i] != s[0];
    }
  }

  lemma {:induction false} WithoutAt(s: seq<nat>, i: nat)
    requires NoDup(s) && i < |s|
    ensures Without(s, s[i]) == s[..i] + s[i + 1..]
  {
    hide NoDup, Without;
    WithoutUnfold(s, s[i]);
    if i == 0 {
      assert s[..0] + s[1..] == s[1..];
    } else {
      NoDupTail(s);
      AtTail(s, i);
      WithoutAt(s[1..], i - 1);
    }
  }

  /** A later member and the rest without it, seen from the tail. */
  lemma AtTail(s: seq<nat>, i: nat)
    requires 0 < i < |s|
    ensures s[1..][i - 1] == s[i] && s[i] in s[1..]
    ensures s[..i] + s[i + 1..] == [s[0]] + (s[1..][..i - 1] + s[1..][i..])
  {
    var t := s[1..];
    assert t[i - 1] == s[i];
    var head := [s[0]] + t[..i - 1];
    forall k | 0 <= k < i ensures s[..i][k] == head[k] {
      assert k > 0 ==> t[k - 1] == s[k];
    }
    assert s[..i] == head;
    assert s[i + 1..] == t[i..];
  }

  lemma WithoutUnfold(s: seq<nat>, id: nat)
    requires s != []
    ensures Without(s, id) == if s[0] == id then s[1..] else [s[0]] + Without(s[1..], id)
  {
  }

  lemma CircleAt(next: Pointers, prev: Pointers, head: Option<nat>, s: seq<nat>, i: nat)
    requires Circle(next, prev, head, s) && i < |s|
    ensures NoDup(s) && head == Some(s[0])
    ensures s[i] in next && next[s[i]] == After(s, i) && s[i] in prev && prev[s[i]] == Before(s, i)
    ensures After(s, i) in s && Before(s, i) in s && After(s, i) in prev && Before(s, i) in next
  {
  }

  lemma EmptyCircle(next: Pointers, prev: Pointers)
    ensures Circle(next, prev, None, [])
  {
  }

  lemma CircleOutside(n0: Pointers, p0: Pointers, n1: Pointers, p1: Pointers, head: Option<nat>, s: seq<nat>, req: nat)
    requires Circle(n0, p0, head, s) && req !in s && n1 == n0 - {req} && p1 == p0 - {req}
    ensures Circle(n1, p1, head, s)
  {
    hide After, Before, NoDup;
  }

  lemma OnlyOne(s: seq<nat>, i: nat)
    requires NoDup(s) && i < |s|
    ensures After(s, i) == s[i] <==> |s| == 1
    ensures |s| == 1 ==> s[..i] + s[i + 1..] == []
  {
  }

  lemma NoDupRemoved(s: seq<nat>, i: nat)
    requires NoDup(s) && i < |s|
    ensures NoDup(s[..i] + s[i + 1..]) && s[i] !in s[..i] + s[i + 1..]
  {
  }

  lemma RemoveLemma(n0: Pointers, p0: Pointers, n1: Pointers, p1: Pointers, s: seq<nat>, i: nat)
    requires |s| > 1 && i < |s| && Circle(n0, p0, Some(s[0]), s)
    requires p1 == p0[After(s, i) := Before(s, i)] && n1 == n0[Before(s, i) := After(s, i)]
    ensures Circle(n1, p1, Some(if i == 0 then After(s, 0) else s[0]), s[..i] + s[i + 1..])
    ensures s[i] !in s[..i] + s[i + 1..]
    ensures s[0] == s[i] <==> i == 0
    ensures i == 0 ==> n1[s[i]] == After(s, 0)
  {
    var t := s[..i] + s[i + 1..];
    NoDupRemoved(s, i);
    assert t[0] == if i == 0 then After(s, 0) else s[0];
    forall k | 0 <= k < |t| ensures t[k] in n1 && n1[t[k]] == After(t, k) && t[k] in p1 && p1[t[k]] == Before(t, k) {
      RemovedAt(n0, p0, n1, p1, s, i, k);
    }
    hide After, Before, NoDup;
    NextOfRemoved(s, i);
  }

  lemma NextOfRemoved(s: seq<nat>, i: nat)
    requires NoDup(s) && i < |s| && |s| > 1
    ensures Before(s, i) != s[i] && After(s, i) != s[i]
  {
  }

  lemma RemovedAt(n0: Pointers, p0: Pointers, n1: Pointers, p1: Pointers, s: seq<nat>, i: nat, k: nat)
    requires |s| > 1 && i < |s| && k < |s| - 1 && Circle(n0, p0, Some(s[0]), s)
    requires p1 == p0[After(s, i) := Before(s, i)] && n1 == n0[Before(s, i) := After(s, i)]
    ensures var t := s[..i] + s[i + 1..];
      t[k] in n1 && n1[t[k]] == After(t, k) && t[k] in p1 && p1[t[k]] == Before(t, k)
  {
    hide After, Before, Circle, NoDup;
    var x := if k < i then k else k + 1;
    CircleAt(n0, p0, Some(s[0]), s, x);
    AfterRemoved(s, i, k);
    BeforeRemoved(s, i, k);
  }

  lemma AfterRemoved(s: seq<nat>, i: nat, k: nat)
    requires NoDup(s) && i < |s| && k < |s| - 1
    ensures var x := if k < i then k else k + 1;
      After(s[..i] + s[i + 1..], k) == if s[x] == Before(s, i) then After(s, i) else After(s, x)
  {
    var t := s[..i] + s[i + 1..];
    assert t[0] == if i == 0 then s[1] else s[0];
  }

  lemma BeforeRemoved(s: seq<nat>, i: nat, k: nat)
    requires NoDup(s) && i < |s| && k < |s| - 1
    ensures var x := if k < i then k else k + 1;
      Before(s[..i] + s[i + 1..], k) == if s[x] == After(s, i) then Before(s, i) else Before(s, x)
  {
    var t := s[..i] + s[i + 1..];
    assert t[|t| - 1] == if i == |s| - 1 then s[i - 1] else s[|s| - 1];
  }
}
