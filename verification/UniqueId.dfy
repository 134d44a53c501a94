/** System/UniqueID.h: ids handed out smallest first, free ids kept as coalesced intervals. */
module UniqueId {

  /** struct FreeID: the ids min..max are free. */
  datatype Interval = Interval(min: int, max: int)

  /** Non-empty intervals in increasing order, no two touching. */
  ghost predicate Coalesced(fs: seq<Interval>) {
    && (forall i :: 0 <= i < |fs| ==> fs[i].min <= fs[i].max)
    && (forall i, j :: 0 <= i < j < |fs| ==> fs[i].max + 1 < fs[j].min)
  }

  predicate Has(f: Interval, x: int) {
    f.min <= x <= f.max
  }

  ghost predicate Covers(fs: seq<Interval>, x: int) {
    exists i :: 0 <= i < |fs| && Has(fs[i], x)
  }

  ghost predicate Outstanding(fs: seq<Interval>, maxId: int, x: int) {
    1 <= x <= maxId && !Covers(fs, x)
  }

  ghost predicate Inside(fs: seq<Interval>, maxId: int) {
    forall i :: 0 <= i < |fs| ==> 1 <= fs[i].min && fs[i].max <= maxId
  }

  class UniqueIdPool {
    var maxId: int
    var free: seq<Interval>

    ghost predicate Valid()
      reads this
    {
      0 <= maxId && Coalesced(free) && Inside(free, maxId)
    }

    /** An id that was handed out and not freed since. */
    ghost predicate Live(x: int)
      reads this
    {
      Outstanding(free, maxId, x)
    }

    constructor ()
      ensures Valid() && forall x :: !Live(x)
    {
      maxId, free := 0, [];
    }

    /** `next`: the smallest positive id that is not live. */
    method Next() returns (r: int)
      requires Valid()
      modifies this
      ensures Valid()
      ensures 1 <= r && !old(Live(r))
      ensures forall x :: 1 <= x < r ==> old(Live(x))
      ensures forall x :: Live(x) <==> old(Live(x)) || x == r
    {
      if free == [] {
        maxId := maxId + 1;
        r := maxId;
        return;
      }
      r := free[0].min;
      NextLemma(free, maxId);
      if free[0].min == free[0].max {
        free := free[1..];
      } else {
        free := [Interval(r + 1, free[0].max)] + free[1..];
      }
    }

    /** `addFree` of a range of live ids. */
    method AddFree(lo: int, hi: int)
      requires Valid() && lo <= hi
      requires forall x :: lo <= x <= hi ==> Live(x)
      modifies this
      ensures Valid() && maxId == old(maxId)
      ensures forall x :: Live(x) <==> old(Live(x)) && !(lo <= x <= hi)
    {
      hide Covers;
      var it := UpperBound(lo);
      forall x | lo <= x <= hi ensures Outstanding(free, maxId, x) { assert Live(x); }
      GapLemma(free, maxId, it, lo, hi);
      if it == 0 {
        if it != |free| && hi + 1 >= free[it].min {
          Put(0, 1, Interval(lo, free[0].max), lo, hi);
          return;
        }
      } else if it == |free| {
        if free[it - 1].max + 1 >= lo {
          Put(it - 1, it, Interval(free[it - 1].min, hi), lo, hi);
          return;
        }
      } else {
        if hi + 1 >= free[it].min {
          if free[it - 1].max + 1 >= lo {
            Put(it - 1, it + 1, Interval(free[it - 1].min, free[it].max), lo, hi);
          } else {
            Put(it, it + 1, Interval(lo, free[it].max), lo, hi);
          }
          return;
        } else if free[it - 1].max + 1 >= lo {
          Put(it - 1, it, Interval(free[it - 1].min, hi), lo, hi);
          return;
        }
      }
      Put(it, it, Interval(lo, hi), lo, hi);
    }

    /** Replace the intervals from `a` up to `b` by `n`, which is what they cover together with lo..hi. */
    method Put(a: nat, b: nat, n: Interval, lo: int, hi: int)
      requires Valid() && a <= b <= |free| && 1 <= lo <= hi <= maxId
      requires Bridges(free, a, b, n, lo, hi)
      modifies this`free
      ensures Valid()
      ensures forall x :: Live(x) <==> old(Live(x)) && !(lo <= x <= hi)
    {
      hide Coalesced, Covers, Bridges, Inside;
      PutCoalesced(free, a, b, n, lo, hi);
      PutInside(free, a, b, n, lo, hi, maxId);
      forall x ensures Covers(free[..a] + [n] + free[b..], x) <==> Covers(free, x) || lo <= x <= hi {
        PutCovers(free, a, b, n, lo, hi, x);
      }
      free := free[..a] + [n] + free[b..];
    }

    /** std::set::upper_bound: the first interval starting after `lo`. */
    method UpperBound(lo: int) returns (i: nat)
      requires Coalesced(free)
      ensures i <= |free|
      ensures forall j :: 0 <= j < i ==> free[j].min <= lo
      ensures forall j :: i <= j < |free| ==> lo < free[j].min
    {
      i := 0;
      while i < |free| && free[i].min <= lo
        invariant 0 <= i <= |free|
        invariant forall j :: 0 <= j < i ==> free[j].min <= lo
      {
        i := i + 1;
      }
    }
  }

  lemma NextLemma(fs: seq<Interval>, maxId: int)
    requires Coalesced(fs) && Inside(fs, maxId) && fs != []
    ensures var r := fs[0].min; var rest := fs[1..];
      && Covers(fs, r) && (forall x :: 1 <= x < r ==> Outstanding(fs, maxId, x))
      && Coalesced(rest) && Inside(rest, maxId)
      && (forall x :: Covers(fs, x) <==> Has(fs[0], x) || Covers(rest, x))
      && (fs[0].min < fs[0].max ==>
            var t := [Interval(r + 1, fs[0].max)] + rest;
            && Coalesced(t) && Inside(t, maxId)
            && forall x :: Covers(t, x) <==> r < x <= fs[0].max || Covers(rest, x))
  {
    var r, rest := fs[0].min, fs[1..];
    CoversSplit(fs, 1);
    assert fs[..1] == [fs[0]];
    CoversOne(fs[0]);
    var one := Interval(r + 1, fs[0].max);
    CoversJoin([one], rest);
    CoversOne(one);
  }

  lemma CoversOne(f: Interval)
    ensures forall x :: Covers([f], x) <==> Has(f, x)
  {
    assert [f][0] == f;
  }

  lemma CoversJoin(a: seq<Interval>, b: seq<Interval>)
    ensures forall x :: Covers(a + b, x) <==> Covers(a, x) || Covers(b, x)
  {
    forall x
      ensures Covers(a + b, x) <==> Covers(a, x) || Covers(b, x)
    {
      if Covers(a, x) {
        var i :| 0 <= i < |a| && Has(a[i], x);
        assert (a + b)[i] == a[i];
      }
      if Covers(b, x) {
        var i :| 0 <= i < |b| && Has(b[i], x);
        assert (a + b)[|a| + i] == b[i];
      }
    }
  }

  lemma CoversSplit(fs: seq<Interval>, k: nat)
    requires k <= |fs|
    ensures forall x :: Covers(fs, x) <==> Covers(fs[..k], x) || Covers(fs[k..], x)
  {
    assert fs == fs[..k] + fs[k..];
    CoversJoin(fs[..k], fs[k..]);
  }

  /** `n` is the union of lo..hi with the at most two intervals a..b it touches, and touches nothing else. */
  ghost predicate Bridges(fs: seq<Interval>, a: nat, b: nat, n: Interval, lo: int, hi: int)
    requires a <= b <= |fs|
  {
    && lo <= hi
    && (a > 0 ==> fs[a - 1].max + 1 < n.min)
    && (b < |fs| ==> n.max + 1 < fs[b].min)
    && (b == a ==> n == Interval(lo, hi))
    && (b == a + 1 ==>
          || (fs[a].max + 1 == lo && n == Interval(fs[a].min, hi))
          || (hi + 1 == fs[a].min && n == Interval(lo, fs[a].max)))
    && (b == a + 2 ==>
          fs[a].max + 1 == lo && hi + 1 == fs[a + 1].min && n == Interval(fs[a].min, fs[a + 1].max))
    && b <= a + 2
  }

  /** The bridged intervals and the range together are `n`. */
  lemma BridgeCovers(fs: seq<Interval>, a: nat, b: nat, n: Interval, lo: int, hi: int, x: int)
    requires Coalesced(fs) && a <= b <= |fs| && Bridges(fs, a, b, n, lo, hi)
    ensures Has(n, x) <==> Covers(fs[a..b], x) || lo <= x <= hi
  {
    var m := fs[a..b];
    if b == a + 1 {
      assert m == [fs[a]];
      CoversOne(fs[a]);
    } else if b == a + 2 {
      assert m == [fs[a]] + [fs[a + 1]];
      CoversJoin([fs[a]], [fs[a + 1]]);
      CoversOne(fs[a]);
      CoversOne(fs[a + 1]);
    }
  }

  lemma PutCoalesced(fs: seq<Interval>, a: nat, b: nat, n: Interval, lo: int, hi: int)
    requires Coalesced(fs) && a <= b <= |fs| && Bridges(fs, a, b, n, lo, hi)
    ensures Coalesced(fs[..a] + [n] + fs[b..])
  {
    hide Bridges;
    BridgeBounds(fs, a, b, n, lo, hi);
    var t := fs[..a] + [n] + fs[b..];
    forall i | 0 <= i < |t| ensures t[i].min <= t[i].max {
      PutAt(fs, a, b, n, i);
    }
    forall i, j | 0 <= i < j < |t| ensures t[i].max + 1 < t[j].min {
      PutAt(fs, a, b, n, i);
      PutAt(fs, a, b, n, j);
      PutApart(fs, a, b, n, i, j);
    }
  }

  /** The interval at `i` of the new list. */
  ghost function NewAt(fs: seq<Interval>, a: nat, b: nat, n: Interval, i: nat): Interval
    requires a <= b <= |fs| && i < a + 1 + (|fs| - b)
  {
    if i < a then fs[i] else if i == a then n else fs[b + i - a - 1]
  }

  lemma PutApart(fs: seq<Interval>, a: nat, b: nat, n: Interval, i: nat, j: nat)
    requires Coalesced(fs) && a <= b <= |fs| && i < j < a + 1 + (|fs| - b)
    requires (a > 0 ==> fs[a - 1].max + 1 < n.min) && (b < |fs| ==> n.max + 1 < fs[b].min)
    ensures NewAt(fs, a, b, n, i).max + 1 < NewAt(fs, a, b, n, j).min
  {
    if i == a {
      assert fs[b].min <= fs[b + j - a - 1].min;
    } else if j == a {
      assert fs[i].max <= fs[a - 1].max;
    }
  }

  lemma PutAt(fs: seq<Interval>, a: nat, b: nat, n: Interval, i: nat)
    requires a <= b <= |fs| && i < a + 1 + (|fs| - b)
    ensures (fs[..a] + [n] + fs[b..])[i] == NewAt(fs, a, b, n, i)
  {
  }

  lemma BridgeBounds(fs: seq<Interval>, a: nat, b: nat, n: Interval, lo: int, hi: int)
    requires Coalesced(fs) && a <= b <= |fs| && Bridges(fs, a, b, n, lo, hi)
    ensures n.min <= n.max && (a > 0 ==> fs[a - 1].max + 1 < n.min) && (b < |fs| ==> n.max + 1 < fs[b].min)
  {
  }

  lemma PutInside(fs: seq<Interval>, a: nat, b: nat, n: Interval, lo: int, hi: int, maxId: int)
    requires a <= b <= |fs| && Bridges(fs, a, b, n, lo, hi) && Inside(fs, maxId) && 1 <= lo && hi <= maxId
    ensures Inside(fs[..a] + [n] + fs[b..], maxId)
  {
    var t := fs[..a] + [n] + fs[b..];
    forall i | 0 <= i < |t| ensures 1 <= t[i].min && t[i].max <= maxId {
      PutAt(fs, a, b, n, i);
    }
  }

  lemma PutCovers(fs: seq<Interval>, a: nat, b: nat, n: Interval, lo: int, hi: int, x: int)
    requires Coalesced(fs) && a <= b <= |fs| && Bridges(fs, a, b, n, lo, hi)
    ensures Covers(fs[..a] + [n] + fs[b..], x) <==> Covers(fs, x) || lo <= x <= hi
  {
    CoversJoin(fs[..a] + [n], fs[b..]);
    CoversJoin(fs[..a], [n]);
    CoversOne(n);
    BridgeCovers(fs, a, b, n, lo, hi, x);
    CoversSplit(fs, a);
    CoversSplit(fs[a..], b - a);
    assert fs[a..][b - a..] == fs[b..] && fs[a..][..b - a] == fs[a..b];
  }

  /** The range lies strictly between the intervals around it. */
  lemma GapLemma(fs: seq<Interval>, maxId: int, it: nat, lo: int, hi: int)
    requires Coalesced(fs) && it <= |fs| && lo <= hi
    requires forall x :: lo <= x <= hi ==> Outstanding(fs, maxId, x)
    requires forall j :: 0 <= j < it ==> fs[j].min <= lo
    requires forall j :: it <= j < |fs| ==> lo < fs[j].min
    ensures 1 <= lo && hi <= maxId
    ensures it > 0 ==> fs[it - 1].max < lo
    ensures it < |fs| ==> hi < fs[it].min
  {
    assert Outstanding(fs, maxId, lo) && Outstanding(fs, maxId, hi);
    assert it > 0 ==> !Has(fs[it - 1], lo);
    if it < |fs| {
      var m := fs[it].min;
      assert Has(fs[it], m);
      assert Covers(fs, m);
      assert !Outstanding(fs, maxId, m);
    }
  }

  /** What a client sees: an id it got, or a range it gave back. */
  datatype Event = Got(id: int) | Freed(lo: int, hi: int)

  /** The ids a client holds after a history of events. */
  ghost predicate Holds(h: seq<Event>, x: int) {
    h != [] &&
    match h[|h| - 1]
    case Got(id) => x == id || Holds(h[..|h| - 1], x)
    case Freed(lo, hi) => !(lo <= x <= hi) && Holds(h[..|h| - 1], x)
  }

  /** Every id handed out was the smallest positive one not held at that moment. */
  ghost predicate Sound(h: seq<Event>) {
    h != [] ==>
      && Sound(h[..|h| - 1])
      && (h[|h| - 1].Got? ==> SmallestNotHeld(h[..|h| - 1], h[|h| - 1].id))
  }

  ghost predicate SmallestNotHeld(h: seq<Event>, id: int) {
    1 <= id && !Holds(h, id) && forall x :: 1 <= x < id ==> Holds(h, x)
  }

  datatype Request = Take | Give(lo: int, hi: int)

  /** A client's run: it takes ids, and gives back ranges it holds (other give-backs are not attempted). */
  method Run(pool: UniqueIdPool, reqs: seq<Request>) returns (h: seq<Event>)
    requires pool.Valid() && forall x :: !pool.Live(x)
    modifies pool
    ensures pool.Valid() && Sound(h)
    ensures forall x :: pool.Live(x) <==> Holds(h, x)
  {
    h := [];
    var held: set<int> := {};
    for i := 0 to |reqs|
      invariant pool.Valid() && Sound(h)
      invariant forall x :: x in held <==> Holds(h, x)
      invariant forall x :: pool.Live(x) <==> Holds(h, x)
    {
      match reqs[i] {
        case Take =>
          var id := TakeOne(pool, h);
          h, held := h + [Got(id)], held + {id};
        case Give(lo, hi) =>
          if lo <= hi && forall x :: lo <= x <= hi ==> x in held {
            GiveRange(pool, h, lo, hi);
            h := h + [Freed(lo, hi)];
            held := set x | x in held && !(lo <= x <= hi);
          }
      }
    }
  }

  method TakeOne(pool: UniqueIdPool, ghost h: seq<Event>) returns (id: int)
    requires pool.Valid() && Sound(h)
    requires forall x :: pool.Live(x) <==> Holds(h, x)
    modifies pool
    ensures pool.Valid() && Sound(h + [Got(id)])
    ensures forall x :: Holds(h + [Got(id)], x) <==> x == id || Holds(h, x)
    ensures forall x :: pool.Live(x) <==> Holds(h + [Got(id)], x)
  {
    hide Covers, Outstanding;
    id := pool.Next();
    assert (h + [Got(id)])[..|h|] == h;
  }

  method GiveRange(pool: UniqueIdPool, ghost h: seq<Event>, lo: int, hi: int)
    requires pool.Valid() && Sound(h) && lo <= hi
    requires forall x :: pool.Live(x) <==> Holds(h, x)
    requires forall x :: lo <= x <= hi ==> Holds(h, x)
    modifies pool
    ensures pool.Valid() && Sound(h + [Freed(lo, hi)])
    ensures forall x :: Holds(h + [Freed(lo, hi)], x) <==> !(lo <= x <= hi) && Holds(h, x)
    ensures forall x :: pool.Live(x) <==> Holds(h + [Freed(lo, hi)], x)
  {
    hide Covers, Outstanding;
    forall x | lo <= x <= hi ensures pool.Live(x) { assert Holds(h, x); }
    pool.AddFree(lo, hi);
    assert (h + [Freed(lo, hi)])[..|h|] == h;
  }
}
