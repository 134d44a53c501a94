/** The binary heap std::push_heap and std::pop_heap keep, over timer ids ordered by due time. */
module TimerHeap {

  /** struct TimerStruct; a negative count repeats for ever. */
  datatype Timer = Timer(timeNext: int, interval: int, count: int)

  type Memory = map<nat, Timer>

  ghost predicate Ids(h: seq<nat>, mem: Memory) {
    && (forall i :: 0 <= i < |h| ==> h[i] in mem)
    && (forall i, j :: 0 <= i < j < |h| ==> h[i] != h[j])
  }

  function Parent(i: int): int {
    (i - 1) / 2
  }

  ghost predicate Below(h: seq<nat>, mem: Memory, i: int, j: int)
    requires Ids(h, mem) && 0 <= i < |h| && 0 <= j < |h|
  {
    mem[h[i]].timeNext <= mem[h[j]].timeNext
  }

  /** Every entry is due no later than its children, except that entry `k` may be due before its parent. */
  ghost predicate OrderedBut(h: seq<nat>, mem: Memory, k: int)
    requires Ids(h, mem)
  {
    && (forall i :: 0 < i < |h| && i != k ==> Below(h, mem, Parent(i), i))
    && (forall i :: 0 < i < |h| && 0 < k < |h| && Parent(i) == k ==> Below(h, mem, Parent(k), i))
  }

  /** Every entry but `k` is due no later than its children, and `k`'s parent no later than them. */
  ghost predicate OrderedAbove(h: seq<nat>, mem: Memory, k: int)
    requires Ids(h, mem)
  {
    && (forall i :: 0 < i < |h| && Parent(i) != k ==> Below(h, mem, Parent(i), i))
    && (forall i :: 0 < i < |h| && 0 < k < |h| && Parent(i) == k ==> Below(h, mem, Parent(k), i))
  }

  ghost predicate Ordered(h: seq<nat>, mem: Memory)
    requires Ids(h, mem)
  {
    forall i :: 0 < i < |h| ==> Below(h, mem, Parent(i), i)
  }

  ghost predicate SameIds(h: seq<nat>, g: seq<nat>) {
    |h| == |g| && forall x :: x in h <==> x in g
  }

  lemma {:induction false} FrontIsLeast(h: seq<nat>, mem: Memory, i: nat)
    requires Ids(h, mem) && Ordered(h, mem) && i < |h|
    ensures Below(h, mem, 0, i)
  {
    if i > 0 {
      FrontIsLeast(h, mem, Parent(i));
    }
  }

  function Swapped(h: seq<nat>, i: nat, j: nat): seq<nat>
    requires i < |h| && j < |h|
  {
    h[i := h[j]][j := h[i]]
  }

  lemma SwapLemma(h: seq<nat>, mem: Memory, i: nat, j: nat)
    requires Ids(h, mem) && i < j < |h|
    ensures Ids(Swapped(h, i, j), mem) && SameIds(Swapped(h, i, j), h)
  {
    var g := Swapped(h, i, j);
    assert g[i] == h[j] && g[j] == h[i];
    forall x ensures x in g <==> x in h {
      if x in h {
        var k :| 0 <= k < |h| && h[k] == x;
        assert g[if k == i then j else if k == j then i else k] == x;
      }
    }
  }

  /** std::push_heap's sift-up of the last entry.  A front that is due no later stays in front. */
  method PushHeap(h: seq<nat>, mem: Memory) returns (g: seq<nat>)
    requires h != [] && Ids(h, mem) && Ordered(h[..|h| - 1], mem)
    ensures Ids(g, mem) && Ordered(g, mem) && SameIds(g, h)
    ensures |h| > 1 && Below(h, mem, 0, |h| - 1) ==> g[0] == h[0]
  {
    g := h;
    var k := |h| - 1;
    assert forall i :: 0 < i < k ==> h[..k][i] == h[i] && h[..k][Parent(i)] == h[Parent(i)];
    assert forall i :: 0 < i < k ==> Below(h[..k], mem, Parent(i), i);
    ghost var x := h[k];
    while k > 0 && mem[g[Parent(k)]].timeNext > mem[g[k]].timeNext
      invariant 0 <= k < |g| && Ids(g, mem) && OrderedBut(g, mem, k) && SameIds(g, h)
      invariant g[k] == x && (|h| > 1 && Below(h, mem, 0, |h| - 1) ==> k > 0 && g[0] == h[0])
      decreases k
    {
      var p := Parent(k);
      SwapLemma(g, mem, p, k);
      SiftUpLemma(g, mem, k);
      g, k := Swapped(g, p, k), p;
    }
  }

  lemma SiftUpLemma(h: seq<nat>, mem: Memory, k: nat)
    requires Ids(h, mem) && 0 < k < |h| && OrderedBut(h, mem, k) && !Below(h, mem, Parent(k), k)
    ensures Ids(Swapped(h, Parent(k), k), mem) && OrderedBut(Swapped(h, Parent(k), k), mem, Parent(k))
  {
    var p := Parent(k);
    var g := Swapped(h, p, k);
    SwapLemma(h, mem, p, k);
    assert p > 0 ==> Below(h, mem, Parent(p), p);
    forall i | 0 < i < |g| && i != p ensures Below(g, mem, Parent(i), i) {
      var q := Parent(i);
      assert Below(h, mem, q, i) || i == k;
    }
    forall i | 0 < i < |g| && p > 0 && Parent(i) == p ensures Below(g, mem, Parent(p), i) {
      assert i != k ==> Below(h, mem, p, i);
    }
  }

  /** std::pop_heap: the front goes to the end, the rest is a heap again. */
  method PopHeap(h: seq<nat>, mem: Memory) returns (g: seq<nat>)
    requires h != [] && Ids(h, mem) && Ordered(h, mem)
    ensures Ids(g, mem) && SameIds(g, h) && g[|g| - 1] == h[0] && Ordered(g[..|g| - 1], mem)
  {
    var n := |h| - 1;
    if n == 0 {
      return h;
    }
    var t := Swapped(h, 0, n);
    SwapLemma(h, mem, 0, n);
    RootLemma(h, mem);
    var rest := SiftDown(t[..n], mem);
    g := rest + [t[n]];
    AppendBack(rest, t, mem);
  }

  lemma RootLemma(h: seq<nat>, mem: Memory)
    requires |h| > 1 && Ids(h, mem) && Ordered(h, mem)
    ensures var t := Swapped(h, 0, |h| - 1)[..|h| - 1]; Ids(t, mem) && OrderedAbove(t, mem, 0)
  {
    var n := |h| - 1;
    var t := Swapped(h, 0, n)[..n];
    SwapLemma(h, mem, 0, n);
    forall i | 0 < i < n && Parent(i) != 0 ensures Below(t, mem, Parent(i), i) {
      assert Below(h, mem, Parent(i), i);
    }
  }

  lemma AppendBack(rest: seq<nat>, t: seq<nat>, mem: Memory)
    requires t != [] && Ids(t, mem) && Ids(rest, mem) && SameIds(rest, t[..|t| - 1])
    ensures Ids(rest + [t[|t| - 1]], mem) && SameIds(rest + [t[|t| - 1]], t)
  {
    var n := |t| - 1;
    var g := rest + [t[n]];
    assert forall i :: 0 <= i < n ==> rest[i] in rest && rest[i] in t[..n];
    assert t == t[..n] + [t[n]];
    forall x ensures x in g <==> x in t {
      assert x in g <==> x in rest || x == t[n];
      assert x in t <==> x in t[..n] || x == t[n];
    }
  }

  /** The sift-down of the root. */
  method SiftDown(h: seq<nat>, mem: Memory) returns (g: seq<nat>)
    requires h != [] && Ids(h, mem) && OrderedAbove(h, mem, 0)
    ensures Ids(g, mem) && Ordered(g, mem) && SameIds(g, h)
  {
    g := h;
    var k := 0;
    while 2 * k + 1 < |g|
      invariant 0 <= k < |g| && Ids(g, mem) && OrderedAbove(g, mem, k) && SameIds(g, h)
      decreases |g| - k
    {
      var c := 2 * k + 1;
      if c + 1 < |g| && mem[g[c + 1]].timeNext < mem[g[c]].timeNext { c := c + 1; }
      if mem[g[k]].timeNext <= mem[g[c]].timeNext {
        SettledLemma(g, mem, k, c);
        return;
      }
      SwapLemma(g, mem, k, c);
      SiftDownLemma(g, mem, k, c);
      g, k := Swapped(g, k, c), c;
    }
  }

  ghost predicate LeastChild(h: seq<nat>, mem: Memory, k: nat, c: nat)
    requires Ids(h, mem) && k < |h| && c < |h|
  {
    Parent(c) == k && c > 0 && forall i :: 0 < i < |h| && Parent(i) == k ==> Below(h, mem, c, i)
  }

  lemma SettledLemma(h: seq<nat>, mem: Memory, k: nat, c: nat)
    requires Ids(h, mem) && OrderedAbove(h, mem, k) && k < |h| && c < |h|
    requires LeastChild(h, mem, k, c) && Below(h, mem, k, c)
    ensures Ordered(h, mem)
  {
    forall i | 0 < i < |h| ensures Below(h, mem, Parent(i), i) {
      assert Parent(i) == k ==> Below(h, mem, c, i);
    }
  }

  lemma SiftDownLemma(h: seq<nat>, mem: Memory, k: nat, c: nat)
    requires Ids(h, mem) && OrderedAbove(h, mem, k) && k < c < |h|
    requires LeastChild(h, mem, k, c) && !Below(h, mem, k, c)
    ensures Ids(Swapped(h, k, c), mem) && OrderedAbove(Swapped(h, k, c), mem, c)
  {
    var g := Swapped(h, k, c);
    SwapLemma(h, mem, k, c);
    assert k > 0 ==> Below(h, mem, Parent(k), c);
    forall i | 0 < i < |g| && Parent(i) != c ensures Below(g, mem, Parent(i), i) {
      var q := Parent(i);
      if q == k {
        assert Below(h, mem, c, i);
      } else {
        assert Below(h, mem, q, i);
      }
    }
    forall i | 0 < i < |g| && Parent(i) == c ensures Below(g, mem, Parent(c), i) {
      assert Below(h, mem, c, i);
    }
  }
}
