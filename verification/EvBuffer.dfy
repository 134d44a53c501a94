/**
 event/buffer.c on unpinned, mutable chains: the chain list, the cached
 `last_with_datap` pointer, and the operations that move bytes.

 A buffer's list is a sequence of chains.  A pointer to a chain is its index,
 and a pointer to a slot is the index of the chain the slot holds: slot 0 is
 `&buf->first`, slot i+1 is `&chain->next` of chain i, and the slot past the
 last chain holds NULL.  `buf->last` is the last element.
 */
module EvBuffer {
  import opened Octets
  import opened Chunks
  import opened EvChain

  const EVBUFFER_CHAIN_MAX_AUTO_SIZE: nat := 4096
  const MAX_TO_COPY_IN_EXPAND: nat := 4096

  /** How an operation ended: success, refused by a freeze flag, or aborted by EVUTIL_ASSERT. */
  datatype Outcome = Done | Refused | AssertionFailed

  /** The index of the first empty chunk from `i` on (the first "victim" chain). */
  ghost function FirstEmpty<T>(cs: seq<seq<T>>, i: nat): (v: nat)
    requires i <= |cs|
    ensures i <= v <= |cs|
    ensures forall j :: i <= j < v ==> cs[j] != []
    ensures v < |cs| ==> cs[v] == []
    decreases |cs| - i
  {
    if i < |cs| && cs[i] != [] then FirstEmpty(cs, i + 1) else i
  }

  /** What the pointers of a buffer say: its chunks, and the chunk `*last_with_datap`. */
  datatype View = View(cs: seq<seq<Byte>>, at: nat)

  /**
   The effect of evbuffer_add on the pointers.  `room` is the space behind the last
   chain, `fits` whether the data can go there (directly or after realigning).
   None: the assertion of evbuffer_chain_insert fails.
   */
  ghost function AddView(v: View, room: nat, fits: bool, data: seq<Byte>): Option<View>
    requires v.at == 0 || v.at < |v.cs|
    requires !fits ==> v.cs != [] && room < |data|
  {
    var cs := if v.cs == [] then [[]] else v.cs;
    var n := |cs| - 1;
    if fits then Some(View(cs[n := cs[n] + data], v.at))
    else
      var filled := cs[n := cs[n] + data[..room]];
      var f := FirstEmpty(filled, v.at);
      if !EmptyFrom(filled, f) then None
      else Some(View(filled[..f] + [data[room..]], if f == |cs| then f else v.at))
  }

  /** When evbuffer_add leaves `last_with_datap` right, given that it was right before. */
  ghost predicate AddSafe(v: View, room: nat, fits: bool, len: nat) {
    || len == 0
    || v.at + 1 >= |v.cs|
    || (!fits && if v.cs[v.at] == [] then room == 0 else room > 0 && v.at + 2 == |v.cs|)
  }

  /** A chain takes `len` more bytes, as it is or realigned. */
  predicate FitsIn(c: Chain, len: nat)
    requires c.Ok()
  {
    len <= c.Space() || c.ShouldRealign(len)
  }

  lemma FlatAppendLast(cs: seq<seq<Byte>>, data: seq<Byte>)
    requires cs != []
    ensures Flat(cs[|cs| - 1 := cs[|cs| - 1] + data]) == Flat(cs) + data
  {
    var n := |cs| - 1;
    var t := cs[n := cs[n] + data];
    FlatSplitAt(cs, n);
    FlatSplitAt(t, n);
    assert t[..n] == cs[..n];
  }

  /** evbuffer_add appends to the flat contents wherever `last_with_datap` points. */
  lemma AddViewFlat(v: View, room: nat, fits: bool, data: seq<Byte>)
    requires v.at == 0 || v.at < |v.cs|
    requires !fits ==> v.cs != [] && room < |data|
    ensures var r := AddView(v, room, fits, data);
      r.Some? ==> Flat(r.value.cs) == Flat(v.cs) + data
  {
    if v.cs == [] {
      FlatAppendLast([[]], data);
      FlatSingle<Byte>([]);
    } else if fits {
      FlatAppendLast(v.cs, data);
    } else {
      FlatAppendLast(v.cs, data[..room]);
      var filled := v.cs[|v.cs| - 1 := v.cs[|v.cs| - 1] + data[..room]];
      var f := FirstEmpty(filled, v.at);
      if EmptyFrom(filled, f) {
        SpillFlat(v.cs, filled, f, room, data);
      }
    }
  }

  /** The last chain's space is filled and a new chain takes the rest. */
  lemma SpillFlat(cs: seq<seq<Byte>>, filled: seq<seq<Byte>>, f: nat, room: nat, data: seq<Byte>)
    requires f <= |filled| && EmptyFrom(filled, f) && room <= |data| && Flat(filled) == Flat(cs) + data[..room]
    ensures Flat(filled[..f] + [data[room..]]) == Flat(cs) + data
  {
    hide Flat, EmptyFrom;
    FlatTrim(filled, f);
    FlatConcat(filled[..f], [data[room..]]);
    FlatSingle(data[room..]);
    assert data[..room] + data[room..] == data;
  }

  /** The exact condition under which evbuffer_add keeps `last_with_datap` right. */
  lemma AddViewKeeps(v: View, room: nat, fits: bool, data: seq<Byte>)
    requires IsLastData(v.cs, v.at)
    requires !fits ==> v.cs != [] && room < |data|
    ensures var r := AddView(v, room, fits, data);
      AddSafe(v, room, fits, |data|) <==> r.Some? && IsLastData(r.value.cs, r.value.at)
  {
    if v.cs != [] {
      var n := |v.cs| - 1;
      if fits {
        assert v.cs[n := v.cs[n] + data][n] == v.cs[n] + data;
      } else {
        var filled := v.cs[n := v.cs[n] + data[..room]];
        var f := FirstEmpty(filled, v.at);
        assert filled[n] == v.cs[n] + data[..room];
        if v.at < n {
          assert filled[v.at] == v.cs[v.at];
          if room > 0 && v.at + 1 < n {
            assert filled[v.at + 1] == [];
            assert f <= v.at + 1 < n && filled[n] != [];
          } else if room == 0 {
            assert filled == v.cs;
            assert f <= v.at + 1;
            assert (filled[..f] + [data[room..]])[f] != [];
          }
        }
      }
    }
  }

  /** A gap of empty chunks before data stays a gap: evbuffer_add never repairs it. */
  lemma AddViewGap(v: View, room: nat, fits: bool, data: seq<Byte>)
    requires v.at + 1 < |v.cs| && v.cs[v.at + 1] == [] && !EmptyFrom(v.cs, v.at + 1)
    requires !fits ==> room < |data|
    ensures var r := AddView(v, room, fits, data);
      r.Some? ==> !IsLastData(r.value.cs, r.value.at)
  {
    var n := |v.cs| - 1;
    var j :| v.at + 1 <= j < |v.cs| && v.cs[j] != [];
    if fits {
      assert v.cs[n := v.cs[n] + data][j] != [];
    } else {
      var filled := v.cs[n := v.cs[n] + data[..room]];
      assert filled[j] != [] && filled[v.at + 1] == [];
      assert FirstEmpty(filled, v.at) <= v.at + 1;
    }
  }

  lemma AddViewTight(v: View, room: nat, fits: bool, data: seq<Byte>)
    requires IsLastData(v.cs, v.at) && Tight(v.cs)
    requires !fits ==> v.cs != [] && room < |data|
    ensures AddSafe(v, room, fits, |data|)
    ensures var r := AddView(v, room, fits, data); r.Some? && Tight(r.value.cs)
  {
    AddViewKeeps(v, room, fits, data);
  }

  lemma PrependSplitLemma(data: seq<Byte>, head: nat, rest: seq<Byte>)
    requires head <= |data|
    ensures data[..head] + (data[head..] + rest) == data + rest
    ensures data[0..] == data
  {
  }

  lemma PrependLemma(cs: seq<seq<Byte>>, k: nat, data: seq<Byte>)
    requires cs != [] && IsLastData(cs, k)
    ensures var t := [data + cs[0]] + cs[1..];
      && IsLastData(t, k) && Flat(t) == data + Flat(cs)
  {
    var t := [data + cs[0]] + cs[1..];
    assert t[1..] == cs[1..];
  }

  lemma PrependNewLemma(cs: seq<seq<Byte>>, k: nat, data: seq<Byte>)
    requires cs != [] && cs[0] != [] && IsLastData(cs, k)
    ensures var t := [data] + cs;
      && IsLastData(t, k + 1) && Flat(t) == data + Flat(cs)
  {
    var t := [data] + cs;
    assert t[1..] == cs;
  }

  /** Draining never gets past the last chunk with data while bytes remain. */
  lemma DrainStepLemma(cs: seq<seq<Byte>>, k: nat, i: nat, len: nat)
    requires IsLastData(cs, k) && i <= k && i < |cs| && len < |Flat(cs)|
    requires |Flat(cs[..i])| + |cs[i]| <= len
    ensures i < k < |cs|
    ensures Flat(cs[..i + 1]) == Flat(cs[..i]) + cs[i]
  {
    hide Flat;
    FlatNext(cs, i);
    if i == k {
      FlatTrim(cs, k + 1);
    }
  }

  lemma DrainLemma(cs: seq<seq<Byte>>, k: nat, i: nat, rem: nat)
    requires IsLastData(cs, k) && i <= k && i < |cs| && rem < |cs[i]|
    ensures var t := [cs[i][rem..]] + cs[i + 1..];
      && IsLastData(t, k - i)
      && |Flat(cs[..i])| + rem <= |Flat(cs)|
      && Flat(t) == Flat(cs)[|Flat(cs[..i])| + rem..]
      && (Tight(cs) ==> Tight(t))
  {
    hide Flat, IsLastData, Tight;
    var t := [cs[i][rem..]] + cs[i + 1..];
    DrainShape(cs, k, i, rem);
    FlatSplitAt(cs, i);
    FlatSplitAt(t, 0);
    FlatEmpty<Byte>([]);
    assert t[..0] == [] && t[1..] == cs[i + 1..];
    DropInside(Flat(cs[..i]), cs[i], Flat(cs[i + 1..]), rem);
  }

  /** The chunks left by a drain, one by one. */
  lemma DrainShape(cs: seq<seq<Byte>>, k: nat, i: nat, rem: nat)
    requires IsLastData(cs, k) && i <= k && i < |cs| && rem < |cs[i]|
    ensures var t := [cs[i][rem..]] + cs[i + 1..];
      IsLastData(t, k - i) && (Tight(cs) ==> Tight(t))
  {
    var t := [cs[i][rem..]] + cs[i + 1..];
    assert t[0] != [] && forall j :: 1 <= j < |t| ==> t[j] == cs[i + j];
  }

  lemma DropInside(a: seq<Byte>, b: seq<Byte>, c: seq<Byte>, n: nat)
    requires n <= |b|
    ensures (a + b + c)[|a| + n..] == [] + b[n..] + c
  {
  }

  lemma DrainResult(s: seq<Chain>, k: nat, i: nat, rem: nat, c: Chain, len: nat)
    requires AllOk(s) && IsLastData(ChunksOf(s), k) && i <= k && i < |s| && rem < s[i].off
    requires c.Ok() && c.Bytes() == s[i].Bytes()[rem..]
    requires len == |Flat(ChunksOf(s)[..i])| + rem
    ensures var t := [c] + s[i + 1..];
      && AllOk(t) && IsLastData(ChunksOf(t), k - i)
      && len <= |Flat(ChunksOf(s))| && Flat(ChunksOf(t)) == Flat(ChunksOf(s))[len..]
      && (Tight(ChunksOf(s)) ==> Tight(ChunksOf(t)))
  {
    DrainLemma(ChunksOf(s), k, i, rem);
    ChunksCut(s, i, c);
  }

  lemma CopyStepLemma(cs: seq<seq<Byte>>, i: nat, n: nat)
    requires i <= |cs| && |Flat(cs[..i])| < n <= |Flat(cs)|
    ensures i < |cs| && Flat(cs[..i + 1]) == Flat(cs[..i]) + cs[i]
    ensures Flat(cs[..i]) <= Flat(cs) && Flat(cs[..i + 1]) <= Flat(cs)
  {
    hide Flat;
    FlatSplit(cs, i);
    assert cs[..|cs|] == cs;
    FlatNext(cs, i);
  }

  lemma AppendLemma(a: seq<seq<Byte>>, b: seq<seq<Byte>>, k: nat)
    requires IsLastData(b, k) && Flat(b) != []
    ensures IsLastData(a + b, |a| + k)
    ensures Flat(a + b) == Flat(a) + Flat(b)
  {
    FlatConcat(a, b);
    if k == 0 && b[0] == [] {
      FlatEmpty(b);
    }
  }

  lemma ChunksCut(s: seq<Chain>, i: nat, c: Chain)
    requires AllOk(s) && i < |s| && c.Ok()
    ensures AllOk([c] + s[i + 1..])
    ensures ChunksOf([c] + s[i + 1..]) == [c.Bytes()] + ChunksOf(s)[i + 1..]
  {
  }

  lemma TakePrefix(p: seq<Byte>, s: seq<Byte>, n: nat)
    requires p <= s && n <= |p|
    ensures p[..n] == s[..n]
  {
  }

  lemma TightConcat(a: seq<seq<Byte>>, b: seq<seq<Byte>>)
    requires Flat(a) != [] && Flat(b) != []
    ensures Tight(a) && Tight(b) ==> Tight(a + b)
  {
    if Tight(a) && Tight(b) {
      assert a[0] != [] by { if a[0] == [] { FlatEmpty(a); } }
      assert b[0] != [] by { if b[0] == [] { FlatEmpty(b); } }
    }
  }

  lemma FlatNil(a: seq<Byte>, b: seq<Byte>)
    requires a == []
    ensures a + b == b && b + a == b
  {
  }

  lemma ChunksConcat(a: seq<Chain>, b: seq<Chain>)
    requires AllOk(a) && AllOk(b)
    ensures AllOk(a + b) && ChunksOf(a + b) == ChunksOf(a) + ChunksOf(b)
  {
  }

  lemma ChunksReplace(s: seq<Chain>, p: nat, c: Chain)
    requires AllOk(s) && p < |s| && c.Ok() && c.Bytes() == s[p].Bytes()
    ensures AllOk(s[p := c]) && ChunksOf(s[p := c]) == ChunksOf(s)
  {
  }

  /** More than the first chunk is asked for, so the last chunk with data is a later one. */
  lemma PullNeedsMore(cs: seq<seq<Byte>>, k: nat, size: nat)
    requires IsLastData(cs, k) && cs != [] && |cs[0]| < size <= |Flat(cs)|
    ensures 1 <= k < |cs|
    ensures Flat(cs) == cs[0] + Flat(cs[1..])
  {
    if k == 0 {
      FlatEmpty(cs[1..]);
    }
  }

  /** The chunks after pulling the first `i` chunks and `left` bytes of the next into one. */
  ghost function Pulled(cs: seq<seq<Byte>>, i: nat, left: nat): seq<seq<Byte>>
    requires i <= |cs| && (i < |cs| ==> left < |cs[i]|)
  {
    if i == |cs| then [Flat(cs)]
    else [Flat(cs[..i]) + cs[i][..left], cs[i][left..]] + cs[i + 1..]
  }

  lemma PulledFlat(cs: seq<seq<Byte>>, i: nat, left: nat)
    requires i <= |cs| && (i < |cs| ==> left < |cs[i]|)
    ensures Flat(Pulled(cs, i, left)) == Flat(cs)
  {
    hide Flat;
    var t := Pulled(cs, i, left);
    if i == |cs| {
      FlatSingle(Flat(cs));
    } else {
      var a, b := cs[i][..left], cs[i][left..];
      FlatSplitAt(cs, i);
      FlatSplitAt(t, 1);
      assert t[..1] == [Flat(cs[..i]) + a] && t[2..] == cs[i + 1..];
      FlatSingle(Flat(cs[..i]) + a);
      assert cs[i] == a + b;
    }
  }

  lemma PulledLast(cs: seq<seq<Byte>>, k: nat, i: nat, left: nat)
    requires IsLastData(cs, k) && 1 <= k < |cs|
    requires i <= |cs| && (i < |cs| ==> left < |cs[i]|)
    ensures k < i ==> i == |cs|
    ensures IsLastData(Pulled(cs, i, left), if k < i then 0 else k - i + 1)
  {
    if i < |cs| {
      var t := Pulled(cs, i, left);
      assert forall j :: 2 <= j < |t| ==> t[j] == cs[j + i - 1];
    }
  }

  lemma PulledTight(cs: seq<seq<Byte>>, i: nat, left: nat)
    requires Tight(cs) && i <= |cs| && (i < |cs| ==> left < |cs[i]|)
    requires i > 0 || left > 0
    ensures Tight(Pulled(cs, i, left))
  {
    if i < |cs| {
      var t := Pulled(cs, i, left);
      assert forall j :: 2 <= j < |t| ==> t[j] == cs[j + i - 1];
      if i > 0 {
        FlatSplitAt(cs[..i], 0);
      }
    }
  }

  lemma PulledChunks(s: seq<Chain>, i: nat, left: nat, tmp: Chain, cut: seq<Chain>)
    requires AllOk(s) && i <= |s| && (i < |s| ==> left < s[i].off) && tmp.Ok()
    requires i == |s| ==> cut == [] && tmp.Bytes() == Flat(ChunksOf(s))
    requires i < |s| ==> |cut| == 1 && cut[0].Ok() && cut[0].Bytes() == s[i].Bytes()[left..]
    requires i < |s| ==> tmp.Bytes() == Flat(ChunksOf(s)[..i]) + s[i].Bytes()[..left]
    ensures var t := [tmp] + cut + (if i < |s| then s[i + 1..] else []);
      AllOk(t) && ChunksOf(t) == Pulled(ChunksOf(s), i, left)
  {
  }

  lemma FirstEmptyIs<T>(cs: seq<seq<T>>, i: nat, v: nat)
    requires i <= v <= |cs| && (v < |cs| ==> cs[v] == [])
    requires forall j :: i <= j < v ==> cs[j] != []
    ensures FirstEmpty(cs, i) == v
  {
  }

  /** Where advance_last_with_data stops: before the first empty chunk. */
  ghost function Advanced<T>(cs: seq<seq<T>>, k: nat): nat
    requires k == 0 || k < |cs|
  {
    if k < |cs| then FirstEmpty(cs, k + 1) - 1 else k
  }

  /** How many leading chunks `n` bytes cover entirely. */
  ghost function Whole(cs: seq<seq<Byte>>, n: nat): (k: nat)
    ensures k <= |cs| && |Flat(cs[..k])| <= n
  {
    if cs == [] || n < |cs[0]| then 0
    else
      var k := Whole(cs[1..], n - |cs[0]|);
      assert cs[..1 + k][1..] == cs[1..][..k];
      1 + k
  }

  lemma {:induction false} WholeUnique(cs: seq<seq<Byte>>, n: nat, k: nat)
    requires k < |cs| && |Flat(cs[..k])| <= n < |Flat(cs[..k])| + |cs[k]|
    ensures Whole(cs, n) == k
  {
    if k > 0 {
      assert cs[..k][1..] == cs[1..][..k - 1];
      WholeUnique(cs[1..], n - |cs[0]|, k - 1);
    }
  }

  /** The end of the run of data chunks that moves; a leading empty one is harmless when the target is empty. */
  ghost function RunEnd(intoEmpty: bool, moved: seq<seq<Byte>>): nat
    requires moved != []
  {
    FirstEmpty(moved, if intoEmpty then 1 else 0)
  }

  /** The whole chains that move are a run of data, possibly followed by empty ones. */
  ghost predicate OneRun(intoEmpty: bool, moved: seq<seq<Byte>>)
    requires moved != []
  {
    EmptyFrom(moved, RunEnd(intoEmpty, moved))
  }

  ghost predicate NoneEmpty(cs: seq<seq<Byte>>) {
    forall i :: 0 <= i < |cs| ==> cs[i] != []
  }

  lemma KeptFlat(dst: View)
    requires IsLastData(dst.cs, dst.at)
    ensures var v := FirstEmpty(dst.cs, dst.at);
      && v == (if Flat(dst.cs) == [] then 0 else dst.at + 1)
      && (v == 0 ==> dst.at == 0)
      && EmptyFrom(dst.cs, v) && Flat(dst.cs[..v]) == Flat(dst.cs)
      && (Tight(dst.cs) ==> NoneEmpty(dst.cs[..v]))
  {
    var v := FirstEmpty(dst.cs, dst.at);
    if dst.at < |dst.cs| && dst.cs[dst.at] != [] {
      FlatSplitAt(dst.cs, dst.at);
      FirstEmptyIs(dst.cs, dst.at, dst.at + 1);
    } else {
      FlatEmpty(dst.cs);
    }
    FlatTrim(dst.cs, v);
  }

  lemma SpliceRun(a: seq<seq<Byte>>, moved: seq<seq<Byte>>, p: nat)
    requires p <= |moved| && EmptyFrom(moved, p) && Flat(moved) != []
    requires a == [] ==> p >= 1
    requires forall j :: (if a == [] then 1 else 0) <= j < p ==> moved[j] != []
    ensures var cs, k := a + moved, |a| + p - 1; IsLastData(cs, k) && k < |cs| && cs[k] != []
  {
    var cs := a + moved;
    assert forall j :: |a| <= j < |cs| ==> cs[j] == moved[j - |a|];
    if p == 0 || moved[p - 1] == [] {
      FlatEmpty(moved);
    }
  }

  lemma SpliceGap(a: seq<seq<Byte>>, moved: seq<seq<Byte>>, p: nat)
    requires p < |moved| && moved[p] == [] && !EmptyFrom(moved, p)
    ensures var cs, k := a + moved, |a| + p; cs[k] == [] && !EmptyFrom(cs, k)
  {
    var j :| p <= j < |moved| && moved[j] != [];
    assert (a + moved)[|a| + j] != [];
  }

  lemma SpliceAdvance(a: seq<seq<Byte>>, moved: seq<seq<Byte>>)
    requires moved != []
    ensures |a| + RunEnd(a == [], moved) - 1 == Advanced(a + moved, if a == [] then 0 else |a| - 1)
  {
    var cs, p := a + moved, RunEnd(a == [], moved);
    assert forall j :: |a| <= j < |cs| ==> cs[j] == moved[j - |a|];
    FirstEmptyIs(cs, if a == [] then 1 else |a|, |a| + p);
  }

  /**
   advance_last_with_data after splicing `moved` behind the kept chunks `a`: `last_with_datap`
   is right exactly when the moved chunks are one run; otherwise a gap follows it.
   */
  lemma SpliceKeeps(a: seq<seq<Byte>>, moved: seq<seq<Byte>>)
    requires moved != [] && Flat(moved) != []
    ensures var cs, p := a + moved, RunEnd(a == [], moved); var k := |a| + p - 1;
      && 0 <= k == Advanced(cs, if a == [] then 0 else |a| - 1)
      && (OneRun(a == [], moved) ==> IsLastData(cs, k) && k < |cs| && cs[k] != [])
      && (!OneRun(a == [], moved) ==> k + 1 < |cs| && cs[k + 1] == [] && !EmptyFrom(cs, k + 1))
  {
    hide Flat, IsLastData, Advanced;
    var p := RunEnd(a == [], moved);
    SpliceAdvance(a, moved);
    if OneRun(a == [], moved) {
      SpliceRun(a, moved, p);
    } else {
      SpliceGap(a, moved, p);
    }
  }

  /** When the target of evbuffer_remove_buffer stays valid after taking whole chains and then `len` copied bytes. */
  ghost predicate ReceiveSafe(intoEmpty: bool, moved: seq<seq<Byte>>, room: nat, fits: bool, len: nat)
    requires moved != []
  {
    var p := RunEnd(intoEmpty, moved);
    OneRun(intoEmpty, moved) && (len == 0 || p == |moved| || (p + 1 == |moved| && !fits && room > 0))
  }

  lemma ReceiveKeeps(a: seq<seq<Byte>>, moved: seq<seq<Byte>>, room: nat, fits: bool, data: seq<Byte>)
    requires moved != [] && Flat(moved) != []
    requires !fits ==> room < |data|
    ensures var cs := a + moved; var k := Advanced(cs, if a == [] then 0 else |a| - 1);
      var r := AddView(View(cs, k), room, fits, data);
      && (r.Some? && IsLastData(r.value.cs, r.value.at) <==> ReceiveSafe(a == [], moved, room, fits, |data|))
      && (r.Some? ==> Flat(r.value.cs) == Flat(a) + Flat(moved) + data)
  {
    hide Flat, EmptyFrom, IsLastData, AddView, Advanced;
    SpliceKeeps(a, moved);
    FlatConcat(a, moved);
    var v := View(a + moved, |a| + RunEnd(a == [], moved) - 1);
    AddViewFlat(v, room, fits, data);
    if OneRun(a == [], moved) {
      AddViewKeeps(v, room, fits, data);
    } else {
      AddViewGap(v, room, fits, data);
    }
  }

  lemma ReceiveTight(a: seq<seq<Byte>>, moved: seq<seq<Byte>>, room: nat, fits: bool, data: seq<Byte>)
    requires NoneEmpty(a) && NoneEmpty(moved) && moved != []
    requires !fits ==> room < |data|
    ensures ReceiveSafe(a == [], moved, room, fits, |data|)
    ensures var cs := a + moved; var k := Advanced(cs, if a == [] then 0 else |a| - 1);
      var r := AddView(View(cs, k), room, fits, data);
      r.Some? && Tight(r.value.cs)
  {
    var cs := a + moved;
    FirstEmptyIs(moved, if a == [] then 1 else 0, |moved|);
    FirstEmptyIs(cs, if a == [] then 1 else |a|, |cs|);
    AddViewTight(View(cs, |cs| - 1), room, fits, data);
  }

  /** The source of evbuffer_remove_buffer when no whole chain with data moves. */
  lemma TrimInPlace(s: seq<Chain>, k: nat, i: nat, c: Chain, n: nat)
    requires AllOk(s) && IsLastData(ChunksOf(s), k) && i <= k && i < |s| && n < s[i].off
    requires c.Ok() && c.Bytes() == s[i].Bytes()[n..] && Flat(ChunksOf(s)[..i]) == []
    ensures var t := s[i := c];
      && AllOk(t) && n <= |Flat(ChunksOf(s))| && Flat(ChunksOf(t)) == Flat(ChunksOf(s))[n..]
      && IsLastData(ChunksOf(t), k)
      && (i > 0 ==> !IsLastData(ChunksOf(t), 0))
      && (Tight(ChunksOf(s)) ==> Tight(ChunksOf(t)))
  {
    hide Flat;
    var cs, ts := ChunksOf(s), ChunksOf(s[i := c]);
    assert ts == cs[i := c.Bytes()];
    FlatSplitAt(cs, i);
    FlatSplitAt(ts, i);
    assert ts[..i] == cs[..i] && ts[i + 1..] == cs[i + 1..];
  }

  lemma CutBytes(cs: seq<seq<Byte>>, k: nat, left: nat)
    requires k < |cs| && left <= |cs[k]|
    ensures var n := |Flat(cs[..k])| + left;
      n <= |Flat(cs)| && Flat(cs)[..n] == Flat(cs[..k]) + cs[k][..left]
  {
    FlatSplitAt(cs, k);
  }

  lemma MovedChunks(s: seq<Chain>, k: nat)
    requires AllOk(s) && k <= |s|
    ensures AllOk(s[..k]) && ChunksOf(s[..k]) == ChunksOf(s)[..k]
  {
  }

  /** No data before chunk `k` of a tight list that has a chunk `k`: it is the first. */
  lemma TightLead(cs: seq<seq<Byte>>, k: nat)
    requires k < |cs| && Flat(cs[..k]) == []
    ensures Tight(cs) ==> k == 0
  {
    if k > 0 {
      FlatSplitAt(cs[..k], 0);
    }
  }

  class EvBuffer {
    var chains: seq<Chain>
    var lastWithData: nat
    var totalLen: nat
    var freezeStart: bool
    var freezeEnd: bool

    /** The chains are within bounds and `last_with_datap` points into the list. */
    ghost predicate Structure()
      reads this
    {
      AllOk(chains) && (lastWithData == 0 || lastWithData < |chains|)
    }

    ghost function Data(): seq<seq<Byte>>
      requires Structure()
      reads this
    {
      ChunksOf(chains)
    }

    ghost function Contents(): seq<Byte>
      requires Structure()
      reads this
    {
      Flat(Data())
    }

    /** The invariant of event/evbuffer-internal.h:84-97 with the total length. */
    ghost predicate Valid()
      reads this
    {
      && Structure()
      && totalLen == |Contents()|
      && IsLastData(Data(), lastWithData)
    }

    /** evbuffer_new */
    constructor ()
      ensures Valid() && Contents() == [] && chains == []
      ensures !freezeStart && !freezeEnd
    {
      chains, lastWithData, totalLen := [], 0, 0;
      freezeStart, freezeEnd := false, false;
    }

    /** evbuffer_chains_all_empty */
    method AllEmpty(k: nat) returns (b: bool)
      requires Structure() && k <= |chains|
      ensures b == EmptyFrom(Data(), k)
    {
      var i := k;
      while i < |chains|
        invariant k <= i <= |chains|
        invariant forall j :: k <= j < i ==> Data()[j] == []
      {
        if chains[i].off != 0 { assert Data()[i] != []; return false; }
        i := i + 1;
      }
      return true;
    }

    /** The scan for the first victim chain, starting at `*last_with_datap`. */
    method FindVictim() returns (v: nat)
      requires Structure()
      ensures v == FirstEmpty(Data(), lastWithData)
    {
      v := lastWithData;
      while v < |chains| && chains[v].off != 0
        invariant lastWithData <= v <= |chains|
        invariant FirstEmpty(Data(), lastWithData) == FirstEmpty(Data(), v)
      {
        v := v + 1;
      }
    }

    /** evbuffer_chain_insert */
    method ChainInsert(chain: Chain) returns (r: Outcome, ghost v: nat)
      requires Structure() && chain.Ok()
      modifies this`chains, this`lastWithData, this`totalLen
      ensures v == FirstEmpty(old(Data()), old(lastWithData))
      ensures r == if EmptyFrom(old(Data()), v) then Done else AssertionFailed
      ensures r == Done ==> Structure()
      ensures r == Done ==> chains == old(chains)[..v] + [chain]
      ensures r == Done ==> Data() == old(Data())[..v] + [chain.Bytes()]
      ensures r == Done ==> totalLen == old(totalLen) + chain.off
      ensures r == Done ==> lastWithData == if v == |old(chains)| && chain.off > 0 then v else old(lastWithData)
    {
      hide Flat;
      ghost var cs := Data();
      if lastWithData == |chains| {
        v := 0;
        chains := [chain];
      } else {
        var victim := FindVictim();
        v := victim;
        if victim == |chains| {
          // Every chain from the slot on holds data.
          if chain.off != 0 {
            lastWithData := |chains|;
          }
        } else {
          // The empty chains give way to the new one.
          var allEmpty := AllEmpty(victim);
          if !allEmpty { return AssertionFailed, v; }
        }
        chains := chains[..victim] + [chain];
      }
      totalLen := totalLen + chain.off;
      r := Done;
      assert ChunksOf(chains) == cs[..v] + [chain.Bytes()];
    }

    ghost function Look(): View
      requires Structure()
      reads this
    {
      View(Data(), lastWithData)
    }

    /** The space behind the last chain. */
    function Room(): nat
      requires AllOk(chains)
      reads this
    {
      if chains == [] then 0 else chains[|chains| - 1].Space()
    }

    /** The space in the chain evbuffer_add writes to first; with no chain yet, the least a new chain has. */
    ghost function Headroom(): nat
      requires AllOk(chains)
      reads this
    {
      if chains == [] then MIN_BUFFER_SIZE - EVBUFFER_CHAIN_SIZE else Room()
    }

    /** evbuffer_add needs no second chain for `len` bytes. */
    predicate Fits(len: nat)
      requires AllOk(chains)
      reads this
    {
      chains == [] || FitsIn(chains[|chains| - 1], len)
    }

    /** evbuffer_chain_new and evbuffer_chain_insert on a buffer with no chains. */
    method InsertFirst(size: nat)
      requires Structure() && chains == []
      modifies this`chains, this`lastWithData, this`totalLen
      ensures Structure() && Data() == [[]] && lastWithData == 0
      ensures totalLen == old(totalLen) && size <= Room()
      ensures size <= MIN_BUFFER_SIZE - EVBUFFER_CHAIN_SIZE ==> Room() == MIN_BUFFER_SIZE - EVBUFFER_CHAIN_SIZE
    {
      var empty := ChainNew(size);
      ghost var r, v := ChainInsert(empty);
    }

    /** evbuffer_add, as its effect on the pointers. */
    method AddCore(data: seq<Byte>) returns (r: Outcome)
      requires Structure() && !freezeEnd
      modifies this`chains, this`lastWithData, this`totalLen
      ensures var out := AddView(old(Look()), old(Room()), old(Fits(|data|)), data);
        && r == (if out.Some? then Done else AssertionFailed)
        && (r == Done ==> Structure() && Look() == out.value && totalLen == old(totalLen) + |data|)
      ensures r == Done && |data| <= old(Headroom()) ==> Room() == old(Headroom()) - |data|
    {
      if chains == [] {
        InsertFirst(|data|);
      }
      r := AddToLast(data);
    }

    /** evbuffer_add on a valid buffer.  AddSafe is the exact condition for it to stay valid. */
    method Add(data: seq<Byte>) returns (r: Outcome)
      requires Valid()
      modifies this`chains, this`lastWithData, this`totalLen
      ensures r == Refused <==> freezeEnd
      ensures freezeEnd ==> r == Refused && unchanged(this)
      ensures r == Done ==> Structure() && totalLen == |Contents()| && Contents() == old(Contents()) + data
      ensures !freezeEnd ==> var out := AddView(old(Look()), old(Room()), old(Fits(|data|)), data);
        r == (if out.Some? then Done else AssertionFailed) && (r == Done ==> Look() == out.value)
      ensures r == Done && |data| <= old(Headroom()) ==> Room() == old(Headroom()) - |data|
      ensures !freezeEnd ==>
        (r == Done && Valid() <==> old(AddSafe(Look(), Room(), Fits(|data|), |data|)))
      ensures !freezeEnd && old(Tight(Data())) ==> r == Done && Valid() && Tight(Data())
    {
      hide Flat, FirstEmpty, IsLastData, Tight, AddView, AddSafe;
      if freezeEnd { return Refused; }
      AddViewFlat(Look(), Room(), Fits(|data|), data);
      AddViewKeeps(Look(), Room(), Fits(|data|), data);
      if Tight(Data()) {
        AddViewTight(Look(), Room(), Fits(|data|), data);
      }
      r := AddCore(data);
    }

    /** evbuffer_add once a last chain exists (event/buffer.c:1558-1609). */
    method AddToLast(data: seq<Byte>) returns (r: Outcome)
      requires Structure() && chains != []
      modifies this`chains, this`lastWithData, this`totalLen
      ensures var out := AddView(old(Look()), old(Room()), old(Fits(|data|)), data);
        && r == (if out.Some? then Done else AssertionFailed)
        && (r == Done ==> Structure() && Look() == out.value && totalLen == old(totalLen) + |data|)
      ensures r == Done && |data| <= old(Headroom()) ==> Room() == old(Headroom()) - |data|
    {
      var chain := chains[|chains| - 1];
      var remain := chain.Space();
      if remain >= |data| || chain.ShouldRealign(|data|) {
        if remain < |data| {
          chain := Align(chain);
        }
        FillLast(chain, data);
        return Done;
      }
      r := AddSpill(data, remain);
    }

    /** Write behind the last chain's data; `chain` is that chain, possibly realigned. */
    method FillLast(chain: Chain, data: seq<Byte>)
      requires Structure() && chains != []
      requires chain.Ok() && chain.Bytes() == chains[|chains| - 1].Bytes() && |data| <= chain.Space()
      modifies this`chains, this`totalLen
      ensures Structure() && |chains| == |old(chains)| && totalLen == old(totalLen) + |data|
      ensures Room() == chain.Space() - |data|
      ensures var n := |chains| - 1; Data() == old(Data())[n := old(Data())[n] + data]
    {
      hide Flat;
      var n := |chains| - 1;
      var filled := Append(chain, data);
      chains := chains[n := filled];
      totalLen := totalLen + |data|;
      assert Data() == old(Data())[n := old(Data())[n] + data];
    }

    /** The last chain takes `remain` bytes and a new chain the rest. */
    method AddSpill(data: seq<Byte>, remain: nat) returns (r: Outcome)
      requires Structure() && chains != []
      requires remain == Room() && !Fits(|data|)
      modifies this`chains, this`lastWithData, this`totalLen
      ensures var out := AddView(old(Look()), remain, false, data);
        && r == (if out.Some? then Done else AssertionFailed)
        && (r == Done ==> Structure() && Look() == out.value && totalLen == old(totalLen) + |data|)
    {
      hide Flat, IsLastData, FirstEmpty, EmptyFrom;
      var chain := chains[|chains| - 1];
      var toAlloc := |chain.buffer|;
      if toAlloc <= EVBUFFER_CHAIN_MAX_AUTO_SIZE / 2 { toAlloc := toAlloc * 2; }
      if |data| > toAlloc { toAlloc := |data|; }
      var tmp := ChainNew(toAlloc);
      FillLast(chain, data[..remain]);
      tmp := Append(tmp, data[remain..]);
      assert tmp.Bytes() == data[remain..];
      ghost var f;
      r, f := ChainInsert(tmp);
    }

    /** evbuffer_prepend */
    method Prepend(data: seq<Byte>) returns (r: Outcome)
      requires Valid()
      modifies this`chains, this`lastWithData, this`totalLen
      ensures freezeStart ==> r == Refused && unchanged(this)
      ensures !freezeStart ==> r == Done && Valid() && Contents() == data + old(Contents())
      ensures old(Tight(Data())) ==> Tight(Data())
    {
      if freezeStart { return Refused; }
      if chains == [] {
        InsertFirst(|data|);
        FlatSingle<Byte>([]);
      }
      PrependToFirst(data);
      r := Done;
    }

    /** evbuffer_prepend once a first chain exists (event/buffer.c:1640-1683). */
    method PrependToFirst(data: seq<Byte>)
      requires Valid() && chains != []
      modifies this`chains, this`lastWithData, this`totalLen
      ensures Valid() && Contents() == data + old(Contents())
      ensures old(Tight(Data())) ==> Tight(Data())
    {
      hide Flat, IsLastData;
      var chain := chains[0];
      // An empty chain counts as empty at the beginning.
      if chain.off == 0 { chain := chain.(misalign := |chain.buffer|); }
      assert chain.Bytes() == chains[0].Bytes();
      var head := if |data| <= chain.misalign then 0 else |data| - chain.misalign;
      ghost var cs := Data();
      PushFirst(chain, data[head..]);
      assert chains[0].Bytes() == Data()[0] == data[head..] + cs[0];
      if head > 0 {
        NewFirst(data[..head]);
      }
      PrependSplitLemma(data, head, old(Contents()));
    }

    /** The first chain takes `data` in its misalignment. */
    method PushFirst(chain: Chain, data: seq<Byte>)
      requires Valid() && chains != []
      requires chain.Ok() && chain.Bytes() == chains[0].Bytes() && |data| <= chain.misalign
      modifies this`chains, this`totalLen
      ensures Valid() && Contents() == data + old(Contents())
      ensures Data() == [data + old(Data())[0]] + old(Data())[1..]
    {
      PrependLemma(Data(), lastWithData, data);
      var filled := PushFront(chain, data);
      chains := [filled] + chains[1..];
      totalLen := totalLen + |data|;
      assert Data() == [data + old(Data())[0]] + old(Data())[1..];
    }

    /** A new first chain takes `data`. */
    method NewFirst(data: seq<Byte>)
      requires Valid() && chains != [] && chains[0].off != 0
      modifies this`chains, this`lastWithData, this`totalLen
      ensures Valid() && Contents() == data + old(Contents())
      ensures Data() == [data] + old(Data())
    {
      hide Flat, IsLastData;
      PrependNewLemma(Data(), lastWithData, data);
      var tmp := ChainNew(|data|);
      tmp := PushFront(tmp.(misalign := |tmp.buffer|), data);
      assert tmp.Bytes() == data;
      chains := [tmp] + chains;
      // last_with_datap stays on its chain, or moves to &tmp->next when it was &buf->first.
      lastWithData := lastWithData + 1;
      totalLen := totalLen + |data|;
      assert Data() == [data] + old(Data());
    }

    /** evbuffer_drain */
    method Drain(len: nat) returns (r: Outcome)
      requires Valid()
      modifies this`chains, this`lastWithData, this`totalLen
      ensures r == if freezeStart && old(totalLen) > 0 then Refused else Done
      ensures r == Refused ==> unchanged(this)
      ensures r == Done ==> Valid() && Contents() == old(Contents())[Min(len, old(totalLen))..]
      ensures old(Tight(Data())) ==> Tight(Data())
    {
      if totalLen == 0 { return Done; }
      if freezeStart { return Refused; }
      if len >= totalLen {
        chains, lastWithData, totalLen := [], 0, 0;
      } else {
        DrainSome(len);
      }
      r := Done;
    }

    /** The loop of event/buffer.c:982-1001: chain `i` loses its first `remaining` bytes, the ones before it go. */
    method DrainPoint(len: nat) returns (i: nat, remaining: nat, slot: nat)
      requires Valid() && len < totalLen
      ensures i <= lastWithData && i < |chains| && remaining < chains[i].off
      ensures |Flat(Data()[..i])| + remaining == len
      ensures slot == if i == lastWithData then 0 else lastWithData
    {
      i, remaining, slot := 0, len, lastWithData;
      while remaining >= chains[i].off
        invariant i <= lastWithData && i < |chains|
        invariant |Flat(Data()[..i])| + remaining == len
        invariant slot == if i == lastWithData then 0 else lastWithData
        decreases |chains| - i
      {
        DrainStepLemma(Data(), lastWithData, i, len);
        remaining := remaining - chains[i].off;
        // chain == *last_with_datap or &chain->next == last_with_datap
        if i == slot || i + 1 == slot { slot := 0; }
        i := i + 1;
      }
    }

    /** The partial drain of event/buffer.c:980-1007. */
    method DrainSome(len: nat)
      requires Valid() && len < totalLen
      modifies this`chains, this`lastWithData, this`totalLen
      ensures Valid() && Contents() == old(Contents())[len..]
      ensures old(Tight(Data())) ==> Tight(Data())
    {
      var i, remaining, slot := DrainPoint(len);
      var trimmed := TrimFront(chains[i], remaining);
      DrainResult(chains, lastWithData, i, remaining, trimmed, len);
      // &buf->first, or a slot that moved down with the chains that were freed.
      Become([trimmed] + chains[i + 1..], if slot == 0 then 0 else slot - i, totalLen - len);
    }

    /** evbuffer_copyout */
    method CopyOut(datlen: nat) returns (r: Option<seq<Byte>>)
      requires Valid()
      ensures r == if freezeStart && Min(datlen, totalLen) > 0 then None
                   else Some(Contents()[..Min(datlen, totalLen)])
    {
      var n := Min(datlen, totalLen);
      assert Contents()[..0] == [];
      if n == 0 { return Some([]); }
      if freezeStart { return None; }
      ghost var cs := Data();
      var i, left, out := 0, n, [];
      CopyStepLemma(cs, 0, n);
      while left > 0 && left >= chains[i].off
        invariant i <= |chains| && 0 <= left <= n
        invariant left > 0 ==> i < |chains|
        invariant out == Flat(cs[..i]) && out <= Flat(cs)
        invariant |out| + left == n
        decreases |chains| - i
      {
        CopyStepLemma(cs, i, n);
        out := out + chains[i].Bytes();
        left := left - chains[i].off;
        i := i + 1;
        if left > 0 { CopyStepLemma(cs, i, n); }
      }
      if left > 0 {
        CopyStepLemma(cs, i, n);
        out := out + chains[i].Bytes()[..left];
        TakePrefix(Flat(cs[..i + 1]), Contents(), n);
        assert out == Flat(cs[..i + 1])[..n];
      } else {
        TakePrefix(out, Contents(), n);
        assert out == out[..n];
      }
      r := Some(out);
    }

    /** evbuffer_remove */
    method Remove(datlen: nat) returns (r: Option<seq<Byte>>)
      requires Valid()
      modifies this`chains, this`lastWithData, this`totalLen
      ensures var n := old(Min(datlen, totalLen));
        if freezeStart && n > 0 then r == None && unchanged(this)
        else r == Some(old(Contents())[..n]) && Valid() && Contents() == old(Contents())[n..]
      ensures old(Tight(Data())) ==> Tight(Data())
    {
      r := CopyOut(datlen);
      if r.Some? && |r.value| > 0 {
        var d := Drain(|r.value|);
      }
    }

    /** Store a new list and its cached values. */
    method Become(cs: seq<Chain>, k: nat, len: nat)
      requires AllOk(cs) && IsLastData(ChunksOf(cs), k) && len == |Flat(ChunksOf(cs))|
      modifies this`chains, this`lastWithData, this`totalLen
      ensures Valid() && Data() == ChunksOf(cs)
      ensures chains == cs && lastWithData == k && totalLen == len
    {
      chains, lastWithData, totalLen := cs, k, len;
    }

    /** evbuffer_add_buffer, with `this` the receiving buffer. */
    method AddBuffer(inbuf: EvBuffer) returns (r: Outcome)
      requires Valid() && inbuf.Valid()
      modifies this`chains, this`lastWithData, this`totalLen
      modifies inbuf`chains, inbuf`lastWithData, inbuf`totalLen
      ensures Valid() && inbuf.Valid()
      ensures r == if inbuf != this && old(inbuf.totalLen) > 0 && (freezeEnd || inbuf.freezeStart) then Refused else Done
      ensures r == Refused || inbuf == this ==> unchanged(this) && unchanged(inbuf)
      ensures r == Done && inbuf != this ==>
        && Contents() == old(Contents()) + old(inbuf.Contents()) && inbuf.Contents() == []
      ensures r == Done && inbuf != this && old(inbuf.totalLen) > 0 ==>
        Data() == if old(totalLen) == 0 then old(inbuf.Data()) else old(Data()) + old(inbuf.Data())
      ensures old(Tight(Data()) && Tight(inbuf.Data())) ==> Tight(Data()) && Tight(inbuf.Data())
    {
      if inbuf == this { return Done; }
      if inbuf.totalLen == 0 {
        FlatNil(inbuf.Contents(), Contents());
        return Done;
      }
      if freezeEnd || inbuf.freezeStart { return Refused; }
      Absorb(inbuf, false);
      r := Done;
    }

    /** evbuffer_prepend_buffer, with `this` the receiving buffer. */
    method PrependBuffer(inbuf: EvBuffer) returns (r: Outcome)
      requires Valid() && inbuf.Valid()
      modifies this`chains, this`lastWithData, this`totalLen
      modifies inbuf`chains, inbuf`lastWithData, inbuf`totalLen
      ensures Valid() && inbuf.Valid()
      ensures r == if inbuf != this && old(inbuf.totalLen) > 0 && (freezeStart || inbuf.freezeStart) then Refused else Done
      ensures r == Refused || inbuf == this ==> unchanged(this) && unchanged(inbuf)
      ensures r == Done && inbuf != this ==>
        && Contents() == old(inbuf.Contents()) + old(Contents()) && inbuf.Contents() == []
      ensures old(Tight(Data()) && Tight(inbuf.Data())) ==> Tight(Data()) && Tight(inbuf.Data())
    {
      if inbuf == this { return Done; }
      if inbuf.totalLen == 0 {
        FlatNil(inbuf.Contents(), Contents());
        return Done;
      }
      if freezeStart || inbuf.freezeStart { return Refused; }
      Absorb(inbuf, true);
      r := Done;
    }

    /** COPY_CHAIN, APPEND_CHAIN or PREPEND_CHAIN, then ZERO_CHAIN on the other buffer. */
    method Absorb(inbuf: EvBuffer, front: bool)
      requires Valid() && inbuf.Valid() && inbuf != this && inbuf.totalLen > 0
      modifies this`chains, this`lastWithData, this`totalLen
      modifies inbuf`chains, inbuf`lastWithData, inbuf`totalLen
      ensures Valid() && inbuf.Valid() && inbuf.Contents() == []
      ensures Contents() == if front then old(inbuf.Contents()) + old(Contents())
                            else old(Contents()) + old(inbuf.Contents())
      ensures Data() == if old(totalLen) == 0 then old(inbuf.Data())
                        else if front then old(inbuf.Data()) + old(Data())
                        else old(Data()) + old(inbuf.Data())
      ensures old(Tight(Data()) && Tight(inbuf.Data())) ==> Tight(Data()) && Tight(inbuf.Data())
    {
      hide Flat;
      var cs, k;
      if totalLen == 0 {
        cs, k := inbuf.chains, inbuf.lastWithData;
        FlatNil(Contents(), inbuf.Contents());
      } else if front {
        // &dst->first becomes &src->last->next; other slots stay on their chains.
        cs, k := inbuf.chains + chains, |inbuf.chains| + lastWithData;
        ChunksConcat(inbuf.chains, chains);
        AppendLemma(inbuf.Data(), Data(), lastWithData);
        TightConcat(inbuf.Data(), Data());
      } else {
        // &src->first becomes &dst->last->next; other slots stay on their chains.
        cs, k := chains + inbuf.chains, |chains| + inbuf.lastWithData;
        ChunksConcat(chains, inbuf.chains);
        AppendLemma(Data(), inbuf.Data(), inbuf.lastWithData);
        TightConcat(Data(), inbuf.Data());
      }
      Become(cs, k, totalLen + inbuf.totalLen);
      FlatEmpty<Byte>([]);
      inbuf.Become([], 0, 0);
    }

    /** The copying loop of event/buffer.c:1244-1257, from chain `start` on, behind the bytes in `have`. */
    method PullPoint(start: nat, have: seq<Byte>, n: nat)
      returns (i: nat, left: nat, pulled: seq<Byte>, removedData: bool, removedDatap: bool)
      requires Valid() && start <= lastWithData < |chains|
      requires have == Flat(Data()[..start]) && |have| <= n
      ensures start <= i <= |chains| && have + pulled == Flat(Data()[..i]) && |have + pulled| + left == n
      ensures i < |chains| ==> left < chains[i].off
      ensures removedData == (lastWithData < i)
      ensures removedDatap == (start < lastWithData <= i)
    {
      hide Flat;
      ghost var cs := Data();
      i, left, pulled, removedData, removedDatap := start, n - |have|, [], false, false;
      while i < |chains| && left >= chains[i].off
        invariant start <= i <= |chains| && have + pulled == Flat(cs[..i]) && |have + pulled| + left == n
        invariant removedData == (lastWithData < i)
        invariant removedDatap == (start < lastWithData <= i)
      {
        FlatNext(cs, i);
        pulled := pulled + chains[i].Bytes();
        left := left - chains[i].off;
        if i == lastWithData { removedData := true; }
        if i + 1 == lastWithData { removedDatap := true; }
        i := i + 1;
      }
    }

    /** evbuffer_pullup; the result stands for the `size` bytes at the returned pointer. */
    method Pullup(size: int) returns (r: Option<seq<Byte>>)
      requires Valid()
      modifies this`chains, this`lastWithData, this`totalLen
      ensures Valid() && Contents() == old(Contents()) && totalLen == old(totalLen)
      ensures var n := if size < 0 then totalLen else size;
        if n == 0 || n > totalLen then r == None && unchanged(this)
        else chains != [] && n <= chains[0].off && r == Some(chains[0].Bytes()[..n])
      ensures old(Tight(Data())) ==> Tight(Data())
    {
      var n := if size < 0 then totalLen else size;
      if n == 0 || n > totalLen { return None; }
      if chains[0].off < n {
        PullInto(n);
      }
      r := Some(chains[0].Bytes()[..n]);
    }

    /** Gather the first `n` bytes in the first chain, reusing it when it has the space. */
    method PullInto(n: nat)
      requires Valid() && chains != [] && chains[0].off < n <= totalLen
      modifies this`chains, this`lastWithData, this`totalLen
      ensures Valid() && Contents() == old(Contents()) && totalLen == old(totalLen)
      ensures chains != [] && chains[0].off == n
      ensures old(Tight(Data())) ==> Tight(Data())
    {
      PullNeedsMore(Data(), lastWithData, n);
      var tmp, start := chains[0], 1;
      if |tmp.buffer| - tmp.misalign < n {
        tmp := ChainNew(n);
        start := 0;
      }
      PullFrom(tmp, start, n);
    }

    /** The chain that receives the bytes, what is left of the list, and where `last_with_datap` goes. */
    method Gather(first: Chain, start: nat, n: nat) returns (i: nat, left: nat, tmp: Chain, k: int)
      requires Valid() && 1 <= lastWithData < |chains| && n <= totalLen
      requires first.Ok() && first.off <= n && n - first.off <= first.Space()
      requires start <= 1 && first.Bytes() == Flat(Data()[..start])
      ensures start <= i <= |chains| && (i < |chains| ==> left < chains[i].off)
      ensures tmp.Ok() && tmp.off == n
      ensures i == |chains| ==> tmp.Bytes() == Contents()
      ensures i < |chains| ==> tmp.Bytes() == Flat(Data()[..i]) + chains[i].Bytes()[..left]
      ensures k == if lastWithData < i then 0 else lastWithData - i + 1
    {
      hide Flat, IsLastData;
      var pulled, removedData, removedDatap;
      i, left, pulled, removedData, removedDatap := PullPoint(start, first.Bytes(), n);
      var more := if i < |chains| then chains[i].Bytes()[..left] else [];
      tmp := Append(first, pulled + more);
      assert tmp.Bytes() == (first.Bytes() + pulled) + more;
      assert i == |chains| ==> Data()[..i] == Data();
      k := if removedData then 0
           else if removedDatap then (if i < |chains| && left < chains[i].off then 1 else 0)
           else lastWithData - i + 1;
    }

    method PullFrom(first: Chain, start: nat, n: nat)
      requires Valid() && 1 <= lastWithData < |chains| && chains[0].off < n <= totalLen
      requires first.Ok() && first.off <= n && n - first.off <= first.Space()
      requires start <= 1 && first.Bytes() == Flat(Data()[..start])
      modifies this`chains, this`lastWithData, this`totalLen
      ensures Valid() && Contents() == old(Contents()) && totalLen == old(totalLen)
      ensures chains != [] && chains[0].off == n
      ensures old(Tight(Data())) ==> Tight(Data())
    {
      ghost var cs := Data();
      var i, left, tmp, k := Gather(first, start, n);
      var cut, rest := [], [];
      if i < |chains| {
        var c := TrimFront(chains[i], left);
        cut, rest := [c], chains[i + 1..];
      }
      PulledChunks(chains, i, left, tmp, cut);
      PulledFlat(cs, i, left);
      PulledLast(cs, lastWithData, i, left);
      if Tight(cs) {
        assert i == 0 ==> left > 0 by { assert cs[..0] == []; }
        PulledTight(cs, i, left);
      }
      Become([tmp] + cut + rest, k, totalLen);
    }

    /** evbuffer_chain_insert_new with an empty chain. */
    method InsertNew(datlen: nat) returns (idx: nat)
      requires Valid()
      modifies this`chains, this`lastWithData, this`totalLen
      ensures Valid() && Contents() == old(Contents())
      ensures Data() == old(Data()[..FirstEmpty(Data(), lastWithData)]) + [[]] && lastWithData == old(lastWithData)
      ensures idx + 1 == |chains| && datlen <= chains[idx].Space()
    {
      ghost var cs := Data();
      var empty := ChainNew(datlen);
      ghost var r, v := ChainInsert(empty);
      FlatTrim(cs, v);
      FlatConcat(cs[..v], [[]]);
      FlatSingle<Byte>([]);
      idx := |chains| - 1;
    }

    /** The chain evbuffer_expand_singlechain looks at first. */
    ghost function Candidate(): nat
      requires Structure()
      reads this
    {
      if lastWithData < |chains| && chains[lastWithData].Space() == 0 then lastWithData + 1 else lastWithData
    }

    /** evbuffer_expand_singlechain goes to `insert_new`: no chain there, an empty one too small, or one neither realigned, copied nor followed by space. */
    ghost predicate Inserts(datlen: nat)
      requires Structure()
      reads this
    {
      var p := Candidate();
      || p == |chains|
      || (chains[p].Space() < datlen
          && (chains[p].off == 0
              || (!chains[p].ShouldRealign(datlen)
                  && (chains[p].Space() < |chains[p].buffer| / 8 || chains[p].off > MAX_TO_COPY_IN_EXPAND)
                  && !(p + 1 < |chains| && chains[p + 1].Space() >= datlen))))
    }

    /** evbuffer_expand_singlechain: chain `idx` can take `datlen` more bytes and no data follows it. */
    method ExpandSingleChain(datlen: nat) returns (idx: nat)
      requires Valid()
      modifies this`chains, this`lastWithData, this`totalLen
      ensures Valid() && Contents() == old(Contents())
      ensures idx < |chains| && datlen <= chains[idx].Space() && EmptyFrom(Data(), idx + 1)
      ensures lastWithData == old(lastWithData) && (old(Inserts(datlen)) ==> idx + 1 == |chains|)
      ensures Data() == if old(Inserts(datlen)) then old(Data()[..FirstEmpty(Data(), lastWithData)]) + [[]] else old(Data())
    {
      hide Flat, FirstEmpty;
      var p := lastWithData;
      if p < |chains| && chains[p].Space() == 0 { p := p + 1; }
      if p == |chains| {
        idx := InsertNew(datlen);
      } else if chains[p].Space() >= datlen {
        idx := p;
      } else if chains[p].off == 0 {
        idx := InsertNew(datlen);
      } else if chains[p].ShouldRealign(datlen) {
        Realign(p);
        idx := p;
      } else if chains[p].Space() < |chains[p].buffer| / 8 || chains[p].off > MAX_TO_COPY_IN_EXPAND {
        if p + 1 < |chains| && chains[p + 1].Space() >= datlen {
          idx := p + 1;
        } else {
          idx := InsertNew(datlen);
        }
      } else {
        Enlarge(p, datlen);
        idx := p;
      }
    }

    /** The data of chain `p` move to its start. */
    method Realign(p: nat)
      requires Valid() && p < |chains|
      modifies this`chains, this`lastWithData, this`totalLen
      ensures Valid() && Data() == old(Data()) && lastWithData == old(lastWithData) && |chains| == |old(chains)|
      ensures chains[p].Space() == |old(chains[p].buffer)| - old(chains[p].off)
    {
      hide Flat, IsLastData;
      var c := Align(chains[p]);
      Swap(p, c);
    }

    /** A larger chain takes the data of chain `p`. */
    method Enlarge(p: nat, datlen: nat)
      requires Valid() && p < |chains|
      modifies this`chains, this`lastWithData, this`totalLen
      ensures Valid() && Data() == old(Data()) && lastWithData == old(lastWithData) && |chains| == |old(chains)|
      ensures datlen <= chains[p].Space()
    {
      hide Flat, IsLastData;
      var c := ChainNew(chains[p].off + datlen);
      c := Append(c, chains[p].Bytes());
      assert c.Bytes() == chains[p].Bytes();
      Swap(p, c);
    }

    /** Put `c` where chain `p` was. */
    method Swap(p: nat, c: Chain)
      requires Valid() && p < |chains| && c.Ok() && c.Bytes() == chains[p].Bytes()
      modifies this`chains, this`lastWithData, this`totalLen
      ensures Valid() && Data() == old(Data()) && chains == old(chains)[p := c]
      ensures lastWithData == old(lastWithData)
    {
      ChunksReplace(chains, p, c);
      Become(chains[p := c], lastWithData, totalLen);
    }

    /** The loop of event/buffer.c:1117-1128: chain `k` keeps all but its first `left` bytes, the ones before it move. */
    method MovePoint(datlen: nat) returns (k: nat, left: nat, slot: nat)
      requires Valid() && datlen < totalLen
      ensures k <= lastWithData && k < |chains| && left < chains[k].off
      ensures |Flat(Data()[..k])| + left == datlen
      ensures slot == if k == lastWithData then 0 else lastWithData
    {
      k, left, slot := 0, datlen, lastWithData;
      while chains[k].off <= left
        invariant k <= lastWithData && k < |chains|
        invariant |Flat(Data()[..k])| + left == datlen
        invariant slot == if k == lastWithData then 0 else lastWithData
        decreases |chains| - k
      {
        DrainStepLemma(Data(), lastWithData, k, datlen);
        assert k != slot;                 // EVUTIL_ASSERT(chain != *src->last_with_datap)
        left := left - chains[k].off;
        if slot == k + 1 { slot := 0; }   // src->last_with_datap == &chain->next
        k := k + 1;
      }
    }

    /** evbuffer_free_trailing_empty_chains, then attach `moved` and advance_last_with_data (event/buffer.c:1132-1146). */
    method Splice(moved: seq<Chain>) returns (ghost kept: seq<seq<Byte>>)
      requires Valid() && AllOk(moved) && moved != []
      modifies this`chains, this`lastWithData, this`totalLen
      ensures (kept == [] <==> old(Contents()) == []) && Flat(kept) == old(Contents())
      ensures Structure() && Data() == kept + ChunksOf(moved)
      ensures chains != [] && chains[|chains| - 1] == moved[|moved| - 1]
      ensures lastWithData == Advanced(Data(), if kept == [] then 0 else |kept| - 1)
      ensures totalLen == old(totalLen) + |Flat(ChunksOf(moved))|
      ensures old(Tight(Data())) ==> NoneEmpty(kept)
    {
      hide Flat, FirstEmpty, IsLastData, Tight, NoneEmpty, Advanced;
      KeptFlat(Look());
      var v := FindVictim();
      if v < |chains| {
        var allEmpty := AllEmpty(v);
        assert allEmpty;
      }
      kept := Data()[..v];
      ChunksConcat(chains[..v], moved);
      assert ChunksOf(chains[..v]) == kept;
      chains := chains[..v] + moved;
      totalLen := totalLen + TotalOff(moved);
      Advance();
    }

    /** The target's side of evbuffer_remove_buffer when whole chains move. */
    method Receive(moved: seq<Chain>, data: seq<Byte>) returns (r: Outcome)
      requires Valid() && !freezeEnd && AllOk(moved) && Flat(ChunksOf(moved)) != []
      modifies this`chains, this`lastWithData, this`totalLen
      ensures r != Refused
      ensures r == Done ==> Structure() && totalLen == |Contents()|
      ensures r == Done ==> Contents() == old(Contents()) + Flat(ChunksOf(moved)) + data
      ensures r == Done && Valid() <==>
        ReceiveSafe(old(Contents()) == [], ChunksOf(moved), moved[|moved| - 1].Space(), FitsIn(moved[|moved| - 1], |data|), |data|)
      ensures old(Tight(Data())) && NoneEmpty(ChunksOf(moved)) ==> r == Done && Valid() && Tight(Data())
    {
      hide FirstEmpty, IsLastData, Tight, NoneEmpty, Advanced, AddView, ReceiveSafe;
      ghost var kept := Splice(moved);
      ReceiveKeeps(kept, ChunksOf(moved), Room(), Fits(|data|), data);
      if old(Tight(Data())) && NoneEmpty(ChunksOf(moved)) {
        ReceiveTight(kept, ChunksOf(moved), Room(), Fits(|data|), data);
      }
      r := AddCore(data);
    }

    /** The source's side of evbuffer_remove_buffer when the chains before `k` moved. */
    method ReleaseWhole(k: nat, left: nat, slot: nat, n: nat)
      requires Valid() && k <= lastWithData && k < |chains| && left < chains[k].off
      requires slot == if k == lastWithData then 0 else lastWithData
      requires n == |Flat(Data()[..k])| + left
      modifies this`chains, this`lastWithData, this`totalLen
      ensures Valid() && n <= |old(Contents())| && Contents() == old(Contents())[n..]
      ensures old(Tight(Data())) ==> Tight(Data())
    {
      var c := TrimFront(chains[k], left);
      DrainResult(chains, lastWithData, k, left, c, n);
      Become([c] + chains[k + 1..], if slot == 0 then 0 else slot - k, totalLen - n);
    }

    /** The source's side when no chain moved: `first` stays, though `last_with_datap` may have been reset to it. */
    method ReleaseInPlace(k: nat, left: nat, slot: nat)
      requires Valid() && k <= lastWithData && k < |chains| && left < chains[k].off
      requires slot == if k == lastWithData then 0 else lastWithData
      requires Flat(Data()[..k]) == []
      modifies this`chains, this`lastWithData, this`totalLen
      ensures Structure() && left <= |old(Contents())|
      ensures Contents() == old(Contents())[left..] && totalLen == |Contents()|
      ensures Valid() <==> k == 0 || k != old(lastWithData)
      ensures old(Tight(Data())) ==> Tight(Data())
    {
      var c := TrimFront(chains[k], left);
      TrimInPlace(chains, lastWithData, k, c, left);
      chains, lastWithData, totalLen := chains[k := c], slot, totalLen - left;
    }

    /** The exact condition for evbuffer_remove_buffer to leave both buffers valid. */
    ghost predicate CanMove(dst: EvBuffer, datlen: nat)
      requires Valid() && dst.Valid()
      reads this, dst
    {
      datlen >= totalLen || CanSplit(dst, Whole(Data(), datlen), datlen - |Flat(Data()[..Whole(Data(), datlen)])|)
    }

    /** The condition when the first `k` chains move whole and `left` bytes of the next are copied. */
    ghost predicate CanSplit(dst: EvBuffer, k: nat, left: nat)
      requires Valid() && dst.Valid() && k <= |chains|
      reads this, dst
    {
      if Flat(Data()[..k]) == [] then
        (k == 0 || k != lastWithData) && AddSafe(dst.Look(), dst.Room(), dst.Fits(left), left)
      else
        ReceiveSafe(dst.Contents() == [], Data()[..k], chains[k - 1].Space(), FitsIn(chains[k - 1], left), left)
    }

    /** evbuffer_remove_buffer, with `this` the source. */
    method RemoveBuffer(dst: EvBuffer, datlen: nat) returns (r: Outcome, moved: nat)
      requires Valid() && dst.Valid()
      modifies this`chains, this`lastWithData, this`totalLen
      modifies dst`chains, dst`lastWithData, dst`totalLen
      ensures datlen == 0 || dst == this ==> r == Done && moved == 0 && unchanged(this) && unchanged(dst)
      ensures r == Refused <==> datlen > 0 && dst != this && (dst.freezeEnd || freezeStart)
      ensures r == Refused ==> unchanged(this) && unchanged(dst)
      ensures r == Done && datlen > 0 && dst != this ==>
        && moved == Min(datlen, old(totalLen)) && Structure() && dst.Structure()
        && dst.Contents() == old(dst.Contents()) + old(Contents())[..moved]
        && Contents() == old(Contents())[moved..]
      ensures datlen > 0 && dst != this && !dst.freezeEnd && !freezeStart ==>
        (r == Done && Valid() && dst.Valid() <==> old(CanMove(dst, datlen)))
      ensures old(Tight(Data()) && Tight(dst.Data())) ==>
        r != AssertionFailed && Valid() && dst.Valid() && Tight(Data()) && Tight(dst.Data())
    {
      moved := 0;
      if datlen == 0 || dst == this { return Done, 0; }
      if dst.freezeEnd || freezeStart { return Refused, 0; }
      if datlen >= totalLen {
        moved := totalLen;
        r := dst.AddBuffer(this);
        return;
      }
      moved := datlen;
      r := MovePart(dst, datlen);
    }

    /** event/buffer.c:1116-1166: the source keeps some of its bytes. */
    method MovePart(dst: EvBuffer, n: nat) returns (r: Outcome)
      requires Valid() && dst.Valid() && dst != this && !dst.freezeEnd && 0 < n < totalLen
      modifies this`chains, this`lastWithData, this`totalLen
      modifies dst`chains, dst`lastWithData, dst`totalLen
      ensures r == Done ==> Structure() && dst.Structure() && Contents() == old(Contents())[n..]
      ensures r == Done ==> dst.Contents() == old(dst.Contents()) + old(Contents()[..n])
      ensures r != Refused
      ensures r == Done && Valid() && dst.Valid() <==> old(CanMove(dst, n))
      ensures old(Tight(Data()) && Tight(dst.Data())) ==>
        r == Done && Valid() && dst.Valid() && Tight(Data()) && Tight(dst.Data())
    {
      var k, left, slot := MovePoint(n);
      WholeUnique(Data(), n, k);
      CutBytes(Data(), k, left);
      ghost var head, tail := Flat(Data()[..k]), Data()[k][..left];
      if left < n {
        r := MoveWhole(dst, k, left, slot, n);
        ConcatAssoc(old(dst.Contents()), head, tail);
      } else {
        r := MoveBytes(dst, k, left, slot);
        FlatNil(head, tail);
      }
    }

    /** event/buffer.c:1130-1159 when the chains before `k` hold data. */
    method MoveWhole(dst: EvBuffer, k: nat, left: nat, slot: nat, n: nat) returns (r: Outcome)
      requires Valid() && dst.Valid() && dst != this && !dst.freezeEnd
      requires k <= lastWithData && k < |chains| && left < chains[k].off
      requires slot == if k == lastWithData then 0 else lastWithData
      requires Flat(Data()[..k]) != [] && n == |Flat(Data()[..k])| + left <= |Contents()|
      modifies this`chains, this`lastWithData, this`totalLen
      modifies dst`chains, dst`lastWithData, dst`totalLen
      ensures r != Refused
      ensures r == Done ==> Valid() && dst.Structure() && Contents() == old(Contents())[n..]
      ensures r == Done ==> dst.Contents() == old(dst.Contents()) + old(Flat(Data()[..k])) + old(Data()[k][..left])
      ensures r == Done && dst.Valid() <==>
        old(ReceiveSafe(dst.Contents() == [], Data()[..k], chains[k - 1].Space(), FitsIn(chains[k - 1], left), left))
      ensures old(Tight(Data()) && Tight(dst.Data())) ==>
        r == Done && Valid() && dst.Valid() && Tight(Data()) && Tight(dst.Data())
    {
      MovedChunks(chains, k);
      r := dst.Receive(chains[..k], chains[k].Bytes()[..left]);
      if r == Done {
        ReleaseWhole(k, left, slot, n);
      }
    }

    /** event/buffer.c:1149-1159 when no chain with data moves. */
    method MoveBytes(dst: EvBuffer, k: nat, left: nat, slot: nat) returns (r: Outcome)
      requires Valid() && dst.Valid() && dst != this && !dst.freezeEnd
      requires k <= lastWithData && k < |chains| && left < chains[k].off
      requires slot == if k == lastWithData then 0 else lastWithData
      requires Flat(Data()[..k]) == [] && left <= |Contents()|
      modifies this`chains, this`lastWithData, this`totalLen
      modifies dst`chains, dst`lastWithData, dst`totalLen
      ensures r != Refused
      ensures r == Done ==> Structure() && dst.Structure() && Contents() == old(Contents())[left..]
      ensures r == Done ==> dst.Contents() == old(dst.Contents()) + old(Data()[k][..left])
      ensures r == Done && Valid() && dst.Valid() <==>
        old((k == 0 || k != lastWithData) && AddSafe(dst.Look(), dst.Room(), dst.Fits(left), left))
      ensures old(Tight(Data()) && Tight(dst.Data())) ==>
        r == Done && Valid() && dst.Valid() && Tight(Data()) && Tight(dst.Data())
    {
      TightLead(Data(), k);
      r := dst.Add(chains[k].Bytes()[..left]);
      if r == Done {
        ReleaseInPlace(k, left, slot);
      }
    }

    /** advance_last_with_data */
    method Advance()
      requires Structure()
      modifies this`lastWithData
      ensures Structure() && lastWithData == Advanced(Data(), old(lastWithData))
    {
      if lastWithData < |chains| {
        while lastWithData + 1 < |chains| && chains[lastWithData + 1].off != 0
          invariant Structure() && lastWithData < |chains|
          invariant Advanced(Data(), lastWithData) == Advanced(Data(), old(lastWithData))
          decreases |chains| - lastWithData
        {
          lastWithData := lastWithData + 1;
        }
      }
    }
  }

  /** The bytes held by a run of chains (`nread` in evbuffer_remove_buffer). */
  function TotalOff(s: seq<Chain>): (n: nat)
    requires AllOk(s)
    ensures n == |Flat(ChunksOf(s))|
  {
    if s == [] then 0
    else
      assert ChunksOf(s)[1..] == ChunksOf(s[1..]);
      s[0].off + TotalOff(s[1..])
  }
}
