/** evbuffer_ptr, evbuffer_ptr_set, evbuffer_ptr_memcmp and evbuffer_search_range (event/buffer.c:2410-2559). */
module EvBufferSearch {
  import opened Octets
  import opened Chunks
  import opened EvChain
  import opened EvBuffer

  /** struct evbuffer_ptr; `chain` is an index, the length of the list standing for NULL. */
  datatype Ptr = Ptr(pos: int, chain: nat, posInChain: nat)

  /** The chain and the offset in it stand for the same place as `pos`. */
  ghost predicate Denotes(cs: seq<seq<Byte>>, p: Ptr) {
    && p.chain <= |cs|
    && (if p.chain < |cs| then p.posInChain <= |cs[p.chain]| else p.posInChain == 0)
    && p.pos == |Flat(cs[..p.chain])| + p.posInChain
  }

  ghost predicate MatchAt(s: seq<Byte>, w: seq<Byte>, m: int) {
    0 <= m && m + |w| <= |s| && s[m..m + |w|] == w
  }

  ghost predicate NoMatch(s: seq<Byte>, w: seq<Byte>, lo: int, hi: int) {
    forall m :: lo <= m < hi ==> !MatchAt(s, w, m)
  }

  /** A stretch of one chunk is the same stretch of the flat sequence. */
  lemma FlatRange(cs: seq<seq<Byte>>, c: nat, i: nat, j: nat)
    requires c < |cs| && i <= j <= |cs[c]|
    ensures var b := |Flat(cs[..c])|;
      b + j <= |Flat(cs)| && Flat(cs)[b + i..b + j] == cs[c][i..j]
  {
    FlatSplitAt(cs, c);
  }

  lemma DenotesBound(cs: seq<seq<Byte>>, p: Ptr)
    requires Denotes(cs, p)
    ensures 0 <= p.pos <= |Flat(cs)|
    ensures p.chain == |cs| ==> p.pos == |Flat(cs)|
  {
    FlatSplit(cs, p.chain);
    if p.chain < |cs| {
      FlatNext(cs, p.chain);
    } else {
      assert cs[..p.chain] == cs;
    }
  }

  /** evbuffer_ptr_memcmp, as whether it returns 0. */
  method PtrMatches(buf: EvBuffer, pos: Ptr, mem: seq<Byte>) returns (same: bool)
    requires buf.Valid() && Denotes(buf.Data(), pos)
    ensures same == MatchAt(buf.Contents(), mem, pos.pos)
  {
    if pos.pos + |mem| > buf.totalLen { return false; }
    same := CompareChains(buf.chains, pos, mem);
  }

  /** The loop of event/buffer.c:2469-2485. */
  method CompareChains(chains: seq<Chain>, pos: Ptr, mem: seq<Byte>) returns (same: bool)
    requires AllOk(chains) && Denotes(ChunksOf(chains), pos)
    requires pos.pos + |mem| <= |Flat(ChunksOf(chains))|
    ensures same == MatchAt(Flat(ChunksOf(chains)), mem, pos.pos)
  {
    hide Flat;
    ghost var cs := ChunksOf(chains);
    DenotesBound(cs, pos);
    var c: nat, at: nat, i: nat := pos.chain, pos.posInChain, 0;
    while i < |mem| && c < |chains|
      invariant c <= |cs| && i <= |mem|
      invariant i < |mem| ==> Denotes(cs, Ptr(pos.pos + i, c, at))
      invariant Flat(cs)[pos.pos..pos.pos + i] == mem[..i]
      decreases |cs| - c
    {
      var bytes := chains[c].Bytes();
      assert bytes == cs[c];
      var n := if |mem| - i + at > |bytes| then |bytes| - at else |mem| - i;
      CompareLemma(cs, pos.pos, mem, i, c, at, n);
      if bytes[at..at + n] != mem[i..i + n] {
        return false;
      }
      i, at, c := i + n, 0, c + 1;
    }
    if i < |mem| {
      DenotesBound(cs, Ptr(pos.pos + i, c, at));
    }
    same := true;
  }

  /** One step of the comparison: `n` bytes of chain `c` from `at` on against `mem` from `i` on. */
  lemma CompareLemma(cs: seq<seq<Byte>>, p: nat, mem: seq<Byte>, i: nat, c: nat, at: nat, n: nat)
    requires c < |cs| && Denotes(cs, Ptr(p + i, c, at)) && p + |mem| <= |Flat(cs)|
    requires i + n <= |mem| && at + n <= |cs[c]| && (i + n < |mem| ==> at + n == |cs[c]|)
    requires Flat(cs)[p..p + i] == mem[..i]
    ensures cs[c][at..at + n] == mem[i..i + n] ==> Flat(cs)[p..p + i + n] == mem[..i + n]
    ensures cs[c][at..at + n] != mem[i..i + n] ==> Flat(cs)[p..p + |mem|] != mem
    ensures i + n < |mem| ==> Denotes(cs, Ptr(p + i + n, c + 1, 0))
  {
    hide Flat;
    assert p + i == |Flat(cs[..c])| + at;
    FlatRange(cs, c, at, at + n);
    MatchSplit(Flat(cs), p, mem, i, n);
    if i + n < |mem| {
      NextPlace(cs, p + i, c, at);
    }
  }

  lemma NextPlace(cs: seq<seq<Byte>>, pos: int, c: nat, at: nat)
    requires c < |cs| && Denotes(cs, Ptr(pos, c, at))
    ensures Denotes(cs, Ptr(pos + |cs[c]| - at, c + 1, 0))
  {
    hide Flat;
    FlatNext(cs, c);
  }

  lemma MatchSplit(s: seq<Byte>, p: nat, mem: seq<Byte>, i: nat, n: nat)
    requires i + n <= |mem| && p + |mem| <= |s|
    requires s[p..p + i] == mem[..i]
    ensures s[p + i..p + i + n] == mem[i..i + n] <==> s[p..p + i + n] == mem[..i + n]
    ensures s[p + i..p + i + n] != mem[i..i + n] ==> s[p..p + |mem|] != mem
  {
    assert s[p..p + i + n] == s[p..p + i] + s[p + i..p + i + n];
    assert mem[..i + n] == mem[..i] + mem[i..i + n];
    assert s[p..p + i + n][i..] == s[p + i..p + i + n];
    SubSub(s, p, p + |mem|, i, i + n);
  }

  lemma SubSub(s: seq<Byte>, a: nat, b: nat, i: nat, j: nat)
    requires a <= b <= |s| && i <= j <= b - a
    ensures s[a..b][i..j] == s[a + i..a + j]
  {
    var t, u := s[a..b][i..j], s[a + i..a + j];
    forall k | 0 <= k < j - i
      ensures t[k] == u[k]
    {
      assert s[a..b][i + k] == s[a + i + k];
    }
  }

  /** memchr over one chain from `at` on; the chain's length when the byte is not there. */
  method Memchr(bytes: seq<Byte>, b: Byte, at: nat) returns (i: nat)
    requires at <= |bytes|
    ensures at <= i <= |bytes| && (i < |bytes| ==> bytes[i] == b)
    ensures forall j :: at <= j < i ==> bytes[j] != b
  {
    i := at;
    while i < |bytes| && bytes[i] != b
      invariant at <= i <= |bytes|
      invariant forall j :: at <= j < i ==> bytes[j] != b
    {
      i := i + 1;
    }
  }

  /** Bytes that differ from the first byte of `w` start no match. */
  lemma SkipLemma(cs: seq<seq<Byte>>, c: nat, at: nat, i: nat, w: seq<Byte>)
    requires c < |cs| && at <= i <= |cs[c]| && w != []
    requires forall j :: at <= j < i ==> cs[c][j] != w[0]
    ensures var b := |Flat(cs[..c])|; NoMatch(Flat(cs), w, b + at, b + i)
  {
    var b, s := |Flat(cs[..c])|, Flat(cs);
    forall m | b + at <= m < b + i
      ensures !MatchAt(s, w, m)
    {
      FlatRange(cs, c, m - b, m - b + 1);
      assert s[m..m + 1][0] == s[m] && cs[c][m - b..m - b + 1][0] == cs[c][m - b];
    }
  }

  datatype End = NoEnd | EndAt(ptr: Ptr)

  ghost predicate Within(end: End, m: int, len: nat) {
    end.EndAt? ==> m + len <= end.ptr.pos
  }

  lemma NextChain(cs: seq<seq<Byte>>, p: Ptr)
    requires Denotes(cs, p) && p.chain < |cs| && p.posInChain == |cs[p.chain]|
    ensures Denotes(cs, Ptr(p.pos, p.chain + 1, 0))
  {
    FlatNext(cs, p.chain);
  }

  /** memchr from `pos` to the end of its chain, for the first byte of `what`. */
  method NextCandidate(buf: EvBuffer, pos: Ptr, what: seq<Byte>) returns (p: Ptr)
    requires buf.Valid() && Denotes(buf.Data(), pos) && pos.chain < |buf.chains| && what != []
    ensures Denotes(buf.Data(), p) && p.chain == pos.chain && pos.pos <= p.pos
    ensures NoMatch(buf.Contents(), what, pos.pos, p.pos)
  {
    ghost var cs := buf.Data();
    var i := Memchr(buf.chains[pos.chain].Bytes(), what[0], pos.posInChain);
    SkipLemma(cs, pos.chain, pos.posInChain, i, what);
    p := Ptr(pos.pos + (i - pos.posInChain), pos.chain, i);
  }

  /** evbuffer_search_range: the leftmost match from `start` on, if it ends by `end`. */
  method SearchRange(buf: EvBuffer, what: seq<Byte>, start: Ptr, end: End) returns (r: Ptr)
    requires buf.Valid() && Denotes(buf.Data(), start)
    requires end.EndAt? ==> Denotes(buf.Data(), end.ptr)
    ensures what == [] ==> r == start
    ensures what != [] && r.pos >= 0 ==>
      && Denotes(buf.Data(), r) && start.pos <= r.pos && MatchAt(buf.Contents(), what, r.pos)
      && Within(end, r.pos, |what|) && NoMatch(buf.Contents(), what, start.pos, r.pos)
    ensures what != [] && r.pos < 0 ==>
      && r.pos == -1 && r.chain == |buf.chains|
      && forall m :: start.pos <= m && MatchAt(buf.Contents(), what, m) ==> !Within(end, m, |what|)
  {
    hide Flat;
    if what == [] { return start; }
    ghost var cs, flat := buf.Data(), buf.Contents();
    var pos := start;
    while pos.chain < |buf.chains|
      invariant Denotes(cs, pos) && start.pos <= pos.pos
      invariant NoMatch(flat, what, start.pos, pos.pos)
      decreases |cs| - pos.chain, if pos.chain < |cs| then |cs[pos.chain]| - pos.posInChain else 0
    {
      pos := NextCandidate(buf, pos, what);
      if pos.posInChain < buf.chains[pos.chain].off {
        var same := PtrMatches(buf, pos, what);
        if same {
          if end.EndAt? && pos.pos + |what| > end.ptr.pos {
            BeyondEnd(flat, what, start.pos, pos.pos, end);
            return Ptr(-1, |buf.chains|, 0);
          }
          return pos;
        }
        pos := Ptr(pos.pos + 1, pos.chain, pos.posInChain + 1);
        if pos.posInChain == buf.chains[pos.chain].off {
          NextChain(cs, pos);
          pos := Ptr(pos.pos, pos.chain + 1, 0);
        }
      } else {
        if end.EndAt? && pos.chain == end.ptr.chain {
          BeyondEnd(flat, what, start.pos, pos.pos, end);
          return Ptr(-1, |buf.chains|, 0);
        }
        NextChain(cs, pos);
        pos := Ptr(pos.pos, pos.chain + 1, 0);
      }
    }
    DenotesBound(cs, pos);
    r := Ptr(-1, |buf.chains|, 0);
  }

  lemma BeyondEnd(s: seq<Byte>, w: seq<Byte>, lo: int, p: int, end: End)
    requires NoMatch(s, w, lo, p) && end.EndAt? && p + |w| > end.ptr.pos
    ensures forall m :: lo <= m && MatchAt(s, w, m) ==> !Within(end, m, |w|)
  {
  }

  /** EVBUFFER_PTR_SET and EVBUFFER_PTR_ADD. */
  datatype How = SetTo | Advance

  /**
   evbuffer_ptr_set: `position` counts from the start, or from the place `p` denotes; a pointer past the
   last chain does not move.  Fails exactly when the place asked for is not before the end.
   */
  method PtrSet(buf: EvBuffer, p: Ptr, position: nat, how: How) returns (ok: bool, r: Ptr)
    requires buf.Valid()
    requires how.Advance? ==> Denotes(buf.Data(), p) || p.chain == |buf.chains|
    ensures how.SetTo? ==> (ok <==> position < buf.totalLen)
    ensures how.Advance? ==> (ok <==> p.chain < |buf.chains| && p.pos + position < buf.totalLen)
    ensures ok ==> r.pos == position + (if how.Advance? then p.pos else 0)
    ensures ok ==> Denotes(buf.Data(), r) && r.chain < |buf.chains| && r.posInChain < |buf.Data()[r.chain]|
    ensures !ok ==> r == Ptr(-1, |buf.chains|, p.posInChain)
  {
    hide Flat;
    ghost var cs := buf.Data();
    var left, c, at, target := position, 0, 0, position;
    assert cs[..0] == [] && Flat(cs[..0]) == [] by { FlatEmpty<Byte>([]); }
    if how.Advance? {
      c, at, target := p.chain, p.posInChain, p.pos + position;
    }
    while c < |buf.chains| && at + left >= buf.chains[c].off
      invariant c <= |cs| && 0 <= at && 0 <= left
      invariant c < |cs| ==> Denotes(cs, Ptr(target - left, c, at))
      invariant c == |cs| ==> (how.Advance? && p.chain == |cs|) || target - left == |Flat(cs)|
      decreases |cs| - c
    {
      FlatNext(cs, c);
      left, c, at := left - (buf.chains[c].off - at), c + 1, 0;
      assert c == |cs| ==> cs[..c] == cs;
    }
    if c < |buf.chains| {
      FlatNext(cs, c);
      return true, Ptr(target, c, at + left);
    }
    return false, Ptr(-1, |buf.chains|, p.posInChain);
  }
}
