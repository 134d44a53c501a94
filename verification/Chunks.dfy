/**
 The pure side of the evbuffer model: a buffer is a list of chunks that must
 read as one flat sequence, with an index of the last chunk holding data.
 */
module Chunks {

  /** The flat sequence a list of chunks denotes. */
  ghost function Flat<T>(cs: seq<seq<T>>): seq<T> {
    if cs == [] then [] else cs[0] + Flat(cs[1..])
  }

  lemma {:induction false} FlatConcat<T>(a: seq<seq<T>>, b: seq<seq<T>>)
    ensures Flat(a + b) == Flat(a) + Flat(b)
  {
    if a == [] {
      assert a + b == b;
    } else {
      assert (a + b)[1..] == a[1..] + b;
      FlatConcat(a[1..], b);
    }
  }

  lemma FlatSingle<T>(c: seq<T>)
    ensures Flat([c]) == c
  {
    assert [c][1..] == [];
  }

  /** No chunk from index `i` on holds data. */
  ghost predicate EmptyFrom<T>(cs: seq<seq<T>>, i: nat) {
    forall j :: i <= j < |cs| ==> cs[j] == []
  }

  lemma {:induction false} FlatEmpty<T>(cs: seq<seq<T>>)
    requires EmptyFrom(cs, 0)
    ensures Flat(cs) == []
  {
    if cs != [] {
      FlatEmpty(cs[1..]);
    }
  }

  lemma FlatSplit<T>(cs: seq<seq<T>>, i: nat)
    requires i <= |cs|
    ensures Flat(cs) == Flat(cs[..i]) + Flat(cs[i..])
  {
    assert cs == cs[..i] + cs[i..];
    FlatConcat(cs[..i], cs[i..]);
  }

  lemma FlatSplitAt<T>(cs: seq<seq<T>>, i: nat)
    requires i < |cs|
    ensures Flat(cs) == Flat(cs[..i]) + cs[i] + Flat(cs[i + 1..])
  {
    FlatSplit(cs, i);
    assert cs[i..][1..] == cs[i + 1..];
  }

  /** One chunk more of the flat sequence. */
  lemma FlatNext<T>(cs: seq<seq<T>>, i: nat)
    requires i < |cs|
    ensures Flat(cs[..i + 1]) == Flat(cs[..i]) + cs[i]
    ensures Flat(cs[..i + 1]) <= Flat(cs)
  {
    hide Flat;
    CutAt(cs, i);
    FlatSplit(cs[..i + 1], i);
    FlatSingle(cs[i]);
    FlatSplit(cs, i + 1);
  }

  lemma CutAt<T>(s: seq<T>, i: nat)
    requires i < |s|
    ensures s[..i + 1][..i] == s[..i] && s[..i + 1][i..] == [s[i]]
  {
  }

  /** Trailing empty chunks do not show in the flat sequence. */
  lemma FlatTrim<T>(cs: seq<seq<T>>, i: nat)
    requires i <= |cs| && EmptyFrom(cs, i)
    ensures Flat(cs) == Flat(cs[..i])
  {
    FlatSplit(cs, i);
    FlatEmpty(cs[i..]);
  }

  /**
   `k` is the index of the last chunk with data; it is 0 when no chunk has data
   (event/evbuffer-internal.h:84-97).
   */
  ghost predicate IsLastData<T>(cs: seq<seq<T>>, k: nat) {
    && (k == 0 || (k < |cs| && cs[k] != []))
    && EmptyFrom(cs, k + 1)
  }

  /** Every chunk holds data, except that a sole chunk may be empty. */
  ghost predicate Tight<T>(cs: seq<seq<T>>) {
    |cs| > 1 ==> forall i :: 0 <= i < |cs| ==> cs[i] != []
  }
}
