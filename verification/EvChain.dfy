/**
 A single chunk of an evbuffer (struct evbuffer_chain, unpinned and mutable).
 The chain's `next` pointer is its position in the buffer's list.
 */
module EvChain {
  import opened Octets

  // event/evbuffer-internal.h:52-56 and the size of struct evbuffer_chain (64-bit).
  const MIN_BUFFER_SIZE: nat := 1024
  const EVBUFFER_CHAIN_SIZE: nat := 48
  const MAX_TO_REALIGN_IN_EXPAND: nat := 2048

  /** memcpy of `data` to `b + at`. */
  function Write(b: seq<Byte>, at: nat, data: seq<Byte>): (r: seq<Byte>)
    requires at + |data| <= |b|
    ensures |r| == |b|
    ensures r[..at] == b[..at] && r[at..at + |data|] == data && r[at + |data|..] == b[at + |data|..]
  {
    b[..at] + data + b[at + |data|..]
  }

  datatype Chain = Chain(buffer: seq<Byte>, misalign: nat, off: nat) {
    predicate Ok() {
      MIN_BUFFER_SIZE - EVBUFFER_CHAIN_SIZE <= |buffer| && misalign + off <= |buffer|
    }

    /** The data this chain contributes to its buffer. */
    function Bytes(): (r: seq<Byte>)
      requires Ok()
      ensures |r| == off
    {
      buffer[misalign..misalign + off]
    }

    /** CHAIN_SPACE_LEN */
    function Space(): nat
      requires Ok()
    {
      |buffer| - (misalign + off)
    }

    /** evbuffer_chain_should_realign */
    predicate ShouldRealign(datlen: nat)
      requires Ok()
    {
      && datlen <= |buffer| - off
      && off < |buffer| / 2
      && off <= MAX_TO_REALIGN_IN_EXPAND
    }
  }

  /** memcpy to CHAIN_SPACE_PTR, then `off += datlen`. */
  method Append(c: Chain, data: seq<Byte>) returns (d: Chain)
    requires c.Ok() && |data| <= c.Space()
    ensures d.Ok() && d.Bytes() == c.Bytes() + data
    ensures |d.buffer| == |c.buffer| && d.misalign == c.misalign
  {
    hide Write;
    var at := c.misalign + c.off;
    d := c.(buffer := Write(c.buffer, at, data), off := c.off + |data|);
    assert d.Bytes() == d.buffer[..at][c.misalign..] + d.buffer[at..at + |data|];
    assert c.Bytes() == c.buffer[..at][c.misalign..];
  }

  /** evbuffer_chain_align */
  method Align(c: Chain) returns (d: Chain)
    requires c.Ok()
    ensures d.Ok() && d.Bytes() == c.Bytes() && d.misalign == 0
    ensures |d.buffer| == |c.buffer|
  {
    d := c.(buffer := Write(c.buffer, 0, c.Bytes()), misalign := 0);
  }

  /** `misalign += n; off -= n` */
  method TrimFront(c: Chain, n: nat) returns (d: Chain)
    requires c.Ok() && n <= c.off
    ensures d.Ok() && d.Bytes() == c.Bytes()[n..]
  {
    d := c.(misalign := c.misalign + n, off := c.off - n);
  }

  /** memcpy to just before the data, growing it to the left. */
  method PushFront(c: Chain, data: seq<Byte>) returns (d: Chain)
    requires c.Ok() && |data| <= c.misalign
    ensures d.Ok() && d.Bytes() == data + c.Bytes()
    ensures d.misalign == c.misalign - |data|
  {
    hide Write;
    var at := c.misalign - |data|;
    d := c.(buffer := Write(c.buffer, at, data), misalign := at, off := c.off + |data|);
    assert d.buffer[c.misalign..][..c.off] == c.buffer[c.misalign..][..c.off];
    assert d.Bytes() == d.buffer[at..c.misalign] + d.buffer[c.misalign..][..c.off];
    assert c.Bytes() == c.buffer[c.misalign..][..c.off];
  }

  /** evbuffer_chain_new */
  method ChainNew(size: nat) returns (c: Chain)
    ensures c.Ok()
    ensures c.misalign == 0 && c.off == 0
    ensures size <= |c.buffer|
    ensures size <= MIN_BUFFER_SIZE - EVBUFFER_CHAIN_SIZE ==> |c.buffer| == MIN_BUFFER_SIZE - EVBUFFER_CHAIN_SIZE
  {
    var toAlloc := MIN_BUFFER_SIZE;
    while toAlloc < size + EVBUFFER_CHAIN_SIZE
      invariant MIN_BUFFER_SIZE <= toAlloc
      invariant size + EVBUFFER_CHAIN_SIZE <= MIN_BUFFER_SIZE ==> toAlloc == MIN_BUFFER_SIZE
    {
      toAlloc := toAlloc * 2;
    }
    c := Chain(seq(toAlloc - EVBUFFER_CHAIN_SIZE, _ => 0), 0, 0);
  }

  ghost predicate AllOk(s: seq<Chain>) {
    forall i :: 0 <= i < |s| ==> s[i].Ok()
  }

  ghost function ChunksOf(s: seq<Chain>): (r: seq<seq<Byte>>)
    requires AllOk(s)
    ensures |r| == |s| && forall i {:trigger r[i]} :: 0 <= i < |s| ==> r[i] == s[i].Bytes()
  {
    seq(|s|, i requires 0 <= i < |s| => s[i].Bytes())
  }
}
