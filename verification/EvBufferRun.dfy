/** Whole runs of evbuffer operations on two buffers, against the same run on two flat byte strings. */
module EvBufferRun {
  import opened Octets
  import opened Chunks
  import opened EvChain
  import opened EvBuffer

  datatype Act =
    | Append(data: seq<Byte>)
    | Prefix(data: seq<Byte>)
    | Discard(n: nat)
    | Copy(n: nat)
    | Take(n: nat)
    | Absorb
    | AbsorbFront
    | Move(n: nat)
    | Pull(size: int)

  /** An operation on one of the two buffers, with the other as its peer. */
  datatype Op = Op(onSecond: bool, act: Act)

  datatype Strings = Strings(x: seq<Byte>, y: seq<Byte>, out: seq<Byte>)

  /** What an operation means on flat strings; `x` is the buffer it is called on. */
  function Effect(act: Act, x: seq<Byte>, y: seq<Byte>): Strings {
    match act
    case Append(data) => Strings(x + data, y, [])
    case Prefix(data) => Strings(data + x, y, [])
    case Discard(n) => Strings(x[Min(n, |x|)..], y, [])
    case Copy(n) => Strings(x, y, x[..Min(n, |x|)])
    case Take(n) => Strings(x[Min(n, |x|)..], y, x[..Min(n, |x|)])
    case Absorb => Strings(x + y, [], [])
    case AbsorbFront => Strings(y + x, [], [])
    case Move(n) => Strings(x[Min(n, |x|)..], y + x[..Min(n, |x|)], [])
    case Pull(size) =>
      var n := if size < 0 then |x| else size;
      Strings(x, y, if n > |x| then [] else x[..n])
  }

  function FlatStep(op: Op, s: Strings): Strings {
    if op.onSecond then
      var e := Effect(op.act, s.y, s.x);
      Strings(e.y, e.x, s.out + e.out)
    else
      var e := Effect(op.act, s.x, s.y);
      Strings(e.x, e.y, s.out + e.out)
  }

  function FlatRun(ops: seq<Op>, s: Strings): Strings {
    if ops == [] then s else FlatStep(ops[|ops| - 1], FlatRun(ops[..|ops| - 1], s))
  }

  /** The state every run starts in and keeps. */
  ghost predicate Ready(a: EvBuffer)
    reads a
  {
    a.Valid() && Tight(a.Data()) && !a.freezeStart && !a.freezeEnd
  }

  lemma PullPrefix(c: seq<seq<Byte>>, n: nat)
    requires c != [] && n <= |c[0]|
    ensures n <= |Flat(c)| && c[0][..n] == Flat(c)[..n]
  {
  }

  method Perform(act: Act, a: EvBuffer, b: EvBuffer) returns (out: seq<Byte>)
    requires a != b && Ready(a) && Ready(b)
    modifies a`chains, a`lastWithData, a`totalLen, b`chains, b`lastWithData, b`totalLen
    ensures Ready(a) && Ready(b)
    ensures Strings(a.Contents(), b.Contents(), out) == Effect(act, old(a.Contents()), old(b.Contents()))
  {
    hide Flat, IsLastData, Tight;
    out := [];
    var r;
    match act {
      case Append(data) => r := a.Add(data);
      case Prefix(data) => r := a.Prepend(data);
      case Discard(n) => r := a.Drain(n);
      case Copy(n) =>
        var c := a.CopyOut(n);
        out := c.value;
      case Take(n) =>
        var c := a.Remove(n);
        out := c.value;
      case Absorb => r := a.AddBuffer(b);
      case AbsorbFront => r := a.PrependBuffer(b);
      case Move(n) =>
        var moved;
        r, moved := a.RemoveBuffer(b, n);
        assert n == 0 ==> a.Contents()[0..] == a.Contents() && b.Contents() + a.Contents()[..0] == b.Contents();
      case Pull(size) =>
        var p := a.Pullup(size);
        if p.Some? {
          out := p.value;
          PullPrefix(a.Data(), |out|);
        } else {
          assert a.Contents()[..0] == [];
        }
    }
  }

  /** Every run keeps both buffers valid and agrees with the run on flat strings. */
  method Run(ops: seq<Op>, a: EvBuffer, b: EvBuffer) returns (out: seq<Byte>)
    requires a != b && Ready(a) && Ready(b)
    modifies a`chains, a`lastWithData, a`totalLen, b`chains, b`lastWithData, b`totalLen
    ensures Ready(a) && Ready(b)
    ensures Strings(a.Contents(), b.Contents(), out) ==
      FlatRun(ops, Strings(old(a.Contents()), old(b.Contents()), []))
  {
    ghost var s0 := Strings(a.Contents(), b.Contents(), []);
    out := [];
    var i := 0;
    assert ops[..0] == [];
    while i < |ops|
      invariant 0 <= i <= |ops| && Ready(a) && Ready(b)
      invariant Strings(a.Contents(), b.Contents(), out) == FlatRun(ops[..i], s0)
    {
      assert ops[..i + 1][..i] == ops[..i];
      var piece;
      if ops[i].onSecond {
        piece := Perform(ops[i].act, b, a);
      } else {
        piece := Perform(ops[i].act, a, b);
      }
      out := out + piece;
      i := i + 1;
    }
    assert ops[..i] == ops;
  }

  /** A buffer of one full chain and the empty one evbuffer_expand_singlechain put behind it. */
  method FullThenEmpty(full: seq<Byte>) returns (a: EvBuffer)
    requires |full| == MIN_BUFFER_SIZE - EVBUFFER_CHAIN_SIZE
    ensures fresh(a) && a.Valid() && !a.freezeStart && !a.freezeEnd
    ensures a.Data() == [full, []] && a.lastWithData == 0 && a.Room() >= 1
  {
    a := new EvBuffer();
    var r := a.Add(full);
    assert a.Data()[0] == full;
    FirstEmptyIs(a.Data(), 0, 1);
    var idx := a.ExpandSingleChain(1);
    assert a.Data()[1] == [];
  }

  /**
   evbuffer_add on a buffer whose last chain is empty and not the last with data:
   the bytes are stored, `last_with_datap` is left behind.
   */
  method AddLeavesPointerBehind(full: seq<Byte>) returns (a: EvBuffer)
    requires |full| == MIN_BUFFER_SIZE - EVBUFFER_CHAIN_SIZE
    ensures a.Structure() && a.Data() == [full, [2]] && a.lastWithData == 0
    ensures !a.Valid()
  {
    a := FullThenEmpty(full);
    var r := a.Add([2]);
    assert a.Data()[1] == [2];
  }

  /** Absorbing two more buffers puts data behind the empty chain. */
  method GapThenData(full: seq<Byte>) returns (a: EvBuffer)
    requires |full| == MIN_BUFFER_SIZE - EVBUFFER_CHAIN_SIZE
    ensures fresh(a) && a.Valid() && !a.freezeStart && !a.freezeEnd
    ensures a.Data() == [full, [], [1], [2]]
  {
    hide Flat, IsLastData, Tight;
    a := FullThenEmpty(full);
    FlatSplitAt(a.Data(), 0);
    var y := OneByte(1);
    var r := a.AddBuffer(y);
    FlatSplitAt(a.Data(), 0);
    var z := OneByte(2);
    r := a.AddBuffer(z);
  }

  method OneByte(x: Byte) returns (a: EvBuffer)
    ensures fresh(a) && a.Valid() && !a.freezeStart && !a.freezeEnd
    ensures a.Data() == [[x]] && a.Contents() == [x]
  {
    a := new EvBuffer();
    var r := a.Add([x]);
    FlatSingle([x]);
    assert a.Data()[0] == [x];
  }

  lemma GapSplits(full: seq<Byte>, cs: seq<seq<Byte>>, room: nat, fits: bool)
    requires full != [] && cs == [full, [], [1], [2]]
    ensures |full| + 1 < |Flat(cs)| && Whole(cs, |full| + 1) == 3
    ensures Flat(cs[..3]) != [] && |Flat(cs[..3])| == |full| + 1
    ensures !ReceiveSafe(true, cs[..3], room, fits, 0)
  {
    hide ReceiveSafe;
    FlatSplitAt(cs, 3);
    FlatSplitAt(cs[..3], 2);
    FlatSplitAt(cs[..3][..2], 1);
    FlatSingle(full);
    assert cs[..3][..2][..1] == [full];
    assert cs[..3][..2][2..] == [] && cs[..3][3..] == [];
    WholeUnique(cs, |full| + 1, 3);
    GapIsNoRun(cs[..3], room, fits);
  }

  lemma GapIsNoRun(moved: seq<seq<Byte>>, room: nat, fits: bool)
    requires |moved| == 3 && moved[1] == [] && moved[2] != []
    ensures !ReceiveSafe(true, moved, room, fits, 0)
  {
  }

  /**
   evbuffer_remove_buffer moving the first three of the chains [full], [], [1], [2] to an empty
   buffer: `last_with_datap` stops before the gap.
   */
  method MoveStopsAtGap(full: seq<Byte>) returns (r: Outcome, src: EvBuffer, dst: EvBuffer)
    requires |full| == MIN_BUFFER_SIZE - EVBUFFER_CHAIN_SIZE
    ensures fresh(src) && fresh(dst) && src != dst
    ensures !(r == Done && src.Valid() && dst.Valid())
  {
    hide Flat, IsLastData, Tight, AddSafe, ReceiveSafe, Whole;
    src := GapThenData(full);
    dst := new EvBuffer();
    GapSplits(full, src.Data(), src.chains[2].Space(), FitsIn(src.chains[2], 0));
    var n;
    r, n := src.RemoveBuffer(dst, |full| + 1);
  }
}
