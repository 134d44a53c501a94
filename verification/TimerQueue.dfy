/** System/Timer.cpp: timers in a heap by due time, and the loop that fires the due ones. */
module TimerQueue {
  import opened TimerHeap
  import opened Arith

  /** What a callback does while its timer fires. */
  datatype Action =
    | Start(clock: int, interval: int, first: int, count: int)
    | Cancel(id: nat)

  /** A call of onTimer: the timer and the time it was due. */
  datatype Fire = Fire(id: nat, due: int)

  /** Callbacks start only timers that are not yet due, with positive intervals. */
  ghost predicate Patient(acts: seq<Action>, now: int) {
    forall i :: 0 <= i < |acts| && acts[i].Start? ==> acts[i].clock + acts[i].first > now && acts[i].interval > 0
  }

  ghost predicate Spares(acts: seq<Action>, id: nat) {
    forall i :: 0 <= i < |acts| ==> acts[i] != Cancel(id)
  }

  /** What each call of onTimer does, in order of the calls. */
  type Script = nat -> seq<Action>

  /** None of the first `n` callbacks cancels the timer. */
  ghost predicate Spared(script: Script, n: nat, id: nat) {
    forall k: nat :: k < n ==> Spares(script(k), id)
  }

  /** Callbacks that neither start nor cancel anything. */
  ghost predicate Idle(script: Script) {
    forall k: nat :: script(k) == []
  }

  /** How often a timer is due up to `now`, as far as its count allows. */
  function Expected(t: Timer, now: int): nat
    requires t.interval > 0
  {
    if t.count == 0 || t.timeNext > now then 0
    else
      var k := (now - t.timeNext) / t.interval + 1;
      if t.count < 0 || k < t.count then k else t.count
  }

  /** A timer after it fired once. */
  function After(t: Timer): Timer {
    Timer(t.timeNext + t.interval, t.interval, if t.count > 0 then t.count - 1 else t.count)
  }

  /** A timer after it fired `k` times. */
  function Later(t: Timer, k: nat): Timer {
    Timer(t.timeNext + k * t.interval, t.interval, if t.count > 0 then t.count - k else t.count)
  }

  lemma LaterStep(t: Timer, k: nat)
    requires t.count > 0 ==> k < t.count
    ensures Later(t, k + 1) == After(Later(t, k))
  {
    assert (k + 1) * t.interval == k * t.interval + t.interval;
  }

  lemma DivStep(d: int, n: int)
    requires n > 0 && d >= 0
    ensures d / n == if d < n then 0 else (d - n) / n + 1
  {
    if d < n {
      ModUnique(d, 0, d, n);
    } else {
      var q, r := (d - n) / n, (d - n) % n;
      assert d - n == q * n + r;
      assert (q + 1) * n == q * n + n;
      ModUnique(d, q + 1, r, n);
    }
  }

  lemma ExpectedStep(t: Timer, now: int)
    requires t.interval > 0 && t.count != 0 && t.timeNext <= now
    ensures Expected(t, now) == 1 + Expected(After(t), now)
  {
    DivStep(now - t.timeNext, t.interval);
    assert now - (t.timeNext + t.interval) == now - t.timeNext - t.interval;
    QuotientAtLeastZero(now - t.timeNext, t.interval);
  }

  lemma QuotientAtLeastZero(d: int, n: int)
    requires n > 0 && d >= 0
    ensures d / n >= 0
  {
  }

  ghost function Fires(log: seq<Fire>, id: nat): nat {
    if log == [] then 0
    else Fires(log[..|log| - 1], id) + if log[|log| - 1].id == id then 1 else 0
  }

  ghost predicate InOrder(log: seq<Fire>) {
    forall i, j :: 0 <= i < j < |log| ==> log[i].due <= log[j].due
  }

  ghost predicate Positive(mem: Memory) {
    forall id :: id in mem ==> mem[id].interval > 0
  }

  /** What callbacks may have done to a timer: the due time stays, and the count is kept or cleared by a cancel. */
  ghost predicate Touched(t: Timer, u: Timer, spared: bool) {
    u == if spared then t else t.(count := 0)
  }

  /** Timers started since, from id `n` on, are not due. */
  ghost predicate Fresh(m0: Memory, m1: Memory, n: nat, now: int) {
    forall id :: id in m1 && id !in m0 ==> id >= n && m1[id].timeNext > now && m1[id].interval > 0
  }

  /** One callback: nothing due was started, and exactly the cancelled timers lost their count. */
  ghost predicate Evolved(m0: Memory, m1: Memory, n: nat, acts: seq<Action>, now: int) {
    && (forall id :: id in m0 ==> id in m1 && Touched(m0[id], m1[id], Spares(acts, id)))
    && Fresh(m0, m1, n, now)
  }

  /** One turn of the loop that fires timer `f`: it is requeued unless its count ran out or it was cancelled. */
  ghost predicate Fired(m0: Memory, m1: Memory, n: nat, f: nat, acts: seq<Action>, now: int) {
    && f in m0
    && (forall id :: id in m0 && id != f ==> id in m1 && Touched(m0[id], m1[id], Spares(acts, id)))
    && (f in m1 <==> Spares(acts, f) && After(m0[f]).count != 0)
    && (f in m1 ==> m1[f] == After(m0[f]))
    && Fresh(m0, m1, n, now)
  }

  // ---- What the loop of process keeps, since it started with the timers m0 ----

  ghost function Left(mem: Memory, id: nat, now: int): nat
    requires Positive(mem)
  {
    if id in mem then Expected(mem[id], now) else 0
  }

  /** Fires so far and fires to come make up the fires expected at the start; a cancel can only take some away. */
  ghost predicate Accounted(m0: Memory, mem: Memory, log: seq<Fire>, script: Script, now: int)
    requires Positive(m0) && Positive(mem)
  {
    forall id :: id in m0 ==>
      && Fires(log, id) + Left(mem, id, now) <= Expected(m0[id], now)
      && (Spared(script, |log|, id) ==> Fires(log, id) + Left(mem, id, now) == Expected(m0[id], now))
  }

  ghost predicate Live(mem: Memory, id: nat) {
    id in mem && mem[id].count != 0
  }

  /** A live timer no callback cancels is where its fires so far have taken it, and gone only when its count ran out. */
  ghost predicate Tracked(m0: Memory, mem: Memory, log: seq<Fire>, script: Script) {
    forall id :: id in m0 && m0[id].count != 0 && Spared(script, |log|, id) ==> InStep(m0[id], mem, id, Fires(log, id))
  }

  /** A timer that is removed already stays so. */
  ghost predicate Unrevived(m0: Memory, mem: Memory) {
    forall id :: id in m0 && m0[id].count == 0 ==> !Live(mem, id)
  }

  ghost predicate InStep(t: Timer, mem: Memory, id: nat, k: nat) {
    && (id in mem <==> Later(t, k).count != 0) && (id in mem ==> mem[id] == Later(t, k))
    && (t.count > 0 ==> k <= t.count)
  }

  /** Fires come in order of due time, and no timer is due before the last fire. */
  ghost predicate Paced(mem: Memory, log: seq<Fire>, now: int) {
    && InOrder(log)
    && (forall k :: 0 <= k < |log| ==> log[k].due <= now)
    && (forall id, k :: id in mem && 0 <= k < |log| ==> log[k].due <= mem[id].timeNext)
  }

  /** No timer fires after a callback cancelled it. */
  ghost predicate Obedient(log: seq<Fire>, script: Script) {
    forall j, k :: 0 <= j < k < |log| ==> Spares(script(j), log[k].id)
  }

  ghost predicate Obeyed(m0: Memory, mem: Memory, log: seq<Fire>, script: Script) {
    && Obedient(log, script)
    && (forall j, id :: 0 <= j < |log| && id in mem && id in m0 && !Spares(script(j), id) ==> mem[id].count == 0)
  }

  ghost predicate Progress(m0: Memory, mem: Memory, n0: nat, log: seq<Fire>, script: Script, now: int) {
    && Positive(m0) && Positive(mem)
    && Accounted(m0, mem, log, script, now)
    && Tracked(m0, mem, log, script)
    && Paced(mem, log, now)
    && Obeyed(m0, mem, log, script)
    && Unrevived(m0, mem)
    && Fresh(m0, mem, n0, now)
    && (forall k :: 0 <= k < |log| ==> log[k].id in m0)
  }

  /** The front of the heap: a live timer that is due, none due earlier. */
  ghost predicate Due(mem: Memory, f: nat, now: int) {
    f in mem && mem[f].count != 0 && mem[f].timeNext <= now && forall id :: id in mem ==> mem[f].timeNext <= mem[id].timeNext
  }

  lemma FiresMore(log: seq<Fire>, x: Fire, id: nat)
    ensures Fires(log + [x], id) == Fires(log, id) + if x.id == id then 1 else 0
  {
    assert (log + [x])[..|log|] == log;
  }

  lemma AccountedStep(m0: Memory, mem: Memory, m1: Memory, n: nat, f: nat, log: seq<Fire>, script: Script, now: int)
    requires Positive(m0) && Positive(mem) && Positive(m1) && Accounted(m0, mem, log, script, now)
    requires forall id :: id in m0 ==> id < n
    requires Due(mem, f, now) && Fired(mem, m1, n, f, script(|log|), now)
    ensures Accounted(m0, m1, log + [Fire(f, mem[f].timeNext)], script, now)
  {
    var x := Fire(f, mem[f].timeNext);
    forall id | id in m0
      ensures Fires(log + [x], id) + Left(m1, id, now) <= Expected(m0[id], now)
      ensures Spared(script, |log| + 1, id) ==> Fires(log + [x], id) + Left(m1, id, now) == Expected(m0[id], now)
    {
      FiresMore(log, x, id);
      if id == f {
        ExpectedStep(mem[f], now);
        assert Left(m1, f, now) == if Spares(script(|log|), f) then Expected(After(mem[f]), now) else 0;
      } else if id in mem {
        assert Touched(mem[id], m1[id], Spares(script(|log|), id));
      } else {
        assert id !in m1;
      }
    }
  }

  lemma TrackedStep(m0: Memory, mem: Memory, m1: Memory, n: nat, f: nat, log: seq<Fire>, script: Script, now: int)
    requires Tracked(m0, mem, log, script) && (forall id :: id in m0 ==> id < n)
    requires Due(mem, f, now) && Fired(mem, m1, n, f, script(|log|), now)
    ensures Tracked(m0, m1, log + [Fire(f, mem[f].timeNext)], script)
  {
    hide Later, After, Fires, Spares;
    var x := Fire(f, mem[f].timeNext);
    forall id | id in m0 && m0[id].count != 0 && Spared(script, |log| + 1, id)
      ensures InStep(m0[id], m1, id, Fires(log + [x], id))
    {
      FiresMore(log, x, id);
      assert Spares(script(|log|), id);
      assert InStep(m0[id], mem, id, Fires(log, id));
      if id == f {
        LaterCount(m0[f], Fires(log, f));
        LaterStep(m0[f], Fires(log, f));
        LaterCount(m0[f], Fires(log, f) + 1);
      } else if id in mem {
        assert Touched(mem[id], m1[id], Spares(script(|log|), id));
      } else {
        assert id !in m1;
      }
    }
  }

  lemma LaterCount(t: Timer, k: nat)
    ensures Later(t, k).count == if t.count > 0 then t.count - k else t.count
  {
  }

  lemma FiredKeeps(m0: Memory, mem: Memory, m1: Memory, n0: nat, n: nat, f: nat, log: seq<Fire>, script: Script, now: int)
    requires Progress(m0, mem, n0, log, script, now) && n0 <= n
    requires forall id :: id in m0 ==> id < n0
    requires Due(mem, f, now) && Fired(mem, m1, n, f, script(|log|), now)
    ensures Progress(m0, m1, n0, log + [Fire(f, mem[f].timeNext)], script, now)
  {
    hide Expected, Fires, Accounted, Spared, Spares, Fired, Paced, Obeyed, Unrevived, InOrder, Tracked;
    assert f in m0;
    FiredPositive(mem, m1, n, f, script(|log|), now);
    AccountedStep(m0, mem, m1, n, f, log, script, now);
    TrackedStep(m0, mem, m1, n, f, log, script, now);
    FreshStep(m0, mem, m1, n0, n, f, script(|log|), now);
    PacedStep(mem, m1, n, f, log, script(|log|), now);
    ObeyedStep(m0, mem, m1, n, f, log, script, now);
    UnrevivedStep(m0, mem, m1, n, f, script(|log|), now);
  }

  lemma FiredPositive(mem: Memory, m1: Memory, n: nat, f: nat, acts: seq<Action>, now: int)
    requires Positive(mem) && Fired(mem, m1, n, f, acts, now)
    ensures Positive(m1)
  {
    forall id | id in m1 ensures m1[id].interval > 0 {
      assert id in mem && id != f ==> Touched(mem[id], m1[id], Spares(acts, id));
    }
  }

  lemma FreshStep(m0: Memory, mem: Memory, m1: Memory, n0: nat, n: nat, f: nat, acts: seq<Action>, now: int)
    requires Fresh(m0, mem, n0, now) && n0 <= n && Due(mem, f, now) && Fired(mem, m1, n, f, acts, now)
    ensures Fresh(m0, m1, n0, now)
  {
    forall id | id in m1 && id !in m0 ensures id >= n0 && m1[id].timeNext > now && m1[id].interval > 0 {
      assert id in mem && id != f ==> Touched(mem[id], m1[id], Spares(acts, id));
    }
  }

  lemma PacedStep(mem: Memory, m1: Memory, n: nat, f: nat, log: seq<Fire>, acts: seq<Action>, now: int)
    requires Positive(mem) && Paced(mem, log, now) && Due(mem, f, now) && Fired(mem, m1, n, f, acts, now)
    ensures Paced(m1, log + [Fire(f, mem[f].timeNext)], now)
  {
    var x := Fire(f, mem[f].timeNext);
    forall id, k | id in m1 && 0 <= k < |log + [x]| ensures (log + [x])[k].due <= m1[id].timeNext {
      assert id in mem && id != f ==> Touched(mem[id], m1[id], Spares(acts, id));
    }
  }

  lemma ObeyedStep(m0: Memory, mem: Memory, m1: Memory, n: nat, f: nat, log: seq<Fire>, script: Script, now: int)
    requires Obeyed(m0, mem, log, script) && (forall id :: id in m0 ==> id < n) && f in m0
    requires Due(mem, f, now) && Fired(mem, m1, n, f, script(|log|), now)
    ensures Obeyed(m0, m1, log + [Fire(f, mem[f].timeNext)], script)
  {
    hide Spares;
    forall j, id | 0 <= j < |log| + 1 && id in m1 && id in m0 && !Spares(script(j), id) ensures m1[id].count == 0 {
      assert id in mem && id != f ==> Touched(mem[id], m1[id], Spares(script(|log|), id));
    }
  }

  lemma UnrevivedStep(m0: Memory, mem: Memory, m1: Memory, n: nat, f: nat, acts: seq<Action>, now: int)
    requires Unrevived(m0, mem) && (forall id :: id in m0 ==> id < n)
    requires Due(mem, f, now) && Fired(mem, m1, n, f, acts, now)
    ensures Unrevived(m0, m1)
  {
    hide Spares;
    forall id | id in m0 && m0[id].count == 0 ensures !Live(m1, id) {
      assert id in mem ==> Touched(mem[id], m1[id], Spares(acts, id));
    }
  }

  lemma DroppedKeeps(m0: Memory, mem: Memory, n0: nat, f: nat, log: seq<Fire>, script: Script, now: int)
    requires Progress(m0, mem, n0, log, script, now) && f in mem && mem[f].count == 0
    ensures Progress(m0, mem - {f}, n0, log, script, now)
  {
    hide Fires, Spares, Spared, Later;
    var m1 := mem - {f};
    forall id | id in m0 ensures Left(m1, id, now) == Left(mem, id, now) {
    }
  }

  // ---- Timers started by callbacks ------------------------------------------

  ghost function Starts(acts: seq<Action>): nat {
    if acts == [] then 0
    else Starts(acts[..|acts| - 1]) + if acts[|acts| - 1].Start? then 1 else 0
  }

  /** What the first `n` callbacks did, in order. */
  ghost function Executed(script: Script, n: nat): seq<Action> {
    if n == 0 then [] else Executed(script, n - 1) + script(n - 1)
  }

  /** Timer `id` is started with a count, ids being given from `n` on, and not cancelled afterwards. */
  ghost predicate StartedLive(acts: seq<Action>, n: nat, id: nat) {
    acts != [] &&
    var before := acts[..|acts| - 1];
    match acts[|acts| - 1]
    case Start(_, _, _, count) => if id == n + Starts(before) then count != 0 else StartedLive(before, n, id)
    case Cancel(x) => x != id && StartedLive(before, n, id)
  }

  /** The ids from `n` to `n1` went to the timers started, and those still live are as the actions say. */
  ghost predicate Brought(mem: Memory, n: nat, n1: nat, acts: seq<Action>) {
    && n1 == n + Starts(acts)
    && forall id: nat :: id >= n ==> (Live(mem, id) <==> StartedLive(acts, n, id))
  }

  lemma BroughtNone(mem: Memory, n: nat)
    requires forall id :: id in mem ==> id < n
    ensures Brought(mem, n, n, [])
  {
  }

  lemma {:induction false} StartedIds(acts: seq<Action>, n: nat, id: nat)
    ensures StartedLive(acts, n, id) ==> n <= id < n + Starts(acts)
  {
    if acts != [] {
      StartedIds(acts[..|acts| - 1], n, id);
    }
  }

  lemma BroughtAction(m1: Memory, m2: Memory, n0: nat, n: nat, acts: seq<Action>, i: nat)
    requires i < |acts| && Brought(m1, n0, n, acts[..i]) && forall id :: id in m1 ==> id < n
    requires match acts[i] {
      case Start(clock, interval, first, count) => m2 == m1[n := Timer(clock + first, interval, count)]
      case Cancel(id) => m2 == if id in m1 then m1[id := m1[id].(count := 0)] else m1
    }
    ensures Brought(m2, n0, n + if acts[i].Start? then 1 else 0, acts[..i + 1])
  {
    var b := acts[..i + 1];
    assert b[..|b| - 1] == acts[..i] && b[|b| - 1] == acts[i];
    forall id: nat | id >= n0 ensures Live(m2, id) <==> StartedLive(b, n0, id) {
      assert Live(m1, id) <==> StartedLive(acts[..i], n0, id);
    }
  }

  lemma {:induction false} StartedJoin(a: seq<Action>, b: seq<Action>, n: nat, id: nat)
    ensures Starts(a + b) == Starts(a) + Starts(b)
    ensures StartedLive(a + b, n, id)
       <==> if id >= n + Starts(a) then StartedLive(b, n + Starts(a), id) else StartedLive(a, n, id) && Spares(b, id)
    decreases |b|
  {
    if b == [] {
      assert a + b == a;
      StartedIds(a, n, id);
    } else {
      var c := b[..|b| - 1];
      StartedJoin(a, c, n, id);
      assert (a + b)[..|a + b| - 1] == a + c;
      SparesMore(b, |c|, id);
      assert b[..|c| + 1] == b;
    }
  }

  /** One more callback, by a timer that was there before the others. */
  lemma BroughtMore(mem: Memory, m1: Memory, n0: nat, n: nat, n1: nat, f: nat, done: seq<Action>, acts: seq<Action>, now: int)
    requires Brought(mem, n0, n, done) && Fired(mem, m1, n, f, acts, now) && Brought(m1, n, n1, acts) && f < n0
    ensures Brought(m1, n0, n1, done + acts)
  {
    hide Spares, StartedLive, Starts, After;
    forall id: nat ensures id >= n0 ==> (Live(m1, id) <==> StartedLive(done + acts, n0, id)) {
      StartedJoin(done, acts, n0, id);
      if n0 <= id < n {
        assert id in mem ==> Touched(mem[id], m1[id], Spares(acts, id));
      }
    }
    StartedJoin(done, acts, n0, n0);
  }

  // ---- When the front of an empty vector is read ------------------------------

  /** More fires than are due are left to the timer. */
  ghost predicate Outlasts(t: Timer, now: int)
    requires t.interval > 0
  {
    t.count < 0 || t.count > Expected(t, now)
  }

  /** Of the timers before the call and the callbacks that ran: some timer is live in the end. */
  ghost predicate Lasting(m0: Memory, n0: nat, script: Script, calls: nat, now: int)
    requires Positive(m0)
  {
    || (exists id :: id in m0 && Outlasts(m0[id], now) && Spared(script, calls, id))
    || (exists id: nat :: StartedLive(Executed(script, calls), n0, id))
  }

  lemma LastingIff(m0: Memory, mem: Memory, n0: nat, n: nat, log: seq<Fire>, script: Script, now: int)
    requires Progress(m0, mem, n0, log, script, now) && Brought(mem, n0, n, Executed(script, |log|))
    requires forall id :: id in m0 ==> id < n0
    requires forall id :: id in mem ==> mem[id].timeNext > now
    ensures Lasting(m0, n0, script, |log|, now) <==> exists id :: Live(mem, id)
  {
    hide Fires, StartedLive, Executed, Spares, Paced, Accounted;
    Finished(m0, mem, n0, log, script, now);
    forall id | id in m0 ensures Live(mem, id) <==> Outlasts(m0[id], now) && Spared(script, |log|, id) {
      if !Spared(script, |log|, id) {
        var k: nat :| k < |log| && !Spares(script(k), id);
      } else if m0[id].count != 0 {
        assert InStep(m0[id], mem, id, Expected(m0[id], now));
        LaterCount(m0[id], Expected(m0[id], now));
      }
    }
    forall id | Live(mem, id) && id !in m0 ensures StartedLive(Executed(script, |log|), n0, id) {
    }
    forall id: nat | StartedLive(Executed(script, |log|), n0, id) ensures Live(mem, id) {
      StartedIds(Executed(script, |log|), n0, id);
    }
  }

  /** With idle callbacks only the timers before the call matter. */
  lemma LastingIdle(m0: Memory, n0: nat, script: Script, calls: nat, now: int)
    requires Positive(m0) && Idle(script)
    ensures Lasting(m0, n0, script, calls, now) <==> exists id :: id in m0 && Outlasts(m0[id], now)
  {
    ExecutedIdle(script, calls);
    forall id ensures Spared(script, calls, id) {
    }
  }

  lemma {:induction false} ExecutedIdle(script: Script, calls: nat)
    requires Idle(script)
    ensures Executed(script, calls) == []
  {
    if calls > 0 {
      ExecutedIdle(script, calls - 1);
    }
  }

  // ---- Work left, for termination -------------------------------------------

  /** How far a timer lags behind `now`. */
  ghost function Lag(mem: Memory, id: nat, now: int): nat {
    if id in mem && mem[id].timeNext <= now then now - mem[id].timeNext + 1 else 0
  }

  ghost function Work(mem: Memory, n: nat, now: int): nat {
    if n == 0 then 0 else Work(mem, n - 1, now) + Lag(mem, n - 1, now)
  }

  lemma {:induction false} WorkShrinks(m0: Memory, n0: nat, m1: Memory, n1: nat, now: int, id: nat)
    requires n0 <= n1
    requires forall i :: 0 <= i < n0 ==> Lag(m1, i, now) <= Lag(m0, i, now)
    requires forall i :: n0 <= i < n1 ==> Lag(m1, i, now) == 0
    ensures Work(m1, n1, now) <= Work(m0, n0, now)
    ensures id < n0 && Lag(m1, id, now) < Lag(m0, id, now) ==> Work(m1, n1, now) < Work(m0, n0, now)
    decreases n1
  {
    if n1 > n0 {
      WorkShrinks(m0, n0, m1, n1 - 1, now, id);
    } else if n0 > 0 {
      WorkShrinks(m0, n0 - 1, m1, n1 - 1, now, id);
    }
  }

  class TimerSet {
    var heap: seq<nat>
    var mem: Memory
    var nextId: nat

    ghost predicate Valid()
      reads this
    {
      && Ids(heap, mem) && Ordered(heap, mem)
      && (forall id :: id in mem <==> id in heap)
      && (forall id :: id in mem ==> id < nextId)
    }

    constructor ()
      ensures Valid() && heap == [] && mem == map[] && nextId == 0
    {
      heap, mem, nextId := [], map[], 0;
    }

    /** add: push_back and push_heap.  A front due no later stays in front. */
    method Add(clock: int, interval: int, first: int, count: int) returns (id: nat)
      requires Valid()
      modifies this
      ensures Valid() && id == old(nextId) && nextId == id + 1
      ensures mem == old(mem)[id := Timer(clock + first, interval, count)]
      ensures old(heap) != [] && old(mem[heap[0]].timeNext) <= clock + first ==> heap != [] && heap[0] == old(heap[0])
    {
      id := nextId;
      nextId := nextId + 1;
      var m := mem[id := Timer(clock + first, interval, count)];
      var h := heap + [id];
      SameOrder(heap, mem, m);
      assert h[..|h| - 1] == heap;
      assert Ids(h, m);
      var g := PushHeap(h, m);
      heap, mem := g, m;
    }

    /** remove */
    method Remove(id: nat)
      requires Valid() && id in mem
      modifies this`mem
      ensures Valid() && mem == old(mem)[id := old(mem[id]).(count := 0)]
    {
      var m := mem[id := mem[id].(count := 0)];
      SameOrder(heap, mem, m);
      mem := m;
    }

    /** onTimer, as the actions it takes: the timer being fired stays in front. */
    method RunCallback(acts: seq<Action>, now: int)
      requires Valid() && Positive(mem) && Patient(acts, now)
      requires heap != [] && mem[heap[0]].timeNext <= now
      modifies this
      ensures Valid() && Evolved(old(mem), mem, old(nextId), acts, now) && Brought(mem, old(nextId), nextId, acts)
      ensures heap != [] && heap[0] == old(heap[0]) && nextId >= old(nextId)
    {
      hide Evolved, Spares, Brought;
      BroughtNone(mem, nextId);
      var i := 0;
      EvolvedNot(mem, nextId, acts[..i], now);
      while i < |acts|
        invariant i <= |acts| && Valid() && Evolved(old(mem), mem, old(nextId), acts[..i], now)
        invariant Brought(mem, old(nextId), nextId, acts[..i])
        invariant heap != [] && heap[0] == old(heap[0]) && nextId >= old(nextId)
        modifies this
      {
        ghost var m, n := mem, nextId;
        EvolvedDue(old(mem), mem, old(nextId), acts[..i], now);
        match acts[i] {
          case Start(clock, interval, first, count) =>
            var id := Add(clock, interval, first, count);
          case Cancel(id) =>
            if id in mem { Remove(id); }
        }
        EvolvedStep(old(mem), m, mem, old(nextId), n, acts, i, now);
        BroughtAction(m, mem, old(nextId), n, acts, i);
        i := i + 1;
      }
      assert acts[..i] == acts;
    }

    /** pop_heap, erase and delete */
    method DropFront()
      requires Valid() && heap != []
      modifies this`heap, this`mem
      ensures Valid() && mem == old(mem) - {old(heap[0])} && |heap| == old(|heap|) - 1
    {
      var f := heap[0];
      var g := PopHeap(heap, mem);
      var h := g[..|g| - 1];
      assert g == h + [f];
      assert forall x :: x in g <==> x in h || x == f;
      SameOrder(h, mem, mem - {f});
      heap, mem := h, mem - {f};
    }

    /** pop_heap, the next due time, and push_heap */
    method Requeue()
      requires Valid() && heap != []
      modifies this`heap, this`mem
      ensures Valid() && |heap| == old(|heap|)
      ensures var f := old(heap[0]); mem == old(mem)[f := old(mem[f]).(timeNext := old(mem[f].timeNext + mem[f].interval))]
    {
      var f := heap[0];
      var g := PopHeap(heap, mem);
      var m := mem[f := mem[f].(timeNext := mem[f].timeNext + mem[f].interval)];
      var h := g[..|g| - 1];
      SameOrder(h, mem, m);
      var k := PushHeap(g, m);
      heap, mem := k, m;
    }

    /** The body of the loop for a timer that is due. */
    method FireFront(acts: seq<Action>, now: int)
      requires Valid() && Positive(mem) && Patient(acts, now) && heap != [] && Due(mem, heap[0], now)
      modifies this
      ensures Valid() && nextId >= old(nextId)
      ensures Fired(old(mem), mem, old(nextId), old(heap[0]), acts, now) && Brought(mem, old(nextId), nextId, acts)
    {
      hide Brought;
      var f := heap[0];
      ghost var m0 := mem;
      if mem[f].count > 0 {
        var m := mem[f := mem[f].(count := mem[f].count - 1)];
        SameOrder(heap, mem, m);
        mem := m;
      }
      ghost var m1 := mem;
      RunCallback(acts, now);
      ghost var m2 := mem;
      if mem[f].count == 0 {
        DropFront();
      } else {
        Requeue();
      }
      FiredLemma(m0, m1, m2, mem, old(nextId), f, acts, now);
      BroughtElsewhere(m2, mem, old(nextId), nextId, acts, f);
    }

    /**
     * process: a missing front is undefined in C++, here `safe` is false.
     * Due timers fire in order of due time, each as often as it is due and its count allows.
     */
    method Process(now: int, script: Script) returns (log: seq<Fire>, safe: bool)
      requires Valid() && Positive(mem) && forall k: nat :: Patient(script(k), now)
      modifies this
      ensures Valid() && Positive(mem)
      ensures InOrder(log) && Obedient(log, script)
      ensures forall k :: 0 <= k < |log| ==> log[k].id in old(mem) && log[k].due <= now
      ensures forall id :: id in old(mem) ==> Fires(log, id) <= Expected(old(mem)[id], now)
      ensures forall id :: id in old(mem) && Spared(script, |log|, id) ==> Fires(log, id) == Expected(old(mem)[id], now)
      ensures forall id :: id in old(mem) && old(mem)[id].count != 0 && Spared(script, |log|, id) ==>
        InStep(old(mem)[id], mem, id, Expected(old(mem)[id], now))
      ensures Brought(mem, old(nextId), nextId, Executed(script, |log|))
      ensures forall id :: id in mem ==> id in old(mem) || old(nextId) <= id < nextId
      ensures safe <==> old(heap) == [] || heap != []
      ensures safe <==> old(heap) == [] || Lasting(old(mem), old(nextId), script, |log|, now)
      ensures Idle(script) ==> (safe <==> old(heap) == [] || exists id :: id in old(mem) && Outlasts(old(mem)[id], now))
      ensures forall id :: id in mem ==> mem[id].timeNext > now
      ensures safe && heap != [] ==> Live(mem, heap[0])
    {
      hide Brought, Progress, Executed, Lasting;
      log, safe := [], true;
      ghost var m0, n0 := mem, nextId;
      Started(m0, n0, script, now);
      BroughtNone(m0, n0);
      ExecutedNone(script);
      if heap == [] {
        Ended(m0, mem, n0, nextId, log, script, now);
        return;
      }
      while true
        invariant Valid() && nextId >= n0 && Progress(m0, mem, n0, log, script, now)
        invariant Brought(mem, n0, nextId, Executed(script, |log|))
        decreases Work(mem, nextId, now), |heap|
        modifies this
      {
        if heap == [] {
          safe := false;
          break;
        }
        FrontDue(heap, mem);
        FrontOld(m0, mem, n0, log, script, now, heap[0]);
        var f, m := heap[0], mem;
        ghost var n := nextId;
        if mem[f].count == 0 {
          DropFront();
          DroppedKeeps(m0, m, n0, f, log, script, now);
          BroughtLess(m, n0, n, Executed(script, |log|), f);
          WorkShrinks(m, n, mem, nextId, now, f);
        } else if now >= mem[f].timeNext {
          FireFront(script(|log|), now);
          FiredKeeps(m0, m, mem, n0, n, f, log, script, now);
          BroughtMore(m, mem, n0, n, nextId, f, Executed(script, |log|), script(|log|), now);
          ExecutedMore(script, |log|);
          log := log + [Fire(f, m[f].timeNext)];
          FiredWork(m, n, mem, nextId, f, script(|log| - 1), now);
        } else {
          assert Live(mem, heap[0]);
          break;
        }
      }
      Ended(m0, mem, n0, nextId, log, script, now);
    }
  }

  /** What is known when the loop ends, with no timer left that is due. */
  lemma Ended(m0: Memory, mem: Memory, n0: nat, n: nat, log: seq<Fire>, script: Script, now: int)
    requires Progress(m0, mem, n0, log, script, now) && Brought(mem, n0, n, Executed(script, |log|))
    requires (forall id :: id in m0 ==> id < n0) && forall id :: id in mem ==> id < n
    requires forall id :: id in mem ==> mem[id].timeNext > now
    ensures Positive(mem) && InOrder(log) && Obedient(log, script)
    ensures forall k :: 0 <= k < |log| ==> log[k].id in m0 && log[k].due <= now
    ensures forall id :: id in m0 ==> Fires(log, id) <= Expected(m0[id], now)
    ensures forall id :: id in m0 && Spared(script, |log|, id) ==> Fires(log, id) == Expected(m0[id], now)
    ensures forall id :: id in m0 && m0[id].count != 0 && Spared(script, |log|, id) ==>
      InStep(m0[id], mem, id, Expected(m0[id], now))
    ensures forall id :: id in mem ==> id in m0 || n0 <= id < n
    ensures Lasting(m0, n0, script, |log|, now) <==> exists id :: Live(mem, id)
    ensures Idle(script) ==> (Lasting(m0, n0, script, |log|, now) <==> exists id :: id in m0 && Outlasts(m0[id], now))
  {
    hide Lasting, Brought, Executed, Spared, Fires, InStep, Accounted, Tracked;
    Finished(m0, mem, n0, log, script, now);
    LastingIff(m0, mem, n0, n, log, script, now);
    if Idle(script) {
      LastingIdle(m0, n0, script, |log|, now);
    }
  }

  /** Only timers from before the call are ever due. */
  lemma FrontOld(m0: Memory, mem: Memory, n0: nat, log: seq<Fire>, script: Script, now: int, f: nat)
    requires Progress(m0, mem, n0, log, script, now) && f in mem
    ensures Positive(mem) && (mem[f].timeNext <= now ==> f in m0)
  {
  }

  lemma ExecutedNone(script: Script)
    ensures Executed(script, 0) == []
  {
  }

  lemma ExecutedMore(script: Script, n: nat)
    ensures Executed(script, n + 1) == Executed(script, n) + script(n)
  {
  }

  lemma BroughtElsewhere(m0: Memory, m1: Memory, n: nat, n1: nat, acts: seq<Action>, f: nat)
    requires Brought(m0, n, n1, acts) && f < n && (m1 == m0 - {f} || (f in m1 && m1 == m0[f := m1[f]]))
    ensures Brought(m1, n, n1, acts)
  {
    hide StartedLive;
    assert forall id: nat :: id >= n ==> (Live(m1, id) <==> Live(m0, id));
  }

  lemma BroughtLess(mem: Memory, n0: nat, n: nat, acts: seq<Action>, f: nat)
    requires Brought(mem, n0, n, acts) && f in mem && mem[f].count == 0
    ensures Brought(mem - {f}, n0, n, acts)
  {
  }

  /** A single timer that fires for the last time: process goes on to read the front of an empty vector. */
  method LastFireUnsafe() returns (timers: TimerSet, safe: bool)
    ensures fresh(timers) && !safe
  {
    timers := new TimerSet();
    var id := timers.Add(0, 1, 1, 1);
    var log;
    var idle: Script := k => [];
    assert Idle(idle);
    ghost var before := timers.mem;
    assert before == map[id := Timer(1, 1, 1)] && !Outlasts(before[id], 1);
    log, safe := timers.Process(1, idle);
    assert forall x :: x in before ==> !Outlasts(before[x], 1);
  }

  lemma Started(m0: Memory, n0: nat, script: Script, now: int)
    requires Positive(m0)
    ensures Progress(m0, m0, n0, [], script, now)
  {
    hide Later, Spared;
    forall id | id in m0 ensures Later(m0[id], 0) == m0[id] {
      LaterNone(m0[id]);
    }
  }

  lemma LaterNone(t: Timer)
    ensures Later(t, 0) == t
  {
    assert 0 * t.interval == 0;
  }

  lemma FrontDue(h: seq<nat>, mem: Memory)
    requires Ids(h, mem) && Ordered(h, mem) && h != [] && forall id :: id in mem <==> id in h
    ensures forall id :: id in mem ==> mem[h[0]].timeNext <= mem[id].timeNext
  {
    forall id | id in mem ensures mem[h[0]].timeNext <= mem[id].timeNext {
      var i :| 0 <= i < |h| && h[i] == id;
      FrontIsLeast(h, mem, i);
    }
  }

  lemma EvolvedStep(m0: Memory, m1: Memory, m2: Memory, n0: nat, n: nat, acts: seq<Action>, i: nat, now: int)
    requires i < |acts| && n0 <= n && Patient(acts, now) && Evolved(m0, m1, n0, acts[..i], now)
    requires forall id :: id in m1 ==> id < n
    requires match acts[i] {
      case Start(clock, interval, first, count) => m2 == m1[n := Timer(clock + first, interval, count)]
      case Cancel(id) => m2 == if id in m1 then m1[id := m1[id].(count := 0)] else m1
    }
    ensures Evolved(m0, m2, n0, acts[..i + 1], now)
  {
    assert acts[..i + 1] == acts[..i] + [acts[i]];
    hide Spares;
    forall id: nat ensures Spares(acts[..i + 1], id) <==> Spares(acts[..i], id) && acts[i] != Cancel(id) {
      SparesMore(acts, i, id);
    }
  }

  lemma EvolvedNot(m: Memory, n: nat, acts: seq<Action>, now: int)
    requires acts == []
    ensures Evolved(m, m, n, acts, now)
  {
  }

  lemma EvolvedDue(m0: Memory, m1: Memory, n: nat, acts: seq<Action>, now: int)
    requires Evolved(m0, m1, n, acts, now)
    ensures forall id :: id in m0 ==> id in m1 && m1[id].timeNext == m0[id].timeNext
  {
    forall id | id in m0 ensures id in m1 && m1[id].timeNext == m0[id].timeNext {
      assert Touched(m0[id], m1[id], Spares(acts, id));
    }
  }

  lemma SparesMore(acts: seq<Action>, i: nat, id: nat)
    requires i < |acts|
    ensures Spares(acts[..i + 1], id) <==> Spares(acts[..i], id) && acts[i] != Cancel(id)
  {
    var a, b := acts[..i], acts[..i + 1];
    assert forall k :: 0 <= k < i ==> a[k] == b[k];
    assert b[i] == acts[i];
  }

  lemma FiredLemma(m0: Memory, m1: Memory, m2: Memory, m3: Memory, n: nat, f: nat, acts: seq<Action>, now: int)
    requires f in m0 && m0[f].count != 0
    requires m1 == m0[f := m0[f].(count := if m0[f].count > 0 then m0[f].count - 1 else m0[f].count)]
    requires Evolved(m1, m2, n, acts, now)
    requires f in m2 && m3 == if m2[f].count == 0 then m2 - {f} else m2[f := m2[f].(timeNext := m2[f].timeNext + m2[f].interval)]
    ensures Fired(m0, m3, n, f, acts, now)
  {
    hide Spares;
    assert Touched(m1[f], m2[f], Spares(acts, f));
  }

  lemma FiredWork(m: Memory, n: nat, m1: Memory, n1: nat, f: nat, acts: seq<Action>, now: int)
    requires Positive(m) && n <= n1 && f < n && Due(m, f, now) && Fired(m, m1, n, f, acts, now)
    requires forall id :: id in m ==> id < n
    requires forall id :: id in m1 ==> id < n1
    ensures Work(m1, n1, now) < Work(m, n, now)
  {
    forall i: nat | i < n ensures Lag(m1, i, now) <= Lag(m, i, now) {
      assert i in m && i != f ==> Touched(m[i], m1[i], Spares(acts, i));
    }
    assert Lag(m1, f, now) < Lag(m, f, now);
    WorkShrinks(m, n, m1, n1, now, f);
  }

  lemma Finished(m0: Memory, mem: Memory, n0: nat, log: seq<Fire>, script: Script, now: int)
    requires Progress(m0, mem, n0, log, script, now)
    requires forall id :: id in mem ==> mem[id].timeNext > now
    ensures forall id :: id in m0 ==> Fires(log, id) <= Expected(m0[id], now)
    ensures forall id :: id in m0 && Spared(script, |log|, id) ==> Fires(log, id) == Expected(m0[id], now)
    ensures forall id :: id in m0 && m0[id].count != 0 && Spared(script, |log|, id) ==> InStep(m0[id], mem, id, Expected(m0[id], now))
  {
    hide Later;
    assert forall id :: id in m0 ==> Left(mem, id, now) == 0;
  }

  /** The order depends only on the due times of the heap's own timers. */
  lemma SameOrder(h: seq<nat>, m0: Memory, m1: Memory)
    requires Ids(h, m0)
    requires forall i :: 0 <= i < |h| ==> h[i] in m1 && m1[h[i]].timeNext == m0[h[i]].timeNext
    ensures Ids(h, m1) && (Ordered(h, m0) <==> Ordered(h, m1))
  {
    forall i | 0 < i < |h| ensures Below(h, m0, Parent(i), i) <==> Below(h, m1, Parent(i), i) {
    }
  }
}
