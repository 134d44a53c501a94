/** bufferevent_ratelim.c with the suspend flags of bufferevent.c: a bufferevent under its own rate limit. */
module RateLimit {
  import opened Octets
  import opened TokenBucket
  import opened Arith

  const MAX_EVER := 16384

  /** BEV_SUSPEND_* */
  datatype Suspend = Watermark | Bandwidth | GroupBandwidth | Lookup | Filter

  type Flags = set<Suspend>

  /** One direction of a bufferevent: why it is suspended, whether the user enabled it, whether the backend runs it. */
  datatype Side = Side(suspended: Flags, enabled: bool, running: bool) {
    predicate Valid() {
      running <==> enabled && suspended == {}
    }

    predicate Limited() {
      Bandwidth in suspended
    }
  }

  /** bufferevent_suspend_read and bufferevent_suspend_write */
  function SuspendSide(s: Side, why: Suspend): (t: Side)
    ensures s.Valid() ==> t.Valid() && !t.running
    ensures t.suspended == s.suspended + {why} && t.enabled == s.enabled
  {
    s.(running := if s.suspended == {} then false else s.running, suspended := s.suspended + {why})
  }

  /** bufferevent_unsuspend_read and bufferevent_unsuspend_write */
  function UnsuspendSide(s: Side, why: Suspend): (t: Side)
    ensures s.Valid() ==> t.Valid()
    ensures t.suspended == s.suspended - {why} && t.enabled == s.enabled
  {
    var left := s.suspended - {why};
    s.(suspended := left, running := if left == {} && s.enabled then true else s.running)
  }

  /** bufferevent_enable and bufferevent_disable */
  function Switched(s: Side, on: bool): (t: Side)
    ensures s.Valid() ==> t.Valid()
  {
    if on then s.(enabled := true, running := if s.suspended == {} then true else s.running)
    else s.(enabled := false, running := false)
  }

  /** Only the suspension for bandwidth may differ. */
  ghost predicate OnlyBandwidth(s: Side, t: Side) {
    t.enabled == s.enabled && t.suspended - {Bandwidth} == s.suspended - {Bandwidth}
  }

  /** An exhausted bucket is suspended for bandwidth; such a suspension has a configuration and a refill coming. */
  predicate Awake(cfg: Option<Config>, readLimit: int, writeLimit: int, read: Side, write: Side, timer: bool) {
    && (cfg.Some? && readLimit <= 0 ==> read.Limited())
    && (cfg.Some? && writeLimit <= 0 ==> write.Limited())
    && (read.Limited() || write.Limited() ==> cfg.Some? && timer)
  }

  /** What an update does to the signs of the levels, and that up to the maximum it loses nothing. */
  lemma Judge(cfg: Config, tick: nat, a: Level, b: Level)
    requires cfg.Valid() && Fits(a.read) && Fits(a.write) && Updated(cfg, tick, a, b)
    ensures Fits(b.read) && Fits(b.write) && (b.last == tick || b.last == a.last)
    ensures var n := Elapsed(tick, a.last);
      && (a.read > 0 ==> (b.read <= 0 <==> Counts(n) && Drowns(cfg.read, a.read, n)))
      && (a.write > 0 ==> (b.write <= 0 <==> Counts(n) && Drowns(cfg.write, a.write, n)))
    ensures Capped(cfg, a) ==> Capped(cfg, b) && Topped(cfg, tick, a, b)
    ensures Capped(cfg, a) ==> var n := Elapsed(tick, a.last); !Drowns(cfg.read, a.read, n) && !Drowns(cfg.write, a.write, n)
    ensures !(a.read > 0) ==> var n := Elapsed(tick, a.last); !Drowns(cfg.read, a.read, n)
    ensures !(a.write > 0) ==> var n := Elapsed(tick, a.last); !Drowns(cfg.write, a.write, n)
  {
    hide Updated, Elapsed, Topped;
    UpdatedSigns(cfg, tick, a, b);
    if Capped(cfg, a) {
      UpdatedIsTopped(cfg, tick, a, b);
    }
  }

  class BufferEvent {
    var cfg: Option<Config>
    const bucket: Bucket
    var read: Side
    var write: Side
    var timer: bool

    /** Everything but the wakeup. */
    ghost predicate Shaped()
      reads this, bucket
    {
      (cfg.Some? ==> cfg.value.Valid()) && bucket.InRange() && read.Valid() && write.Valid()
    }

    ghost predicate Valid()
      reads this, bucket
    {
      Shaped() && Awake(cfg, bucket.readLimit, bucket.writeLimit, read, write, timer)
    }

    /** No refund has lifted a bucket above its maximum. */
    ghost predicate NoExcess()
      reads this, bucket
    {
      cfg.Some? ==> Capped(cfg.value, bucket.Now())
    }

    /** Bringing the bucket up to `tick` exhausts a side that nothing will suspend. */
    ghost predicate Loses(tick: nat)
      reads this, bucket
    {
      && cfg.Some?
      && var n := Elapsed(tick, bucket.lastUpdated);
      && Counts(n)
      && ((!read.Limited() && Drowns(cfg.value.read, bucket.readLimit, n))
          || (!write.Limited() && Drowns(cfg.value.write, bucket.writeLimit, n)))
    }

    constructor ()
      ensures Valid() && NoExcess() && cfg.None? && fresh(bucket) && read == write == Side({}, false, false)
    {
      cfg, read, write, timer := None, Side({}, false, false), Side({}, false, false), false;
      bucket := new Bucket();
    }

    /** _bufferevent_get_rlim_max without a group: what may be read or written now. */
    method GetMax(isWrite: bool, tick: nat) returns (most: int)
      requires Valid() && tick < TWO32
      modifies bucket
      ensures Shaped() && (Valid() <==> !old(Loses(tick)))
      ensures old(NoExcess()) ==> Valid() && NoExcess() && (cfg.Some? ==> Topped(cfg.value, tick, old(bucket.Now()), bucket.Now()))
      ensures cfg.None? ==> most == MAX_EVER && bucket.Now() == old(bucket.Now())
      ensures cfg.Some? ==>
        var limit := if isWrite then bucket.writeLimit else bucket.readLimit;
        && most == (if limit < 0 then 0 else limit)
        && Updated(cfg.value, tick, old(bucket.Now()), bucket.Now())
    {
      hide Updated, Elapsed, Topped, Drowns;
      most := MAX_EVER;
      if cfg.Some? {
        ghost var before := bucket.Now();
        NoTime(cfg.value, tick, before);
        if tick != bucket.lastUpdated {
          var some := bucket.Update(cfg.value, tick);
        }
        Judge(cfg.value, tick, before, bucket.Now());
        most := if isWrite then bucket.writeLimit else bucket.readLimit;
      }
      if most < 0 { most := 0; }
    }

    /** _bufferevent_decrement_read_buckets without a group. */
    method ChargeRead(bytes: int)
      requires Valid() && Fits(bucket.readLimit - bytes)
      modifies this`read, this`timer, bucket`readLimit
      ensures Valid() && bucket.readLimit == old(bucket.readLimit) - (if cfg.Some? then bytes else 0)
      ensures cfg.Some? ==> (read.Limited() <==> bucket.readLimit <= 0)
      ensures OnlyBandwidth(old(read), read) && (cfg.None? ==> read == old(read) && timer == old(timer))
      ensures cfg.Some? ==> timer == (if read.Limited() then true else if old(read.Limited()) then old(timer) && write.Limited() else old(timer))
    {
      if cfg.Some? {
        bucket.readLimit := bucket.readLimit - bytes;
        if bucket.readLimit <= 0 {
          read := SuspendSide(read, Bandwidth);
          timer := true;
        } else if read.Limited() {
          if !write.Limited() { timer := false; }
          read := UnsuspendSide(read, Bandwidth);
        }
      }
    }

    /** _bufferevent_decrement_write_buckets without a group. */
    method ChargeWrite(bytes: int)
      requires Valid() && Fits(bucket.writeLimit - bytes)
      modifies this`write, this`timer, bucket`writeLimit
      ensures Valid() && bucket.writeLimit == old(bucket.writeLimit) - (if cfg.Some? then bytes else 0)
      ensures cfg.Some? ==> (write.Limited() <==> bucket.writeLimit <= 0)
      ensures OnlyBandwidth(old(write), write) && (cfg.None? ==> write == old(write) && timer == old(timer))
      ensures cfg.Some? ==> timer == (if write.Limited() then true else if old(write.Limited()) then old(timer) && read.Limited() else old(timer))
    {
      if cfg.Some? {
        bucket.writeLimit := bucket.writeLimit - bytes;
        if bucket.writeLimit <= 0 {
          write := SuspendSide(write, Bandwidth);
          timer := true;
        } else if write.Limited() {
          if !read.Limited() { timer := false; }
          write := UnsuspendSide(write, Bandwidth);
        }
      }
    }

    function Limit(isWrite: bool): int
      reads bucket
    {
      if isWrite then bucket.writeLimit else bucket.readLimit
    }

    function Speed(isWrite: bool): Rate
      reads this
      requires cfg.Some?
    {
      if isWrite then cfg.value.write else cfg.value.read
    }

    method Charge(isWrite: bool, bytes: nat)
      requires Valid() && cfg.Some? && (bytes == 0 || bytes <= Limit(isWrite))
      modifies this`read, this`write, this`timer, bucket`readLimit, bucket`writeLimit
      ensures Valid() && (old(NoExcess()) ==> NoExcess())
      ensures Limit(isWrite) == old(Limit(isWrite)) - bytes && Limit(!isWrite) == old(Limit(!isWrite))
    {
      if isWrite { ChargeWrite(bytes); } else { ChargeRead(bytes); }
    }

    /** bufferevent_decrement_read_limit */
    method DecrementReadLimit(decr: int)
      requires Valid() && cfg.Some? && Fits(bucket.readLimit - decr)
      modifies this`read, this`timer, bucket`readLimit
      ensures Valid() && bucket.readLimit == old(bucket.readLimit) - decr && OnlyBandwidth(old(read), read)
      ensures read.Limited() == (if bucket.readLimit <= 0 < old(bucket.readLimit) then true
        else if old(bucket.readLimit) <= 0 < bucket.readLimit then false else old(read.Limited()))
      ensures timer == (if bucket.readLimit <= 0 < old(bucket.readLimit) then true
        else if old(bucket.readLimit) <= 0 < bucket.readLimit then old(timer) && write.Limited() else old(timer))
    {
      var before := bucket.readLimit;
      bucket.readLimit := bucket.readLimit - decr;
      if before > 0 && bucket.readLimit <= 0 {
        read := SuspendSide(read, Bandwidth);
        timer := true;
      } else if before <= 0 && bucket.readLimit > 0 {
        if !write.Limited() { timer := false; }
        read := UnsuspendSide(read, Bandwidth);
      }
    }

    /** bufferevent_decrement_write_limit */
    method DecrementWriteLimit(decr: int)
      requires Valid() && cfg.Some? && Fits(bucket.writeLimit - decr)
      modifies this`write, this`timer, bucket`writeLimit
      ensures Valid() && bucket.writeLimit == old(bucket.writeLimit) - decr && OnlyBandwidth(old(write), write)
      ensures write.Limited() == (if bucket.writeLimit <= 0 < old(bucket.writeLimit) then true
        else if old(bucket.writeLimit) <= 0 < bucket.writeLimit then false else old(write.Limited()))
      ensures timer == (if bucket.writeLimit <= 0 < old(bucket.writeLimit) then true
        else if old(bucket.writeLimit) <= 0 < bucket.writeLimit then old(timer) && read.Limited() else old(timer))
    {
      var before := bucket.writeLimit;
      bucket.writeLimit := bucket.writeLimit - decr;
      if before > 0 && bucket.writeLimit <= 0 {
        write := SuspendSide(write, Bandwidth);
        timer := true;
      } else if before <= 0 && bucket.writeLimit > 0 {
        if !read.Limited() { timer := false; }
        write := UnsuspendSide(write, Bandwidth);
      }
    }

    /** _bev_refill_callback: the timer that fired is no longer pending, and is added again while a bucket is exhausted. */
    method Refill(tick: nat)
      requires Valid() && timer && tick < TWO32
      modifies this`read, this`write, this`timer, bucket
      ensures Shaped() && (Valid() <==> !old(Loses(tick)))
      ensures cfg.Some? ==> Updated(cfg.value, tick, old(bucket.Now()), bucket.Now())
      ensures old(NoExcess()) ==> Valid() && NoExcess() && (cfg.Some? ==> Topped(cfg.value, tick, old(bucket.Now()), bucket.Now()))
      ensures cfg.Some? ==> (read.Limited() <==> old(read.Limited()) && bucket.readLimit <= 0)
      ensures cfg.Some? ==> (write.Limited() <==> old(write.Limited()) && bucket.writeLimit <= 0)
      ensures cfg.Some? ==> (timer <==> read.Limited() || write.Limited())
      ensures OnlyBandwidth(old(read), read) && OnlyBandwidth(old(write), write)
    {
      hide Updated, Elapsed, Topped, Drowns;
      timer := false;
      if cfg.None? { return; }
      ghost var before := bucket.Now();
      var some := bucket.Update(cfg.value, tick);
      Judge(cfg.value, tick, before, bucket.Now());
      var again := false;
      if read.Limited() {
        if bucket.readLimit > 0 { read := UnsuspendSide(read, Bandwidth); } else { again := true; }
      }
      if write.Limited() {
        if bucket.writeLimit > 0 { write := UnsuspendSide(write, Bandwidth); } else { again := true; }
      }
      if again { timer := true; }
    }

    /** Suspensions for other reasons: watermarks, name lookup, filters, the group. */
    method PauseSide(isWrite: bool, why: Suspend, on: bool)
      requires Valid() && why != Bandwidth
      modifies this`read, this`write
      ensures Valid()
      ensures isWrite ==> read == old(read) && write == if on then SuspendSide(old(write), why) else UnsuspendSide(old(write), why)
      ensures !isWrite ==> write == old(write) && read == if on then SuspendSide(old(read), why) else UnsuspendSide(old(read), why)
    {
      if isWrite {
        write := if on then SuspendSide(write, why) else UnsuspendSide(write, why);
      } else {
        read := if on then SuspendSide(read, why) else UnsuspendSide(read, why);
      }
    }

    /** bufferevent_enable and bufferevent_disable for one direction */
    method SwitchSide(isWrite: bool, on: bool)
      requires Valid()
      modifies this`read, this`write
      ensures Valid() && (if isWrite then write else read).enabled == on
      ensures if isWrite then read == old(read) else write == old(write)
      ensures read.suspended == old(read).suspended && write.suspended == old(write).suspended
    {
      if isWrite { write := Switched(write, on); } else { read := Switched(read, on); }
    }

    /** bufferevent_set_rate_limit */
    method SetRateLimit(next: Option<Config>, tick: nat)
      requires Valid() && (next.Some? ==> next.value.Valid()) && tick < TWO32
      modifies this`cfg, this`read, this`write, this`timer, bucket
      ensures Valid() && cfg == next && (cfg != old(cfg) || old(NoExcess()) ==> NoExcess())
      ensures if cfg != old(cfg) && cfg.Some? then
          && bucket.readLimit == (if old(cfg).Some? then Min(old(bucket.readLimit), cfg.value.read.maximum) else cfg.value.read.rate)
          && bucket.writeLimit == (if old(cfg).Some? then Min(old(bucket.writeLimit), cfg.value.write.maximum) else cfg.value.write.rate)
        else bucket.Now() == old(bucket.Now())
      ensures cfg.Some? && old(cfg).None? ==> bucket.lastUpdated == tick
      ensures OnlyBandwidth(old(read), read) && OnlyBandwidth(old(write), write)
      ensures cfg != old(cfg) && cfg.Some? ==>
        (read.Limited() <==> bucket.readLimit <= 0) && (write.Limited() <==> bucket.writeLimit <= 0) && (timer <==> read.Limited() || write.Limited())
    {
      if next.None? {
        cfg := None;
        read, write, timer := UnsuspendSide(read, Bandwidth), UnsuspendSide(write, Bandwidth), false;
        return;
      }
      if cfg == next { return; }
      bucket.Init(next.value, tick, cfg.Some?);
      cfg := next;
      timer := false;
      read := if bucket.readLimit > 0 then UnsuspendSide(read, Bandwidth) else SuspendSide(read, Bandwidth);
      write := if bucket.writeLimit > 0 then UnsuspendSide(write, Bandwidth) else SuspendSide(write, Bandwidth);
      if bucket.readLimit <= 0 || bucket.writeLimit <= 0 { timer := true; }
    }
  }

  // ---- Runs -----------------------------------------------------------------

  datatype Op =
    | ReadBytes(bytes: int) | WriteBytes(bytes: int) | LowerRead(decr: int) | LowerWrite(decr: int)
    | AskMax(isWrite: bool, tick: nat) | TimerFires(tick: nat) | SetLimit(next: Option<Config>, tick: nat)
    | Pause(isWrite: bool, why: Suspend, on: bool) | Switch(isWrite: bool, on: bool)

  /** The step that would exhaust a bucket that nothing suspends. */
  ghost predicate Fatal(bev: BufferEvent, op: Op)
    reads bev, bev.bucket
  {
    match op
    case AskMax(_, tick) => tick < TWO32 && bev.Loses(tick)
    case TimerFires(tick) => bev.timer && tick < TWO32 && bev.Loses(tick)
    case _ => false
  }

  /** No refund. */
  ghost predicate Gentle(op: Op) {
    match op
    case ReadBytes(n) => n >= 0
    case WriteBytes(n) => n >= 0
    case LowerRead(n) => n >= 0
    case LowerWrite(n) => n >= 0
    case _ => true
  }

  method Do(bev: BufferEvent, op: Op)
    requires bev.Valid()
    modifies bev, bev.bucket
    ensures bev.Shaped() && (bev.Valid() <==> !old(Fatal(bev, op)))
    ensures old(bev.NoExcess()) && Gentle(op) ==> bev.Valid() && bev.NoExcess()
  {
    hide Elapsed, Drowns;
    match op {
      case ReadBytes(n) =>
        if Fits(bev.bucket.readLimit - n) {
          bev.ChargeRead(n);
        }
      case WriteBytes(n) =>
        if Fits(bev.bucket.writeLimit - n) {
          bev.ChargeWrite(n);
        }
      case LowerRead(n) =>
        if bev.cfg.Some? && Fits(bev.bucket.readLimit - n) {
          bev.DecrementReadLimit(n);
        }
      case LowerWrite(n) =>
        if bev.cfg.Some? && Fits(bev.bucket.writeLimit - n) {
          bev.DecrementWriteLimit(n);
        }
      case AskMax(isWrite, tick) => if tick < TWO32 { var most := bev.GetMax(isWrite, tick); }
      case TimerFires(tick) => if bev.timer && tick < TWO32 { bev.Refill(tick); }
      case SetLimit(next, tick) =>
        if tick < TWO32 && (next.Some? ==> next.value.Valid()) { bev.SetRateLimit(next, tick); }
      case Pause(isWrite, why, on) => if why != Bandwidth { bev.PauseSide(isWrite, why, on); }
      case Switch(isWrite, on) => bev.SwitchSide(isWrite, on);
    }
  }

  /**
   * Every run keeps every exhausted bucket suspended with its refill pending, and the backend in step with the flags,
   * until a bucket above its maximum drowns; runs without refunds never come to that.
   */
  method Run(ops: seq<Op>) returns (bev: BufferEvent, lost: bool)
    ensures fresh(bev) && bev.Shaped() && (lost <==> !bev.Valid())
    ensures !lost && bev.cfg.Some? && bev.bucket.readLimit <= 0 ==> bev.read.Limited() && !bev.read.running && bev.timer
    ensures !lost && bev.cfg.Some? && bev.bucket.writeLimit <= 0 ==> bev.write.Limited() && !bev.write.running && bev.timer
    ensures (forall i :: 0 <= i < |ops| ==> Gentle(ops[i])) ==> !lost
  {
    bev := new BufferEvent();
    lost := false;
    for i := 0 to |ops|
      invariant fresh(bev) && fresh(bev.bucket) && bev.Valid()
      invariant (forall k :: 0 <= k < |ops| ==> Gentle(ops[k])) ==> bev.NoExcess()
    {
      Do(bev, ops[i]);
      lost := !Awake(bev.cfg, bev.bucket.readLimit, bev.bucket.writeLimit, bev.read, bev.write, bev.timer);
      if lost { return; }
    }
  }

  lemma Wrapped()
    ensures Elapsed(1, 0) == 1 && Refilled(Rate(1, 1), SSIZE_MAX, 1) == -SSIZE_MAX - 1
  {
  }

  /** A refund up to the largest ssize_t: one tick later nothing may be read, and nothing will wake the reader. */
  method RefundLosesWakeup() returns (bev: BufferEvent, most: int)
    ensures fresh(bev) && most == 0 && bev.cfg.Some? && bev.bucket.readLimit < 0 && !bev.read.Limited() && !bev.timer
  {
    bev := new BufferEvent();
    var one := Rate(1, 1);
    bev.SetRateLimit(Some(Config(0, one, one)), 0);
    bev.DecrementReadLimit(1 - SSIZE_MAX);
    Wrapped();
    most := bev.GetMax(false, 1);
  }

  /** Refills, one a tick, end every suspension for bandwidth. */
  method WakeUp(bev: BufferEvent)
    requires bev.Valid() && bev.NoExcess() && bev.cfg.Some?
    modifies bev, bev.bucket
    ensures bev.Valid() && bev.NoExcess() && bev.cfg == old(bev.cfg)
    ensures !bev.read.Limited() && !bev.write.Limited()
  {
    hide Updated, Elapsed, Topped, Drowns;
    while bev.read.Limited() || bev.write.Limited()
      invariant bev.Valid() && bev.NoExcess() && bev.cfg == old(bev.cfg)
      decreases (if bev.read.Limited() then 1 + Deficit(bev.bucket.readLimit) else 0)
              + (if bev.write.Limited() then 1 + Deficit(bev.bucket.writeLimit) else 0)
    {
      OneTick(bev.bucket.lastUpdated);
      ghost var before := bev.bucket.Now();
      var tick := (bev.bucket.lastUpdated + 1) % TWO32;
      bev.Refill(tick);
      ToppedRaises(bev.cfg.value, tick, before, bev.bucket.Now());
    }
  }

  function Deficit(limit: int): nat {
    if limit > 0 then 0 else 1 - limit
  }

  // ---- How much gets through -------------------------------------------------

  /** At a time, in ticks since some start: so many bytes are ready in one direction, or the refill timer may fire. */
  datatype Turn = Transfer(now: nat, isWrite: bool, ready: nat) | Fires(now: nat)

  ghost predicate Clock(start: nat, turns: seq<Turn>) {
    && (forall i :: 0 <= i < |turns| ==> start <= turns[i].now)
    && (forall i, j :: 0 <= i < j < |turns| ==> turns[i].now <= turns[j].now)
  }

  /** Tokens or bytes of the two directions. */
  datatype Both = Both(read: int, write: int) {
    function Of(isWrite: bool): int {
      if isWrite then write else read
    }
  }

  /** The tokens there were at first, and those given since. */
  ghost function Given(rate: int, first: int, start: int, last: int): int {
    first + rate * (last - start)
  }

  lemma GivenMore(rate: int, first: int, start: int, last: int, now: int, n: int)
    requires rate > 0 && 0 <= n <= now - last
    ensures Given(rate, first, start, last) + n * rate <= Given(rate, first, start, now)
  {
    MultipleLe(n, now - last, rate);
    Distribute(rate, last - start, now - last);
  }

  lemma Distribute(r: int, a: int, b: int)
    ensures r * (a + b) == r * a + b * r
  {
  }

  /** Tokens left and bytes charged are within the tokens given, and no deficit is deeper than at first. */
  ghost predicate Within(rate: int, first: int, start: int, last: int, limit: int, charged: int) {
    limit + charged <= Given(rate, first, start, last) && Min(first, 0) <= limit
  }

  /** In both directions. */
  ghost predicate Fair(cfg: Config, first: Both, start: nat, last: nat, level: Level, charged: Both) {
    && start <= last && level.last == last % TWO32
    && Within(cfg.read.rate, first.read, start, last, level.read, charged.read)
    && Within(cfg.write.rate, first.write, start, last, level.write, charged.write)
  }

  /** Bringing the bucket up to date gives each direction no more than its rate for the time that passed. */
  lemma FairTopped(cfg: Config, first: Both, start: nat, last: nat, now: nat, a: Level, b: Level, charged: Both)
    requires cfg.Valid() && Fair(cfg, first, start, last, a, charged) && last <= now && Capped(cfg, a)
    requires Topped(cfg, now % TWO32, a, b)
    ensures Fair(cfg, first, start, if Counts(Elapsed(now % TWO32, a.last)) then now else last, b, charged)
  {
    hide Given, Elapsed;
    var n := Elapsed(now % TWO32, a.last);
    ElapsedAtMost(now, last);
    if Counts(n) {
      GivenMore(cfg.read.rate, first.read, start, last, now, n);
      GivenMore(cfg.write.rate, first.write, start, last, now, n);
      ProductPositive(n, cfg.read.rate);
      ProductPositive(n, cfg.write.rate);
    }
  }

  /** One turn, in either direction or of the timer, keeps both directions fair. */
  method TakeTurn(bev: BufferEvent, turn: Turn, charged: Both, ghost first: Both, ghost start: nat, ghost last: nat)
    returns (total: Both, ghost now: nat)
    requires bev.Valid() && bev.NoExcess() && bev.cfg.Some? && last <= turn.now
    requires Fair(bev.cfg.value, first, start, last, bev.bucket.Now(), charged)
    modifies bev, bev.bucket
    ensures bev.Valid() && bev.NoExcess() && bev.cfg == old(bev.cfg)
    ensures last <= now <= turn.now && Fair(bev.cfg.value, first, start, now, bev.bucket.Now(), total)
    ensures turn.Transfer? ==>
      var bytes := total.Of(turn.isWrite) - charged.Of(turn.isWrite);
      && total.Of(!turn.isWrite) == charged.Of(!turn.isWrite)
      && 0 <= bytes <= turn.ready && (bytes < turn.ready ==> bev.Limit(turn.isWrite) <= 0)
    ensures turn.Fires? ==> total == charged
  {
    hide Given, Elapsed, Updated, Topped, Drowns;
    ghost var before := bev.bucket.Now();
    var tick := turn.now % TWO32;
    now, total := last, charged;
    if turn.Transfer? {
      var most := bev.GetMax(turn.isWrite, tick);
      FairTopped(bev.cfg.value, first, start, last, turn.now, before, bev.bucket.Now(), charged);
      var bytes := Min(turn.ready, most);
      bev.Charge(turn.isWrite, bytes);
      total := if turn.isWrite then charged.(write := charged.write + bytes) else charged.(read := charged.read + bytes);
      now := if Counts(Elapsed(tick, before.last)) then turn.now else last;
    } else if bev.timer {
      bev.Refill(tick);
      FairTopped(bev.cfg.value, first, start, last, turn.now, before, bev.bucket.Now(), charged);
      now := if Counts(Elapsed(tick, before.last)) then turn.now else last;
    }
  }

  /**
   Reading and writing in any order, no more than allowed each time, with refills between: each limit stays at most
   the maximum and does not fall below zero, and the total in each direction is bounded.
   */
  method TransferRun(bev: BufferEvent, start: nat, turns: seq<Turn>) returns (charged: Both)
    requires bev.Valid() && bev.NoExcess() && bev.cfg.Some?
    requires bev.bucket.lastUpdated == start % TWO32 && Clock(start, turns)
    modifies bev, bev.bucket
    ensures bev.Valid() && bev.NoExcess() && bev.cfg == old(bev.cfg)
    ensures forall isWrite :: Min(old(bev.Limit(isWrite)), 0) <= bev.Limit(isWrite) <= bev.Speed(isWrite).maximum
    ensures forall isWrite :: var end := if turns == [] then start else turns[|turns| - 1].now;
      charged.Of(isWrite) <= bev.Speed(isWrite).maximum + bev.Speed(isWrite).rate * (end - start)
  {
    hide Given, Within;
    charged := Both(0, 0);
    ghost var cfg := bev.cfg.value;
    ghost var first, last: nat := Both(bev.bucket.readLimit, bev.bucket.writeLimit), start;
    FairFirst(cfg.read.rate, first.read, start);
    FairFirst(cfg.write.rate, first.write, start);
    for i := 0 to |turns|
      invariant bev.Valid() && bev.NoExcess() && bev.cfg == Some(cfg)
      invariant if i == 0 then last == start else last <= turns[i - 1].now
      invariant Fair(cfg, first, start, last, bev.bucket.Now(), charged)
    {
      charged, last := TakeTurn(bev, turns[i], charged, first, start, last);
    }
    ghost var end := if turns == [] then start else turns[|turns| - 1].now;
    Bounded(cfg.read, first.read, start, last, end, bev.bucket.readLimit, charged.read);
    Bounded(cfg.write, first.write, start, last, end, bev.bucket.writeLimit, charged.write);
  }

  lemma FairFirst(rate: int, first: int, start: int)
    ensures Within(rate, first, start, start, first, 0)
  {
  }

  lemma Bounded(rate: Rate, first: int, start: int, last: int, end: int, limit: int, charged: int)
    requires rate.Valid() && first <= rate.maximum && start <= last <= end && Within(rate.rate, first, start, last, limit, charged)
    ensures Min(first, 0) <= limit && charged <= rate.maximum + rate.rate * (end - start)
  {
    MultipleLe(last - start, end - start, rate.rate);
  }
}
