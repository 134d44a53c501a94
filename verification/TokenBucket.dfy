/** bufferevent_ratelim.c: token buckets in 64-bit size_t and ssize_t arithmetic, with 32-bit ticks. */
module TokenBucket {
  import opened Octets
  import opened Arith

  const SSIZE_MAX := 0x7fff_ffff_ffff_ffff

  /** struct ev_token_bucket_cfg, one direction; ev_token_bucket_cfg_new refuses anything else. */
  datatype Rate = Rate(rate: int, maximum: int) {
    predicate Valid() {
      1 <= rate <= maximum <= SSIZE_MAX
    }
  }

  /** Conversion to size_t and back. */
  function Unsigned(x: int): (u: int)
    ensures 0 <= u < TWO64
  {
    x % TWO64
  }

  function Signed(u: int): int
    requires 0 <= u < TWO64
  {
    if u <= SSIZE_MAX then u else u - TWO64
  }

  predicate Fits(x: int) {
    -SSIZE_MAX - 1 <= x <= SSIZE_MAX
  }

  /** current_tick - last_updated, modulo 2^32. */
  function Elapsed(tick: nat, last: nat): (n: nat)
    ensures n < TWO32
  {
    (tick - last) % TWO32
  }

  /** One direction of ev_token_bucket_update, for n > 0 ticks, as the unsigned arithmetic does it. */
  function Refilled(cfg: Rate, limit: int, n: int): int
    requires n > 0
  {
    if Unsigned(cfg.maximum - limit) / n < cfg.rate then cfg.maximum
    else Signed(Unsigned(Unsigned(limit) + Unsigned(n * cfg.rate)))
  }

  lemma UnsignedSmall(x: int)
    requires 0 <= x < TWO64
    ensures Unsigned(x) == x
  {
    ModUnique(x, 0, x, TWO64);
  }

  /** Adding in size_t and going back to ssize_t is exact if the sum fits. */
  lemma SignedSum(a: int, b: int)
    requires Fits(a) && 0 <= b < TWO64 && Fits(a + b)
    ensures Signed(Unsigned(Unsigned(a) + Unsigned(b))) == a + b
  {
    UnsignedSmall(b);
    Representative(a);
    Representative(a + b);
    var ua := Unsigned(a);
    assert ua == a || ua == a + TWO64;
    if ua == a + TWO64 {
      ModShift(a + b, 1, TWO64);
    }
  }

  lemma Representative(x: int)
    requires Fits(x)
    ensures Unsigned(x) == if x >= 0 then x else x + TWO64
  {
    ModUnique(x, if x >= 0 then 0 else -1, if x >= 0 then x else x + TWO64, TWO64);
  }

  lemma DivBelow(d: int, n: int, r: int)
    requires d >= 0 && n > 0 && r > 0
    ensures d / n < r <==> d < n * r
  {
    var q := d / n;
    assert q * n <= d < q * n + n;
    if q < r {
      MultipleLe(q + 1, r, n);
      assert (q + 1) * n == q * n + n;
    } else {
      MultipleLe(r, q, n);
    }
  }

  /** The division avoids overflow and gives what the naive sum would. */
  lemma RefilledIsMin(cfg: Rate, limit: int, n: int)
    requires cfg.Valid() && Fits(limit) && limit <= cfg.maximum && 0 < n <= INT_MAX
    ensures Refilled(cfg, limit, n) == Min(limit + n * cfg.rate, cfg.maximum)
  {
    var d := cfg.maximum - limit;
    assert 0 <= d < TWO64;
    UnsignedSmall(d);
    DivBelow(d, n, cfg.rate);
    if d >= n * cfg.rate {
      ProductPositive(n, cfg.rate);
      SignedSum(limit, n * cfg.rate);
    }
  }

  /** Above the maximum, where only a refund can lift a bucket, the update is right only if the sum wraps around. */
  lemma RefilledExact(cfg: Rate, limit: int, n: int)
    requires cfg.Valid() && Fits(limit) && 0 < n <= INT_MAX
    ensures Refilled(cfg, limit, n) == Min(limit + n * cfg.rate, cfg.maximum)
       <==> limit <= cfg.maximum || limit - cfg.maximum + n * cfg.rate >= TWO64
  {
    ProductPositive(n, cfg.rate);
    if limit <= cfg.maximum {
      RefilledIsMin(cfg, limit, n);
    } else {
      var over, p := limit - cfg.maximum, n * cfg.rate;
      ModUnique(-over, -1, TWO64 - over, TWO64);
      assert Unsigned(cfg.maximum - limit) == TWO64 - over;
      DivBelow(TWO64 - over, n, cfg.rate);
      if p <= TWO64 - over {
        WrappedSum(cfg.maximum, over, p);
      }
    }
  }

  lemma WrappedSum(max: int, over: int, p: int)
    requires 0 < max < max + over <= SSIZE_MAX && 0 < p <= TWO64 - over
    ensures Signed(Unsigned(Unsigned(max + over) + Unsigned(p))) == max <==> p == TWO64 - over
  {
    UnsignedSmall(max + over);
    UnsignedSmall(p);
    var x := max + over + p;
    if x < TWO64 {
      UnsignedSmall(x);
    } else {
      ModUnique(x, 1, x - TWO64, TWO64);
    }
  }

  /** Above its maximum a bucket can be exhausted by time passing: the sum leaves the range of ssize_t. */
  ghost predicate Drowns(cfg: Rate, limit: int, n: int) {
    limit > cfg.maximum && SSIZE_MAX < limit + n * cfg.rate <= TWO64
  }

  /** When a bucket with tokens is exhausted by an update. */
  lemma RefilledSign(cfg: Rate, limit: int, n: int)
    requires cfg.Valid() && Fits(limit) && limit > 0 && 0 < n <= INT_MAX
    ensures Refilled(cfg, limit, n) <= 0 <==> Drowns(cfg, limit, n)
  {
    ProductPositive(n, cfg.rate);
    if limit <= cfg.maximum {
      RefilledIsMin(cfg, limit, n);
    } else {
      var over, p := limit - cfg.maximum, n * cfg.rate;
      ModUnique(-over, -1, TWO64 - over, TWO64);
      assert Unsigned(cfg.maximum - limit) == TWO64 - over;
      DivBelow(TWO64 - over, n, cfg.rate);
      if p <= TWO64 - over {
        SumSign(limit, p);
      }
    }
  }

  lemma SumSign(limit: int, p: int)
    requires 0 < limit <= SSIZE_MAX && 0 < p < TWO64 && limit + p <= TWO64 + SSIZE_MAX
    ensures Signed(Unsigned(Unsigned(limit) + Unsigned(p))) <= 0 <==> SSIZE_MAX < limit + p <= TWO64
  {
    UnsignedSmall(limit);
    UnsignedSmall(p);
    var x := limit + p;
    ModUnique(x, if x < TWO64 then 0 else 1, if x < TWO64 then x else x - TWO64, TWO64);
  }

  lemma RefilledFits(cfg: Rate, limit: int, n: int)
    requires cfg.Valid() && n > 0
    ensures Fits(Refilled(cfg, limit, n))
  {
  }

  lemma ProductPositive(n: int, r: int)
    requires n > 0 && r > 0
    ensures n * r > 0
  {
  }

  /** struct ev_token_bucket_cfg; the tag tells configurations apart as their addresses do. */
  datatype Config = Config(tag: nat, read: Rate, write: Rate) {
    predicate Valid() {
      read.Valid() && write.Valid()
    }
  }

  /** The contents of a bucket. */
  datatype Level = Level(read: int, write: int, last: nat)

  predicate Counts(n: int) {
    0 < n <= INT_MAX
  }

  /** The tokens for the ticks that passed, as the unsigned arithmetic adds them. */
  ghost predicate Updated(cfg: Config, tick: nat, a: Level, b: Level) {
    var n := Elapsed(tick, a.last);
    if Counts(n) then b == Level(Refilled(cfg.read, a.read, n), Refilled(cfg.write, a.write, n), tick) else b == a
  }

  /** As many tokens as ticks passed, up to the maximum. */
  ghost predicate Topped(cfg: Config, tick: nat, a: Level, b: Level) {
    var n := Elapsed(tick, a.last);
    if Counts(n) then
      b == Level(Min(a.read + n * cfg.read.rate, cfg.read.maximum), Min(a.write + n * cfg.write.rate, cfg.write.maximum), tick)
    else b == a
  }

  ghost predicate Capped(cfg: Config, a: Level) {
    a.read <= cfg.read.maximum && a.write <= cfg.write.maximum
  }

  /** For levels up to the maximum the update is the plain one. */
  lemma UpdatedIsTopped(cfg: Config, tick: nat, a: Level, b: Level)
    requires cfg.Valid() && Fits(a.read) && Fits(a.write) && Updated(cfg, tick, a, b) && Capped(cfg, a)
    ensures Topped(cfg, tick, a, b) && Capped(cfg, b)
  {
    hide Refilled, Elapsed;
    var n := Elapsed(tick, a.last);
    if Counts(n) {
      RefilledIsMin(cfg.read, a.read, n);
      RefilledIsMin(cfg.write, a.write, n);
    }
  }

  /** Time takes tokens away exactly by drowning. */
  lemma UpdatedSigns(cfg: Config, tick: nat, a: Level, b: Level)
    requires cfg.Valid() && Fits(a.read) && Fits(a.write) && Updated(cfg, tick, a, b)
    ensures Fits(b.read) && Fits(b.write) && (b.last == tick || b.last == a.last)
    ensures var n := Elapsed(tick, a.last);
      && (a.read > 0 ==> (b.read <= 0 <==> Counts(n) && Drowns(cfg.read, a.read, n)))
      && (a.write > 0 ==> (b.write <= 0 <==> Counts(n) && Drowns(cfg.write, a.write, n)))
  {
    hide Refilled, Elapsed, Drowns;
    var n := Elapsed(tick, a.last);
    if Counts(n) {
      RefilledFits(cfg.read, a.read, n);
      RefilledFits(cfg.write, a.write, n);
      if a.read > 0 { RefilledSign(cfg.read, a.read, n); }
      if a.write > 0 { RefilledSign(cfg.write, a.write, n); }
    }
  }

  lemma NoTime(cfg: Config, tick: nat, a: Level)
    ensures a.last == tick ==> Updated(cfg, tick, a, a)
  {
    if a.last == tick {
      ModUnique(0, 0, 0, TWO32);
      assert Elapsed(tick, tick) == 0;
    }
  }

  /** Up to the maximum, time never takes tokens away. */
  lemma ToppedRaises(cfg: Config, tick: nat, a: Level, b: Level)
    requires cfg.Valid() && Topped(cfg, tick, a, b) && Capped(cfg, a)
    ensures a.read <= b.read && a.write <= b.write
    ensures Elapsed(tick, a.last) == 1 ==> (a.read <= 0 ==> b.read > a.read) && (a.write <= 0 ==> b.write > a.write)
  {
    var n := Elapsed(tick, a.last);
    if Counts(n) {
      ProductPositive(n, cfg.read.rate);
      ProductPositive(n, cfg.write.rate);
    }
  }

  /** The ticks counted are no more than those that passed, however the tick number wrapped. */
  lemma ElapsedAtMost(now: nat, since: nat)
    requires since <= now
    ensures Elapsed(now % TWO32, since % TWO32) <= now - since
  {
    var q, p := now / TWO32, since / TWO32;
    assert now % TWO32 - since % TWO32 == (now - since) + (p - q) * TWO32;
    ModShift(now - since, p - q, TWO32);
    ModAtMost(now - since, TWO32);
  }

  lemma ModAtMost(x: int, m: int)
    requires x >= 0 && m > 0
    ensures x % m <= x
  {
  }

  lemma OneTick(last: nat)
    requires last < TWO32
    ensures Elapsed((last + 1) % TWO32, last) == 1
  {
  }

  /** struct ev_token_bucket */
  class Bucket {
    var readLimit: int
    var writeLimit: int
    var lastUpdated: nat

    /** Limits are signed, for deficits; a refund can lift them above the maximum. */
    ghost predicate InRange()
      reads this
    {
      Fits(readLimit) && Fits(writeLimit) && lastUpdated < TWO32
    }

    ghost function Now(): Level
      reads this
    {
      Level(readLimit, writeLimit, lastUpdated)
    }

    constructor ()
      ensures readLimit == 0 && writeLimit == 0 && lastUpdated == 0
    {
      readLimit, writeLimit, lastUpdated := 0, 0, 0;
    }

    /** ev_token_bucket_init: a new configuration for a bucket in use only clips it. */
    method Init(cfg: Config, tick: nat, reinitialize: bool)
      requires cfg.Valid() && tick < TWO32 && InRange()
      modifies this
      ensures InRange() && Capped(cfg, Now())
      ensures readLimit == if reinitialize then Min(old(readLimit), cfg.read.maximum) else cfg.read.rate
      ensures writeLimit == if reinitialize then Min(old(writeLimit), cfg.write.maximum) else cfg.write.rate
      ensures lastUpdated == if reinitialize then old(lastUpdated) else tick
    {
      if reinitialize {
        if readLimit > cfg.read.maximum { readLimit := cfg.read.maximum; }
        if writeLimit > cfg.write.maximum { writeLimit := cfg.write.maximum; }
      } else {
        readLimit, writeLimit, lastUpdated := cfg.read.rate, cfg.write.rate, tick;
      }
    }

    /**
     * ev_token_bucket_update: up to the maximum, as many tokens as ticks passed and no more than the maximum;
     * a clock that went back adds none.
     */
    method Update(cfg: Config, tick: nat) returns (some: bool)
      requires cfg.Valid() && InRange() && tick < TWO32
      modifies this
      ensures InRange()
      ensures old(Capped(cfg, Now())) ==> Topped(cfg, tick, old(Now()), Now()) && Capped(cfg, Now())
      ensures some <==> Counts(Elapsed(tick, old(lastUpdated)))
      ensures Updated(cfg, tick, old(Now()), Now())
    {
      var n := Elapsed(tick, lastUpdated);
      if n == 0 || n > INT_MAX { return false; }
      hide Refilled;
      RefilledFits(cfg.read, readLimit, n);
      RefilledFits(cfg.write, writeLimit, n);
      ghost var before := Now();
      readLimit, writeLimit := Refilled(cfg.read, readLimit, n), Refilled(cfg.write, writeLimit, n);
      lastUpdated := tick;
      if Capped(cfg, before) {
        UpdatedIsTopped(cfg, tick, before, Now());
      }
      return true;
    }
  }
}
