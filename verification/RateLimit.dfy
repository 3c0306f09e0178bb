/** The token-bucket rate limiter, with time and tokens as real numbers. */
module RateLimit {
  import opened Bytes

  datatype Config = Config(burst: u32, rate: real, window: real, enabled: bool)

  datatype Bucket = Bucket(tokens: real, last: real)

  /** `Panicked` is a wait that is no duration. */
  datatype Reply = Allowed(remaining: nat, limit: nat) | Limited(retryAfter: real, limit: nat) | Panicked

  /** Durations are shorter than 2^64 seconds. */
  const MAX_SECONDS: real := 18446744073709551616.0

  type Buckets = map<string, Bucket>

  function MinReal(a: real, b: real): real {
    if a < b then a else b
  }

  /** A duration is never negative. */
  function Since(earlier: real, now: real): (d: real)
    ensures d >= 0.0
  {
    if now > earlier then now - earlier else 0.0
  }

  // ---------- One bucket ----------

  function Full(cfg: Config, now: real): Bucket {
    Bucket(cfg.burst as real, now)
  }

  function Refill(cfg: Config, b: Bucket, now: real): Bucket {
    Bucket(MinReal(b.tokens + Since(b.last, now) * cfg.rate, cfg.burst as real), now)
  }

  function TryConsume(cfg: Config, b: Bucket, now: real): (Bucket, bool) {
    var r := Refill(cfg, b, now);
    if r.tokens >= 1.0 then (r.(tokens := r.tokens - 1.0), true) else (r, false)
  }

  function RetryAfter(cfg: Config, b: Bucket): real
    requires cfg.rate > 0.0
  {
    if b.tokens >= 1.0 then 0.0 else (1.0 - b.tokens) / cfg.rate
  }

  /** A cast to u32: rounds towards zero and saturates. */
  function AsU32(x: real): (n: nat)
    ensures n <= 0xFFFF_FFFF && (0.0 <= x < 0x1_0000_0000 as real ==> n as real <= x < (n + 1) as real)
  {
    if x < 0.0 then 0 else if x.Floor > 0xFFFF_FFFF then 0xFFFF_FFFF else x.Floor
  }

  function Wait(cfg: Config, b: Bucket): Option<real> {
    if b.tokens >= 1.0 then Some(0.0)
    else if cfg.rate <= 0.0 || RetryAfter(cfg, b) >= MAX_SECONDS then None
    else Some(RetryAfter(cfg, b))
  }

  class TokenBucket {
    const cfg: Config
    var tokens: real
    var lastRefill: real

    ghost function View(): Bucket
      reads this
    {
      Bucket(tokens, lastRefill)
    }

    constructor (cfg: Config, now: real)
      ensures this.cfg == cfg && View() == Full(cfg, now)
    {
      this.cfg, tokens, lastRefill := cfg, cfg.burst as real, now;
    }

    method DoRefill(now: real)
      modifies this
      ensures View() == Refill(cfg, old(View()), now)
    {
      var elapsed := Since(lastRefill, now);
      tokens := MinReal(tokens + elapsed * cfg.rate, cfg.burst as real);
      lastRefill := now;
    }

    method Consume(now: real) returns (ok: bool)
      modifies this
      ensures (View(), ok) == TryConsume(cfg, old(View()), now)
    {
      DoRefill(now);
      if tokens >= 1.0 {
        tokens := tokens - 1.0;
        return true;
      }
      return false;
    }

    method Remaining() returns (n: nat)
      ensures n == AsU32(tokens)
    {
      return if tokens < 0.0 then 0 else if tokens.Floor > 0xFFFF_FFFF then 0xFFFF_FFFF else tokens.Floor;
    }

    /** The wait for the next token; None if it is no duration, where the source panics. */
    method WaitTime() returns (wait: Option<real>)
      ensures wait == Wait(cfg, View())
    {
      if tokens >= 1.0 { return Some(0.0); }
      if cfg.rate <= 0.0 { return None; }
      var seconds := (1.0 - tokens) / cfg.rate;
      return if seconds < MAX_SECONDS then Some(seconds) else None;
    }
  }

  // ---------- Arithmetic ----------

  lemma Product(a: real, b: real)
    requires a >= 0.0 && b >= 0.0
    ensures a * b >= 0.0
  {
  }

  lemma Distribute(a: real, b: real, r: real)
    ensures (a + b) * r == a * r + b * r
  {
  }

  lemma DistributeSpan(a: real, b: real, c: real, r: real)
    ensures (c - a) * r == (b - a) * r + (c - b) * r
  {
    Distribute(b - a, c - b, r);
    assert (b - a) + (c - b) == c - a;
  }

  predicate InRange(cfg: Config, b: Bucket) {
    0.0 <= b.tokens <= cfg.burst as real
  }

  lemma RefillInRange(cfg: Config, b: Bucket, now: real)
    requires cfg.rate >= 0.0 && InRange(cfg, b)
    ensures InRange(cfg, Refill(cfg, b, now)) && InRange(cfg, TryConsume(cfg, b, now).0)
  {
    Product(Since(b.last, now), cfg.rate);
  }

  /** Refilling does not depend on how often it is done. */
  lemma RefillPathIndependent(cfg: Config, b: Bucket, t: real, u: real)
    requires cfg.rate >= 0.0 && b.last <= t <= u
    ensures Refill(cfg, Refill(cfg, b, t), u) == Refill(cfg, b, u)
  {
    Distribute(t - b.last, u - t, cfg.rate);
    Product(u - t, cfg.rate);
  }

  // ---------- Waiting after a refusal ----------

  /** The bucket after a run of checks, and how many of them were admitted. */
  function AfterChecks(cfg: Config, b: Bucket, times: seq<real>): (Bucket, nat) {
    if times == [] then (b, 0)
    else
      var (before, n) := AfterChecks(cfg, b, times[..|times| - 1]);
      var (after, ok) := TryConsume(cfg, before, times[|times| - 1]);
      (after, n + if ok then 1 else 0)
  }

  predicate SortedFrom(t: real, times: seq<real>) {
    (forall i :: 0 <= i < |times| ==> t <= times[i]) && forall i, j :: 0 <= i < j < |times| ==> times[i] <= times[j]
  }

  function LastOf(t: real, times: seq<real>): real {
    if times == [] then t else times[|times| - 1]
  }

  /** At time `u` after a refusal there is a token exactly when the announced wait is over. */
  lemma WaitIsExact(cfg: Config, b: Bucket, u: real)
    requires cfg.rate > 0.0 && cfg.burst >= 1 && b.tokens < 1.0 && b.last <= u
    ensures TryConsume(cfg, b, u).1 <==> u >= b.last + RetryAfter(cfg, b)
  {
    var wait := RetryAfter(cfg, b);
    assert wait * cfg.rate == 1.0 - b.tokens;
    var d := u - b.last;
    if d >= wait {
      Product(d - wait, cfg.rate);
      Distribute(wait, d - wait, cfg.rate);
    } else {
      Distribute(d, wait - d, cfg.rate);
      assert (wait - d) * cfg.rate > 0.0;
    }
  }

  lemma {:induction false} FailedPolls(cfg: Config, b: Bucket, polls: seq<real>)
    requires cfg.rate > 0.0 && cfg.burst >= 1 && b.tokens < 1.0 && SortedFrom(b.last, polls)
    requires LastOf(b.last, polls) < b.last + RetryAfter(cfg, b)
    ensures AfterChecks(cfg, b, polls) == (if polls == [] then b else Refill(cfg, b, LastOf(b.last, polls)), 0)
  {
    if polls != [] {
      var before := polls[..|polls| - 1];
      FailedPolls(cfg, b, before);
      WaitIsExact(cfg, b, polls[|polls| - 1]);
      if before != [] {
        RefillPathIndependent(cfg, b, LastOf(b.last, before), polls[|polls| - 1]);
      }
    }
  }

  /** After a refusal, whatever polls fail in between, every check before the announced moment is
      refused and every check from that moment on is admitted. */
  lemma RetryAfterIsExact(cfg: Config, b: Bucket, polls: seq<real>, u: real)
    requires cfg.rate > 0.0 && cfg.burst >= 1 && b.tokens < 1.0 && SortedFrom(b.last, polls)
    requires LastOf(b.last, polls) < b.last + RetryAfter(cfg, b) && LastOf(b.last, polls) <= u
    ensures var (polled, admitted) := AfterChecks(cfg, b, polls);
            && admitted == 0
            && (TryConsume(cfg, polled, u).1 <==> u >= b.last + RetryAfter(cfg, b))
  {
    FailedPolls(cfg, b, polls);
    WaitIsExact(cfg, b, u);
    if polls != [] {
      RefillPathIndependent(cfg, b, LastOf(b.last, polls), u);
    }
  }

  // ---------- The limiter ----------

  function Answer(cfg: Config, b: Bucket, ok: bool): Reply {
    if ok then Allowed(AsU32(b.tokens), cfg.burst)
    else
      var wait := Wait(cfg, b);
      if wait.Some? then Limited(wait.value, cfg.burst) else Panicked
  }

  /** A check by one client. A client without a bucket gets a full one, created at its own clock reading. */
  function CheckStep(cfg: Config, m: Buckets, ip: string, created: real, now: real): (Buckets, Reply) {
    if !cfg.enabled then (m, Allowed(cfg.burst, cfg.burst))
    else
      var (b, ok) := TryConsume(cfg, if ip in m then m[ip] else Full(cfg, created), now);
      (m[ip := b], Answer(cfg, b, ok))
  }

  /** Cleanup drops every bucket that was not touched for a whole window. */
  function CleanupStep(cfg: Config, m: Buckets, now: real): Buckets {
    map ip | ip in m && Since(m[ip].last, now) < cfg.window :: m[ip]
  }

  class RateLimiter {
    const cfg: Config
    var buckets: map<string, TokenBucket>

    /** Every client has a bucket of its own. */
    ghost predicate Valid()
      reads this, buckets.Values
    {
      && (forall ip :: ip in buckets ==> buckets[ip].cfg == cfg)
      && (forall a, b :: a in buckets && b in buckets && a != b ==> buckets[a] != buckets[b])
    }

    ghost function View(): Buckets
      reads this, buckets.Values
    {
      map ip | ip in buckets :: buckets[ip].View()
    }

    constructor (cfg: Config)
      ensures Valid() && this.cfg == cfg && View() == map[]
    {
      this.cfg, buckets := cfg, map[];
    }

    /** The client's bucket, a new one if there is none. */
    method BucketFor(ip: string, created: real) returns (bucket: TokenBucket)
      requires Valid()
      modifies this
      ensures Valid() && ip in buckets && buckets[ip] == bucket && fresh(buckets.Values - old(buckets.Values))
      ensures View() == if ip in old(buckets) then old(View()) else old(View())[ip := Full(cfg, created)]
    {
      if ip !in buckets {
        var blank := new TokenBucket(cfg, created);
        buckets := buckets[ip := blank];
      }
      bucket := buckets[ip];
    }

    method ConsumeFor(ip: string, now: real) returns (ok: bool)
      requires Valid() && ip in buckets
      modifies buckets[ip]
      ensures Valid() && (View()[ip], ok) == TryConsume(cfg, old(View()[ip]), now)
      ensures View() == old(View())[ip := View()[ip]]
    {
      hide TryConsume;
      ok := buckets[ip].Consume(now);
    }

    method Check(ip: string, created: real, now: real) returns (r: Reply)
      requires Valid()
      modifies this, buckets.Values
      ensures Valid() && fresh(buckets.Values - old(buckets.Values))
      ensures (View(), r) == CheckStep(cfg, old(View()), ip, created, now)
    {
      hide TryConsume, Wait, AsU32;
      if !cfg.enabled {
        return Allowed(cfg.burst, cfg.burst);
      }
      var bucket := BucketFor(ip, created);
      var ok := ConsumeFor(ip, now);
      assert View() == old(View())[ip := bucket.View()];
      if ok {
        var left := bucket.Remaining();
        return Allowed(left, cfg.burst);
      }
      var wait := bucket.WaitTime();
      return if wait.Some? then Limited(wait.value, cfg.burst) else Panicked;
    }

    method Cleanup(now: real)
      requires Valid()
      modifies this
      ensures Valid() && buckets.Values <= old(buckets.Values)
      ensures View() == CleanupStep(cfg, old(View()), now)
    {
      var left := buckets.Keys;
      var kept: map<string, TokenBucket> := map[];
      while left != {}
        invariant left <= buckets.Keys
        invariant kept == map ip | ip in buckets && ip !in left && Since(buckets[ip].lastRefill, now) < cfg.window :: buckets[ip]
      {
        var ip :| ip in left;
        left := left - {ip};
        if Since(buckets[ip].lastRefill, now) < cfg.window {
          kept := kept[ip := buckets[ip]];
        }
      }
      buckets := kept;
    }
  }

  // ---------- Runs ----------

  datatype Op = Check(ip: string, created: real, now: real) | Cleanup(now: real)

  /** One operation; with `evict` false, cleanups do nothing. */
  function Step(cfg: Config, m: Buckets, op: Op, evict: bool): (Buckets, Option<Reply>) {
    match op
    case Check(ip, created, now) =>
      var (after, r) := CheckStep(cfg, m, ip, created, now);
      (after, Some(r))
    case Cleanup(now) => (if evict then CleanupStep(cfg, m, now) else m, None)
  }

  function After(cfg: Config, m: Buckets, ops: seq<Op>, evict: bool): Buckets
    decreases ops
  {
    if ops == [] then m else After(cfg, Step(cfg, m, ops[0], evict).0, ops[1..], evict)
  }

  function Replies(cfg: Config, m: Buckets, ops: seq<Op>, evict: bool): seq<Option<Reply>>
    decreases ops
  {
    if ops == [] then []
    else
      var (after, r) := Step(cfg, m, ops[0], evict);
      [r] + Replies(cfg, after, ops[1..], evict)
  }

  /** Clock readings never go back, starting from `t`. */
  predicate Clocked(ops: seq<Op>, t: real)
    decreases ops
  {
    ops == [] || (
      && (match ops[0] case Check(_, created, now) => t <= created <= now case Cleanup(now) => t <= now)
      && Clocked(ops[1..], ops[0].now))
  }

  /** Every bucket is in range and was last touched by `t`. */
  predicate Bounded(cfg: Config, m: Buckets, t: real) {
    forall ip :: ip in m ==> InRange(cfg, m[ip]) && m[ip].last <= t
  }

  lemma StepBounded(cfg: Config, m: Buckets, op: Op, t: real, evict: bool)
    requires cfg.rate > 0.0 && Bounded(cfg, m, t) && Clocked([op], t)
    ensures Bounded(cfg, Step(cfg, m, op, evict).0, op.now)
  {
    if op.Check? {
      RefillInRange(cfg, if op.ip in m then m[op.ip] else Full(cfg, op.created), op.now);
    }
  }

  // ---------- The bound ----------

  /** The tokens a client could use at time `t`. */
  function Level(cfg: Config, m: Buckets, ip: string, t: real): real {
    if ip in m then Refill(cfg, m[ip], t).tokens else cfg.burst as real
  }

  /** Idle for a whole window means full. */
  predicate Generous(cfg: Config) {
    cfg.rate * cfg.window >= cfg.burst as real
  }

  lemma LevelRises(cfg: Config, m: Buckets, ip: string, t: real, u: real)
    requires cfg.rate > 0.0 && Bounded(cfg, m, t) && t <= u
    ensures Level(cfg, m, ip, u) <= Level(cfg, m, ip, t) + (u - t) * cfg.rate
    ensures Level(cfg, m, ip, u) >= Level(cfg, m, ip, t)
  {
    Product(u - t, cfg.rate);
    if ip in m {
      RefillPathIndependent(cfg, m[ip], t, u);
    }
  }

  /** A dropped bucket would have been full. */
  lemma DroppedIsFull(cfg: Config, b: Bucket, now: real)
    requires cfg.rate > 0.0 && Generous(cfg) && InRange(cfg, b) && Since(b.last, now) >= cfg.window
    ensures Refill(cfg, b, now).tokens == cfg.burst as real
  {
    Product(Since(b.last, now) - cfg.window, cfg.rate);
    Distribute(cfg.window, Since(b.last, now) - cfg.window, cfg.rate);
  }

  predicate Admits(r: Option<Reply>) {
    r.Some? && r.value.Allowed?
  }

  /** One operation costs a client the tokens it is granted. */
  lemma StepLevel(cfg: Config, m: Buckets, op: Op, ip: string, t: real, evict: bool)
    requires cfg.rate > 0.0 && cfg.enabled && Bounded(cfg, m, t) && Clocked([op], t)
    requires evict && op.Cleanup? ==> Generous(cfg)
    ensures var (after, r) := Step(cfg, m, op, evict);
            Level(cfg, after, ip, op.now) ==
            Level(cfg, m, ip, op.now) - (if op.Check? && op.ip == ip && Admits(r) then 1.0 else 0.0)
  {
    if op.Check? {
      var b := if op.ip in m then m[op.ip] else Full(cfg, op.created);
      RefillInRange(cfg, b, op.now);
      if op.ip !in m {
        Product(Since(op.created, op.now), cfg.rate);
      }
    } else if evict && ip in m && Since(m[ip].last, op.now) >= cfg.window {
      DroppedIsFull(cfg, m[ip], op.now);
    }
  }

  /** How many checks of a client a run admits. */
  function Admitted(cfg: Config, m: Buckets, ops: seq<Op>, evict: bool, ip: string): nat
    decreases ops
  {
    if ops == [] then 0
    else
      var (after, r) := Step(cfg, m, ops[0], evict);
      (if ops[0].Check? && ops[0].ip == ip && Admits(r) then 1 else 0) + Admitted(cfg, after, ops[1..], evict, ip)
  }

  predicate AllUntil(ops: seq<Op>, to: real) {
    forall i :: 0 <= i < |ops| ==> ops[i].now <= to
  }

  predicate CleanupsOnlyIf(ops: seq<Op>, allowed: bool) {
    forall i :: 0 <= i < |ops| && ops[i].Cleanup? ==> allowed
  }

  lemma LevelNotNegative(cfg: Config, m: Buckets, ip: string, t: real)
    requires cfg.rate > 0.0 && Bounded(cfg, m, t)
    ensures 0.0 <= Level(cfg, m, ip, t) <= cfg.burst as real
  {
    if ip in m {
      RefillInRange(cfg, m[ip], t);
    }
  }

  lemma Chain(first: real, rest: real, level: real, risen: real, left: real, p: real, q: real)
    requires risen <= level + p && left == risen - first && rest <= left + q
    ensures first + rest <= level + (p + q)
  {
  }

  lemma NoneAdmitted(cfg: Config, m: Buckets, evict: bool, ip: string)
    requires cfg.rate > 0.0
    ensures Admitted(cfg, m, [], evict, ip) == 0
  {
  }

  lemma AdmittedStep(cfg: Config, m: Buckets, ops: seq<Op>, evict: bool, ip: string)
    requires cfg.rate > 0.0 && ops != []
    ensures var (after, r) := Step(cfg, m, ops[0], evict);
            Admitted(cfg, m, ops, evict, ip) as real
            == (if ops[0].Check? && ops[0].ip == ip && Admits(r) then 1.0 else 0.0)
               + Admitted(cfg, after, ops[1..], evict, ip) as real
  {
    hide Step, Admits;
  }

  /** What a bucket gains in an interval, before it is capped. */
  function Gain(cfg: Config, from: real, to: real): real {
    (to - from) * cfg.rate
  }

  lemma GainSplits(cfg: Config, a: real, b: real, c: real)
    ensures Gain(cfg, a, c) == Gain(cfg, a, b) + Gain(cfg, b, c)
  {
    DistributeSpan(a, b, c, cfg.rate);
  }

  lemma GainIs(cfg: Config, from: real, to: real)
    ensures Gain(cfg, from, to) == cfg.rate * (to - from)
  {
  }

  lemma LevelGains(cfg: Config, m: Buckets, ip: string, t: real, u: real)
    requires cfg.rate > 0.0 && Bounded(cfg, m, t) && t <= u
    ensures 0.0 <= Gain(cfg, t, u) && 0.0 <= Level(cfg, m, ip, t) && Level(cfg, m, ip, u) <= Level(cfg, m, ip, t) + Gain(cfg, t, u)
  {
    Product(u - t, cfg.rate);
    LevelRises(cfg, m, ip, t, u);
    LevelNotNegative(cfg, m, ip, t);
  }

  lemma {:induction false} AdmittedWithinLevel(cfg: Config, m: Buckets, ops: seq<Op>, evict: bool, ip: string, t: real, to: real)
    requires cfg.rate > 0.0 && cfg.enabled && Bounded(cfg, m, t) && Clocked(ops, t) && t <= to && AllUntil(ops, to)
    requires CleanupsOnlyIf(ops, !evict || Generous(cfg))
    ensures Admitted(cfg, m, ops, evict, ip) as real <= Level(cfg, m, ip, t) + Gain(cfg, t, to)
    decreases ops
  {
    hide Step, Level, Bounded, Admits, Admitted, Gain, Generous;
    if ops == [] {
      NoneAdmitted(cfg, m, evict, ip);
      LevelGains(cfg, m, ip, t, to);
    } else {
      var op := ops[0];
      var (after, r) := Step(cfg, m, op, evict);
      var first := if op.Check? && op.ip == ip && Admits(r) then 1.0 else 0.0;
      StepBounded(cfg, m, op, t, evict);
      StepLevel(cfg, m, op, ip, t, evict);
      LevelGains(cfg, m, ip, t, op.now);
      AdmittedWithinLevel(cfg, after, ops[1..], evict, ip, op.now, to);
      GainSplits(cfg, t, op.now, to);
      Chain(first, Admitted(cfg, after, ops[1..], evict, ip) as real, Level(cfg, m, ip, t),
            Level(cfg, m, ip, op.now), Level(cfg, after, ip, op.now), Gain(cfg, t, op.now), Gain(cfg, op.now, to));
      AdmittedStep(cfg, m, ops, evict, ip);
    }
  }

  lemma {:induction false} RunBounded(cfg: Config, m: Buckets, ops: seq<Op>, evict: bool, t: real, to: real)
    requires cfg.rate > 0.0 && Bounded(cfg, m, t) && Clocked(ops, t) && t <= to && AllUntil(ops, to)
    ensures Bounded(cfg, After(cfg, m, ops, evict), to)
    decreases ops
  {
    hide Step;
    if ops != [] {
      StepBounded(cfg, m, ops[0], t, evict);
      RunBounded(cfg, Step(cfg, m, ops[0], evict).0, ops[1..], evict, ops[0].now, to);
    }
  }

  /** Token bucket bound: over every run with any clients, and for every interval, the checks of one
      client admitted in the interval number at most the burst plus the rate times its length. With
      cleanups in the run this needs a window long enough to refill a bucket. */
  lemma AdmittedInInterval(cfg: Config, earlier: seq<Op>, ops: seq<Op>, evict: bool, ip: string, t: real, from: real, to: real)
    requires cfg.rate > 0.0 && cfg.enabled && t <= from <= to
    requires Clocked(earlier, t) && AllUntil(earlier, from) && Clocked(ops, from) && AllUntil(ops, to)
    requires CleanupsOnlyIf(ops, !evict || Generous(cfg))
    ensures var m := After(cfg, map[], earlier, evict);
            && Bounded(cfg, m, from)
            && Admitted(cfg, m, ops, evict, ip) as real <= cfg.burst as real + cfg.rate * (to - from)
  {
    hide Step, Level, Admitted, Gain, Generous, After;
    assert Bounded(cfg, map[], t);
    hide Bounded;
    RunBounded(cfg, map[], earlier, evict, t, from);
    var m := After(cfg, map[], earlier, evict);
    GainIs(cfg, from, to);
    AdmittedWithinLevel(cfg, m, ops, evict, ip, from, to);
    LevelNotNegative(cfg, m, ip, from);
  }

  // ---------- What a client is told ----------

  /** The tokens of a client later on, from those it could use before. */
  lemma LevelAt(cfg: Config, m: Buckets, ip: string, t: real, u: real)
    requires cfg.rate > 0.0 && Bounded(cfg, m, t) && t <= u
    ensures Level(cfg, m, ip, u) == MinReal(Level(cfg, m, ip, t) + (u - t) * cfg.rate, cfg.burst as real)
  {
    if ip in m {
      RefillPathIndependent(cfg, m[ip], t, u);
    } else {
      Product(u - t, cfg.rate);
    }
  }

  /** Whatever else happens, a client that is granted nothing keeps what it could use. */
  lemma {:induction false} LevelUnspent(cfg: Config, m: Buckets, ops: seq<Op>, evict: bool, ip: string, t: real, u: real)
    requires cfg.rate > 0.0 && cfg.enabled && Bounded(cfg, m, t) && Clocked(ops, t) && t <= u && AllUntil(ops, u)
    requires CleanupsOnlyIf(ops, !evict || Generous(cfg)) && Admitted(cfg, m, ops, evict, ip) == 0
    ensures Bounded(cfg, After(cfg, m, ops, evict), u) && Level(cfg, After(cfg, m, ops, evict), ip, u) == Level(cfg, m, ip, u)
    decreases ops
  {
    hide Step, Level, Admits;
    if ops != [] {
      var op := ops[0];
      var (after, r) := Step(cfg, m, op, evict);
      StepBounded(cfg, m, op, t, evict);
      StepLevel(cfg, m, op, ip, t, evict);
      LevelUnspent(cfg, after, ops[1..], evict, ip, op.now, u);
      StillBounded(cfg, m, t, op.now);
      hide Bounded;
      LevelAt(cfg, m, ip, op.now, u);
      LevelAt(cfg, after, ip, op.now, u);
    }
  }

  lemma StillBounded(cfg: Config, m: Buckets, t: real, u: real)
    requires Bounded(cfg, m, t) && t <= u
    ensures Bounded(cfg, m, u)
  {
  }

  /** A check is allowed exactly when the client can use a whole token. */
  lemma AllowedIffToken(cfg: Config, m: Buckets, ip: string, created: real, now: real)
    requires cfg.rate > 0.0 && cfg.enabled && Bounded(cfg, m, created) && created <= now
    ensures CheckStep(cfg, m, ip, created, now).1.Allowed? <==> Level(cfg, m, ip, now) >= 1.0
  {
    Product(now - created, cfg.rate);
  }

  /** A refusal names the burst and the wait after which the client would have a token. */
  lemma RefusalNamesWait(cfg: Config, m: Buckets, ip: string, created: real, now: real, d: real, l: nat)
    requires cfg.rate > 0.0 && cfg.enabled && Bounded(cfg, m, created) && created <= now
    requires CheckStep(cfg, m, ip, created, now).1 == Limited(d, l)
    ensures var after := CheckStep(cfg, m, ip, created, now).0;
            && l == cfg.burst && Bounded(cfg, after, now)
            && Level(cfg, after, ip, now) < 1.0 && Level(cfg, after, ip, now) + d * cfg.rate == 1.0
  {
    var (b, ok) := TryConsume(cfg, if ip in m then m[ip] else Full(cfg, created), now);
    StepBounded(cfg, m, Check(ip, created, now), created, false);
    assert Refill(cfg, b, now).tokens == b.tokens by {
      RefillInRange(cfg, if ip in m then m[ip] else Full(cfg, created), now);
    }
    assert b.tokens < 1.0 && d == (1.0 - b.tokens) / cfg.rate;
  }

  /** A client that is told to wait is told exactly how long: a later check, after any operations that
      grant it nothing in between, is allowed exactly from that moment on (or never, with no burst). */
  lemma ToldWaitIsExact(cfg: Config, m: Buckets, ip: string, created: real, now: real, d: real, l: nat,
                        ops: seq<Op>, evict: bool, laterCreated: real, later: real)
    requires cfg.rate > 0.0 && cfg.enabled && Bounded(cfg, m, created) && created <= now <= laterCreated <= later
    requires CheckStep(cfg, m, ip, created, now).1 == Limited(d, l)
    requires Clocked(ops, now) && AllUntil(ops, laterCreated) && CleanupsOnlyIf(ops, !evict || Generous(cfg))
    requires Admitted(cfg, CheckStep(cfg, m, ip, created, now).0, ops, evict, ip) == 0
    ensures var after := After(cfg, CheckStep(cfg, m, ip, created, now).0, ops, evict);
            && l == cfg.burst
            && (CheckStep(cfg, after, ip, laterCreated, later).1.Allowed? <==> later >= now + d && cfg.burst >= 1)
  {
    hide CheckStep, Level, Admitted, After, Bounded, Generous;
    var told := CheckStep(cfg, m, ip, created, now).0;
    RefusalNamesWait(cfg, m, ip, created, now, d, l);
    LevelUnspent(cfg, told, ops, evict, ip, now, laterCreated);
    var after := After(cfg, told, ops, evict);
    AllowedIffToken(cfg, after, ip, laterCreated, later);
    LevelAt(cfg, after, ip, laterCreated, later);
    LevelAt(cfg, told, ip, now, laterCreated);
    WaitOver(Level(cfg, told, ip, now), now, laterCreated, later, d, cfg.rate, cfg.burst as real);
  }

  lemma Compare(a: real, b: real, rate: real)
    requires rate > 0.0
    ensures a * rate >= b * rate <==> a >= b
  {
    Distribute(a - b, b, rate);
    assert (a - b) + b == a;
    if a >= b {
      Product(a - b, rate);
    } else {
      Distribute(b - a, a, rate);
      assert (b - a) + a == b;
      assert (b - a) * rate > 0.0;
    }
  }

  lemma Capped(x: real, p: real, q: real, burst: real)
    requires q >= 0.0 && (burst >= 1.0 || burst == 0.0)
    ensures MinReal(MinReal(x + p, burst) + q, burst) >= 1.0 <==> x + (p + q) >= 1.0 && burst >= 1.0
  {
  }

  /** The arithmetic of waiting: capped or not, one token is there exactly when the wait is over. */
  lemma WaitOver(x: real, now: real, mid: real, later: real, d: real, rate: real, burst: real)
    requires rate > 0.0 && now <= mid <= later && x + d * rate == 1.0 && (burst >= 1.0 || burst == 0.0)
    ensures MinReal(MinReal(x + (mid - now) * rate, burst) + (later - mid) * rate, burst) >= 1.0
            <==> later >= now + d && burst >= 1.0
  {
    hide MinReal;
    DistributeSpan(now, mid, later, rate);
    Product(later - mid, rate);
    Capped(x, (mid - now) * rate, (later - mid) * rate, burst);
    Compare(later - now, d, rate);
  }

  /** A check panics exactly when it is refused and the wait is no duration. */
  lemma PanicsIff(cfg: Config, m: Buckets, ip: string, created: real, now: real)
    ensures CheckStep(cfg, m, ip, created, now).1.Panicked? <==>
            var tokens := Refill(cfg, if ip in m then m[ip] else Full(cfg, created), now).tokens;
            cfg.enabled && tokens < 1.0 && (cfg.rate <= 0.0 || (1.0 - tokens) / cfg.rate >= 18446744073709551616.0)
  {
  }

  lemma {:induction false} DrainsWhole(cfg: Config, m: Buckets, ip: string, t: real, k: nat)
    requires cfg.enabled && ip in m && m[ip].last == t && InRange(cfg, m[ip])
    ensures var left := m[ip].tokens.Floor;
            Admitted(cfg, m, Drain(ip, t, k, []), false, ip) == if k <= left then k else left
    decreases k
  {
    if k > 0 {
      var ops := Drain(ip, t, k, []);
      assert ops[0] == Check(ip, t, t) && ops[1..] == Drain(ip, t, k - 1, []);
      var after := Step(cfg, m, ops[0], false).0;
      assert after[ip] == TryConsume(cfg, m[ip], t).0;
      assert m[ip].tokens >= 1.0 ==> (m[ip].tokens - 1.0).Floor == m[ip].tokens.Floor - 1;
      assert m[ip].tokens < 1.0 ==> m[ip].tokens.Floor == 0;
      DrainsWhole(cfg, after, ip, t, k - 1);
    }
  }

  /** A client that is allowed is told exactly how many more checks it could make at that moment. */
  lemma ToldRemainingIsExact(cfg: Config, m: Buckets, ip: string, created: real, now: real, r: nat, l: nat, k: nat)
    requires cfg.rate > 0.0 && cfg.enabled && Bounded(cfg, m, created) && created <= now
    requires CheckStep(cfg, m, ip, created, now).1 == Allowed(r, l)
    ensures var after := CheckStep(cfg, m, ip, created, now).0;
            l == cfg.burst && Admitted(cfg, after, Drain(ip, now, k, []), false, ip) == if k <= r then k else r
  {
    var start := if ip in m then m[ip] else Full(cfg, created);
    RefillInRange(cfg, start, now);
    var after := CheckStep(cfg, m, ip, created, now).0;
    assert after[ip].tokens < 0x1_0000_0000 as real;
    DrainsWhole(cfg, after, ip, now, k);
  }

  // ---------- Eviction ----------

  /** The evicting limiter has the same buckets, except that some full ones are missing. */
  ghost predicate MissesOnlyFull(cfg: Config, evicting: Buckets, keeping: Buckets, t: real) {
    && (forall ip :: ip in evicting ==> ip in keeping && keeping[ip] == evicting[ip])
    && (forall ip :: ip in keeping && ip !in evicting ==> Refill(cfg, keeping[ip], t).tokens == cfg.burst as real)
  }

  /** Both limiters answer a check the same and end up with the same bucket for that client. */
  lemma SameCheck(cfg: Config, a: Buckets, b: Buckets, op: Op, t: real)
    requires cfg.rate > 0.0 && cfg.enabled && op.Check? && Clocked([op], t)
    requires Bounded(cfg, b, t) && MissesOnlyFull(cfg, a, b, t)
    ensures Step(cfg, a, op, true).1 == Step(cfg, b, op, false).1
    ensures op.ip in Step(cfg, a, op, true).0 && op.ip in Step(cfg, b, op, false).0
    ensures Step(cfg, a, op, true).0 == a[op.ip := Step(cfg, b, op, false).0[op.ip]]
    ensures Step(cfg, b, op, false).0 == b[op.ip := Step(cfg, b, op, false).0[op.ip]]
  {
    if op.ip !in a {
      Product(Since(op.created, op.now), cfg.rate);
      assert Refill(cfg, Full(cfg, op.created), op.now) == Full(cfg, op.now);
      if op.ip in b {
        RefillPathIndependent(cfg, b[op.ip], t, op.now);
        Product(Since(t, op.now), cfg.rate);
        assert Refill(cfg, b[op.ip], op.now) == Full(cfg, op.now);
      }
    }
  }

  lemma StillFull(cfg: Config, a: Buckets, b: Buckets, t: real, u: real)
    requires cfg.rate > 0.0 && t <= u && Bounded(cfg, b, t) && MissesOnlyFull(cfg, a, b, t)
    ensures MissesOnlyFull(cfg, a, b, u)
  {
    forall ip | ip in b && ip !in a ensures Refill(cfg, b[ip], u).tokens == cfg.burst as real {
      LevelRises(cfg, b, ip, t, u);
    }
  }

  lemma EvictionStep(cfg: Config, a: Buckets, b: Buckets, op: Op, t: real)
    requires cfg.rate > 0.0 && cfg.enabled && Generous(cfg) && Clocked([op], t)
    requires Bounded(cfg, b, t) && MissesOnlyFull(cfg, a, b, t)
    ensures Step(cfg, a, op, true).1 == Step(cfg, b, op, false).1
    ensures MissesOnlyFull(cfg, Step(cfg, a, op, true).0, Step(cfg, b, op, false).0, op.now)
  {
    StillFull(cfg, a, b, t, op.now);
    if op.Check? {
      SameCheck(cfg, a, b, op, t);
      hide Step;
    } else {
      forall ip | ip in a && Since(a[ip].last, op.now) >= cfg.window
        ensures Refill(cfg, b[ip], op.now).tokens == cfg.burst as real
      {
        DroppedIsFull(cfg, a[ip], op.now);
      }
    }
  }

  lemma {:induction false} EvictionUnseen(cfg: Config, a: Buckets, b: Buckets, ops: seq<Op>, t: real)
    requires cfg.rate > 0.0 && cfg.enabled && Generous(cfg) && Clocked(ops, t)
    requires Bounded(cfg, b, t) && MissesOnlyFull(cfg, a, b, t)
    ensures Replies(cfg, a, ops, true) == Replies(cfg, b, ops, false)
    decreases ops
  {
    hide Step, MissesOnlyFull;
    if ops != [] {
      EvictionStep(cfg, a, b, ops[0], t);
      StepBounded(cfg, b, ops[0], t, false);
      EvictionUnseen(cfg, Step(cfg, a, ops[0], true).0, Step(cfg, b, ops[0], false).0, ops[1..], ops[0].now);
    }
  }

  lemma {:induction false} DisabledUnseen(cfg: Config, a: Buckets, b: Buckets, ops: seq<Op>)
    requires cfg.rate > 0.0 && !cfg.enabled
    ensures Replies(cfg, a, ops, true) == Replies(cfg, b, ops, false)
    decreases ops
  {
    if ops != [] {
      DisabledUnseen(cfg, Step(cfg, a, ops[0], true).0, Step(cfg, b, ops[0], false).0, ops[1..]);
    }
  }

  /** No run shows a difference between a limiter that cleans up and one that never does. */
  ghost predicate CleanupInvisible(cfg: Config) {
    forall ops: seq<Op> :: Clocked(ops, 0.0) ==> Replies(cfg, map[], ops, true) == Replies(cfg, map[], ops, false)
  }

  // ---------- A window too short ----------

  /** `k` checks at time `t`, then whatever follows. */
  function Drain(ip: string, t: real, k: nat, rest: seq<Op>): seq<Op> {
    if k == 0 then rest else [Check(ip, t, t)] + Drain(ip, t, k - 1, rest)
  }

  lemma {:induction false} DrainClocked(ip: string, t: real, k: nat, rest: seq<Op>)
    requires Clocked(rest, t)
    ensures Clocked(Drain(ip, t, k, rest), t)
  {
    if k > 0 {
      DrainClocked(ip, t, k - 1, rest);
    }
  }

  lemma DrainStep(cfg: Config, ip: string, t: real, k: nat, evict: bool)
    requires cfg.enabled && 0 < k <= cfg.burst
    ensures var (after, r) := Step(cfg, map[ip := Bucket(k as real, t)], Check(ip, t, t), evict);
            after == map[ip := Bucket((k - 1) as real, t)] && Admits(r)
  {
  }

  /** The `k` checks are admitted by a bucket that has `k` tokens, and empty it. */
  lemma {:induction false} DrainEmpties(cfg: Config, ip: string, t: real, k: nat, rest: seq<Op>, evict: bool)
    requires cfg.enabled && k <= cfg.burst
    ensures var full, empty := map[ip := Bucket(k as real, t)], map[ip := Bucket(0.0, t)];
            var ops := Drain(ip, t, k, rest);
            && |Replies(cfg, full, ops, evict)| >= k
            && Replies(cfg, full, ops, evict)[k..] == Replies(cfg, empty, rest, evict)
            && Admitted(cfg, full, ops, evict, ip) == k + Admitted(cfg, empty, rest, evict, ip)
    decreases k
  {
    hide Step, Admits;
    if k > 0 {
      var m, next := map[ip := Bucket(k as real, t)], map[ip := Bucket((k - 1) as real, t)];
      DrainStep(cfg, ip, t, k, evict);
      DrainEmpties(cfg, ip, t, k - 1, rest, evict);
      var ops := Drain(ip, t, k, rest);
      assert ops[0] == Check(ip, t, t) && ops[1..] == Drain(ip, t, k - 1, rest);
      assert Replies(cfg, m, ops, evict) == [Step(cfg, m, ops[0], evict).1] + Replies(cfg, next, Drain(ip, t, k - 1, rest), evict);
    }
  }

  lemma FirstCheck(cfg: Config, ip: string, t: real, ops: seq<Op>, evict: bool)
    requires cfg.enabled && ops != [] && ops[0] == Check(ip, t, t)
    ensures Replies(cfg, map[], ops, evict) == Replies(cfg, map[ip := Full(cfg, t)], ops, evict)
    ensures Admitted(cfg, map[], ops, evict, ip) == Admitted(cfg, map[ip := Full(cfg, t)], ops, evict, ip)
  {
    var none: Buckets, full: Buckets := map[], map[ip := Full(cfg, t)];
    var b := TryConsume(cfg, Full(cfg, t), t).0;
    assert none[ip := b] == full[ip := b];
    assert Step(cfg, none, ops[0], evict) == Step(cfg, full, ops[0], evict);
  }

  lemma NewClientReply(cfg: Config, ip: string, now: real)
    requires cfg.rate > 0.0 && cfg.enabled && cfg.burst > 0
    ensures CheckStep(cfg, map[], ip, now, now).1 == Allowed(cfg.burst - 1, cfg.burst)
  {
    var b := TryConsume(cfg, Full(cfg, now), now).0;
    assert b.tokens == (cfg.burst - 1) as real;
    assert ((cfg.burst - 1) as real).Floor == cfg.burst - 1;
  }

  lemma EmptyClientReply(cfg: Config, ip: string)
    requires cfg.rate > 0.0 && cfg.enabled && cfg.window >= 0.0 && !Generous(cfg)
    ensures CheckStep(cfg, map[ip := Bucket(0.0, 0.0)], ip, cfg.window, cfg.window).1 != Allowed(cfg.burst - 1, cfg.burst)
  {
    Product(cfg.window, cfg.rate);
    var b := Refill(cfg, Bucket(0.0, 0.0), cfg.window);
    assert b.tokens == cfg.window * cfg.rate < cfg.burst as real;
  }

  lemma LastReply(cfg: Config, m: Buckets, cleanup: Op, check: Op, evict: bool)
    requires cfg.rate > 0.0 && cleanup.Cleanup? && check.Check?
    ensures var after := if evict then CleanupStep(cfg, m, cleanup.now) else m;
            var replies := Replies(cfg, m, [cleanup, check], evict);
            |replies| == 2 && replies[1] == Some(CheckStep(cfg, after, check.ip, check.created, check.now).1)
  {
    hide CheckStep, CleanupStep;
    var after := if evict then CleanupStep(cfg, m, cleanup.now) else m;
    assert [cleanup, check][1..] == [check];
    assert [check][1..] == [];
    assert Step(cfg, m, cleanup, evict) == (after, None);
    assert Replies(cfg, after, [check], evict) == [Step(cfg, after, check, evict).1];
    assert Replies(cfg, m, [cleanup, check], evict) == [None] + Replies(cfg, after, [check], evict);
  }

  /** Once the window is over, cleanup forgets the empty bucket and the client starts with a full one
      again, while the bucket kept has only been refilled for that long. */
  lemma ShortWindowShows(cfg: Config, ip: string)
    requires cfg.rate > 0.0 && cfg.enabled && cfg.window >= 0.0 && cfg.burst > 0 && !Generous(cfg)
    ensures var empty := map[ip := Bucket(0.0, 0.0)];
            var rest := [Cleanup(cfg.window), Check(ip, cfg.window, cfg.window)];
            Replies(cfg, empty, rest, true) != Replies(cfg, empty, rest, false)
  {
    var empty := map[ip := Bucket(0.0, 0.0)];
    var cleanup, check := Cleanup(cfg.window), Check(ip, cfg.window, cfg.window);
    assert CleanupStep(cfg, empty, cfg.window) == map[];
    hide CheckStep, Replies;
    LastReply(cfg, empty, cleanup, check, true);
    LastReply(cfg, empty, cleanup, check, false);
    NewClientReply(cfg, ip, cfg.window);
    EmptyClientReply(cfg, ip);
  }

  /** Limiter eviction: cleaning up at any times is invisible in every run exactly when the limiter is
      off or a window is long enough to refill a whole burst. */
  lemma EvictionInvisibleIff(cfg: Config)
    requires cfg.rate > 0.0 && cfg.window >= 0.0
    ensures CleanupInvisible(cfg) <==> !cfg.enabled || Generous(cfg)
  {
    if !cfg.enabled {
      forall ops: seq<Op> ensures Replies(cfg, map[], ops, true) == Replies(cfg, map[], ops, false) {
        DisabledUnseen(cfg, map[], map[], ops);
      }
    } else if Generous(cfg) {
      forall ops: seq<Op> | Clocked(ops, 0.0) ensures Replies(cfg, map[], ops, true) == Replies(cfg, map[], ops, false) {
        EvictionUnseen(cfg, map[], map[], ops, 0.0);
      }
    } else {
      Product(cfg.rate, cfg.window);
      VisibleRun(cfg, "client");
    }
  }

  /** A run that shows the difference: spend the burst, wait for the window, clean up, check. */
  lemma VisibleRun(cfg: Config, ip: string)
    requires cfg.rate > 0.0 && cfg.enabled && cfg.window >= 0.0 && cfg.burst > 0 && !Generous(cfg)
    ensures var ops := Drain(ip, 0.0, cfg.burst, [Cleanup(cfg.window), Check(ip, cfg.window, cfg.window)]);
            Clocked(ops, 0.0) && Replies(cfg, map[], ops, true) != Replies(cfg, map[], ops, false)
  {
    var rest := [Cleanup(cfg.window), Check(ip, cfg.window, cfg.window)];
    var ops := Drain(ip, 0.0, cfg.burst, rest);
    assert rest[1..] == [rest[1]] && [rest[1]][1..] == [];
    assert Clocked([rest[1]], cfg.window);
    DrainClocked(ip, 0.0, cfg.burst, rest);
    hide Step;
    FirstCheck(cfg, ip, 0.0, ops, true);
    FirstCheck(cfg, ip, 0.0, ops, false);
    DrainEmpties(cfg, ip, 0.0, cfg.burst, rest, true);
    DrainEmpties(cfg, ip, 0.0, cfg.burst, rest, false);
    ShortWindowShows(cfg, ip);
  }

  // ---------- When the bound holds ----------

  /** The bound for one client and one interval of one run. */
  predicate WithinBound(cfg: Config, earlier: seq<Op>, ops: seq<Op>, ip: string, t: real, from: real, to: real) {
    t <= from <= to && Clocked(earlier, t) && AllUntil(earlier, from) && Clocked(ops, from) && AllUntil(ops, to) ==>
      Admitted(cfg, After(cfg, map[], earlier, true), ops, true, ip) as real <= cfg.burst as real + cfg.rate * (to - from)
  }

  /** The bound for every client and every interval of every run, cleanups included. */
  ghost predicate AlwaysWithinBound(cfg: Config) {
    forall earlier, ops, ip, t, from, to :: WithinBound(cfg, earlier, ops, ip, t, from, to)
  }

  lemma {:induction false} DrainUntil(ip: string, t: real, k: nat, rest: seq<Op>, to: real)
    requires t <= to && AllUntil(rest, to)
    ensures AllUntil(Drain(ip, t, k, rest), to)
  {
    if k > 0 {
      DrainUntil(ip, t, k - 1, rest, to);
    }
  }

  /** Spend the burst, wait for the window, clean up, and spend the burst again. */
  function TwoBursts(cfg: Config, ip: string): seq<Op> {
    Drain(ip, 0.0, cfg.burst, [Cleanup(cfg.window)] + Drain(ip, cfg.window, cfg.burst, []))
  }

  lemma TwoBurstsClocked(cfg: Config, ip: string)
    requires cfg.window >= 0.0
    ensures Clocked(TwoBursts(cfg, ip), 0.0) && AllUntil(TwoBursts(cfg, ip), cfg.window)
  {
    var second := Drain(ip, cfg.window, cfg.burst, []);
    var rest := [Cleanup(cfg.window)] + second;
    DrainClocked(ip, cfg.window, cfg.burst, []);
    DrainUntil(ip, cfg.window, cfg.burst, [], cfg.window);
    assert rest[1..] == second;
    DrainClocked(ip, 0.0, cfg.burst, rest);
    DrainUntil(ip, 0.0, cfg.burst, rest, cfg.window);
  }

  lemma BurstAdmitted(cfg: Config, ip: string, t: real, rest: seq<Op>)
    requires cfg.enabled && cfg.burst > 0
    ensures Admitted(cfg, map[], Drain(ip, t, cfg.burst, rest), true, ip)
            == cfg.burst + Admitted(cfg, map[ip := Bucket(0.0, t)], rest, true, ip)
  {
    hide Step, Admitted;
    FirstCheck(cfg, ip, t, Drain(ip, t, cfg.burst, rest), true);
    DrainEmpties(cfg, ip, t, cfg.burst, rest, true);
  }

  /** Both bursts are admitted. */
  lemma TwoBurstsAdmitted(cfg: Config, ip: string)
    requires cfg.enabled && cfg.burst > 0 && cfg.window >= 0.0
    ensures Admitted(cfg, map[], TwoBursts(cfg, ip), true, ip) == 2 * cfg.burst
  {
    var second := Drain(ip, cfg.window, cfg.burst, []);
    var rest := [Cleanup(cfg.window)] + second;
    var empty := map[ip := Bucket(0.0, 0.0)];
    BurstAdmitted(cfg, ip, 0.0, rest);
    BurstAdmitted(cfg, ip, cfg.window, []);
    assert CleanupStep(cfg, empty, cfg.window) == map[];
    assert rest[1..] == second;
    assert Admitted(cfg, empty, rest, true, ip) == Admitted(cfg, map[], second, true, ip);
    assert Admitted(cfg, map[ip := Bucket(0.0, cfg.window)], [], true, ip) == 0;
  }

  lemma {:induction false} DisabledAdmitsAll(cfg: Config, m: Buckets, ip: string, k: nat)
    requires !cfg.enabled
    ensures Admitted(cfg, m, Drain(ip, 0.0, k, []), true, ip) == k
  {
    if k > 0 {
      assert Drain(ip, 0.0, k, [])[1..] == Drain(ip, 0.0, k - 1, []);
      DisabledAdmitsAll(cfg, m, ip, k - 1);
    }
  }

  /** The token bucket bound holds in every run exactly when the limiter is on and a window is long
      enough to refill a whole burst. */
  lemma AlwaysWithinBoundIff(cfg: Config)
    requires cfg.rate > 0.0 && cfg.window >= 0.0
    ensures AlwaysWithinBound(cfg) <==> cfg.enabled && Generous(cfg)
  {
    hide Admitted, Step;
    if !cfg.enabled {
      var ops := Drain("client", 0.0, cfg.burst + 1, []);
      DisabledAdmitsAll(cfg, map[], "client", cfg.burst + 1);
      DrainClocked("client", 0.0, cfg.burst + 1, []);
      DrainUntil("client", 0.0, cfg.burst + 1, [], 0.0);
      assert !WithinBound(cfg, [], ops, "client", 0.0, 0.0, 0.0);
    } else if !Generous(cfg) {
      Product(cfg.rate, cfg.window);
      TwoBurstsClocked(cfg, "client");
      TwoBurstsAdmitted(cfg, "client");
      assert !WithinBound(cfg, [], TwoBursts(cfg, "client"), "client", 0.0, 0.0, cfg.window);
    } else {
      forall earlier, ops, ip, t, from, to ensures WithinBound(cfg, earlier, ops, ip, t, from, to) {
        if t <= from <= to && Clocked(earlier, t) && AllUntil(earlier, from) && Clocked(ops, from) && AllUntil(ops, to) {
          AdmittedInInterval(cfg, earlier, ops, true, ip, t, from, to);
        }
      }
    }
  }
}
