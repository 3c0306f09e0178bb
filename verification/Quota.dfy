/** Per-tenant request limits: a sliding window over the times of recorded requests. */
module Quota {
  import opened Bytes

  /** Nanoseconds. */
  const WINDOW: nat := 1_000_000_000
  const WINDOW_SECS: nat := 1

  datatype TenantQuota = TenantQuota(rateLimit: u32, enabled: bool)

  datatype CheckResult = Allowed | RateLimitExceeded(limit: nat, windowSecs: nat) | TenantDisabled

  // ---------- One tenant ----------

  /** The request times after the start of the window. */
  function Recent(times: seq<int>, now: int): (r: seq<int>)
    ensures |r| <= |times|
  {
    if times == [] then []
    else (if times[0] > now - WINDOW then [times[0]] else []) + Recent(times[1..], now)
  }

  /** The rate check: forgets old requests unless the rate is unlimited. The length is cast to u32. */
  function CheckRate(times: seq<int>, limit: u32, now: int): (seq<int>, bool) {
    if limit == 0 then (times, true)
    else
      var kept := Recent(times, now);
      (kept, |kept| % 0x1_0000_0000 < limit)
  }

  /** A request: the check and the record read the clock separately. */
  datatype Attempt = Attempt(checkedAt: int, recordedAt: int)

  function Request(times: seq<int>, limit: u32, a: Attempt): (seq<int>, bool) {
    var (kept, ok) := CheckRate(times, limit, a.checkedAt);
    (if ok then kept + [a.recordedAt] else kept, ok)
  }

  class TenantUsage {
    var requestTimes: seq<int>

    constructor ()
      ensures requestTimes == []
    {
      requestTimes := [];
    }

    method CheckRateAt(quota: TenantQuota, now: int) returns (ok: bool)
      modifies this
      ensures (requestTimes, ok) == CheckRate(old(requestTimes), quota.rateLimit, now)
    {
      if quota.rateLimit == 0 {
        return true;
      }
      var kept: seq<int> := [];
      for i := 0 to |requestTimes|
        invariant requestTimes == old(requestTimes)
        invariant kept + Recent(requestTimes[i..], now) == Recent(requestTimes, now)
      {
        if requestTimes[i] > now - WINDOW {
          ConcatAssoc(kept, [requestTimes[i]], Recent(requestTimes[i + 1..], now));
          kept := kept + [requestTimes[i]];
        }
      }
      assert kept == Recent(requestTimes, now);
      requestTimes := kept;
      return |requestTimes| % 0x1_0000_0000 < quota.rateLimit;
    }

    method RecordRequest(now: int)
      modifies this
      ensures requestTimes == old(requestTimes) + [now]
    {
      requestTimes := requestTimes + [now];
    }
  }

  // ---------- Runs of one tenant ----------

  /** The stored times after a run of requests. */
  function Stored(limit: u32, run: seq<Attempt>): seq<int> {
    if run == [] then [] else Request(Stored(limit, run[..|run| - 1]), limit, run[|run| - 1]).0
  }

  /** The times of all requests ever recorded. */
  function Recorded(limit: u32, run: seq<Attempt>): seq<int> {
    if run == [] then []
    else
      var before, last := run[..|run| - 1], run[|run| - 1];
      if Request(Stored(limit, before), limit, last).1 then Recorded(limit, before) + [last.recordedAt]
      else Recorded(limit, before)
  }

  /** The clock never goes back, between and within requests. */
  ghost predicate Clocked(run: seq<Attempt>) {
    && (forall i :: 0 <= i < |run| ==> run[i].checkedAt <= run[i].recordedAt)
    && (forall i, j :: 0 <= i < j < |run| ==> run[i].recordedAt <= run[j].checkedAt)
  }

  ghost predicate Sorted(s: seq<int>) {
    forall i, j :: 0 <= i < j < |s| ==> s[i] <= s[j]
  }

  lemma SortedTail(s: seq<int>)
    requires Sorted(s) && s != []
    ensures Sorted(s[1..]) && (|s| > 1 ==> s[0] <= s[1..][0])
  {
  }

  /** Of sorted times the recent ones are the last ones. */
  lemma {:induction false} RecentIsSuffix(s: seq<int>, now: int) returns (k: nat)
    requires Sorted(s)
    ensures k <= |s| && Recent(s, now) == s[k..]
    ensures forall i :: 0 <= i < k ==> s[i] <= now - WINDOW
  {
    hide Sorted;
    if s == [] {
      k := 0;
    } else {
      SortedTail(s);
      var j := RecentIsSuffix(s[1..], now);
      k := if s[0] > now - WINDOW then 0 else j + 1;
      assert s[1..][j..] == s[j + 1..];
      assert s == [s[0]] + s[1..] && s == s[0..];
      forall i | 0 <= i < k ensures s[i] <= now - WINDOW {
        assert i > 0 ==> s[i] == s[1..][i - 1];
      }
    }
  }

  /** Any limit+1 consecutive recorded requests span at least a window. */
  ghost predicate Spaced(limit: nat, recorded: seq<int>) {
    forall i, j :: 0 <= i && j == i + limit && j < |recorded| ==> recorded[j] - recorded[i] >= WINDOW
  }

  /** The stored times are the last recorded ones, never more than the limit, and those before them
      are too old for a check at `now`. */
  ghost predicate Inv(limit: nat, stored: seq<int>, recorded: seq<int>, k: nat, now: int) {
    && k <= |recorded| && stored == recorded[k..] && |stored| <= limit
    && Sorted(recorded) && Spaced(limit, recorded)
    && (forall i :: 0 <= i < |recorded| ==> recorded[i] <= now)
    && (forall i :: 0 <= i < k ==> recorded[i] <= now - WINDOW)
  }

  /** A check moves the start of the stored times. */
  lemma Forgets(limit: u32, stored: seq<int>, recorded: seq<int>, k: nat, now: int, later: int) returns (j: nat)
    requires Inv(limit, stored, recorded, k, now) && now <= later
    ensures Inv(limit, Recent(stored, later), recorded, j, later)
  {
    hide Spaced;
    var m := RecentIsSuffix(stored, later);
    j := k + m;
    assert stored[m..] == recorded[j..];
    forall i | 0 <= i < j ensures recorded[i] <= later - WINDOW {
      assert i >= k ==> recorded[i] == stored[i - k];
    }
  }

  /** A request may be recorded while fewer than the limit are stored. */
  lemma Records(limit: u32, stored: seq<int>, recorded: seq<int>, k: nat, now: int, later: int)
    requires Inv(limit, stored, recorded, k, now) && |stored| < limit && now <= later
    ensures Inv(limit, stored + [later], recorded + [later], k, later)
  {
    assert stored + [later] == (recorded + [later])[k..];
  }

  lemma RequestKeeps(limit: u32, stored: seq<int>, recorded: seq<int>, k: nat, now: int, a: Attempt) returns (j: nat)
    requires limit > 0 && Inv(limit, stored, recorded, k, now) && now <= a.checkedAt <= a.recordedAt
    ensures var (after, ok) := Request(stored, limit, a);
            Inv(limit, after, if ok then recorded + [a.recordedAt] else recorded, j, a.recordedAt)
  {
    j := Forgets(limit, stored, recorded, k, now, a.checkedAt);
    var kept := Recent(stored, a.checkedAt);
    assert |kept| % 0x1_0000_0000 == |kept|;
    if |kept| < limit {
      Records(limit, kept, recorded, j, a.checkedAt, a.recordedAt);
    }
  }

  lemma {:induction false} RunKeeps(limit: u32, run: seq<Attempt>, now: int) returns (k: nat)
    requires limit > 0 && Clocked(run) && forall i :: 0 <= i < |run| ==> run[i].recordedAt <= now
    ensures Inv(limit, Stored(limit, run), Recorded(limit, run), k, now)
  {
    if run == [] {
      k := 0;
    } else {
      var last := run[|run| - 1];
      var j := RunKeeps(limit, run[..|run| - 1], last.checkedAt);
      hide Request;
      k := RequestKeeps(limit, Stored(limit, run[..|run| - 1]), Recorded(limit, run[..|run| - 1]), j, last.checkedAt, last);
    }
  }

  /** Which recorded requests fall into the window of one second that starts at `w`. */
  function InWindow(recorded: seq<int>, w: int): set<nat> {
    set i: nat | i < |recorded| && w <= recorded[i] < w + WINDOW
  }

  lemma WindowBound(limit: nat, recorded: seq<int>, w: int)
    requires Sorted(recorded)
    requires Spaced(limit, recorded)
    ensures |InWindow(recorded, w)| <= limit
  {
    var s := InWindow(recorded, w);
    if s != {} {
      var first := FirstOf(s);
      assert first + limit < |recorded| ==> recorded[first + limit] - recorded[first] >= WINDOW;
      IntervalSet(s, first, limit);
    }
  }

  lemma {:induction false} FirstOf(s: set<nat>) returns (x: nat)
    requires s != {}
    ensures x in s && forall y :: y in s ==> x <= y
    decreases |s|
  {
    var a :| a in s;
    var rest := s - {a};
    assert s == rest + {a};
    if rest == {} {
      x := a;
    } else {
      var b := FirstOf(rest);
      x := if b < a then b else a;
    }
  }

  /** Sliding window bound: with a fixed positive limit, over every run of requests with separate clock
      readings for check and record, every half-open window of one second holds at most the limit of
      recorded requests, and no more than the limit are ever stored. */
  lemma SlidingWindowBound(limit: u32, run: seq<Attempt>, w: int)
    requires limit > 0 && Clocked(run)
    ensures |InWindow(Recorded(limit, run), w)| <= limit && |Stored(limit, run)| <= limit
  {
    var now := if run == [] then 0 else run[|run| - 1].recordedAt;
    var k := RunKeeps(limit, run, now);
    WindowBound(limit, Recorded(limit, run), w);
  }

  // ---------- No limit ----------

  /** With a limit of 0 every request is allowed and recorded, and nothing is ever forgotten. */
  lemma {:induction false} UnlimitedRecordsAll(run: seq<Attempt>)
    ensures Stored(0, run) == Recorded(0, run) == seq(|run|, i requires 0 <= i < |run| => run[i].recordedAt)
  {
    if run != [] {
      UnlimitedRecordsAll(run[..|run| - 1]);
    }
  }

  // ---------- Closed windows ----------

  /** Which recorded requests fall into the closed second that starts at `w`. */
  function InClosed(recorded: seq<int>, w: int): set<nat> {
    set i: nat | i < |recorded| && w <= recorded[i] <= w + WINDOW
  }

  /** A closed second holds at most twice the limit: the two half-open ones that cover it do. */
  lemma ClosedWindowBound(limit: u32, run: seq<Attempt>, w: int)
    requires limit > 0 && Clocked(run)
    ensures |InClosed(Recorded(limit, run), w)| <= 2 * limit
  {
    hide Recorded;
    var recorded := Recorded(limit, run);
    SlidingWindowBound(limit, run, w);
    SlidingWindowBound(limit, run, w + WINDOW);
    var first, second := InWindow(recorded, w), InWindow(recorded, w + WINDOW);
    assert InClosed(recorded, w) <= first + second;
    SubsetSize(InClosed(recorded, w), first + second);
  }

  lemma ClosedCount(limit: nat, recorded: seq<int>, w: int)
    requires limit > 0 && Sorted(recorded) && Spaced(limit, recorded)
    ensures |InClosed(recorded, w)| <= limit <==>
            forall i: nat :: i + limit < |recorded| && recorded[i] == w ==> recorded[i + limit] != w + WINDOW
  {
    var s := InClosed(recorded, w);
    if i: nat :| i + limit < |recorded| && recorded[i] == w && recorded[i + limit] == w + WINDOW {
      IntervalWithin(s, i, limit + 1);
    } else if s != {} {
      var first := FirstOf(s);
      assert first + limit < |recorded| ==> recorded[first + limit] - recorded[first] >= WINDOW;
      IntervalSet(s, first, limit);
    }
  }

  /** It holds at most the limit exactly when no request recorded at its start is followed, limit
      requests later, by one recorded at its end. */
  lemma ClosedWindowHoldsLimitIff(limit: u32, run: seq<Attempt>, w: int)
    requires limit > 0 && Clocked(run)
    ensures var recorded := Recorded(limit, run);
            |InClosed(recorded, w)| <= limit <==>
            forall i: nat :: i + limit < |recorded| && recorded[i] == w ==> recorded[i + limit] != w + WINDOW
  {
    hide Recorded;
    var now := if run == [] then 0 else run[|run| - 1].recordedAt;
    var k := RunKeeps(limit, run, now);
    ClosedCount(limit, Recorded(limit, run), w);
  }

  function Times(k: nat, t: int): seq<int> {
    seq(k, _ => t)
  }

  /** `a` requests at time 0 and then `b` requests one second later. */
  function Bursts(a: nat, b: nat): seq<Attempt> {
    seq(a, _ => Attempt(0, 0)) + seq(b, _ => Attempt(WINDOW, WINDOW))
  }

  lemma {:induction false} RecentTimes(k: nat, t: int, now: int)
    ensures Recent(Times(k, t), now) == if t > now - WINDOW then Times(k, t) else []
  {
    if k > 0 {
      assert Times(k, t)[1..] == Times(k - 1, t);
      assert Times(k, t) == [t] + Times(k - 1, t);
      RecentTimes(k - 1, t, now);
    }
  }

  lemma RunNext(limit: u32, run: seq<Attempt>, a: Attempt)
    ensures Stored(limit, run + [a]) == Request(Stored(limit, run), limit, a).0
    ensures Recorded(limit, run + [a]) ==
            Recorded(limit, run) + (if Request(Stored(limit, run), limit, a).1 then [a.recordedAt] else [])
  {
    hide Request;
    assert (run + [a])[..|run|] == run;
  }

  lemma EarlyRequest(limit: u32, a: nat)
    requires a < limit
    ensures Request(Times(a, 0), limit, Attempt(0, 0)) == (Times(a + 1, 0), true)
  {
    hide Recent;
    RecentTimes(a, 0, 0);
    assert Times(a + 1, 0) == Times(a, 0) + [0];
  }

  lemma {:induction false} FirstBurst(limit: u32, a: nat)
    requires a <= limit
    ensures Stored(limit, Bursts(a, 0)) == Recorded(limit, Bursts(a, 0)) == Times(a, 0)
  {
    if a > 0 {
      assert Bursts(a, 0) == Bursts(a - 1, 0) + [Attempt(0, 0)];
      assert Times(a, 0) == Times(a - 1, 0) + [0];
      hide Request, Times, Bursts;
      FirstBurst(limit, a - 1);
      RunNext(limit, Bursts(a - 1, 0), Attempt(0, 0));
      EarlyRequest(limit, a - 1);
    }
  }

  /** A request one second after a full burst, when `b` others at that moment went before it. */
  lemma LateRequest(limit: u32, b: nat)
    requires b < limit
    ensures Request(if b == 0 then Times(limit, 0) else Times(b, WINDOW), limit, Attempt(WINDOW, WINDOW))
            == (Times(b + 1, WINDOW), true)
  {
    hide Recent;
    RecentTimes(limit, 0, WINDOW);
    RecentTimes(b, WINDOW, WINDOW);
    assert Times(b + 1, WINDOW) == Times(b, WINDOW) + [WINDOW];
  }

  lemma BurstsNext(a: nat, b: nat)
    ensures Bursts(a, b + 1) == Bursts(a, b) + [Attempt(WINDOW, WINDOW)]
    ensures Times(a, 0) + Times(b + 1, WINDOW) == Times(a, 0) + Times(b, WINDOW) + [WINDOW]
    ensures Times(a, 0) + Times(0, WINDOW) == Times(a, 0)
  {
  }

  lemma {:induction false} SecondBurst(limit: u32, b: nat)
    requires b <= limit
    ensures Stored(limit, Bursts(limit, b)) == if b == 0 then Times(limit, 0) else Times(b, WINDOW)
    ensures Recorded(limit, Bursts(limit, b)) == Times(limit, 0) + Times(b, WINDOW)
  {
    hide Stored, Recorded, Request, Times, Bursts;
    BurstsNext(limit, 0);
    if b == 0 {
      FirstBurst(limit, limit);
    } else {
      SecondBurst(limit, b - 1);
      BurstsNext(limit, b - 1);
      RunNext(limit, Bursts(limit, b - 1), Attempt(WINDOW, WINDOW));
      LateRequest(limit, b - 1);
    }
  }

  /** Twice the limit is reached, whatever the limit: by that many requests at each end. */
  lemma ClosedWindowBoundReached(limit: u32)
    requires limit > 0
    ensures Clocked(Bursts(limit, limit)) && |InClosed(Recorded(limit, Bursts(limit, limit)), 0)| == 2 * limit
  {
    SecondBurst(limit, limit);
    var recorded := Times(limit, 0) + Times(limit, WINDOW);
    hide Recorded, Bursts;
    assert forall i: nat :: i < 2 * limit ==> 0 <= recorded[i] <= WINDOW;
    IntervalWithin(InClosed(recorded, 0), 0, 2 * limit);
    IntervalSet(InClosed(recorded, 0), 0, 2 * limit);
  }

  // ---------- The quota manager ----------

  type Usage = map<string, seq<int>>

  function TimesOf(usage: Usage, tenant: string): seq<int> {
    if tenant in usage then usage[tenant] else []
  }

  function QuotaOf(quotas: map<string, TenantQuota>, fallback: TenantQuota, tenant: string): TenantQuota {
    if tenant in quotas then quotas[tenant] else fallback
  }

  /** A tenant's request: disabled tenants leave no trace, others get an entry on their first request. */
  function ManagerStep(quotas: map<string, TenantQuota>, fallback: TenantQuota, usage: Usage, tenant: string, a: Attempt)
    : (Usage, CheckResult)
  {
    var quota := QuotaOf(quotas, fallback, tenant);
    if !quota.enabled then (usage, TenantDisabled)
    else
      var (times, ok) := Request(TimesOf(usage, tenant), quota.rateLimit, a);
      (usage[tenant := times], if ok then Allowed else RateLimitExceeded(quota.rateLimit, WINDOW_SECS))
  }

  class QuotaManager {
    var quotas: map<string, TenantQuota>
    var usage: map<string, TenantUsage>
    var defaultQuota: TenantQuota

    /** Every tenant has usage of its own. */
    ghost predicate Valid()
      reads this, usage.Values
    {
      forall a, b :: a in usage && b in usage && a != b ==> usage[a] != usage[b]
    }

    ghost function View(): Usage
      reads this, usage.Values
    {
      map tenant | tenant in usage :: usage[tenant].requestTimes
    }

    constructor (defaultQuota: TenantQuota)
      ensures Valid() && quotas == map[] && View() == map[] && this.defaultQuota == defaultQuota
    {
      quotas, usage, this.defaultQuota := map[], map[], defaultQuota;
    }

    method SetQuota(tenant: string, quota: TenantQuota)
      modifies this
      ensures quotas == old(quotas)[tenant := quota] && usage == old(usage) && defaultQuota == old(defaultQuota)
    {
      quotas := quotas[tenant := quota];
    }

    /** The tenant's usage, a new one if there is none. */
    method UsageFor(tenant: string) returns (tenantUsage: TenantUsage)
      requires Valid()
      modifies this`usage
      ensures Valid() && tenant in usage && usage[tenant] == tenantUsage && fresh(usage.Values - old(usage.Values))
      ensures View() == old(View())[tenant := TimesOf(old(View()), tenant)]
    {
      if tenant !in usage {
        var blank := new TenantUsage();
        usage := usage[tenant := blank];
      }
      tenantUsage := usage[tenant];
    }

    method RequestFor(tenant: string, quota: TenantQuota, a: Attempt) returns (ok: bool)
      requires Valid() && tenant in usage
      modifies usage[tenant]
      ensures Valid() && (View()[tenant], ok) == Request(old(View()[tenant]), quota.rateLimit, a)
      ensures View() == old(View())[tenant := View()[tenant]]
    {
      hide CheckRate;
      ok := usage[tenant].CheckRateAt(quota, a.checkedAt);
      if ok {
        usage[tenant].RecordRequest(a.recordedAt);
      }
    }

    method CheckAndRecordRequest(tenant: string, a: Attempt) returns (r: CheckResult)
      requires Valid()
      modifies this, usage.Values
      ensures Valid() && fresh(usage.Values - old(usage.Values))
      ensures (View(), r) == ManagerStep(quotas, defaultQuota, old(View()), tenant, a)
      ensures quotas == old(quotas) && defaultQuota == old(defaultQuota)
    {
      hide Request;
      var quota := if tenant in quotas then quotas[tenant] else defaultQuota;
      if !quota.enabled {
        return TenantDisabled;
      }
      var tenantUsage := UsageFor(tenant);
      var ok := RequestFor(tenant, quota, a);
      assert View() == old(View())[tenant := tenantUsage.requestTimes];
      return if ok then Allowed else RateLimitExceeded(quota.rateLimit, WINDOW_SECS);
    }
  }

  /** Requests of any tenants, in the order in which they are served. */
  type Traffic = seq<(string, Attempt)>

  function UsageAfter(quotas: map<string, TenantQuota>, fallback: TenantQuota, traffic: Traffic): Usage {
    if traffic == [] then map[]
    else
      var (tenant, a) := traffic[|traffic| - 1];
      ManagerStep(quotas, fallback, UsageAfter(quotas, fallback, traffic[..|traffic| - 1]), tenant, a).0
  }

  /** The times at which requests of a tenant were allowed. */
  function AllowedTimes(quotas: map<string, TenantQuota>, fallback: TenantQuota, traffic: Traffic, tenant: string): seq<int> {
    if traffic == [] then []
    else
      var before := traffic[..|traffic| - 1];
      var (t, a) := traffic[|traffic| - 1];
      var earlier := AllowedTimes(quotas, fallback, before, tenant);
      if t == tenant && ManagerStep(quotas, fallback, UsageAfter(quotas, fallback, before), t, a).1 == Allowed
      then earlier + [a.recordedAt] else earlier
  }

  function OfTenant(traffic: Traffic, tenant: string): seq<Attempt> {
    if traffic == [] then []
    else
      var earlier := OfTenant(traffic[..|traffic| - 1], tenant);
      if traffic[|traffic| - 1].0 == tenant then earlier + [traffic[|traffic| - 1].1] else earlier
  }

  /** Tenants do not affect each other: each sees a run of its own requests alone. */
  lemma {:induction false} TenantsAreSeparate(quotas: map<string, TenantQuota>, fallback: TenantQuota, traffic: Traffic, tenant: string)
    requires QuotaOf(quotas, fallback, tenant).enabled
    ensures var limit := QuotaOf(quotas, fallback, tenant).rateLimit;
            var run := OfTenant(traffic, tenant);
            && TimesOf(UsageAfter(quotas, fallback, traffic), tenant) == Stored(limit, run)
            && AllowedTimes(quotas, fallback, traffic, tenant) == Recorded(limit, run)
  {
    hide Request;
    if traffic != [] {
      var before := traffic[..|traffic| - 1];
      TenantsAreSeparate(quotas, fallback, before, tenant);
      var run := OfTenant(traffic, tenant);
      if traffic[|traffic| - 1].0 == tenant {
        assert run[..|run| - 1] == OfTenant(before, tenant);
      }
    }
  }

  ghost predicate TrafficClocked(traffic: Traffic) {
    && (forall i :: 0 <= i < |traffic| ==> traffic[i].1.checkedAt <= traffic[i].1.recordedAt)
    && (forall i, j :: 0 <= i < j < |traffic| ==> traffic[i].1.recordedAt <= traffic[j].1.checkedAt)
  }

  lemma {:induction false} OfTenantClocked(traffic: Traffic, tenant: string, now: int)
    requires TrafficClocked(traffic) && forall i :: 0 <= i < |traffic| ==> traffic[i].1.recordedAt <= now
    ensures Clocked(OfTenant(traffic, tenant))
    ensures forall i :: 0 <= i < |OfTenant(traffic, tenant)| ==> OfTenant(traffic, tenant)[i].recordedAt <= now
  {
    if traffic != [] {
      OfTenantClocked(traffic[..|traffic| - 1], tenant, traffic[|traffic| - 1].1.checkedAt);
    }
  }

  /** The bound for every tenant of the manager, whatever the other tenants do. */
  lemma TenantWindowBound(quotas: map<string, TenantQuota>, fallback: TenantQuota, traffic: Traffic, tenant: string, w: int)
    requires TrafficClocked(traffic)
    requires QuotaOf(quotas, fallback, tenant).enabled && QuotaOf(quotas, fallback, tenant).rateLimit > 0
    ensures var limit := QuotaOf(quotas, fallback, tenant).rateLimit;
            && |InWindow(AllowedTimes(quotas, fallback, traffic, tenant), w)| <= limit
            && |TimesOf(UsageAfter(quotas, fallback, traffic), tenant)| <= limit
  {
    TenantsAreSeparate(quotas, fallback, traffic, tenant);
    OfTenantClocked(traffic, tenant, if traffic == [] then 0 else traffic[|traffic| - 1].1.recordedAt);
    SlidingWindowBound(QuotaOf(quotas, fallback, tenant).rateLimit, OfTenant(traffic, tenant), w);
  }

  /** What a tenant is told: disabled ones that they are; others, if refused, their limit and the window
      of one second; and unlimited ones are always allowed. */
  lemma RepliesFollowQuota(quotas: map<string, TenantQuota>, fallback: TenantQuota, usage: Usage, tenant: string, a: Attempt)
    ensures var quota := if tenant in quotas then quotas[tenant] else fallback;
            var (after, r) := ManagerStep(quotas, fallback, usage, tenant, a);
            && (r == TenantDisabled <==> !quota.enabled) && (!quota.enabled ==> after == usage)
            && (r.RateLimitExceeded? ==> r == RateLimitExceeded(quota.rateLimit, 1) && quota.rateLimit > 0)
            && (quota.enabled && quota.rateLimit == 0 ==> r == Allowed)
            && forall other :: other != tenant ==> TimesOf(after, other) == TimesOf(usage, other)
  {
    hide Recent;
  }

  /** No request of a disabled tenant is ever allowed or recorded. */
  lemma {:induction false} DisabledNeverAllowed(quotas: map<string, TenantQuota>, fallback: TenantQuota, traffic: Traffic, tenant: string)
    requires !QuotaOf(quotas, fallback, tenant).enabled
    ensures AllowedTimes(quotas, fallback, traffic, tenant) == []
    ensures tenant !in UsageAfter(quotas, fallback, traffic)
  {
    hide Request;
    if traffic != [] {
      DisabledNeverAllowed(quotas, fallback, traffic[..|traffic| - 1], tenant);
    }
  }

  /** Every request of an unlimited tenant is allowed. */
  lemma UnlimitedAlwaysAllowed(quotas: map<string, TenantQuota>, fallback: TenantQuota, traffic: Traffic, tenant: string)
    requires QuotaOf(quotas, fallback, tenant).enabled && QuotaOf(quotas, fallback, tenant).rateLimit == 0
    ensures var run := OfTenant(traffic, tenant);
            AllowedTimes(quotas, fallback, traffic, tenant) == seq(|run|, i requires 0 <= i < |run| => run[i].recordedAt)
  {
    TenantsAreSeparate(quotas, fallback, traffic, tenant);
    UnlimitedRecordsAll(OfTenant(traffic, tenant));
  }
}
