/** The fixed-window rate limiter: one counter per policy, identity and window. */
module RateLimit {
  import opened Wrappers

  // ----- Policies and requests

  datatype Override = Override(name: string, limit: int, windowSeconds: nat)

  datatype Policy = Policy(
    perUser: bool, name: string, limit: int, windowSeconds: nat, onlyMultipart: bool, modeOverrides: map<string, Override>)

  /** `effectivePolicy`: the override for the body's mode, if there is one, replaces name, limit and window. */
  function EffectivePolicy(p: Policy, mode: Option<string>): Policy {
    if mode.Some? && mode.value != "" && mode.value in p.modeOverrides then
      var o := p.modeOverrides[mode.value];
      p.(name := o.name, limit := o.limit, windowSeconds := o.windowSeconds)
    else p
  }

  datatype Identity = User(id: string) | Address(ip: string)

  datatype Backend = Local | Redis | LocalRefused | RedisFailed

  /** A request: the clock is read once for the window (`readAt`) and once more by the counter (`countedAt`). */
  datatype Request = Request(
    mode: Option<string>, multipart: bool, userId: Option<string>, ip: string, readAt: int, countedAt: int, backend: Backend)

  datatype Outcome = Admitted | TooMany | Unauthorized | Unavailable

  datatype Key = Key(policy: string, identity: Identity, bucket: int)

  datatype Counter = Counter(count: nat, expiresAt: int)

  type Counters = map<Key, Counter>

  predicate Expired(counters: Counters, key: Key, now: int) {
    key in counters && counters[key].expiresAt <= now
  }

  function Hit(counters: Counters, key: Key, now: int, ttl: int): Counters {
    counters[key := if key !in counters || Expired(counters, key, now) then Counter(1, now + ttl)
                    else counters[key].(count := counters[key].count + 1)]
  }

  function WindowMs(p: Policy): int { p.windowSeconds * 1000 }

  /** How long a counter lives: Redis keeps it one second longer than the window. */
  function TimeToLive(p: Policy, backend: Backend): int {
    if backend == Redis then WindowMs(p) + 1000 else WindowMs(p)
  }

  /** The policy that applies: the override of a mode that is given and has one sets name, limit and window; the rest stays. */
  lemma EffectiveTold(p: Policy, mode: Option<string>)
    ensures var e := EffectivePolicy(p, mode);
            && e.perUser == p.perUser && e.onlyMultipart == p.onlyMultipart
            && (mode.Some? && mode.value != "" && mode.value in p.modeOverrides ==>
                var o := p.modeOverrides[mode.value]; e.name == o.name && e.limit == o.limit && e.windowSeconds == o.windowSeconds)
            && (mode.None? || mode.value == "" || mode.value !in p.modeOverrides ==> e == p)
  {
  }

  /** One counter moves: a living one is raised by one and keeps its end, an absent or expired one starts at one. */
  ghost predicate CountedOnce(before: Counters, after: Counters, key: Key, now: int, ttl: int) {
    && after.Keys == before.Keys + {key}
    && (forall k <- before :: k != key ==> after[k] == before[k])
    && after[key] == if key in before && now < before[key].expiresAt then Counter(before[key].count + 1, before[key].expiresAt)
                     else Counter(1, now + ttl)
  }

  lemma HitCountsOnce(counters: Counters, key: Key, now: int, ttl: int)
    ensures CountedOnce(counters, Hit(counters, key, now, ttl), key, now, ttl)
  {
  }

  class AbuseRateLimitGuard {
    /** The counters in this process and those in Redis. */
    var localUsage: Counters
    var redisUsage: Counters

    constructor ()
      ensures localUsage == map[] && redisUsage == map[]
    {
      localUsage, redisUsage := map[], map[];
    }

    method AssertLocalAllowed(key: Key, p: Policy, now: int) returns (ok: bool)
      modifies this`localUsage
      ensures localUsage == Hit(old(localUsage), key, now, WindowMs(p))
      ensures ok <==> localUsage[key].count <= p.limit
    {
      var usage := if key !in localUsage || localUsage[key].expiresAt <= now then Counter(1, now + WindowMs(p))
                   else localUsage[key].(count := localUsage[key].count + 1);
      localUsage := localUsage[key := usage];
      ok := usage.count <= p.limit;
    }

    /** `INCR`, then `EXPIRE` when the key is new; an expired key is gone. */
    method CountInRedis(key: Key, p: Policy, now: int) returns (current: nat)
      requires forall k <- redisUsage :: redisUsage[k].count > 0
      modifies this`redisUsage
      ensures forall k <- redisUsage :: redisUsage[k].count > 0
      ensures redisUsage == Hit(old(redisUsage), key, now, TimeToLive(p, Redis))
      ensures current == redisUsage[key].count
    {
      if key in redisUsage && redisUsage[key].expiresAt <= now {
        redisUsage := redisUsage - {key};
      }
      current := if key in redisUsage then redisUsage[key].count + 1 else 1;
      redisUsage := redisUsage[key := Counter(current, if current == 1 then now + (p.windowSeconds + 1) * 1000 else redisUsage[key].expiresAt)];
    }

    method CanActivate(policy: Option<Policy>, r: Request) returns (outcome: Outcome)
      requires policy.Some? ==> EffectivePolicy(policy.value, r.mode).windowSeconds > 0
      requires forall k <- redisUsage :: redisUsage[k].count > 0
      modifies this
      ensures forall k <- redisUsage :: redisUsage[k].count > 0
      ensures policy.None? ==> outcome == Admitted && unchanged(this)
      ensures policy.Some? ==>
        var p := EffectivePolicy(policy.value, r.mode);
        var key := Key(p.name, if p.perUser && r.userId.Some? then User(r.userId.value) else Address(r.ip), r.readAt / (p.windowSeconds * 1000));
        if p.onlyMultipart && !r.multipart then outcome == Admitted && unchanged(this)
        else if p.perUser && (r.userId.None? || r.userId.value == "") then outcome == Unauthorized && unchanged(this)
        else match r.backend
          case LocalRefused => outcome == Unavailable && unchanged(this)
          case RedisFailed => outcome == Unavailable && unchanged(this)
          case Local => && localUsage == Hit(old(localUsage), key, r.countedAt, TimeToLive(p, Local)) && redisUsage == old(redisUsage)
                        && CountedOnce(old(localUsage), localUsage, key, r.countedAt, p.windowSeconds * 1000)
                        && outcome == if localUsage[key].count <= p.limit then Admitted else TooMany
          case Redis => && redisUsage == Hit(old(redisUsage), key, r.countedAt, TimeToLive(p, Redis)) && localUsage == old(localUsage)
                        && CountedOnce(old(redisUsage), redisUsage, key, r.countedAt, (p.windowSeconds + 1) * 1000)
                        && outcome == if redisUsage[key].count <= p.limit then Admitted else TooMany
    {
      if policy.None? {
        return Admitted;
      }
      var p := EffectivePolicy(policy.value, r.mode);
      if p.onlyMultipart && !r.multipart {
        return Admitted;
      }
      var identity;
      if p.perUser {
        if r.userId.None? || r.userId.value == "" {
          return Unauthorized;
        }
        identity := User(r.userId.value);
      } else {
        identity := Address(r.ip);
      }
      var key := Key(p.name, identity, r.readAt / WindowMs(p));
      match r.backend {
        case LocalRefused => outcome := Unavailable;
        case RedisFailed => outcome := Unavailable;
        case Local =>
          HitCountsOnce(localUsage, key, r.countedAt, WindowMs(p));
          var ok := AssertLocalAllowed(key, p, r.countedAt);
          outcome := if ok then Admitted else TooMany;
        case Redis =>
          HitCountsOnce(redisUsage, key, r.countedAt, TimeToLive(p, Redis));
          var current := CountInRedis(key, p, r.countedAt);
          outcome := if current <= p.limit then Admitted else TooMany;
      }
    }
  }

  // ----- Runs of counted requests

  /** A request that reached a counter. */
  datatype Event = Event(key: Key, readAt: int, countedAt: int)

  /** The counters after these requests, for counters that live `ttl` milliseconds. */
  function CountersAfter(events: seq<Event>, ttl: int): Counters {
    if events == [] then map[]
    else
      var last := events[|events| - 1];
      Hit(CountersAfter(events[..|events| - 1], ttl), last.key, last.countedAt, ttl)
  }

  /** The count that the last of these requests is told. */
  function CountOfLast(events: seq<Event>, ttl: int): nat
    requires events != []
  {
    CountersAfter(events, ttl)[events[|events| - 1].key].count
  }

  function Requests(events: seq<Event>, key: Key): nat {
    if events == [] then 0
    else Requests(events[..|events| - 1], key) + if events[|events| - 1].key == key then 1 else 0
  }

  function AdmittedFor(events: seq<Event>, key: Key, ttl: int, limit: nat): nat {
    if events == [] then 0
    else AdmittedFor(events[..|events| - 1], key, ttl, limit)
         + if events[|events| - 1].key == key && CountOfLast(events, ttl) <= limit then 1 else 0
  }

  /** No request for the key finds the key's counter expired. */
  ghost predicate NeverExpired(events: seq<Event>, key: Key, ttl: int) {
    events != [] ==>
      && NeverExpired(events[..|events| - 1], key, ttl)
      && (events[|events| - 1].key == key ==> !Expired(CountersAfter(events[..|events| - 1], ttl), key, events[|events| - 1].countedAt))
  }

  /** Every request for the key is told how many there have been. */
  ghost predicate CountsExact(events: seq<Event>, key: Key, ttl: int) {
    events != [] ==>
      && CountsExact(events[..|events| - 1], key, ttl)
      && (events[|events| - 1].key == key ==> CountOfLast(events, ttl) == Requests(events, key))
  }

  lemma {:induction false} CounterPresent(events: seq<Event>, key: Key, ttl: int)
    ensures key in CountersAfter(events, ttl) <==> Requests(events, key) > 0
  {
    if events != [] {
      CounterPresent(events[..|events| - 1], key, ttl);
    }
  }

  lemma {:induction false} CounterExact(events: seq<Event>, key: Key, ttl: int)
    requires NeverExpired(events, key, ttl)
    ensures key in CountersAfter(events, ttl) ==> CountersAfter(events, ttl)[key].count == Requests(events, key)
    ensures CountsExact(events, key, ttl)
  {
    if events != [] {
      CounterExact(events[..|events| - 1], key, ttl);
      CounterPresent(events[..|events| - 1], key, ttl);
    }
  }

  /** The counts are exact if and only if no request finds its counter expired. */
  lemma {:induction false} CountsExactIff(events: seq<Event>, key: Key, ttl: int)
    ensures CountsExact(events, key, ttl) <==> NeverExpired(events, key, ttl)
  {
    if events != [] {
      CountsExactIff(events[..|events| - 1], key, ttl);
      CounterPresent(events[..|events| - 1], key, ttl);
      if NeverExpired(events, key, ttl) {
        CounterExact(events, key, ttl);
      }
    }
  }

  /** With exact counts a window admits exactly min(limit, requests). */
  lemma {:induction false} AdmitsExactly(events: seq<Event>, key: Key, ttl: int, limit: nat)
    requires CountsExact(events, key, ttl)
    ensures AdmittedFor(events, key, ttl, limit) == if Requests(events, key) <= limit then Requests(events, key) else limit
  {
    hide CountOfLast;
    if events != [] {
      AdmitsExactly(events[..|events| - 1], key, ttl, limit);
    }
  }

  /** When the first request for the key was counted. */
  function FirstCounted(events: seq<Event>, key: Key): Option<int> {
    if events == [] then None
    else if events[0].key == key then Some(events[0].countedAt)
    else FirstCounted(events[1..], key)
  }

  /** Every request for the key is counted within one lifetime of the first of them. */
  predicate WithinFirstLife(events: seq<Event>, key: Key, ttl: int) {
    var first := FirstCounted(events, key);
    forall e <- events :: e.key == key ==> first.Some? && e.countedAt < first.value + ttl
  }

  lemma {:induction false} FirstCountedSnoc(events: seq<Event>, e: Event, key: Key)
    ensures FirstCounted(events + [e], key) ==
            if FirstCounted(events, key).Some? then FirstCounted(events, key) else if e.key == key then Some(e.countedAt) else None
    ensures FirstCounted(events, key).None? <==> forall x <- events :: x.key != key
  {
    if events == [] {
      assert [e][1..] == [];
    } else {
      assert (events + [e])[1..] == events[1..] + [e];
      FirstCountedSnoc(events[1..], e, key);
      assert forall x :: x in events <==> x == events[0] || x in events[1..];
    }
  }

  lemma WithinSnoc(events: seq<Event>, e: Event, key: Key, ttl: int)
    requires ttl > 0
    ensures WithinFirstLife(events + [e], key, ttl) <==>
            && WithinFirstLife(events, key, ttl)
            && (e.key == key && FirstCounted(events, key).Some? ==> e.countedAt < FirstCounted(events, key).value + ttl)
  {
    FirstCountedSnoc(events, e, key);
    hide FirstCounted;
    assert forall x :: x in events + [e] <==> x in events || x == e;
  }

  /** While no request finds the counter expired, it expires one lifetime after the first request; and none does
    exactly when all are counted within that lifetime. */
  lemma {:induction false} NeverExpiredIff(events: seq<Event>, key: Key, ttl: int)
    requires ttl > 0
    ensures NeverExpired(events, key, ttl) <==> WithinFirstLife(events, key, ttl)
    ensures key in CountersAfter(events, ttl) <==> FirstCounted(events, key).Some?
    ensures NeverExpired(events, key, ttl) && key in CountersAfter(events, ttl) ==>
              CountersAfter(events, ttl)[key].expiresAt == FirstCounted(events, key).value + ttl
  {
    if events != [] {
      var n := |events| - 1;
      assert events == events[..n] + [events[n]];
      NeverExpiredIff(events[..n], key, ttl);
      WithinSnoc(events[..n], events[n], key, ttl);
      FirstCountedSnoc(events[..n], events[n], key);
      hide FirstCounted, WithinFirstLife;
    }
  }

  function Least(a: nat, b: nat): nat { if a <= b then a else b }

  /** The count now, and what the earlier lives of the counter have admitted besides. */
  lemma {:induction false} AdmittedByLives(events: seq<Event>, key: Key, ttl: int, limit: nat)
    ensures var count := if key in CountersAfter(events, ttl) then CountersAfter(events, ttl)[key].count else 0;
            && count <= Requests(events, key) && (Requests(events, key) > 0 ==> count > 0)
            && Least(limit, Requests(events, key) - count) + Least(limit, count) <= AdmittedFor(events, key, ttl, limit)
            && AdmittedFor(events, key, ttl, limit) <= Requests(events, key)
            && (NeverExpired(events, key, ttl) <==> count == Requests(events, key))
            && (Requests(events, key) <= limit ==> AdmittedFor(events, key, ttl, limit) == Requests(events, key))
            && (limit == 0 ==> AdmittedFor(events, key, ttl, limit) == 0)
  {
    if events != [] {
      AdmittedByLives(events[..|events| - 1], key, ttl, limit);
      CounterPresent(events[..|events| - 1], key, ttl);
    }
  }

  /** For each limit, a window admits exactly the smaller of the limit and the number of requests exactly when the limit
    is 0, the requests are within it, or all of them are counted within one lifetime of the first. */
  lemma AdmitsExactlyIff(events: seq<Event>, key: Key, ttl: int, limit: nat)
    requires ttl > 0
    ensures AdmittedFor(events, key, ttl, limit) == Least(limit, Requests(events, key))
       <==> limit == 0 || Requests(events, key) <= limit || WithinFirstLife(events, key, ttl)
    ensures AdmittedFor(events, key, ttl, limit) >= Least(limit, Requests(events, key))
  {
    NeverExpiredIff(events, key, ttl);
    CountsExactIff(events, key, ttl);
    AdmittedByLives(events, key, ttl, limit);
    hide AdmittedFor, Requests, NeverExpired, WithinFirstLife, CountersAfter;
    if CountsExact(events, key, ttl) {
      AdmitsExactly(events, key, ttl, limit);
    }
  }

  /** The counter was read while it must still be alive: inside the key's window, or within the
      extra time that `ttl` adds to the window. */
  predicate OnTime(e: Event, windowMs: int, ttl: int) {
    e.key.bucket * windowMs <= e.countedAt < e.key.bucket * windowMs + ttl
  }

  lemma {:induction false} OnTimeCounter(events: seq<Event>, key: Key, windowMs: int, ttl: int)
    requires forall e <- events :: e.key == key ==> OnTime(e, windowMs, ttl)
    ensures key in CountersAfter(events, ttl) ==> key.bucket * windowMs + ttl <= CountersAfter(events, ttl)[key].expiresAt
    ensures NeverExpired(events, key, ttl)
  {
    if events != [] {
      OnTimeCounter(events[..|events| - 1], key, windowMs, ttl);
      assert events[|events| - 1] in events;
    }
  }

  /** While both clock readings fall in the same window, each window admits exactly min(limit, requests). */
  lemma WindowAdmits(events: seq<Event>, key: Key, windowMs: int, ttl: int, limit: nat)
    requires forall e <- events :: e.key == key ==> OnTime(e, windowMs, ttl)
    ensures AdmittedFor(events, key, ttl, limit) == if Requests(events, key) <= limit then Requests(events, key) else limit
  {
    OnTimeCounter(events, key, windowMs, ttl);
    CountsExactIff(events, key, ttl);
    AdmitsExactly(events, key, ttl, limit);
  }

  /** A request that reads the window before its end and the counter at its end finds the counter expired. */
  lemma StraddlingReadAdmitsMore(policy: string, identity: Identity)
    ensures var key := Key(policy, identity, 0);
            var events := [Event(key, 0, 0), Event(key, 999, 1000)];
            && (forall e <- events :: e.readAt / 1000 == key.bucket && e.readAt <= e.countedAt)
            && Requests(events, key) == 2 && AdmittedFor(events, key, 1000, 1) == 2
  {
    var key := Key(policy, identity, 0);
    var first, second := Event(key, 0, 0), Event(key, 999, 1000);
    var events := [first, second];
    assert events[..1] == [first] && [first][..0] == [];
    assert CountersAfter([first], 1000) == map[key := Counter(1, 1000)];
    assert CountersAfter(events, 1000)[key] == Counter(1, 2000);
    assert Requests([first], key) == 1;
    assert AdmittedFor([first], key, 1000, 1) == 1;
  }

  // ----- A sliding interval

  predicate OfIdentity(e: Event, policy: string, identity: Identity) {
    e.key.policy == policy && e.key.identity == identity
  }

  /** The requests of one policy and identity admitted while the clock read [from, to). */
  function AdmittedBetween(events: seq<Event>, policy: string, identity: Identity, from: int, to: int, ttl: int, limit: nat): nat {
    if events == [] then 0
    else
      var last := events[|events| - 1];
      AdmittedBetween(events[..|events| - 1], policy, identity, from, to, ttl, limit)
      + if last.key.policy == policy && last.key.identity == identity && from <= last.readAt < to && CountOfLast(events, ttl) <= limit then 1 else 0
  }

  function AdmittedInBuckets(events: seq<Event>, policy: string, identity: Identity, lo: int, n: nat, ttl: int, limit: nat): nat {
    if n == 0 then 0
    else AdmittedInBuckets(events, policy, identity, lo, n - 1, ttl, limit)
         + AdmittedFor(events, Key(policy, identity, lo + n - 1), ttl, limit)
  }

  lemma {:induction false} BucketsGrow(events: seq<Event>, policy: string, identity: Identity, lo: int, n: nat, ttl: int, limit: nat)
    requires events != []
    ensures var last := events[|events| - 1];
            AdmittedInBuckets(events[..|events| - 1], policy, identity, lo, n, ttl, limit)
            + (if last.key.policy == policy && last.key.identity == identity && lo <= last.key.bucket < lo + n && CountOfLast(events, ttl) <= limit then 1 else 0)
            == AdmittedInBuckets(events, policy, identity, lo, n, ttl, limit)
    decreases n
  {
    hide CountOfLast;
    if n > 0 {
      BucketsGrow(events, policy, identity, lo, n - 1, ttl, limit);
    }
  }

  lemma {:induction false} NoneInBuckets(policy: string, identity: Identity, lo: int, n: nat, ttl: int, limit: nat)
    ensures AdmittedInBuckets([], policy, identity, lo, n, ttl, limit) == 0
  {
    if n > 0 {
      NoneInBuckets(policy, identity, lo, n - 1, ttl, limit);
    }
  }

  lemma BucketRange(t: int, from: int, k: nat, windowMs: int)
    requires windowMs > 0 && from <= t < from + k * windowMs
    ensures from / windowMs <= t / windowMs <= from / windowMs + k
  {
    var q, b := from / windowMs, t / windowMs;
    assert from == q * windowMs + from % windowMs && t == b * windowMs + t % windowMs;
    Scale(b + 1, q, windowMs);
    Scale(q + k + 1, b, windowMs);
    assert (q + k + 1) * windowMs == q * windowMs + k * windowMs + windowMs;
    assert (b + 1) * windowMs == b * windowMs + windowMs;
  }

  lemma Scale(a: int, b: int, w: int)
    requires w > 0
    ensures a <= b ==> a * w <= b * w
  {
  }

  lemma {:induction false} BetweenWithinBuckets(events: seq<Event>, policy: string, identity: Identity, from: int, k: nat, windowMs: int, ttl: int, limit: nat)
    requires windowMs > 0 && forall e <- events :: OfIdentity(e, policy, identity) ==> e.key.bucket == e.readAt / windowMs
    ensures AdmittedBetween(events, policy, identity, from, from + k * windowMs, ttl, limit)
            <= AdmittedInBuckets(events, policy, identity, from / windowMs, k + 1, ttl, limit)
  {
    hide CountOfLast, AdmittedInBuckets;
    if events != [] {
      var last := events[|events| - 1];
      assert last in events;
      BetweenWithinBuckets(events[..|events| - 1], policy, identity, from, k, windowMs, ttl, limit);
      BucketsGrow(events, policy, identity, from / windowMs, k + 1, ttl, limit);
      if from <= last.readAt < from + k * windowMs {
        BucketRange(last.readAt, from, k, windowMs);
      }
    }
  }

  lemma {:induction false} BucketsWithinLimit(events: seq<Event>, policy: string, identity: Identity, lo: int, n: nat, windowMs: int, ttl: int, limit: nat)
    requires forall e <- events :: OfIdentity(e, policy, identity) ==> OnTime(e, windowMs, ttl)
    ensures AdmittedInBuckets(events, policy, identity, lo, n, ttl, limit) <= n * limit
  {
    hide AdmittedFor;
    if n > 0 {
      BucketsWithinLimit(events, policy, identity, lo, n - 1, windowMs, ttl, limit);
      WindowAdmits(events, Key(policy, identity, lo + n - 1), windowMs, ttl, limit);
      assert n * limit == (n - 1) * limit + limit;
    }
  }

  /** Whatever other policies and identities do, any half-open interval of k windows admits at most (k + 1) times the limit. */
  lemma SlidingBound(events: seq<Event>, policy: string, identity: Identity, from: int, k: nat, windowMs: int, ttl: int, limit: nat)
    requires windowMs > 0
    requires forall e <- events :: OfIdentity(e, policy, identity) ==> e.key.bucket == e.readAt / windowMs && OnTime(e, windowMs, ttl)
    ensures AdmittedBetween(events, policy, identity, from, from + k * windowMs, ttl, limit) <= (k + 1) * limit
  {
    BetweenWithinBuckets(events, policy, identity, from, k, windowMs, ttl, limit);
    BucketsWithinLimit(events, policy, identity, from / windowMs, k + 1, windowMs, ttl, limit);
  }
}
