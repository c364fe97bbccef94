/** The sliding-window limiter (src/lib/anti-spam.ts:52-86). */
module RateLimiter {
  const WINDOW_MS := 10 * 60 * 1000
  const MAX_PER_IP_EMAIL := 5
  const MAX_PER_IP := 50
  const SWEEP_THRESHOLD := 10_000

  type Hits = map<string, seq<int>>

  datatype Attempt = Attempt(ip: string, email: string, at: int)

  // ----- what the calls do to the map -----

  /** The times less than the window before `now`. */
  function Recent(times: seq<int>, now: int): seq<int> {
    if times == [] then []
    else Recent(times[..|times| - 1], now) + if now - times[|times| - 1] < WINDOW_MS then [times[|times| - 1]] else []
  }

  predicate Stale(times: seq<int>, now: int) {
    forall t :: t in times ==> now - t >= WINDOW_MS
  }

  function Get(hits: Hits, key: string): seq<int> {
    if key in hits then hits[key] else []
  }

  function Swept(hits: Hits, now: int): Hits {
    map k | k in hits && !Stale(hits[k], now) :: hits[k]
  }

  function Recorded(hits: Hits, key: string, now: int): Hits {
    var kept := if |hits| > SWEEP_THRESHOLD then Swept(hits, now) else hits;
    kept[key := Recent(Get(kept, key), now) + [now]]
  }

  function PairKey(ip: string, email: string): string { ip + "|" + email }

  function AfterPair(hits: Hits, a: Attempt): Hits { Recorded(hits, PairKey(a.ip, a.email), a.at) }

  function After(hits: Hits, a: Attempt): Hits { Recorded(AfterPair(hits, a), a.ip, a.at) }

  /** The answer to an attempt: limited or not. */
  predicate Limited(hits: Hits, a: Attempt) {
    |AfterPair(hits, a)[PairKey(a.ip, a.email)]| > MAX_PER_IP_EMAIL || |After(hits, a)[a.ip]| > MAX_PER_IP
  }

  // ----- the obvious limiter: an unbounded log -----

  predicate SamePair(a: Attempt, b: Attempt) { a.ip == b.ip && a.email == b.email }

  /** How many attempts of the log, from the same address and e-mail or from the same address,
      are less than the window old. */
  function PairCount(log: seq<Attempt>, a: Attempt): nat {
    if log == [] then 0
    else PairCount(log[..|log| - 1], a) + if SamePair(log[|log| - 1], a) && a.at - log[|log| - 1].at < WINDOW_MS then 1 else 0
  }

  function IpCount(log: seq<Attempt>, a: Attempt): nat {
    if log == [] then 0
    else IpCount(log[..|log| - 1], a) + if log[|log| - 1].ip == a.ip && a.at - log[|log| - 1].at < WINDOW_MS then 1 else 0
  }

  /** Too many, this attempt included. */
  predicate LogLimited(log: seq<Attempt>, a: Attempt) {
    PairCount(log + [a], a) > MAX_PER_IP_EMAIL || IpCount(log + [a], a) > MAX_PER_IP
  }

  // ----- the map stands for the log -----

  /** The earlier attempts of the same pair within ten minutes, by their places in the log. */
  ghost function PairPlaces(log: seq<Attempt>, a: Attempt): set<nat> {
    set k: nat | k < |log| && log[k].ip == a.ip && log[k].email == a.email && a.at - log[k].at < 600_000
  }

  ghost function IpPlaces(log: seq<Attempt>, a: Attempt): set<nat> {
    set k: nat | k < |log| && log[k].ip == a.ip && a.at - log[k].at < 600_000
  }

  lemma {:induction false} PairCountIs(log: seq<Attempt>, a: Attempt)
    ensures PairCount(log, a) == |PairPlaces(log, a)|
  {
    if log == [] {
      assert PairPlaces(log, a) == {};
    } else {
      var n := |log| - 1;
      PairCountIs(log[..n], a);
      var b := log[n];
      var own: set<nat> := if b.ip == a.ip && b.email == a.email && a.at - b.at < 600_000 then {n} else {};
      assert PairPlaces(log, a) == PairPlaces(log[..n], a) + own;
    }
  }

  lemma {:induction false} IpCountIs(log: seq<Attempt>, a: Attempt)
    ensures IpCount(log, a) == |IpPlaces(log, a)|
  {
    if log == [] {
      assert IpPlaces(log, a) == {};
    } else {
      var n := |log| - 1;
      IpCountIs(log[..n], a);
      var b := log[n];
      var own: set<nat> := if b.ip == a.ip && a.at - b.at < 600_000 then {n} else {};
      assert IpPlaces(log, a) == IpPlaces(log[..n], a) + own;
    }
  }

  /** An attempt is refused exactly when it is at least the sixth of its pair within ten minutes, or the
      fifty-first of its address. */
  lemma SixthOfPairOr51stOfIp(log: seq<Attempt>, a: Attempt)
    ensures LogLimited(log, a) <==> |PairPlaces(log, a)| >= 5 || |IpPlaces(log, a)| >= 50
  {
    PairCountIs(log, a);
    IpCountIs(log, a);
    hide PairPlaces, IpPlaces;
    assert (log + [a])[..|log|] == log;
  }

  /** Every time ever recorded under `key`. */
  function Times(log: seq<Attempt>, key: string): seq<int> {
    if log == [] then []
    else
      var a := log[|log| - 1];
      Times(log[..|log| - 1], key) + (if PairKey(a.ip, a.email) == key then [a.at] else []) + (if a.ip == key then [a.at] else [])
  }

  ghost predicate StandsFor(hits: Hits, log: seq<Attempt>, now: int) {
    forall key :: Recent(Get(hits, key), now) == Recent(Times(log, key), now)
  }

  lemma {:induction false} RecentConcat(a: seq<int>, b: seq<int>, now: int)
    ensures Recent(a + b, now) == Recent(a, now) + Recent(b, now)
  {
    if b == [] {
      assert a + b == a;
    } else {
      assert (a + b)[..|a + b| - 1] == a + b[..|b| - 1];
      RecentConcat(a, b[..|b| - 1], now);
    }
  }

  /** Filtering early changes nothing later. */
  lemma {:induction false} RecentTwice(times: seq<int>, now: int, later: int)
    requires now <= later
    ensures Recent(Recent(times, now), later) == Recent(times, later)
  {
    if times == [] {
    } else {
      var n := |times| - 1;
      RecentTwice(times[..n], now, later);
      RecentConcat(Recent(times[..n], now), if now - times[n] < WINDOW_MS then [times[n]] else [], later);
      RecentOne(times[n], later);
    }
  }

  lemma RecentOne(t: int, now: int)
    ensures Recent([t], now) == if now - t < WINDOW_MS then [t] else []
  {
    assert [t][..0] == [];
  }

  lemma {:induction false} StaleIsEmpty(times: seq<int>, now: int)
    requires Stale(times, now)
    ensures Recent(times, now) == []
  {
    if times == [] {
    } else {
      var rest := times[..|times| - 1];
      assert times[|times| - 1] in times;
      assert Stale(rest, now) by {
        forall t | t in rest ensures now - t >= WINDOW_MS {
          assert t in times;
        }
      }
      StaleIsEmpty(rest, now);
    }
  }

  /** The sweep changes no recent time. */
  lemma SweepChangesNothing(hits: Hits, now: int, later: int, key: string)
    requires now <= later
    ensures Recent(Get(Swept(hits, now), key), later) == Recent(Get(hits, key), later)
  {
    if key in hits && Stale(hits[key], now) {
      assert forall t :: t in hits[key] ==> now - t >= WINDOW_MS;
      StaleIsEmpty(hits[key], later);
      assert Recent([], later) == [];
    }
  }

  /** A call that finds more than ten thousand keys leaves none that has no attempt within ten minutes; with
      fewer nothing is dropped, and only the key of the call is written. */
  lemma SweepBoundsTheMap(hits: Hits, key: string, now: int)
    ensures var r := Recorded(hits, key, now);
      && (|hits| > 10_000 ==> forall k :: k in r ==> exists t :: t in r[k] && now - t < 600_000)
      && (|hits| <= 10_000 ==> r.Keys == hits.Keys + {key} && forall k :: k in hits && k != key ==> r[k] == hits[k])
  {
    var r := Recorded(hits, key, now);
    assert now in r[key];
  }

  lemma RecordedTimes(hits: Hits, key: string, now: int, other: string)
    ensures Recent(Get(Recorded(hits, key, now), other), now)
      == Recent(Get(hits, other), now) + if other == key then [now] else []
    ensures key in Recorded(hits, key, now) && Recorded(hits, key, now)[key] == Recent(Get(hits, key), now) + [now]
  {
    hide Recent, Stale, Swept;
    var kept := if |hits| > SWEEP_THRESHOLD then Swept(hits, now) else hits;
    SweepChangesNothing(hits, now, now, other);
    SweepChangesNothing(hits, now, now, key);
    RecentConcat(Recent(Get(kept, key), now), [now], now);
    RecentTwice(Get(kept, key), now, now);
    RecentOne(now, now);
  }

  lemma StandsForLater(hits: Hits, log: seq<Attempt>, now: int, later: int)
    requires StandsFor(hits, log, now) && now <= later
    ensures StandsFor(hits, log, later)
  {
    forall key ensures Recent(Get(hits, key), later) == Recent(Times(log, key), later) {
      RecentTwice(Get(hits, key), now, later);
      RecentTwice(Times(log, key), now, later);
    }
  }

  /** One call keeps the map standing for the log. */
  lemma AfterStandsFor(hits: Hits, log: seq<Attempt>, a: Attempt)
    requires StandsFor(hits, log, a.at)
    ensures StandsFor(After(hits, a), log + [a], a.at)
  {
    forall key ensures Recent(Get(After(hits, a), key), a.at) == Recent(Times(log + [a], key), a.at) {
      RecordedTimes(hits, PairKey(a.ip, a.email), a.at, key);
      RecordedTimes(AfterPair(hits, a), a.ip, a.at, key);
      assert (log + [a])[..|log|] == log;
      var pair, ip := if PairKey(a.ip, a.email) == key then [a.at] else [], if a.ip == key then [a.at] else [];
      RecentConcat(Times(log, key) + pair, ip, a.at);
      RecentConcat(Times(log, key), pair, a.at);
      RecentOne(a.at, a.at);
    }
  }

  // ----- the keys keep pairs and addresses apart, as long as no address extends another by a bar -----

  /** `y` is the address `x` followed by a bar and anything. */
  predicate Extends(x: string, y: string) { x + "|" <= y }

  predicate Clear(x: string, y: string) { !Extends(x, y) && !Extends(y, x) }

  /** No address of the log extends another. */
  ghost predicate ClearLog(log: seq<Attempt>) {
    forall i, j :: 0 <= i < |log| && 0 <= j < |log| ==> Clear(log[i].ip, log[j].ip)
  }

  ghost predicate ClearOf(log: seq<Attempt>, ip: string) {
    forall k :: 0 <= k < |log| ==> Clear(log[k].ip, ip)
  }

  lemma ClearLogParts(log: seq<Attempt>, a: Attempt)
    requires ClearLog(log + [a])
    ensures ClearOf(log, a.ip)
  {
    var all := log + [a];
    assert all[|log|] == a;
    forall k | 0 <= k < |log| ensures Clear(log[k].ip, a.ip) {
      assert all[k] == log[k] && Clear(all[k].ip, all[|log|].ip);
    }
  }

  lemma LongerExtends(a: Attempt, b: Attempt)
    requires PairKey(a.ip, a.email) == PairKey(b.ip, b.email) && |a.ip| < |b.ip|
    ensures Extends(a.ip, b.ip)
  {
    var key := PairKey(a.ip, a.email);
    assert key[..|a.ip| + 1] == a.ip + "|";
    assert key[..|b.ip|] == b.ip;
    assert key[..|a.ip| + 1] == b.ip[..|a.ip| + 1];
  }

  /** When neither address extends the other, equal pair keys are equal pairs, and no pair key is
      an address. */
  lemma KeysApart(a: Attempt, b: Attempt)
    requires Clear(a.ip, b.ip)
    ensures PairKey(a.ip, a.email) == PairKey(b.ip, b.email) <==> SamePair(a, b)
    ensures PairKey(a.ip, a.email) != b.ip && PairKey(b.ip, b.email) != a.ip
  {
    var s, t := PairKey(a.ip, a.email), PairKey(b.ip, b.email);
    assert s[..|a.ip| + 1] == a.ip + "|" && t[..|b.ip| + 1] == b.ip + "|";
    if s == t {
      if |a.ip| < |b.ip| {
        LongerExtends(a, b);
      } else if |b.ip| < |a.ip| {
        LongerExtends(b, a);
      } else {
        assert s[..|a.ip|] == a.ip && t[..|b.ip|] == b.ip && s[|a.ip| + 1..] == a.email && t[|b.ip| + 1..] == b.email;
      }
    }
  }

  lemma {:induction false} PairTimes(log: seq<Attempt>, a: Attempt)
    requires ClearOf(log, a.ip)
    ensures |Recent(Times(log, PairKey(a.ip, a.email)), a.at)| == PairCount(log, a)
  {
    if log == [] {
    } else {
      var n, key := |log| - 1, PairKey(a.ip, a.email);
      var b := log[n];
      PairTimes(log[..n], a);
      KeysApart(b, a);
      assert Times(log, key) == Times(log[..n], key) + if SamePair(b, a) then [b.at] else [];
      RecentConcat(Times(log[..n], key), if SamePair(b, a) then [b.at] else [], a.at);
      RecentOne(b.at, a.at);
    }
  }

  lemma {:induction false} IpTimes(log: seq<Attempt>, a: Attempt)
    requires ClearOf(log, a.ip)
    ensures |Recent(Times(log, a.ip), a.at)| == IpCount(log, a)
  {
    if log == [] {
    } else {
      var n := |log| - 1;
      var b := log[n];
      IpTimes(log[..n], a);
      KeysApart(b, a);
      assert Times(log, a.ip) == Times(log[..n], a.ip) + if b.ip == a.ip then [b.at] else [];
      RecentConcat(Times(log[..n], a.ip), if b.ip == a.ip then [b.at] else [], a.at);
      RecentOne(b.at, a.at);
    }
  }

  lemma LogCounts(log: seq<Attempt>, a: Attempt)
    ensures PairCount(log + [a], a) == PairCount(log, a) + 1 && IpCount(log + [a], a) == IpCount(log, a) + 1
  {
    assert (log + [a])[..|log|] == log;
  }

  /** The answer is the log's. */
  lemma LimitedIsLogLimited(hits: Hits, log: seq<Attempt>, a: Attempt)
    requires StandsFor(hits, log, a.at) && ClearOf(log, a.ip)
    ensures Limited(hits, a) == LogLimited(log, a)
  {
    hide Recent, Times, Recorded, PairKey;
    var key := PairKey(a.ip, a.email);
    LogCounts(log, a);
    RecordedTimes(hits, key, a.at, a.ip);
    RecordedTimes(AfterPair(hits, a), a.ip, a.at, a.ip);
    KeysApart(a, a);
    PairTimes(log, a);
    IpTimes(log, a);
    assert Recent(Get(hits, key), a.at) == Recent(Times(log, key), a.at);
    assert Recent(Get(hits, a.ip), a.at) == Recent(Times(log, a.ip), a.at);
  }

  // ----- whole runs -----

  function HitsAfter(calls: seq<Attempt>): Hits {
    if calls == [] then map[] else After(HitsAfter(calls[..|calls| - 1]), calls[|calls| - 1])
  }

  ghost predicate ClockAdvances(calls: seq<Attempt>) {
    forall i, j :: 0 <= i < j < |calls| ==> calls[i].at <= calls[j].at
  }

  lemma {:induction false} RunStandsFor(calls: seq<Attempt>, now: int)
    requires ClockAdvances(calls) && (calls != [] ==> calls[|calls| - 1].at <= now)
    ensures StandsFor(HitsAfter(calls), calls, now)
  {
    if calls == [] {
    } else {
      var n := |calls| - 1;
      var a := calls[n];
      RunStandsFor(calls[..n], a.at);
      AfterStandsFor(HitsAfter(calls[..n]), calls[..n], a);
      assert calls[..n] + [a] == calls;
      StandsForLater(HitsAfter(calls), calls, a.at, now);
    }
  }

  /** Over every run with a clock that never goes back and addresses none of which extends another,
      the next answer is the one an unbounded log would give. */
  lemma RunAnswersLikeTheLog(calls: seq<Attempt>, a: Attempt)
    requires ClockAdvances(calls + [a]) && ClearLog(calls + [a])
    ensures Limited(HitsAfter(calls), a) == LogLimited(calls, a)
  {
    var all := calls + [a];
    assert all[|calls|] == a && forall k :: 0 <= k < |calls| ==> all[k] == calls[k];
    ClearLogParts(calls, a);
    RunStandsFor(calls, a.at);
    LimitedIsLogLimited(HitsAfter(calls), calls, a);
  }

  /** A run whose clock never goes back and whose addresses are all among `ips`. */
  ghost predicate IsRun(calls: seq<Attempt>, ips: set<string>) {
    ClockAdvances(calls) && forall k :: 0 <= k < |calls| ==> calls[k].ip in ips
  }

  /** Every answer of every run on these addresses is the unbounded log's. */
  ghost predicate AlwaysLikeTheLog(ips: set<string>) {
    forall calls, a :: IsRun(calls + [a], ips) ==> Limited(HitsAfter(calls), a) == LogLimited(calls, a)
  }

  /** That is so exactly when no address in use is another one followed by a bar and anything. */
  lemma LikeTheLogIff(ips: set<string>)
    ensures AlwaysLikeTheLog(ips) <==> forall x, y :: x in ips && y in ips ==> !Extends(x, y)
  {
    hide HitsAfter, Limited, LogLimited, ClockAdvances;
    if forall x, y :: x in ips && y in ips ==> !Extends(x, y) {
      forall calls, a | IsRun(calls + [a], ips) ensures Limited(HitsAfter(calls), a) == LogLimited(calls, a) {
        RunAnswersLikeTheLog(calls, a);
      }
    } else {
      var x, y :| x in ips && y in ips && Extends(x, y);
      var odd, a := Attempt(y, "", 0), Attempt(x, y[|x| + 1..], 0);
      BarConfusesKeys(odd, a);
      CollidingRun(odd, a, ips);
      assert IsRun(Five(odd, a) + [a], ips);
    }
  }

  lemma OneMore(log: seq<Attempt>, b: Attempt, a: Attempt, key: string)
    requires a.at == b.at
    ensures Held(log + [b], key, a.at) == Held(log, key, a.at)
      + (if PairKey(b.ip, b.email) == key then 1 else 0) + (if b.ip == key then 1 else 0)
    ensures PairCount(log + [b], a) == PairCount(log, a) + if SamePair(b, a) then 1 else 0
    ensures IpCount(log + [b], a) == IpCount(log, a) + if b.ip == a.ip then 1 else 0
  {
    assert (log + [b])[..|log|] == log;
    OneMoreHeld(log, b, key);
  }

  lemma OneMoreHeld(log: seq<Attempt>, b: Attempt, key: string)
    ensures Held(log + [b], key, b.at) == Held(log, key, b.at)
      + (if PairKey(b.ip, b.email) == key then 1 else 0) + (if b.ip == key then 1 else 0)
  {
    assert (log + [b])[..|log|] == log;
    var pair, ip := if PairKey(b.ip, b.email) == key then [b.at] else [], if b.ip == key then [b.at] else [];
    assert Times(log + [b], key) == Times(log, key) + pair + ip;
    RecentOne(b.at, b.at);
    assert |Recent(pair, b.at)| == |pair| && |Recent(ip, b.at)| == |ip|;
    hide Times, Recent, PairKey;
    RecentConcat(Times(log, key) + pair, ip, b.at);
    RecentConcat(Times(log, key), pair, b.at);
  }

  /** How many times the map holds under `key` after `log`. */
  function Held(log: seq<Attempt>, key: string, now: int): nat { |Recent(Times(log, key), now)| }

  /** Whoever calls from the address `a.ip` + "|" + `a.email` spends the allowance of that pair. */
  ghost predicate Collides(odd: Attempt, a: Attempt) {
    odd.ip == PairKey(a.ip, a.email) && odd.at == a.at
  }

  function Five(odd: Attempt, a: Attempt): seq<Attempt> { [] + [odd] + [a] + [a] + [a] + [a] }

  /** What a colliding address does: after one call from such an address and four from
      the pair, the fifth from the pair is refused, though the log would let it through. */
  lemma BarConfusesKeys(odd: Attempt, a: Attempt)
    requires Collides(odd, a)
    ensures ClockAdvances(Five(odd, a)) && Limited(HitsAfter(Five(odd, a)), a) && !LogLimited(Five(odd, a), a)
  {
    var calls, key := Five(odd, a), PairKey(a.ip, a.email);
    hide HitsAfter, PairKey, PairCount, IpCount, Times, Recent, Recorded;
    assert forall k :: 0 <= k < |calls| ==> calls[k].at == a.at;
    RunStandsFor(calls, a.at);
    FiveCounts(odd, a);
    RecordedTimes(HitsAfter(calls), key, a.at, key);
    assert Recent(Get(HitsAfter(calls), key), a.at) == Recent(Times(calls, key), a.at);
  }

  lemma NothingHeld(key: string, a: Attempt)
    ensures Held([], key, a.at) == 0 == PairCount([], a) == IpCount([], a)
  {}

  lemma CollidingKeys(odd: Attempt, a: Attempt)
    requires Collides(odd, a)
    ensures var key := PairKey(a.ip, a.email);
      a.ip != key && odd.ip != a.ip && odd.ip == key && PairKey(odd.ip, odd.email) != key
  {
    assert |PairKey(a.ip, a.email)| > |a.ip| && |PairKey(odd.ip, odd.email)| > |odd.ip|;
  }

  lemma CollidingRun(odd: Attempt, a: Attempt, ips: set<string>)
    requires Collides(odd, a) && odd.ip in ips && a.ip in ips
    ensures IsRun(Five(odd, a) + [a], ips)
  {
    var all := Five(odd, a) + [a];
    assert forall k :: 0 <= k < |all| ==> all[k] == odd || all[k] == a;
  }

  lemma FiveCounts(odd: Attempt, a: Attempt)
    requires Collides(odd, a)
    ensures var key := PairKey(a.ip, a.email);
            Held(Five(odd, a), key, a.at) == 5 && PairCount(Five(odd, a) + [a], a) == 5 && IpCount(Five(odd, a) + [a], a) == 5
  {
    var key := PairKey(a.ip, a.email);
    var c1 := [] + [odd];
    var c2, c3, c4 := c1 + [a], c1 + [a] + [a], c1 + [a] + [a] + [a];
    hide Held, PairCount, IpCount, PairKey;
    NothingHeld(key, a);
    CollidingKeys(odd, a);
    OneMore([], odd, a, key);
    OneMore(c1, a, a, key);
    OneMore(c2, a, a, key);
    OneMore(c3, a, a, key);
    OneMore(c4, a, a, key);
    OneMore(Five(odd, a), a, a, key);
  }

  // ----- the source's functions -----

  class Limiter {
    var hits: Hits
    ghost var log: seq<Attempt>
    ghost var clock: int

    ghost predicate Valid()
      reads this
    {
      StandsFor(hits, log, clock)
    }

    /** An empty map, before any call: `start` is any instant that is not after the first one. */
    constructor (ghost start: int)
      ensures Valid() && hits == map[] && log == [] && clock == start
    {
      hits := map[];
      log := [];
      clock := start;
    }

    method Record(key: string, now: int) returns (n: nat)
      modifies `hits
      ensures hits == Recorded(old(hits), key, now) && n == |hits[key]|
    {
      if |hits| > SWEEP_THRESHOLD {
        var keys := hits.Keys;
        while keys != {}
          invariant keys <= hits.Keys <= old(hits).Keys
          invariant forall k :: k in hits ==> hits[k] == old(hits)[k]
          invariant forall k :: k in old(hits) && k !in keys ==> (k in hits <==> !Stale(old(hits)[k], now))
          decreases |keys|
        {
          var k :| k in keys;
          keys := keys - {k};
          if forall t :: t in hits[k] ==> now - t >= WINDOW_MS {
            hits := hits - {k};
          }
        }
        assert hits == Swept(old(hits), now);
      }
      var list := Recent(if key in hits then hits[key] else [], now) + [now];
      hits := hits[key := list];
      n := |list|;
    }

    method IsRateLimited(ip: string, email: string, now: int) returns (limited: bool)
      requires Valid() && clock <= now
      modifies this
      ensures Valid() && clock == now && log == old(log) + [Attempt(ip, email, now)]
      ensures hits == After(old(hits), Attempt(ip, email, now))
      ensures limited == Limited(old(hits), Attempt(ip, email, now))
      ensures ClearLog(log) ==> limited == LogLimited(old(log), Attempt(ip, email, now))
    {
      hide Recent, Times, Recorded, StandsFor, LogLimited, ClearLog;
      ghost var a, before := Attempt(ip, email, now), hits;
      assert PairKey(ip, email) == ip + "|" + email;
      var perPair := Record(ip + "|" + email, now);
      var perIp := Record(ip, now);
      limited := perPair > MAX_PER_IP_EMAIL || perIp > MAX_PER_IP;
      StandsForLater(before, log, clock, now);
      AfterStandsFor(before, log, a);
      if ClearLog(log + [a]) {
        ClearLogParts(log, a);
        LimitedIsLogLimited(before, log, a);
      }
      log := log + [a];
      clock := now;
    }
  }
}
