/** Per-key request limiting, with idle buckets evicted once many keys are known. */
module RateLimit {
  import opened TokenBucket

  const MINUTE := 60_000_000_000
  const IDLE_TTL := 15 * MINUTE
  const MANY := 2048

  datatype Entry = Entry(bucket: Bucket, lastSeen: int)

  type Table = map<string, Entry>

  /** perMinute requests a minute: a request costs one minute's nanoseconds, and every
      nanosecond yields perMinute units. */
  function PerMinute(perMinute: nat, burst: nat): Params {
    Params(perMinute, MINUTE, burst)
  }

  // ----- One call -----

  function Touched(p: Params, buckets: Table, key: string, now: int): Table {
    buckets[key := if key in buckets then buckets[key].(lastSeen := now) else Entry(Full(p, now), now)]
  }

  function Evicted(buckets: Table, now: int): Table {
    if |buckets| > MANY then map k | k in buckets && now - buckets[k].lastSeen <= IDLE_TTL :: buckets[k] else buckets
  }

  function Charged(p: Params, buckets: Table, key: string, now: int): Table
    requires key in buckets
  {
    buckets[key := buckets[key].(bucket := Charge(p, buckets[key].bucket, now))]
  }

  predicate Grants(p: Params, buckets: Table, key: string, now: int) {
    Allows(p, if key in buckets then buckets[key].bucket else Full(p, now), now)
  }

  /** What a call leaves behind, with and without eviction. */
  function Next(p: Params, buckets: Table, key: string, now: int, evict: bool): Table {
    var touched := Touched(p, buckets, key, now);
    var kept := if evict then Evicted(touched, now) else touched;
    Charged(p, kept, key, now)
  }

  class KeyedLimiter {
    const enabled: bool
    const p: Params
    var buckets: Table

    constructor (enabled: bool, perMinute: nat, burst: nat)
      ensures this.enabled == enabled && p == PerMinute(perMinute, burst) && buckets == map[]
    {
      this.enabled := enabled;
      p := PerMinute(perMinute, burst);
      buckets := map[];
    }

    method Allow(key: string, now: int) returns (ok: bool)
      modifies this
      ensures ok <==> !enabled || Grants(p, old(buckets), key, now)
      ensures buckets == if enabled then Next(p, old(buckets), key, now, true) else old(buckets)
    {
      if !enabled {
        return true;
      }
      if key !in buckets {
        buckets := buckets[key := Entry(Full(p, now), now)];
      }
      buckets := buckets[key := buckets[key].(lastSeen := now)];
      ghost var touched := buckets;
      assert touched == Touched(p, old(buckets), key, now);
      if |buckets| > MANY {
        EvictIdle(now);
      }
      assert buckets == Evicted(touched, now) && key in buckets;
      var e := buckets[key];
      ok := Allows(p, e.bucket, now);
      buckets := buckets[key := e.(bucket := Charge(p, e.bucket, now))];
    }

    method EvictIdle(now: int)
      modifies this
      ensures buckets == map k | k in old(buckets) && now - old(buckets)[k].lastSeen <= IDLE_TTL :: old(buckets)[k]
    {
      var todo := buckets.Keys;
      while todo != {}
        invariant todo <= buckets.Keys <= old(buckets).Keys
        invariant forall k | k in buckets :: buckets[k] == old(buckets)[k]
        invariant forall k | k in old(buckets)
            && k !in todo :: k in buckets <==> now - old(buckets)[k].lastSeen <= IDLE_TTL
      {
        var k :| k in todo;
        if now - buckets[k].lastSeen > IDLE_TTL {
          buckets := buckets - {k};
        }
        todo := todo - {k};
      }
    }
  }

  /** A call leaves its key just seen, and every other bucket as it was, except that with more
      than 2048 keys it drops exactly those not seen for 15 minutes. */
  lemma EvictsExactly(p: Params, buckets: Table, key: string, now: int)
    ensures var after := Next(p, buckets, key, now, true);
            && key in after && after[key].lastSeen == now
            && (forall k | k != key ::
                  k in after <==>
                  k in buckets && (|buckets.Keys + {key}| <= 2048 || now - buckets[k].lastSeen <= 900_000_000_000))
            && (forall k | k != key && k in after :: after[k] == buckets[k])
  {
    var touched := Touched(p, buckets, key, now);
    assert touched.Keys == buckets.Keys + {key};
    assert |touched| == |touched.Keys|;
    hide Charge, Full;
  }

  // ----- Any sequence of calls -----

  datatype Call = Call(key: string, now: int)

  predicate Ordered(calls: seq<Call>) {
    forall i, j | 0 <= i < j < |calls| :: calls[i].now <= calls[j].now
  }

  function From(p: Params, t: Table, calls: seq<Call>, evict: bool): Table {
    if calls == [] then t
    else
      var c := calls[|calls| - 1];
      Next(p, From(p, t, calls[..|calls| - 1], evict), c.key, c.now, evict)
  }

  function After(p: Params, calls: seq<Call>, evict: bool): Table {
    From(p, map[], calls, evict)
  }

  /** The answer to one more call after `calls`. */
  predicate Answer(p: Params, calls: seq<Call>, c: Call, evict: bool) {
    Grants(p, After(p, calls, evict), c.key, c.now)
  }

  /** A bucket refills completely during the shortest idle time that gets it evicted. */
  predicate RefillsWhileIdle(p: Params) {
    Capacity(p) <= p.rate * (IDLE_TTL + 1)
  }

  predicate Sane(b: Bucket, lastSeen: int, now: int) {
    b.level >= 0 && b.last <= lastSeen <= now
  }

  /** Both tables give every key the same level from `now` on. */
  predicate Alike(p: Params, a: Table, b: Table, key: string, now: int) {
    && (key in a ==> Sane(a[key].bucket, a[key].lastSeen, now))
    && (key in b ==> Sane(b[key].bucket, b[key].lastSeen, now))
    && (key in a ==> key in b && a[key].lastSeen == b[key].lastSeen
                     && Level(p, a[key].bucket, now) == Level(p, b[key].bucket, now))
    && (key !in a && key in b ==> Level(p, b[key].bucket, now) == Capacity(p))
  }

  ghost predicate AllAlike(p: Params, a: Table, b: Table, now: int) {
    forall key :: Alike(p, a, b, key, now)
  }

  lemma AlikeLater(p: Params, a: Table, b: Table, key: string, t: int, u: int)
    requires Alike(p, a, b, key, t) && t <= u
    ensures Alike(p, a, b, key, u)
  {
    if key in a { LevelLater(p, a[key].bucket, t, u); }
    if key in b { LevelLater(p, b[key].bucket, t, u); CapacityStays(p, t, u); }
  }

  lemma CapacityStays(p: Params, t: int, u: int)
    requires t <= u
    ensures Level(p, Full(p, t), u) == Capacity(p)
  {
  }

  lemma TouchedAlike(p: Params, a: Table, b: Table, key: string, now: int, k: string)
    requires Alike(p, a, b, k, now) && Alike(p, a, b, key, now)
    ensures Alike(p, Touched(p, a, key, now), Touched(p, b, key, now), k, now)
  {
  }

  /** Eviction only ever forgets buckets that are full again. */
  lemma EvictedAlike(p: Params, a: Table, b: Table, now: int, k: string)
    requires RefillsWhileIdle(p) && Alike(p, a, b, k, now)
    ensures Alike(p, Evicted(a, now), b, k, now)
  {
    if k in a && now - a[k].lastSeen > IDLE_TTL {
      var e := b[k];
      assert p.rate * (now - e.bucket.last) >= p.rate * (IDLE_TTL + 1) by {
        assert now - e.bucket.last >= IDLE_TTL + 1;
        Scale(p.rate, IDLE_TTL + 1, now - e.bucket.last);
      }
    }
  }

  lemma Scale(r: nat, x: int, y: int)
    requires x <= y
    ensures r * x <= r * y
  {
  }

  lemma ChargedAlike(p: Params, a: Table, b: Table, key: string, now: int, k: string)
    requires key in a && key in b && Alike(p, a, b, key, now) && Alike(p, a, b, k, now)
    requires a[key].lastSeen == now
    ensures Alike(p, Charged(p, a, key, now), Charged(p, b, key, now), k, now)
    ensures Allows(p, a[key].bucket, now) == Allows(p, b[key].bucket, now)
  {
  }

  lemma NextAlike(p: Params, a: Table, b: Table, key: string, t: int, now: int, k: string)
    requires RefillsWhileIdle(p) && AllAlike(p, a, b, t) && t <= now
    ensures Alike(p, Next(p, a, key, now, true), Next(p, b, key, now, false), k, now)
    ensures Grants(p, a, key, now) == Grants(p, b, key, now)
  {
    AlikeLater(p, a, b, k, t, now);
    AlikeLater(p, a, b, key, t, now);
    var a1, b1 := Touched(p, a, key, now), Touched(p, b, key, now);
    TouchedAlike(p, a, b, key, now, k);
    TouchedAlike(p, a, b, key, now, key);
    var a2 := Evicted(a1, now);
    EvictedAlike(p, a1, b1, now, k);
    EvictedAlike(p, a1, b1, now, key);
    assert key in a2;
    ChargedAlike(p, a2, b1, key, now, k);
  }

  lemma {:induction false} AfterAlike(p: Params, calls: seq<Call>, now: int)
    requires RefillsWhileIdle(p) && Ordered(calls) && (calls == [] || calls[|calls| - 1].now <= now)
    ensures AllAlike(p, After(p, calls, true), After(p, calls, false), now)
  {
    if calls != [] {
      var before, c := calls[..|calls| - 1], calls[|calls| - 1];
      AfterAlike(p, before, c.now);
      forall k ensures Alike(p, After(p, calls, true), After(p, calls, false), k, now) {
        NextAlike(p, After(p, before, true), After(p, before, false), c.key, c.now, c.now, k);
        AlikeLater(p, After(p, calls, true), After(p, calls, false), k, c.now, now);
      }
    }
  }

  /** When a bucket refills within the idle time, eviction cannot be observed: any sequence
      of calls gets the answers a limiter without eviction would give. */
  lemma EvictionUnobservable(p: Params, calls: seq<Call>, c: Call)
    requires RefillsWhileIdle(p) && Ordered(calls + [c])
    ensures Answer(p, calls, c, true) == Answer(p, calls, c, false)
  {
    var all := calls + [c];
    assert all[|calls|] == c && forall i | 0 <= i < |calls| :: all[i] == calls[i];
    AfterAlike(p, calls, c.now);
    NextAlike(p, After(p, calls, true), After(p, calls, false), c.key, c.now, c.now, c.key);
  }

  // ----- The answers, from the history of granted calls alone -----

  /** The times of the calls of one key that are granted, each by the window rule. */
  function GrantedTo(p: Params, calls: seq<Call>, key: string): seq<int> {
    if calls == [] then []
    else
      var c, before := calls[|calls| - 1], GrantedTo(p, calls[..|calls| - 1], key);
      if c.key == key && FitsBudget(p, before, c.now) then before + [c.now] else before
  }

  /** A key's bucket was full at its first call and has paid for the granted calls since. */
  predicate PaidFor(p: Params, t: Table, key: string, granted: seq<int>, now: int, start: int) {
    && InOrder(start, granted, now)
    && if key in t then t[key].bucket == Drawn(p, Full(p, start), granted) else granted == []
  }

  lemma NextPaidFor(p: Params, t: Table, c: Call, key: string, granted: seq<int>, now: int, start: int)
    returns (start': int)
    requires p.cost > 0 && PaidFor(p, t, key, granted, now, start) && now <= c.now
    ensures var granted' := if c.key == key && FitsBudget(p, granted, c.now) then granted + [c.now] else granted;
            PaidFor(p, Next(p, t, c.key, c.now, false), key, granted', c.now, start')
    ensures c.key == key ==> (Grants(p, t, key, c.now) <==> FitsBudget(p, granted, c.now))
  {
    hide Allows, FitsBudget, Level, Full;
    start' := if key in t then start else c.now;
    assert InOrder(start', granted, c.now);
    AllowsExactly(p, start', granted, c.now);
    DrawnMore(p, Full(p, start'), granted, c.now);
  }

  lemma DrawnMore(p: Params, b: Bucket, granted: seq<int>, now: int)
    ensures Drawn(p, b, granted + [now]) == Bucket(Level(p, Drawn(p, b, granted), now) - p.cost, now)
  {
    assert (granted + [now])[..|granted|] == granted;
  }

  lemma {:induction false} HistoryPaidFor(p: Params, calls: seq<Call>, key: string, now: int) returns (start: int)
    requires p.cost > 0 && Ordered(calls) && (forall i | 0 <= i < |calls| :: calls[i].now <= now)
    ensures PaidFor(p, After(p, calls, false), key, GrantedTo(p, calls, key), now, start)
  {
    hide Next, FitsBudget, PaidFor;
    if calls == [] {
      start := now;
      NobodyPaid(p, key, now);
    } else {
      var before, c := calls[..|calls| - 1], calls[|calls| - 1];
      var first := HistoryPaidFor(p, before, key, c.now);
      start := NextPaidFor(p, After(p, before, false), c, key, GrantedTo(p, before, key), c.now, first);
      PaidLater(p, After(p, calls, false), key, GrantedTo(p, calls, key), c.now, now, start);
    }
  }

  lemma NobodyPaid(p: Params, key: string, now: int)
    ensures PaidFor(p, map[], key, [], now, now)
  {
  }

  lemma PaidLater(p: Params, t: Table, key: string, granted: seq<int>, now: int, later: int, start: int)
    requires PaidFor(p, t, key, granted, now, start) && now <= later
    ensures PaidFor(p, t, key, granted, later, start)
  {
  }

  /** With or without eviction that cannot be observed, a call is granted if and only if no
      window from an earlier granted call of its key holds more than the burst and the rate
      allow. */
  lemma AnswerExactly(p: Params, calls: seq<Call>, c: Call, evict: bool)
    requires p.cost > 0 && Ordered(calls + [c]) && (evict ==> RefillsWhileIdle(p))
    ensures Answer(p, calls, c, evict) <==> FitsBudget(p, GrantedTo(p, calls, c.key), c.now)
  {
    var all := calls + [c];
    assert all[|calls|] == c && forall i | 0 <= i < |calls| :: all[i] == calls[i];
    var start := HistoryPaidFor(p, calls, c.key, c.now);
    var start' := NextPaidFor(p, After(p, calls, false), c, c.key, GrantedTo(p, calls, c.key), c.now, start);
    if evict { EvictionUnobservable(p, calls, c); }
  }

  // ----- The bound is exact -----
  // A client drains its bucket, stays away just long enough to be evicted while enough
  // other keys appear, and comes back.

  lemma {:induction false} FromConcat(p: Params, t: Table, xs: seq<Call>, ys: seq<Call>, evict: bool)
    ensures From(p, t, xs + ys, evict) == From(p, From(p, t, xs, evict), ys, evict)
  {
    if ys == [] {
      assert xs + ys == xs;
    } else {
      assert (xs + ys)[..|xs + ys| - 1] == xs + ys[..|ys| - 1];
      FromConcat(p, t, xs, ys[..|ys| - 1], evict);
    }
  }

  function Times(now: int, n: nat): seq<Call> {
    seq(n, _ => Call("", now))
  }

  function Filler(i: nat): string {
    seq(i + 1, _ => 'x')
  }

  function Fillers(now: int, n: nat): seq<Call> {
    seq(n, i requires 0 <= i < n => Call(Filler(i), now))
  }

  function OwnLevel(p: Params, t: Table, now: int): int {
    Level(p, if "" in t then t[""].bucket else Full(p, now), now)
  }

  /** A call of the client at `now` evicts nobody. */
  predicate Quiet(t: Table, now: int) {
    || |t.Keys + {""}| <= MANY
    || forall k | k in t :: k != "" ==> t[k].lastSeen == now
  }

  lemma QuietKeepsAll(p: Params, t: Table, now: int)
    requires Quiet(t, now)
    ensures Evicted(Touched(p, t, "", now), now) == Touched(p, t, "", now)
  {
    var touched := Touched(p, t, "", now);
    assert touched.Keys == t.Keys + {""} && |touched| == |touched.Keys|;
    if |touched| > MANY {
      assert forall k | k in touched :: touched[k].lastSeen == now;
    }
  }

  lemma QuietNext(p: Params, t: Table, now: int, evict: bool)
    requires (evict ==> Quiet(t, now)) && OwnLevel(p, t, now) >= p.cost
    ensures Next(p, t, "", now, evict) == t["" := Entry(Bucket(OwnLevel(p, t, now) - p.cost, now), now)]
  {
    hide Evicted, Level, Capacity, Quiet;
    if evict {
      QuietKeepsAll(p, t, now);
    }
  }

  lemma QuietStays(t: Table, e: Entry, now: int)
    requires Quiet(t, now)
    ensures Quiet(t["" := e], now)
  {
    assert t["" := e].Keys + {""} == t.Keys + {""};
  }

  lemma {:induction false} Drain(p: Params, t: Table, now: int, n: nat, evict: bool)
    requires (evict ==> Quiet(t, now)) && n * p.cost <= OwnLevel(p, t, now) <= Capacity(p)
    ensures var u := From(p, t, Times(now, n), evict);
            && (n > 0 ==> u == t["" := Entry(Bucket(OwnLevel(p, t, now) - n * p.cost, now), now)])
            && OwnLevel(p, u, now) == OwnLevel(p, t, now) - n * p.cost
  {
    hide Next, Quiet, Level, Capacity;
    if n > 0 {
      assert Times(now, n)[..n - 1] == Times(now, n - 1);
      assert n * p.cost == (n - 1) * p.cost + p.cost;
      Drain(p, t, now, n - 1, evict);
      var u := From(p, t, Times(now, n - 1), evict);
      if evict && n > 1 {
        QuietStays(t, u[""], now);
      }
      QuietNext(p, u, now, evict);
      Settled(p, OwnLevel(p, t, now) - n * p.cost, now);
    }
  }

  lemma Settled(p: Params, level: int, now: int)
    requires level <= Capacity(p)
    ensures Level(p, Bucket(level, now), now) == level
  {
  }

  /** The other keys, all at one instant: the last of them triggers the eviction. */
  lemma {:induction false} Fill(p: Params, e: Entry, now: int, i: nat, evict: bool)
    requires i <= MANY && now - e.lastSeen > IDLE_TTL
    ensures var u := From(p, map["" := e], Fillers(now, i), evict);
            && (forall k | k in u && k != "" :: |k| <= i && u[k].lastSeen == now)
            && (!evict || i < MANY ==> "" in u && u[""] == e && |u| == i + 1)
            && (evict && i == MANY ==> "" !in u)
  {
    hide Next;
    if i > 0 {
      assert Fillers(now, i)[..i - 1] == Fillers(now, i - 1);
      Fill(p, e, now, i - 1, evict);
      var u, key := From(p, map["" := e], Fillers(now, i - 1), evict), Filler(i - 1);
      assert |key| == i;
      FillOne(p, e, u, key, now, evict);
    }
  }

  lemma FillOne(p: Params, e: Entry, u: Table, key: string, now: int, evict: bool)
    requires "" in u && u[""] == e && key != "" && key !in u && |u| <= MANY && now - e.lastSeen > IDLE_TTL
    requires forall k | k in u && k != "" :: u[k].lastSeen == now
    ensures var v := Next(p, u, key, now, evict);
            && (forall k | k in v && k != "" :: v[k].lastSeen == now && (k in u || k == key))
            && (if evict && |u| == MANY then "" !in v else "" in v && v[""] == e && |v| == |u| + 1)
  {
  }

  /** The run that tells the two limiters apart. */
  function Comeback(p: Params, m: nat): seq<Call> {
    Times(0, p.burst) + Fillers(IDLE_TTL + 1, MANY) + Times(IDLE_TTL + 1, m)
  }

  lemma ComebackLevel(p: Params, m: nat, evict: bool)
    requires p.burst > 0 && p.cost > 0
    requires var refill := p.rate * (IDLE_TTL + 1);
             refill < Capacity(p) && m * p.cost <= refill
    ensures OwnLevel(p, After(p, Comeback(p, m), evict), IDLE_TTL + 1)
            == (if evict then Capacity(p) else p.rate * (IDLE_TTL + 1)) - m * p.cost
  {
    var now := IDLE_TTL + 1;
    var drained := Times(0, p.burst);
    Settled(p, Capacity(p), 0);
    Drain(p, map[], 0, p.burst, evict);
    var e := Entry(Bucket(0, 0), 0);
    assert From(p, map[], drained, evict) == map["" := e];
    FromConcat(p, map[], drained, Fillers(now, MANY), evict);
    FromConcat(p, map[], drained + Fillers(now, MANY), Times(now, m), evict);
    Fill(p, e, now, MANY, evict);
    var u := From(p, map["" := e], Fillers(now, MANY), evict);
    Settled(p, Capacity(p), now);
    assert OwnLevel(p, u, now) == if evict then Capacity(p) else p.rate * now;
    Drain(p, u, now, m, evict);
  }

  lemma ComebackOrdered(p: Params, m: nat)
    ensures Ordered(Comeback(p, m) + [Call("", IDLE_TTL + 1)])
  {
  }

  /** Whatever the limits: no sequence of calls can observe eviction if and only if a bucket
      refills within the idle time. */
  lemma EvictionUnobservableExactly(p: Params)
    requires p.cost > 0
    ensures RefillsWhileIdle(p) <==>
            forall calls, c | Ordered(calls + [c]) :: Answer(p, calls, c, true) == Answer(p, calls, c, false)
  {
    if RefillsWhileIdle(p) {
      forall calls, c | Ordered(calls + [c]) ensures Answer(p, calls, c, true) == Answer(p, calls, c, false) {
        EvictionUnobservable(p, calls, c);
      }
    } else {
      var refill := p.rate * (IDLE_TTL + 1);
      var m, c := refill / p.cost, Call("", IDLE_TTL + 1);
      LastRequest(p, refill, m);
      ComebackLevel(p, m, true);
      ComebackLevel(p, m, false);
      ComebackOrdered(p, m);
      assert Answer(p, Comeback(p, m), c, true) != Answer(p, Comeback(p, m), c, false);
    }
  }

  lemma Divide(x: nat, c: nat)
    requires c > 0
    ensures c * (x / c) <= x < c * (x / c) + c && c * (x / c + 1) == c * (x / c) + c
  {
  }

  lemma LastRequest(p: Params, refill: nat, m: nat)
    requires p.cost > 0 && refill < Capacity(p) && m == refill / p.cost
    ensures m * p.cost <= refill < m * p.cost + p.cost <= Capacity(p) && p.burst > 0
  {
    Divide(refill, p.cost);
    if p.burst <= m {
      Scale(p.cost, p.burst, m);
    } else {
      Scale(p.cost, m + 1, p.burst);
    }
  }

  // ----- The limits in use -----

  /** (requests per minute, burst) of the router's ten limiters. */
  const LIMITS: seq<(nat, nat)> :=
    [(40, 15), (1200, 300), (30, 10), (20, 8), (40, 12), (120, 30), (20, 6), (15, 4), (180, 60), (15, 5)]

  /** With fifteen minutes of idle time, the burst may be fifteen minutes' worth. */
  lemma SmallBurstRefills(perMinute: nat, burst: nat)
    requires perMinute < MINUTE
    ensures RefillsWhileIdle(PerMinute(perMinute, burst)) <==> burst <= 15 * perMinute
  {
  }

  /** In every configured limiter a key is granted a call exactly while, from any of its granted
      calls on, it makes at most the burst and perMinute more for every minute. */
  lemma ConfiguredLimitersExactly(i: nat, calls: seq<Call>, c: Call)
    requires i < |LIMITS| && Ordered(calls + [c])
    ensures var (perMinute, burst) := LIMITS[i];
            var p := PerMinute(perMinute, burst);
            var granted := GrantedTo(p, calls, c.key);
            Answer(p, calls, c, true) <==>
            forall j | 0 <= j < |granted| ::
              60_000_000_000 * (|granted| - j + 1 - burst) <= perMinute * (c.now - granted[j])
  {
    var (perMinute, burst) := LIMITS[i];
    var p := PerMinute(perMinute, burst);
    var granted := GrantedTo(p, calls, c.key);
    SmallBurstRefills(perMinute, burst);
    AnswerExactly(p, calls, c, true);
    assert p.cost == 60_000_000_000 && p.rate == perMinute && p.burst == burst >= 1;
    hide PerMinute, Answer, GrantedTo;
    forall j | 0 <= j < |granted|
      ensures p.cost * (|granted| - j + 1) <= p.cost * p.burst + p.rate * (c.now - granted[j]) <==>
              60_000_000_000 * (|granted| - j + 1 - burst) <= perMinute * (c.now - granted[j])
    {
    }
  }

  lemma ConfiguredLimitersNeverForget(i: nat, calls: seq<Call>, c: Call)
    requires i < |LIMITS| && Ordered(calls + [c])
    ensures var p := PerMinute(LIMITS[i].0, LIMITS[i].1);
            Answer(p, calls, c, true) == Answer(p, calls, c, false)
  {
    SmallBurstRefills(LIMITS[i].0, LIMITS[i].1);
    EvictionUnobservable(PerMinute(LIMITS[i].0, LIMITS[i].1), calls, c);
  }
}
