/** The token bucket behind `rate.Limiter`, in exact arithmetic: `rate` units flow in per
    nanosecond, a request costs `cost` units, and the bucket holds `burst` requests. */
module TokenBucket {

  datatype Params = Params(rate: nat, cost: nat, burst: nat)

  datatype Bucket = Bucket(level: int, last: int)

  function Capacity(p: Params): nat {
    p.burst * p.cost
  }

  function Full(p: Params, now: int): Bucket {
    Bucket(Capacity(p), now)
  }

  function Level(p: Params, b: Bucket, now: int): int {
    var filled := b.level + p.rate * (now - b.last);
    if filled > Capacity(p) then Capacity(p) else filled
  }

  predicate Allows(p: Params, b: Bucket, now: int) {
    Level(p, b, now) >= p.cost
  }

  function Charge(p: Params, b: Bucket, now: int): Bucket {
    if Allows(p, b, now) then Bucket(Level(p, b, now) - p.cost, now) else b
  }

  /** Waiting in two stretches is waiting once. */
  lemma LevelLater(p: Params, b: Bucket, t: int, u: int)
    requires b.last <= t <= u
    ensures Level(p, b, u) == Level(p, Bucket(Level(p, b, t), t), u)
    ensures Level(p, b, t) <= Level(p, b, u)
  {
  }

  // ----- The same rule without a bucket -----

  /** One more request is granted at `now`, after those granted before: from any granted one on,
      the requests cost no more than a full bucket and what has flowed in since. */
  predicate FitsBudget(p: Params, granted: seq<int>, now: int) {
    && p.burst >= 1
    && forall j | 0 <= j < |granted| ::
         p.cost * (|granted| - j + 1) <= p.cost * p.burst + p.rate * (now - granted[j])
  }

  /** The bucket after requests that were all granted. */
  function Drawn(p: Params, b: Bucket, granted: seq<int>): Bucket {
    if granted == [] then b
    else
      var t := granted[|granted| - 1];
      Bucket(Level(p, Drawn(p, b, granted[..|granted| - 1]), t) - p.cost, t)
  }

  predicate InOrder(start: int, granted: seq<int>, now: int) {
    && start <= now && (forall j | 0 <= j < |granted| :: start <= granted[j] <= now)
    && (forall i, j | 0 <= i < j < |granted| :: granted[i] <= granted[j])
  }

  predicate Covers(p: Params, granted: seq<int>, now: int, x: int, j: nat)
    requires j < |granted|
  {
    x <= p.cost * p.burst + p.rate * (now - granted[j]) - p.cost * (|granted| - j)
  }

  lemma CoversEarlier(p: Params, granted: seq<int>, now: int, x: int, j: nat)
    requires |granted| > 0 && j < |granted| - 1
    ensures var k, t := |granted| - 1, granted[|granted| - 1];
            Covers(p, granted, now, x, j) <==> Covers(p, granted[..k], t, x + p.cost - p.rate * (now - t), j)
  {
    var k, t := |granted| - 1, granted[|granted| - 1];
    assert p.rate * (t - granted[j]) + p.rate * (now - t) == p.rate * (now - granted[j]);
    assert p.cost * (k - j) + p.cost == p.cost * (|granted| - j);
  }

  lemma CoversLast(p: Params, granted: seq<int>, now: int, x: int)
    requires |granted| > 0
    ensures var k, t := |granted| - 1, granted[|granted| - 1];
            Covers(p, granted, now, x, k) <==> x + p.cost - p.rate * (now - t) <= Capacity(p)
  {
  }

  lemma LevelAtLeast(p: Params, b: Bucket, now: int, x: int)
    ensures Level(p, b, now) >= x <==> x <= Capacity(p) && x <= b.level + p.rate * (now - b.last)
  {
  }

  lemma DrawnLast(p: Params, b: Bucket, granted: seq<int>)
    requires granted != []
    ensures var k := |granted| - 1;
            Drawn(p, b, granted) == Bucket(Level(p, Drawn(p, b, granted[..k]), granted[k]) - p.cost, granted[k])
  {
  }

  lemma UntouchedIsFull(p: Params, start: int, now: int)
    requires start <= now
    ensures Level(p, Drawn(p, Full(p, start), []), now) == Capacity(p)
  {
    assert p.rate * (now - start) >= 0;
  }

  /** The level of a bucket that was full at the start, from the history alone. */
  lemma {:induction false} LevelOfHistory(p: Params, start: int, granted: seq<int>, now: int, x: int)
    requires InOrder(start, granted, now)
    ensures Level(p, Drawn(p, Full(p, start), granted), now) >= x <==>
            x <= Capacity(p) && forall j | 0 <= j < |granted| :: Covers(p, granted, now, x, j)
  {
    hide Level, Drawn, Covers, Capacity;
    if granted == [] {
      UntouchedIsFull(p, start, now);
    } else {
      var k, t := |granted| - 1, granted[|granted| - 1];
      LevelAtLeast(p, Drawn(p, Full(p, start), granted), now, x);
      DrawnLast(p, Full(p, start), granted);
      LevelOfHistory(p, start, granted[..k], t, x + p.cost - p.rate * (now - t));
      CoversLast(p, granted, now, x);
      var y := x + p.cost - p.rate * (now - t);
      if forall j | 0 <= j < |granted| :: Covers(p, granted, now, x, j) {
        forall j | 0 <= j < k ensures Covers(p, granted[..k], t, y, j) { CoversEarlier(p, granted, now, x, j); }
      }
      if Covers(p, granted, now, x, k) && forall j | 0 <= j < k :: Covers(p, granted[..k], t, y, j) {
        forall j | 0 <= j < |granted| ensures Covers(p, granted, now, x, j) {
          if j < k { CoversEarlier(p, granted, now, x, j); }
        }
      }
    }
  }

  /** The bucket grants a request exactly when the history leaves room for it. */
  lemma AllowsExactly(p: Params, start: int, granted: seq<int>, now: int)
    requires p.cost > 0 && InOrder(start, granted, now)
    ensures Allows(p, Drawn(p, Full(p, start), granted), now) <==> FitsBudget(p, granted, now)
  {
    hide Level, Drawn, Full, Covers, Capacity;
    LevelOfHistory(p, start, granted, now, p.cost);
    CapacityIsEnough(p);
    forall j | 0 <= j < |granted|
      ensures Covers(p, granted, now, p.cost, j) <==>
              p.cost * (|granted| - j + 1) <= p.cost * p.burst + p.rate * (now - granted[j])
    {
      CoversOne(p, granted, now, j);
    }
  }

  lemma CapacityIsEnough(p: Params)
    requires p.cost > 0
    ensures p.cost <= Capacity(p) <==> p.burst >= 1
  {
  }

  lemma CoversOne(p: Params, granted: seq<int>, now: int, j: nat)
    requires j < |granted|
    ensures Covers(p, granted, now, p.cost, j) <==>
            p.cost * (|granted| - j + 1) <= p.cost * p.burst + p.rate * (now - granted[j])
  {
    assert p.cost * (|granted| - j + 1) == p.cost * (|granted| - j) + p.cost;
  }
}
