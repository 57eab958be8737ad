/** The inbound side of a node connection: message budget, signature and timestamp checks,
    replay cache, in the order the read loop applies them. Times are in nanoseconds. */
module ReplayGuard {
  import opened Int64
  import opened Options
  import opened TokenBucket

  const SECOND := 1_000_000_000
  const MAX_CLOCK_SKEW_SECS := 30
  const NONCE_CACHE_TTL := 120 * SECOND
  const BUDGET := Params(20, SECOND, 40)

  /** `signed` says whether the signature matches the other fields under the node's secret. */
  datatype Envelope = Envelope(timestamp: int, nonce: string, signed: bool)

  /** A received envelope and the clock readings taken while it is handled. */
  datatype Message = Message(env: Envelope, arrived: int, verified: int, checked: int)

  /** In 64-bit arithmetic, where the negative of the least number is itself. */
  predicate TimestampIsFresh(env: Envelope, now: int) {
    var delta := Wrap(now / SECOND - env.timestamp);
    (if delta < 0 then Wrap(-delta) else delta) <= MAX_CLOCK_SKEW_SECS
  }

  predicate Verify(env: Envelope, now: int) {
    TimestampIsFresh(env, now) && env.signed
  }

  // ----- The nonce cache -----

  function Swept(seen: map<string, int>, now: int, ttl: int): map<string, int> {
    map n | n in seen && now - seen[n] < ttl :: seen[n]
  }

  class NonceCache {
    var seen: map<string, int>
    const ttl: int

    constructor (ttl: int)
      ensures seen == map[] && this.ttl == ttl
    {
      seen := map[];
      this.ttl := ttl;
    }

    method CheckAndRecord(nonce: string, now: int) returns (ok: bool)
      modifies this
      ensures ok <==> nonce !in Swept(old(seen), now, ttl)
      ensures ok <==> !(nonce in old(seen) && now - old(seen)[nonce] < ttl)
      ensures seen == Swept(old(seen), now, ttl)[nonce := if ok then now else old(seen)[nonce]]
    {
      var todo := seen.Keys;
      while todo != {}
        invariant todo <= seen.Keys <= old(seen).Keys
        invariant forall n | n in seen :: seen[n] == old(seen)[n]
        invariant forall n | n in old(seen) && n !in todo :: n in seen <==> now - old(seen)[n] < ttl
      {
        var n :| n in todo;
        if now - seen[n] >= ttl {
          seen := seen - {n};
        }
        todo := todo - {n};
      }
      assert seen == Swept(old(seen), now, ttl);
      ok := nonce !in seen;
      if ok {
        seen := seen[nonce := now];
      }
    }
  }

  // ----- The read loop -----

  datatype Guard = Guard(bucket: Bucket, seen: map<string, int>)

  /** One turn of the loop; `None` closes the connection. */
  function Handle(g: Guard, m: Message): Option<Guard> {
    if !Allows(BUDGET, g.bucket, m.arrived) then None
    else if !Verify(m.env, m.verified) then None
    else
      var live := Swept(g.seen, m.checked, NONCE_CACHE_TTL);
      if m.env.nonce in live then None
      else Some(Guard(Charge(BUDGET, g.bucket, m.arrived), live[m.env.nonce := m.checked]))
  }

  /** The guard after these messages, if the connection is still open. */
  function After(start: int, msgs: seq<Message>): Option<Guard> {
    if msgs == [] then Some(Guard(Full(BUDGET, start), map[]))
    else
      match After(start, msgs[..|msgs| - 1])
      case None => None
      case Some(g) => Handle(g, msgs[|msgs| - 1])
  }

  /** Reads messages until one is refused; the messages before it were all accepted. With a
      clock that never runs backwards, that is the first one that is not acceptable. */
  method ReadLoop(start: int, msgs: seq<Message>) returns (accepted: nat)
    ensures accepted <= |msgs| && After(start, msgs[..accepted]).Some?
    ensures accepted < |msgs| ==> After(start, msgs[..accepted + 1]).None?
    ensures Ordered(start, msgs) ==> forall i | 0 <= i < accepted :: Acceptable(msgs, i)
    ensures Ordered(start, msgs) && accepted < |msgs| ==> !Acceptable(msgs, accepted)
  {
    var nonces := new NonceCache(NONCE_CACHE_TTL);
    var limiter := Full(BUDGET, start);
    accepted := 0;
    while accepted < |msgs|
      invariant accepted <= |msgs| && fresh(nonces) && nonces.ttl == NONCE_CACHE_TTL
      invariant After(start, msgs[..accepted]) == Some(Guard(limiter, nonces.seen))
    {
      var m := msgs[accepted];
      assert msgs[..accepted + 1][..accepted] == msgs[..accepted];
      if !Allows(BUDGET, limiter, m.arrived) {
        break;
      }
      limiter := Charge(BUDGET, limiter, m.arrived);
      if !Verify(m.env, m.verified) {
        break;
      }
      var unseen := nonces.CheckAndRecord(m.env.nonce, m.checked);
      if !unseen {
        break;
      }
      accepted := accepted + 1;
    }
    LoopEnds(start, msgs, accepted);
  }

  lemma LoopEnds(start: int, msgs: seq<Message>, n: nat)
    requires n <= |msgs| && After(start, msgs[..n]).Some? && (n < |msgs| ==> After(start, msgs[..n + 1]).None?)
    ensures Ordered(start, msgs) ==> forall i | 0 <= i < n :: Acceptable(msgs, i)
    ensures Ordered(start, msgs) && n < |msgs| ==> !Acceptable(msgs, n)
  {
    if Ordered(start, msgs) {
      AcceptedPrefix(start, msgs, n);
      if n < |msgs| { AcceptedPrefix(start, msgs, n + 1); }
    }
  }

  // ----- What acceptance means -----

  /** The clock never runs backwards. */
  predicate Ordered(start: int, msgs: seq<Message>) {
    && (forall i | 0 <= i < |msgs| :: start <= msgs[i].arrived <= msgs[i].verified <= msgs[i].checked)
    && (forall i, j | 0 <= i < j < |msgs| :: msgs[i].checked <= msgs[j].arrived)
  }

  /** The cache is the accepted history, cut off at the time to live. */
  predicate Remembers(g: Guard, msgs: seq<Message>, now: int) {
    && (forall n | n in g.seen :: exists i | 0 <= i < |msgs| :: msgs[i].env.nonce == n && msgs[i].checked == g.seen[n])
    && (forall i | 0 <= i < |msgs| && now - msgs[i].checked < NONCE_CACHE_TTL ::
          msgs[i].env.nonce in g.seen && g.seen[msgs[i].env.nonce] == msgs[i].checked)
  }

  lemma SweptRemembers(g: Guard, msgs: seq<Message>, before: int, now: int)
    requires Remembers(g, msgs, before) && before <= now
    ensures Remembers(g.(seen := Swept(g.seen, now, NONCE_CACHE_TTL)), msgs, now)
  {
  }

  lemma RecordedRemembers(g: Guard, msgs: seq<Message>, m: Message, g': Guard)
    requires Remembers(g, msgs, m.checked) && m.env.nonce !in g.seen
    requires g'.seen == g.seen[m.env.nonce := m.checked]
    ensures Remembers(g', msgs + [m], m.checked)
  {
    var all := msgs + [m];
    forall n | n in g'.seen ensures exists i | 0 <= i < |all| :: all[i].env.nonce == n && all[i].checked == g'.seen[n] {
      if n == m.env.nonce {
        assert all[|msgs|] == m;
      } else {
        var i :| 0 <= i < |msgs| && msgs[i].env.nonce == n && msgs[i].checked == g.seen[n];
        assert all[i] == msgs[i];
      }
    }
  }

  function Clock(start: int, msgs: seq<Message>): int {
    if msgs == [] then start else msgs[|msgs| - 1].checked
  }

  lemma OrderedPrefix(start: int, msgs: seq<Message>)
    requires Ordered(start, msgs) && msgs != []
    ensures Ordered(start, msgs[..|msgs| - 1]) && Clock(start, msgs[..|msgs| - 1]) <= msgs[|msgs| - 1].arrived
  {
  }

  lemma {:induction false} HistoryRemembered(start: int, msgs: seq<Message>)
    requires Ordered(start, msgs) && After(start, msgs).Some?
    ensures Remembers(After(start, msgs).value, msgs, Clock(start, msgs))
  {
    if msgs != [] {
      var earlier, m := msgs[..|msgs| - 1], msgs[|msgs| - 1];
      OrderedPrefix(start, msgs);
      HistoryRemembered(start, earlier);
      var g := After(start, earlier).value;
      SweptRemembers(g, earlier, Clock(start, earlier), m.checked);
      hide Remembers, Ordered;
      RecordedRemembers(g.(seen := Swept(g.seen, m.checked, NONCE_CACHE_TTL)), earlier, m, After(start, msgs).value);
      assert msgs == earlier + [m];
    }
  }

  lemma {:induction false} OpenBefore(start: int, msgs: seq<Message>, k: nat)
    requires After(start, msgs).Some? && k <= |msgs|
    ensures After(start, msgs[..k]).Some?
  {
    if k < |msgs| {
      assert msgs[..|msgs| - 1][..k] == msgs[..k];
      OpenBefore(start, msgs[..|msgs| - 1], k);
    } else {
      assert msgs[..k] == msgs;
    }
  }

  lemma {:induction false} OrderedUpTo(start: int, msgs: seq<Message>, k: nat)
    requires Ordered(start, msgs) && k <= |msgs|
    ensures Ordered(start, msgs[..k])
  {
  }

  predicate AcceptedWithin(msgs: seq<Message>, nonce: string, now: int) {
    exists i | 0 <= i < |msgs| :: msgs[i].env.nonce == nonce && now - msgs[i].checked < NONCE_CACHE_TTL
  }

  lemma LiveExactly(g: Guard, msgs: seq<Message>, before: int, now: int, nonce: string)
    requires Remembers(g, msgs, before) && before <= now
    ensures nonce in Swept(g.seen, now, NONCE_CACHE_TTL) <==> AcceptedWithin(msgs, nonce, now)
  {
    SweptRemembers(g, msgs, before, now);
  }

  /** The cache decides exactly as an unbounded history would: a message that passed the
      earlier checks is refused if and only if its nonce was accepted less than the time
      to live ago. */
  lemma CacheIsExact(start: int, msgs: seq<Message>, m: Message)
    requires Ordered(start, msgs + [m]) && After(start, msgs).Some?
    requires var g := After(start, msgs).value; Allows(BUDGET, g.bucket, m.arrived) && Verify(m.env, m.verified)
    ensures After(start, msgs + [m]).None? <==> AcceptedWithin(msgs, m.env.nonce, m.checked)
  {
    hide Verify, Allows, Charge, Remembers, Swept, AcceptedWithin;
    var all := msgs + [m];
    assert all[..|msgs|] == msgs && all[|msgs|] == m;
    OrderedPrefix(start, all);
    HistoryRemembered(start, msgs);
    LiveExactly(After(start, msgs).value, msgs, Clock(start, msgs), m.checked, m.env.nonce);
  }

  /** What freshness means: the timestamp is within 30 s of the clock, or exactly 2^63 s away
      from it, modulo 2^64. */
  lemma FreshExactly(env: Envelope, now: int)
    ensures TimestampIsFresh(env, now) <==>
            var delta := Wrap(now / SECOND - env.timestamp);
            -MAX_CLOCK_SKEW_SECS <= delta <= MAX_CLOCK_SKEW_SECS || delta == MIN
  {
  }

  lemma WrappedApart(x: int, y: int, timestamp: int)
    requires x <= y && y - x <= MAX / 2
    ensures Wrap(y - timestamp) - Wrap(x - timestamp) == y - x
            || Wrap(y - timestamp) - Wrap(x - timestamp) == y - x - TWO_64
  {
  }

  /** Two passes of the freshness check for one timestamp are less than 61 s apart, for clock
      readings less than 292 years apart. */
  lemma FreshnessWindow(env: Envelope, t: int, u: int)
    requires TimestampIsFresh(env, t) && TimestampIsFresh(env, u) && u - t <= MAX
    ensures u - t < 61 * SECOND
  {
    if t <= u {
      WrappedApart(t / SECOND, u / SECOND, env.timestamp);
      FreshExactly(env, t);
      FreshExactly(env, u);
    }
  }

  lemma {:induction false} AcceptedWereFresh(start: int, msgs: seq<Message>, i: nat)
    requires After(start, msgs).Some? && i < |msgs|
    ensures Verify(msgs[i].env, msgs[i].verified)
  {
    OpenBefore(start, msgs, i + 1);
    assert msgs[..i + 1][..i] == msgs[..i];
  }

  lemma PassedChecks(start: int, msgs: seq<Message>, m: Message)
    requires After(start, msgs + [m]).Some?
    ensures After(start, msgs).Some?
    ensures Allows(BUDGET, After(start, msgs).value.bucket, m.arrived) && Verify(m.env, m.verified)
  {
    assert (msgs + [m])[..|msgs|] == msgs;
  }

  lemma OrderedPair(start: int, msgs: seq<Message>, i: nat, j: nat)
    requires Ordered(start, msgs) && i < j < |msgs|
    ensures start <= msgs[i].verified <= msgs[i].checked <= msgs[j].verified <= msgs[j].checked
  {
  }

  /** No envelope is accepted twice on a connection, as long as at most 59 s pass between a
      message's freshness check and its nonce check. */
  lemma NoEnvelopeTwice(start: int, msgs: seq<Message>, i: nat, j: nat)
    requires Ordered(start, msgs) && After(start, msgs).Some? && i < j < |msgs|
    requires msgs[j].checked - msgs[j].verified <= 59 * SECOND && msgs[j].verified - start <= MAX
    ensures msgs[i].env != msgs[j].env
  {
    hide After, Verify, TimestampIsFresh, Ordered;
    var before, m := msgs[..j], msgs[j];
    OpenBefore(start, msgs, j + 1);
    OrderedUpTo(start, msgs, j + 1);
    assert msgs[..j + 1] == before + [m];
    PassedChecks(start, before, m);
    CacheIsExact(start, before, m);
    OrderedPair(start, msgs, i, j);
    assert before[i] == msgs[i];
    if msgs[i].env == m.env {
      AcceptedWereFresh(start, msgs, i);
      VerifiedWindow(m.env, msgs[i].verified, m.verified);
    }
  }

  lemma VerifiedWindow(env: Envelope, t: int, u: int)
    requires Verify(env, t) && Verify(env, u) && u - t <= MAX
    ensures u - t < 61 * SECOND
  {
    FreshnessWindow(env, t, u);
  }

  /** One nanosecond more, and the same envelope can be accepted again. */
  lemma LateCheckAcceptsReplay()
    returns (start: int, msgs: seq<Message>)
    ensures Ordered(start, msgs) && After(start, msgs).Some? && |msgs| == 2 && msgs[0].env == msgs[1].env
    ensures msgs[1].checked - msgs[1].verified == 59 * SECOND + 1 && msgs[1].verified - start <= MAX
  {
    start := 0;
    var env := Envelope(30, "n", true);
    var again := 61 * SECOND - 1;
    var first := Message(env, 0, 0, 0);
    var second := Message(env, again, again, again + 59 * SECOND + 1);
    msgs := [first, second];
    assert msgs[..1] == [first] && [first][..0] == [];
    assert TimestampIsFresh(env, 0) && TimestampIsFresh(env, again);
    var g := Guard(Full(BUDGET, 0), map[]);
    assert After(0, []) == Some(g);
    var g1 := Guard(Charge(BUDGET, g.bucket, 0), map["n" := 0]);
    assert Swept(g.seen, 0, NONCE_CACHE_TTL) == map[];
    assert After(0, [first]) == Some(g1);
    assert Swept(g1.seen, second.checked, NONCE_CACHE_TTL) == map[];
  }

  /** No run on a connection younger than 292 years accepts an envelope twice with at most d
      between the two checks of the second one. */
  ghost predicate NoReplayWithin(d: int) {
    forall start, msgs: seq<Message>, i, j |
      && Ordered(start, msgs) && After(start, msgs).Some? && 0 <= i < j < |msgs|
      && msgs[j].checked - msgs[j].verified <= d && msgs[j].verified - start <= MAX ::
      msgs[i].env != msgs[j].env
  }

  /** 59 s is the exact limit. */
  lemma NoReplayExactly(d: int)
    ensures NoReplayWithin(d) <==> d <= 59 * SECOND
  {
    if d <= 59 * SECOND {
      forall start, msgs: seq<Message>, i, j |
        && Ordered(start, msgs) && After(start, msgs).Some? && 0 <= i < j < |msgs|
        && msgs[j].checked - msgs[j].verified <= d && msgs[j].verified - start <= MAX
        ensures msgs[i].env != msgs[j].env
      {
        NoEnvelopeTwice(start, msgs, i, j);
      }
    } else {
      var start, msgs := LateCheckAcceptsReplay();
      assert msgs[0].env == msgs[1].env;
    }
  }

  // ----- The loop, from the messages alone -----

  predicate Fresh(timestamp: int, now: int) {
    var delta := Wrap(now / 1_000_000_000 - timestamp);
    -30 <= delta <= 30 || delta == MIN
  }

  /** Message i is accepted after the messages before it: it is signed, its timestamp is fresh,
      no message since any earlier one exceeds 40 and 20 for every second, and no message
      checked within 120 s had its nonce. */
  predicate Acceptable(msgs: seq<Message>, i: nat)
    requires i < |msgs|
  {
    var m := msgs[i];
    && m.env.signed && Fresh(m.env.timestamp, m.verified)
    && (forall j | 0 <= j < i :: 1_000_000_000 * (i - j + 1) <= 40_000_000_000 + 20 * (m.arrived - msgs[j].arrived))
    && (forall j | 0 <= j < i && msgs[j].env.nonce == m.env.nonce :: m.checked - msgs[j].checked >= 120_000_000_000)
  }

  function Arrivals(msgs: seq<Message>): (r: seq<int>)
    ensures |r| == |msgs| && forall i | 0 <= i < |r| :: r[i] == msgs[i].arrived
  {
    seq(|msgs|, i requires 0 <= i < |msgs| => msgs[i].arrived)
  }

  lemma {:induction false} BucketIsHistory(start: int, msgs: seq<Message>)
    requires After(start, msgs).Some?
    ensures After(start, msgs).value.bucket == Drawn(BUDGET, Full(BUDGET, start), Arrivals(msgs))
  {
    if msgs != [] {
      var k := |msgs| - 1;
      BucketIsHistory(start, msgs[..k]);
      assert Arrivals(msgs)[..k] == Arrivals(msgs[..k]);
    }
  }

  lemma BudgetExactly(start: int, msgs: seq<Message>, m: Message)
    requires Ordered(start, msgs + [m]) && After(start, msgs).Some?
    ensures Allows(BUDGET, After(start, msgs).value.bucket, m.arrived) <==>
            forall j | 0 <= j < |msgs| ::
              1_000_000_000 * (|msgs| - j + 1) <= 40_000_000_000 + 20 * (m.arrived - msgs[j].arrived)
  {
    var all, granted := msgs + [m], Arrivals(msgs);
    forall i | 0 <= i < |msgs| ensures start <= granted[i] <= m.arrived {
      assert all[i] == msgs[i] && all[|msgs|] == m;
    }
    forall i, j | 0 <= i < j < |msgs| ensures granted[i] <= granted[j] {
      assert all[i] == msgs[i] && all[j] == msgs[j];
    }
    assert start <= m.arrived by { assert all[|msgs|] == m; }
    BucketIsHistory(start, msgs);
    AllowsExactly(BUDGET, start, granted, m.arrived);
  }

  lemma VerifiedExactly(env: Envelope, now: int)
    ensures Verify(env, now) <==> env.signed && Fresh(env.timestamp, now)
  {
    FreshExactly(env, now);
  }

  lemma OneMoreExactly(start: int, msgs: seq<Message>, m: Message)
    requires Ordered(start, msgs + [m]) && After(start, msgs).Some?
    ensures After(start, msgs + [m]).Some? <==> Acceptable(msgs + [m], |msgs|)
  {
    var all := msgs + [m];
    assert all[..|msgs|] == msgs && all[|msgs|] == m && forall j | 0 <= j < |msgs| :: all[j] == msgs[j];
    BudgetExactly(start, msgs, m);
    VerifiedExactly(m.env, m.verified);
    hide Allows, Verify, Fresh, Ordered;
    if Allows(BUDGET, After(start, msgs).value.bucket, m.arrived) && Verify(m.env, m.verified) {
      CacheIsExact(start, msgs, m);
    }
  }

  /** For every run of messages: the connection is still open after them if and only if each of
      them was acceptable after those before it. */
  lemma {:induction false} AcceptedExactly(start: int, msgs: seq<Message>)
    requires Ordered(start, msgs)
    ensures After(start, msgs).Some? <==> forall i | 0 <= i < |msgs| :: Acceptable(msgs, i)
  {
    if msgs != [] {
      var k := |msgs| - 1;
      var before, m := msgs[..k], msgs[k];
      assert msgs == before + [m];
      OrderedUpTo(start, msgs, k);
      AcceptedExactly(start, before);
      if After(start, before).Some? { OneMoreExactly(start, before, m); }
      forall i | 0 <= i < k ensures Acceptable(msgs, i) <==> Acceptable(before, i) {
        AcceptableEarlier(before, m, i);
      }
    }
  }

  lemma AcceptableEarlier(msgs: seq<Message>, m: Message, i: nat)
    requires i < |msgs|
    ensures Acceptable(msgs + [m], i) <==> Acceptable(msgs, i)
  {
    assert forall j | 0 <= j <= i :: (msgs + [m])[j] == msgs[j];
  }

  lemma AcceptedPrefix(start: int, msgs: seq<Message>, n: nat)
    requires Ordered(start, msgs) && n <= |msgs|
    ensures After(start, msgs[..n]).Some? <==> forall i | 0 <= i < n :: Acceptable(msgs, i)
  {
    OrderedUpTo(start, msgs, n);
    AcceptedExactly(start, msgs[..n]);
    forall i | 0 <= i < n ensures Acceptable(msgs[..n], i) <==> Acceptable(msgs, i) {
      assert forall j | 0 <= j <= i :: msgs[..n][j] == msgs[j];
    }
  }

  // ----- How much the cache can hold -----

  /** From any message on, the budget bounds how many can have been accepted. */
  lemma {:induction false} BudgetSpent(start: int, msgs: seq<Message>, a: nat)
    requires Ordered(start, msgs) && After(start, msgs).Some? && a < |msgs|
    ensures var b := After(start, msgs).value.bucket;
            && b.last == msgs[|msgs| - 1].arrived
            && b.level + SECOND * (|msgs| - a) <= 40 * SECOND + 20 * (b.last - msgs[a].arrived)
  {
    var k := |msgs| - 1;
    if a < k {
      OrderedPrefix(start, msgs);
      BudgetSpent(start, msgs[..k], a);
    }
  }

  lemma {:induction false} FewNonces(msgs: seq<Message>, keys: set<string>, a: nat)
    requires a <= |msgs|
    requires forall n | n in keys :: exists i | a <= i < |msgs| :: msgs[i].env.nonce == n
    ensures |keys| <= |msgs| - a
    decreases |msgs| - a
  {
    if a == |msgs| {
      assert keys == {};
    } else {
      var rest := keys - {msgs[a].env.nonce};
      FewNonces(msgs, rest, a + 1);
    }
  }

  /** The oldest accepted message that the cache may still hold. */
  lemma {:induction false} FirstLive(msgs: seq<Message>, now: int) returns (a: nat)
    requires forall i, j | 0 <= i < j < |msgs| :: msgs[i].checked <= msgs[j].checked
    ensures a <= |msgs|
    ensures forall i | 0 <= i < |msgs| :: now - msgs[i].checked < NONCE_CACHE_TTL <==> i >= a
  {
    a := |msgs|;
    while a > 0 && now - msgs[a - 1].checked < NONCE_CACHE_TTL
      invariant a <= |msgs| && forall i | a <= i < |msgs| :: now - msgs[i].checked < NONCE_CACHE_TTL
    {
      a := a - 1;
    }
  }

  lemma {:induction false} SeenIsLive(start: int, msgs: seq<Message>)
    requires After(start, msgs).Some? && msgs != []
    ensures var g, now := After(start, msgs).value, msgs[|msgs| - 1].checked;
            forall n | n in g.seen :: now - g.seen[n] < NONCE_CACHE_TTL
  {
  }

  /** When one clock reading serves the whole handling of a message, the cache never holds
      as many as 40 + 20 * 120 nonces. */
  lemma CacheIsSmall(start: int, msgs: seq<Message>)
    requires Ordered(start, msgs) && After(start, msgs).Some?
    requires forall i | 0 <= i < |msgs| :: msgs[i].arrived == msgs[i].checked
    ensures |After(start, msgs).value.seen| < 40 + 20 * 120
  {
    if msgs != [] {
      var g, now := After(start, msgs).value, msgs[|msgs| - 1].checked;
      HistoryRemembered(start, msgs);
      SeenIsLive(start, msgs);
      var a := FirstLive(msgs, now);
      forall n | n in g.seen.Keys ensures exists i | a <= i < |msgs| :: msgs[i].env.nonce == n {
        var i :| 0 <= i < |msgs| && msgs[i].env.nonce == n && msgs[i].checked == g.seen[n];
        assert i >= a;
      }
      FewNonces(msgs, g.seen.Keys, a);
      if a < |msgs| {
        BudgetSpent(start, msgs, a);
        LevelKept(start, msgs);
      }
    }
  }

  lemma {:induction false} LevelKept(start: int, msgs: seq<Message>)
    requires After(start, msgs).Some?
    ensures After(start, msgs).value.bucket.level >= 0
  {
  }
}
