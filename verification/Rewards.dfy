/** Earning coins: the AFK page and the daily reward. Times are nanoseconds. */
module Rewards {
  import opened Options
  import opened Int64
  import E = Economy

  // ----- Settings -----

  /** A stored setting: absent, not a 64-bit number, or a number. */
  datatype Setting = Missing | Invalid | Number(n: int)

  function Read(s: Setting, fallback: int): int {
    if s.Number? && s.n > 0 then s.n else fallback
  }

  datatype Settings = Settings(
    coins: Setting,
    minSeconds: Setting,
    maxSeconds: Setting,
    dailyAmount: Setting,
    dailyHours: Setting)

  /** What the admin handler lets into the table: numbers from 0 to the setting's cap. Text that
      is no number is refused too; here it may be stored, and reads like an absent setting. */
  predicate Within(s: Setting, cap: int) {
    s.Number? ==> 0 <= s.n <= cap
  }

  predicate Storable(s: Settings) {
    && Within(s.coins, 100_000) && Within(s.minSeconds, 86_400) && Within(s.maxSeconds, 86_400)
    && Within(s.dailyAmount, 10_000_000) && Within(s.dailyHours, 8_760)
  }

  const SECOND := 1_000_000_000
  const HOUR := 3600 * SECOND

  const MIN_INTERVAL := 20 * SECOND
  const MAX_INTERVAL := 90 * SECOND

  /** What a heartbeat is judged by. */
  datatype Rate = Rate(coins: int, min: int, max: int)

  /** Durations are 64-bit; an empty window falls back to the defaults. */
  function RateOf(s: Settings): Rate {
    var min, max := Wrap(Read(s.minSeconds, 20) * SECOND), Wrap(Read(s.maxSeconds, 90) * SECOND);
    if min >= max then Rate(Read(s.coins, 1), MIN_INTERVAL, MAX_INTERVAL) else Rate(Read(s.coins, 1), min, max)
  }

  function IntervalOf(s: Settings): int {
    Wrap(Read(s.dailyHours, 24) * HOUR)
  }

  /** The gap the conditional upsert enforces; negating a duration wraps too. */
  function GapOf(interval: int): int {
    -Wrap(-interval)
  }

  /** The caps rule out every wrap: for all storable settings the window is the stored one,
      20 to 90 seconds standing for what is absent or not positive and for an empty window,
      and the daily gap is the stored number of hours, or 24. */
  lemma CapsPreventWrap(s: Settings)
    requires Storable(s)
    ensures var r := RateOf(s);
            var min := if s.minSeconds.Number? && s.minSeconds.n > 0 then s.minSeconds.n else 20;
            var max := if s.maxSeconds.Number? && s.maxSeconds.n > 0 then s.maxSeconds.n else 90;
            && r.min == (if min < max then min else 20) * 1_000_000_000
            && r.max == (if min < max then max else 90) * 1_000_000_000
            && SECOND <= r.min < r.max <= 86_400 * SECOND
            && r.coins == (if s.coins.Number? && s.coins.n > 0 then s.coins.n else 1) && 1 <= r.coins <= 100_000
    ensures var hours := if s.dailyHours.Number? && s.dailyHours.n > 0 then s.dailyHours.n else 24;
            GapOf(IntervalOf(s)) == IntervalOf(s) == hours * 3_600_000_000_000 > 0
  {
  }

  /** Difference of two times, as a saturating 64-bit duration. */
  function Sub(t: int, u: int): int {
    if t - u > MAX then MAX else if t - u < MIN then MIN else t - u
  }

  // ----- AFK heartbeats of one user -----

  datatype Session = Session(last: int, id: string, started: int)

  datatype Beat = Beat(at: int, id: string)

  predicate Live(row: Option<Session>, now: int, r: Rate) {
    row.Some? && row.value.id != "" && Sub(now, row.value.last) <= r.max
  }

  predicate Accepted(row: Option<Session>, b: Beat, r: Rate) {
    Live(row, b.at, r) ==> row.value.id == b.id
  }

  predicate Paid(row: Option<Session>, b: Beat, r: Rate) {
    Live(row, b.at, r) && row.value.id == b.id && r.min <= Sub(b.at, row.value.last)
  }

  function After(row: Option<Session>, b: Beat, r: Rate): Option<Session> {
    if !Accepted(row, b, r) then row
    else Some(Session(b.at, b.id, if Live(row, b.at, r) then row.value.started else b.at))
  }

  /** One beat, against the row before it: another tab that beat at most the maximum gap ago
      shuts it out, and the same tab within the window is paid. */
  lemma BeatExactly(row: Option<Session>, b: Beat, s: Settings)
    requires Storable(s)
    ensures var r := RateOf(s);
            var held := row.Some? && row.value.id != "" && b.at - row.value.last <= r.max;
            && (Accepted(row, b, r) <==> held ==> row.value.id == b.id)
            && (Paid(row, b, r) <==> held && row.value.id == b.id && r.min <= b.at - row.value.last)
            && (held && row.value.id != b.id ==> After(row, b, r) == row)
            && (held && row.value.id == b.id ==> After(row, b, r) == Some(Session(b.at, b.id, row.value.started)))
            && (!held ==> After(row, b, r) == Some(Session(b.at, b.id, b.at)))
  {
    CapsPreventWrap(s);
    hide RateOf, Storable;
  }

  /** The row after the first n beats. */
  function RowAt(beats: seq<Beat>, r: Rate, n: nat): Option<Session>
    requires n <= |beats|
  {
    if n == 0 then None else After(RowAt(beats, r, n - 1), beats[n - 1], r)
  }

  predicate PaidAt(beats: seq<Beat>, r: Rate, i: nat)
    requires i < |beats|
  {
    Paid(RowAt(beats, r, i), beats[i], r)
  }

  function Earned(beats: seq<Beat>, r: Rate, n: nat): int
    requires n <= |beats|
  {
    if n == 0 then 0 else Earned(beats, r, n - 1) + if PaidAt(beats, r, n - 1) then r.coins else 0
  }

  predicate InOrder(beats: seq<Beat>) {
    forall i, j | 0 <= i < j < |beats| :: beats[i].at <= beats[j].at
  }

  /** The last beat before n that was let in, by the beats alone: one is shut out exactly if
      the last one let in was another named tab's and is at most the maximum gap ago. */
  function LastIn(beats: seq<Beat>, max: int, n: nat): Option<nat>
    requires n <= |beats|
    ensures LastIn(beats, max, n).Some? ==> LastIn(beats, max, n).value < n
  {
    if n == 0 then None
    else
      var k := LastIn(beats, max, n - 1);
      if k.Some? && beats[k.value].id !in ["", beats[n - 1].id] && beats[n - 1].at - beats[k.value].at <= max then k
      else Some(n - 1)
  }

  lemma {:induction false} RowIsLastIn(beats: seq<Beat>, s: Settings, n: nat)
    requires Storable(s) && n <= |beats|
    ensures var row, k := RowAt(beats, RateOf(s), n), LastIn(beats, RateOf(s).max, n);
            if k.None? then row.None?
            else row.Some? && row.value.last == beats[k.value].at && row.value.id == beats[k.value].id
  {
    hide RateOf, Accepted, Paid, After;
    if n > 0 {
      RowIsLastIn(beats, s, n - 1);
      BeatExactly(RowAt(beats, RateOf(s), n - 1), beats[n - 1], s);
    }
  }

  /** In every run a beat is paid exactly when the last beat let in before it was the same
      named tab's, from the minimum to the maximum interval ago. */
  lemma PaidExactly(beats: seq<Beat>, s: Settings, n: nat)
    requires Storable(s) && n < |beats|
    ensures var r, k := RateOf(s), LastIn(beats, RateOf(s).max, n);
            PaidAt(beats, r, n) <==>
            && k.Some? && beats[k.value].id == beats[n].id != ""
            && r.min <= beats[n].at - beats[k.value].at <= r.max
  {
    hide RateOf, Accepted, Paid, After, RowAt, LastIn;
    RowIsLastIn(beats, s, n);
    BeatExactly(RowAt(beats, RateOf(s), n), beats[n], s);
  }

  /** Every row was written by a beat so far. */
  lemma {:induction false} RowIsABeat(beats: seq<Beat>, r: Rate, n: nat)
    requires InOrder(beats) && 0 < n <= |beats|
    ensures RowAt(beats, r, n).Some? && beats[0].at <= RowAt(beats, r, n).value.last <= beats[n - 1].at
  {
    if n > 1 { RowIsABeat(beats, r, n - 1); }
  }

  /** Paid beats, each worth at least the minimum interval since the beat before it. */
  lemma {:induction false} PaidFor(beats: seq<Beat>, r: Rate, n: nat) returns (k: nat)
    requires InOrder(beats) && 0 < n <= |beats| && r.min > 0
    ensures Earned(beats, r, n) == k * r.coins
    ensures k * r.min <= RowAt(beats, r, n).value.last - beats[0].at
  {
    RowIsABeat(beats, r, n);
    if n == 1 {
      k := 0;
    } else {
      k := PaidFor(beats, r, n - 1);
      RowIsABeat(beats, r, n - 1);
      if PaidAt(beats, r, n - 1) {
        assert (k + 1) * r.coins == k * r.coins + r.coins && (k + 1) * r.min == k * r.min + r.min;
        k := k + 1;
      }
    }
  }

  lemma Quotient(k: nat, m: int, d: int, coins: int)
    requires m > 0 && k * m <= d && coins >= 0
    ensures k * coins <= coins * (d / m)
  {
    var q := d / m;
    assert (q + 1) * m == q * m + m > d;
    assert k >= q + 1 ==> k * m >= (q + 1) * m;
    assert k * coins <= q * coins;
  }

  lemma EarningAtRate(beats: seq<Beat>, r: Rate)
    requires InOrder(beats) && beats != [] && r.coins >= 1 && r.min > 0
    ensures Earned(beats, r, |beats|) <= r.coins * ((beats[|beats| - 1].at - beats[0].at) / r.min)
  {
    var k := PaidFor(beats, r, |beats|);
    RowIsABeat(beats, r, |beats|);
    Quotient(k, r.min, beats[|beats| - 1].at - beats[0].at, r.coins);
  }

  /** However many tabs beat, and whatever an admin has set, a user earns at most once per
      effective minimum interval since the first beat. */
  lemma EarningIsLimited(beats: seq<Beat>, s: Settings)
    requires InOrder(beats) && beats != [] && Storable(s)
    ensures var r, elapsed := RateOf(s), beats[|beats| - 1].at - beats[0].at;
            r.min > 0 && Earned(beats, r, |beats|) <= r.coins * (elapsed / r.min)
  {
    CapsPreventWrap(s);
    EarningAtRate(beats, RateOf(s));
  }

  /** Beats k to n-1 that were accepted are one tab's, and the first found nobody live. */
  predicate OneSession(beats: seq<Beat>, r: Rate, k: nat, n: nat)
    requires k < n <= |beats|
  {
    && !Live(RowAt(beats, r, k), beats[k].at, r)
    && forall m | k < m < n :: Live(RowAt(beats, r, m), beats[m].at, r) && RowAt(beats, r, m).value.id == beats[k].id
  }

  lemma AfterLive(row: Option<Session>, b: Beat, r: Rate)
    requires Live(row, b.at, r)
    ensures var row' := After(row, b, r);
            row'.Some? && row'.value.id == row.value.id && row'.value.started == row.value.started
  {
  }

  lemma AfterIdle(row: Option<Session>, b: Beat, r: Rate)
    requires !Live(row, b.at, r)
    ensures After(row, b, r) == Some(Session(b.at, b.id, b.at))
  {
  }

  /** The reported start of the current session is the beat since which no gap was above the
      maximum and no other tab was let in. */
  lemma {:induction false} SessionStart(beats: seq<Beat>, r: Rate, n: nat) returns (k: nat)
    requires InOrder(beats) && 0 < n <= |beats|
    ensures k < n && OneSession(beats, r, k, n)
    ensures RowAt(beats, r, n).Some? && RowAt(beats, r, n).value.id == beats[k].id
    ensures RowAt(beats, r, n).value.started == beats[k].at
  {
    hide Live, After;
    var row, b := RowAt(beats, r, n - 1), beats[n - 1];
    if !Live(row, b.at, r) {
      k := n - 1;
      AfterIdle(row, b, r);
    } else {
      assert n > 1 by { NoneIsIdle(b.at, r); }
      k := SessionStart(beats, r, n - 1);
      AfterLive(row, b, r);
    }
  }

  lemma NoneIsIdle(now: int, r: Rate)
    ensures !Live(None, now, r)
  {
  }

  /** After beat i was accepted, another tab holds the row only past the maximum gap. */
  lemma {:induction false} TakeoverIsLate(beats: seq<Beat>, r: Rate, i: nat, n: nat)
    requires InOrder(beats) && i < n <= |beats| && beats[i].id != ""
    requires Accepted(RowAt(beats, r, i), beats[i], r)
    ensures RowAt(beats, r, n).Some? && RowAt(beats, r, n).value.last >= beats[i].at
    ensures RowAt(beats, r, n).value.id != beats[i].id ==> Sub(RowAt(beats, r, n).value.last, beats[i].at) > r.max
  {
    if n > i + 1 {
      TakeoverIsLate(beats, r, i, n - 1);
      RowIsABeat(beats, r, n - 1);
    }
  }

  /** Two tabs are never paid within the effective maximum interval of each other. */
  lemma OneTabEarns(beats: seq<Beat>, s: Settings, i: nat, j: nat)
    requires InOrder(beats) && i < j < |beats|
    requires PaidAt(beats, RateOf(s), i) && PaidAt(beats, RateOf(s), j) && beats[i].id != beats[j].id
    ensures beats[j].at - beats[i].at > RateOf(s).max
  {
    TakeoverIsLate(beats, RateOf(s), i, j);
    RowIsABeat(beats, RateOf(s), j);
  }

  // ----- Daily reward of one user -----

  predicate Due(last: Option<int>, now: int, interval: int) {
    last.None? || last.value <= now + Wrap(-interval)
  }

  /** The row after the first n claims, which may arrive in any order. */
  function LastAt(claims: seq<int>, interval: int, n: nat): Option<int>
    requires n <= |claims|
  {
    if n == 0 then None
    else if Due(LastAt(claims, interval, n - 1), claims[n - 1], interval) then Some(claims[n - 1])
    else LastAt(claims, interval, n - 1)
  }

  predicate Claimed(claims: seq<int>, interval: int, i: nat)
    requires i < |claims|
  {
    Due(LastAt(claims, interval, i), claims[i], interval)
  }

  lemma {:induction false} LastGrows(claims: seq<int>, interval: int, i: nat, n: nat)
    requires i < n <= |claims| && GapOf(interval) > 0 && Claimed(claims, interval, i)
    ensures LastAt(claims, interval, n).Some? && LastAt(claims, interval, n).value >= claims[i]
  {
    if n > i + 1 { LastGrows(claims, interval, i, n - 1); }
  }

  ghost predicate Spaced(claims: seq<int>, interval: int, gap: int) {
    forall i, j | 0 <= i < j < |claims| && Claimed(claims, interval, i) && Claimed(claims, interval, j) ::
      claims[j] - claims[i] >= gap
  }

  /** Accepted claims are a full configured interval apart, whatever an admin has set and
      whatever order requests arrive in. */
  lemma ClaimsAreSpaced(claims: seq<int>, s: Settings)
    requires Storable(s)
    ensures var hours := if s.dailyHours.Number? && s.dailyHours.n > 0 then s.dailyHours.n else 24;
            Spaced(claims, IntervalOf(s), hours * 3_600_000_000_000)
  {
    CapsPreventWrap(s);
    var interval := IntervalOf(s);
    forall i, j | 0 <= i < j < |claims| && Claimed(claims, interval, i) && Claimed(claims, interval, j)
      ensures claims[j] - claims[i] >= interval
    {
      LastGrows(claims, interval, i, j);
    }
  }

  /** ... and nothing else refuses one: a claim is accepted exactly when it comes a full
      interval after every claim accepted before it. */
  lemma ClaimedExactly(claims: seq<int>, s: Settings, i: nat)
    requires Storable(s) && i < |claims|
    ensures Claimed(claims, IntervalOf(s), i) <==>
            forall j | 0 <= j < i && Claimed(claims, IntervalOf(s), j) ::
              claims[i] - claims[j] >= (if s.dailyHours.Number? && s.dailyHours.n > 0 then s.dailyHours.n else 24)
                                       * 3_600_000_000_000
  {
    CapsPreventWrap(s);
    var interval := IntervalOf(s);
    if Claimed(claims, interval, i) {
      ClaimsAreSpaced(claims, s);
    } else {
      var j := LastClaim(claims, interval, i);
      assert claims[i] - claims[j] < interval;
    }
  }

  lemma {:induction false} LastClaim(claims: seq<int>, interval: int, n: nat) returns (j: nat)
    requires n <= |claims| && LastAt(claims, interval, n).Some?
    ensures j < n && Claimed(claims, interval, j) && LastAt(claims, interval, n) == Some(claims[j])
  {
    if Claimed(claims, interval, n - 1) { j := n - 1; } else { j := LastClaim(claims, interval, n - 1); }
  }

  function ClaimCount(claims: seq<int>, interval: int, n: nat): nat
    requires n <= |claims|
  {
    if n == 0 then 0 else ClaimCount(claims, interval, n - 1) + if Claimed(claims, interval, n - 1) then 1 else 0
  }

  lemma OneMore(k: int, interval: int)
    ensures k * interval == (k - 1) * interval + interval
  {
  }

  /** So k claims take k - 1 intervals, counted from the first claim. */
  lemma {:induction false} ClaimsTakeTime(claims: seq<int>, s: Settings, n: nat)
    requires Storable(s) && 0 < n <= |claims|
    ensures var k, last := ClaimCount(claims, IntervalOf(s), n), LastAt(claims, IntervalOf(s), n);
            last.Some? && k >= 1 && (k - 1) * IntervalOf(s) <= last.value - claims[0]
  {
    CapsPreventWrap(s);
    hide Storable, Within, IntervalOf;
    var interval := IntervalOf(s);
    if n == 1 {
      assert LastAt(claims, interval, 1) == Some(claims[0]);
      assert ClaimCount(claims, interval, 1) == 1;
    } else {
      ClaimsTakeTime(claims, s, n - 1);
      var k, last := ClaimCount(claims, interval, n - 1), LastAt(claims, interval, n - 1).value;
      OneMore(k, interval);
      assert Claimed(claims, interval, n - 1) ==> claims[n - 1] - last >= interval;
    }
  }

  // ----- The service -----

  datatype Outcome =
    | Elsewhere
    | AlreadyClaimed
    | Failed(error: E.Error)
    | Counted(credited: int, balance: int, started: int)
    | Granted(amount: int, balance: int)

  class Service {
    const bank: E.Tables
    var afk: map<E.User, Session>
    var claims: map<E.User, int>

    constructor (bank: E.Tables)
      ensures this.bank == bank && afk == map[] && claims == map[]
    {
      this.bank := bank;
      afk, claims := map[], map[];
    }

    function Row(user: E.User): Option<Session>
      reads this
    {
      if user in afk then Some(afk[user]) else None
    }

    function Last(user: E.User): Option<int>
      reads this
    {
      if user in claims then Some(claims[user]) else None
    }

    /** The session row is written first; then the coins, if any, are credited. */
    method Heartbeat(user: E.User, id: string, now: int, s: Settings) returns (o: Outcome)
      modifies this`afk, bank
      ensures var row, b, before, r := old(Row(user)), Beat(now, id), old(bank.View()), RateOf(s);
        if !Accepted(row, b, r) then o == Elsewhere && afk == old(afk) && bank.View() == before
        else if user !in before.coins then o == Failed(E.Refused) && afk == old(afk) && bank.View() == before
        else
          && afk == old(afk)[user := After(row, b, r).value]
          && bank.View() == (if Paid(row, b, r) then E.Added(before, E.Entry(user, r.coins, E.Other, None)) else before)
          && o == if !Paid(row, b, r) then Counted(0, before.coins[user], afk[user].started)
                  else match E.AddCheck(before, user, r.coins)
                       case Ok(balance) => Counted(r.coins, balance, afk[user].started)
                       case Err(e) => Failed(e)
    {
      var r := RateOf(s);
      var live := user in afk && afk[user].id != "" && Sub(now, afk[user].last) <= r.max;
      if live && afk[user].id != id { return Elsewhere; }
      var started, credited := now, 0;
      if live {
        started := afk[user].started;
        var elapsed := Sub(now, afk[user].last);
        if r.min <= elapsed <= r.max { credited := r.coins; }
      }
      if user !in bank.coins { return Failed(E.Refused); }  // foreign key of the session row
      afk := afk[user := Session(now, id, started)];
      if credited > 0 {
        var result := bank.AddEntry(user, credited, E.Other);
        if result.Err? { return Failed(result.error); }
        return Counted(credited, result.value, started);
      }
      return Counted(0, bank.coins[user], started);
    }

    /** The claim is recorded by one conditional upsert, then paid. */
    method ClaimDailyReward(user: E.User, now: int, s: Settings) returns (o: Outcome)
      modifies this`claims, bank
      ensures var before, interval := old(bank.View()), IntervalOf(s);
        var amount := if s.dailyAmount.Number? && s.dailyAmount.n > 0 then s.dailyAmount.n else 100;
        if user !in before.coins then o == Failed(E.Refused) && claims == old(claims) && bank.View() == before
        else if !Due(old(Last(user)), now, interval) then o == AlreadyClaimed && claims == old(claims)
            && bank.View() == before
        else
          && claims == old(claims)[user := now]
          && bank.View() == E.Added(before, E.Entry(user, amount, E.Other, None))
          && o == match E.AddCheck(before, user, amount)
                  case Ok(balance) => Granted(amount, balance)
                  case Err(e) => Failed(e)
    {
      if user !in bank.coins { return Failed(E.Refused); }
      var cutoff := now + Wrap(-IntervalOf(s));
      if user in claims && !(claims[user] <= cutoff) { return AlreadyClaimed; }
      claims := claims[user := now];
      var amount := Read(s.dailyAmount, 100);
      var result := bank.AddEntry(user, amount, E.Other);
      if result.Err? { return Failed(result.error); }
      return Granted(amount, result.value);
    }
  }
}
