/** The per-server stats cache: puts, two-phase gets and sweeps in any interleaving, against
    a history that forgets nothing. Times are nanoseconds. */
module StatsCache {
  import opened Options

  type Server = string
  type Caller = nat

  const STALE_AFTER := 20 * 1_000_000_000

  datatype Entry = Entry(json: string, at: int)

  predicate Stale(e: Entry, now: int) {
    now - e.at > STALE_AFTER
  }

  function Lookup(m: map<Server, Entry>, s: Server): Option<Entry> {
    if s in m then Some(m[s]) else None
  }

  /** What a caller that never looks inside expects: the last put, while it is fresh. */
  function Fresh(e: Option<Entry>, now: int): Option<string> {
    if e.Some? && !Stale(e.value, now) then Some(e.value.json) else None
  }

  // ----- Steps -----

  /** `Read` holds the entry a get has copied under the read lock; `Evict` is a get that found
      it stale and is about to take the write lock. */
  datatype Phase = Read(s: Server, e: Entry) | Evict(s: Server)

  /** `last` is every server's last put ever. */
  datatype State = State(now: int, entries: map<Server, Entry>, last: map<Server, Entry>, gets: map<Caller, Phase>)

  datatype Step =
    | Put(s: Server, json: string)
    | GetRead(c: Caller, s: Server)   // copy the entry, or return nothing
    | GetCheck(c: Caller)             // look at the clock; return, or go on to evict
    | GetEvict(c: Caller)             // re-check under the write lock
    | SweepOne(s: Server)             // one iteration of a sweep

  predicate Enabled(st: State, step: Step) {
    match step
    case GetRead(c, _) => c !in st.gets
    case GetCheck(c) => c in st.gets && st.gets[c].Read?
    case GetEvict(c) => c in st.gets && st.gets[c].Evict?
    case _ => true
  }

  function DropStale(entries: map<Server, Entry>, s: Server, now: int): map<Server, Entry> {
    if s in entries && Stale(entries[s], now) then entries - {s} else entries
  }

  function Apply(st: State, step: Step): State
    requires Enabled(st, step)
  {
    match step
    case Put(s, json) =>
      st.(entries := st.entries[s := Entry(json, st.now)], last := st.last[s := Entry(json, st.now)])
    case GetRead(c, s) =>
      if s in st.entries then st.(gets := st.gets[c := Read(s, st.entries[s])]) else st
    case GetCheck(c) =>
      if Stale(st.gets[c].e, st.now) then st.(gets := st.gets[c := Evict(st.gets[c].s)])
      else st.(gets := st.gets - {c})
    case GetEvict(c) =>
      st.(entries := DropStale(st.entries, st.gets[c].s, st.now), gets := st.gets - {c})
    case SweepOne(s) => st.(entries := DropStale(st.entries, s, st.now))
  }

  /** Eviction loses nothing fresh: what is cached is the last put, and what is missing is
      stale. */
  ghost predicate Inv(st: State) {
    && (forall s | s in st.entries :: s in st.last && st.entries[s] == st.last[s])
    && (forall s | s in st.last && s !in st.entries :: Stale(st.last[s], st.now))
  }

  /** The clock moves on, then one step happens. */
  predicate Next(st: State, step: Step, st': State) {
    && st.now <= st'.now
    && Enabled(st.(now := st'.now), step)
    && st' == Apply(st.(now := st'.now), step)
  }

  lemma InvNext(st: State, step: Step, st': State)
    requires Inv(st) && Next(st, step, st')
    ensures Inv(st')
  {
  }

  datatype Run = Run(states: seq<State>, steps: seq<Step>) {
    ghost predicate Valid() {
      && |states| == |steps| + 1
      && states[0].entries == map[] && states[0].last == map[] && states[0].gets == map[]
      && forall i | 0 <= i < |steps| :: Next(states[i], steps[i], states[i + 1])
    }
  }

  lemma {:induction false} RunInv(r: Run, n: nat)
    requires r.Valid() && n < |r.states|
    ensures Inv(r.states[n])
  {
    if n > 0 {
      RunInv(r, n - 1);
      InvNext(r.states[n - 1], r.steps[n - 1], r.states[n]);
    }
  }

  /** A get whose read comes at step i and whose clock reading comes at step j. */
  predicate IsGet(r: Run, c: Caller, s: Server, i: nat, j: nat)
    requires |r.states| == |r.steps| + 1
  {
    && i < j < |r.steps| && r.steps[i] == GetRead(c, s) && r.steps[j] == GetCheck(c)
    && forall k | i < k < j :: r.steps[k] != GetCheck(c)
  }

  /** What it returns. */
  function Returned(r: Run, c: Caller, j: nat): Option<string>
    requires j + 1 < |r.states| && c in r.states[j].gets && r.states[j].gets[c].Read?
  {
    Fresh(Some(r.states[j].gets[c].e), r.states[j + 1].now)
  }

  lemma {:induction false} HeldUntilChecked(r: Run, c: Caller, s: Server, i: nat, j: nat, k: nat)
    requires r.Valid() && IsGet(r, c, s, i, j) && i < k <= j
    requires s in r.states[i].entries
    ensures c in r.states[k].gets && r.states[k].gets[c] == Read(s, r.states[i].entries[s])
  {
    if k > i + 1 {
      HeldUntilChecked(r, c, s, i, j, k - 1);
      assert Next(r.states[k - 1], r.steps[k - 1], r.states[k]);
    } else {
      assert Next(r.states[i], r.steps[i], r.states[k]);
    }
  }

  /** A get that finds an entry returns the put that was last when it read, exactly when that
      put is at most 20 s old by its own clock reading. */
  lemma GetIsExact(r: Run, c: Caller, s: Server, i: nat, j: nat)
    requires r.Valid() && IsGet(r, c, s, i, j) && s in r.states[i].entries
    ensures c in r.states[j].gets && r.states[j].gets[c].Read?
    ensures s in r.states[i].last
    ensures Returned(r, c, j) == if r.states[j + 1].now - r.states[i].last[s].at <= 20_000_000_000
                                 then Some(r.states[i].last[s].json) else None
  {
    RunInv(r, i);
    HeldUntilChecked(r, c, s, i, j, j);
  }

  /** A get that finds no entry, and so returns nothing, is right to: there was no put, or the
      last one is stale already. */
  lemma MissIsExact(r: Run, i: nat, s: Server)
    requires r.Valid() && i < |r.states| && s !in r.states[i].entries
    ensures s in r.states[i].last ==> r.states[i].now - r.states[i].last[s].at > 20_000_000_000
  {
    RunInv(r, i);
  }

  /** A put is cached and is the server's last put; gets and sweeps leave the last puts alone,
      and an entry that is gone afterwards was stale. */
  lemma PutsAreKept(r: Run, n: nat, s: Server)
    requires r.Valid() && n < |r.steps|
    ensures var st, st', step := r.states[n], r.states[n + 1], r.steps[n];
            if step.Put? && step.s == s then
              && Lookup(st'.entries, s) == Some(Entry(step.json, st'.now)) == Lookup(st'.last, s)
            else
              && Lookup(st'.last, s) == Lookup(st.last, s)
              && (s in st'.entries ==> s in st.entries && st'.entries[s] == st.entries[s])
              && (s in st.entries && s !in st'.entries ==> st'.now - st.entries[s].at > 20_000_000_000)
  {
    assert Next(r.states[n], r.steps[n], r.states[n + 1]);
  }

  /** Eviction and sweeping do remove: what the step looked at is gone if it was stale. */
  lemma StaleIsDropped(r: Run, n: nat, s: Server)
    requires r.Valid() && n < |r.steps|
    requires r.steps[n].GetEvict? ==> r.steps[n].c in r.states[n].gets && r.states[n].gets[r.steps[n].c].s == s
    requires r.steps[n] == SweepOne(s) || r.steps[n].GetEvict?
    ensures s in r.states[n + 1].entries ==> r.states[n + 1].now - r.states[n + 1].entries[s].at <= 20_000_000_000
  {
    assert Next(r.states[n], r.steps[n], r.states[n + 1]);
  }

  /** The course of a get: it copies the entry it finds, returns it unless it is more than 20 s
      old by its own clock reading, and otherwise evicts and is done. */
  lemma GetSteps(r: Run, n: nat)
    requires r.Valid() && n < |r.steps| && !r.steps[n].Put? && !r.steps[n].SweepOne?
    ensures var st, st', c := r.states[n], r.states[n + 1], r.steps[n].c;
            match r.steps[n]
            case GetRead(_, s) =>
              && st'.entries == st.entries
              && st'.gets == if s in st.entries then st.gets[c := Read(s, st.entries[s])] else st.gets
            case GetCheck(_) =>
              && c in st.gets && st.gets[c].Read? && st'.entries == st.entries
              && st'.gets == if st'.now - st.gets[c].e.at > 20_000_000_000 then st.gets[c := Evict(st.gets[c].s)]
                             else st.gets - {c}
            case GetEvict(_) => c in st.gets && st.gets[c].Evict? && st'.gets == st.gets - {c}
            case _ => true
  {
    assert Next(r.states[n], r.steps[n], r.states[n + 1]);
  }

  predicate PutBetween(r: Run, s: Server, i: nat, j: nat)
    requires j <= |r.steps|
  {
    exists k :: i <= k < j && r.steps[k].Put? && r.steps[k].s == s
  }

  lemma {:induction false} LastKept(r: Run, s: Server, i: nat, j: nat)
    requires r.Valid() && i <= j <= |r.steps| && !PutBetween(r, s, i, j)
    ensures Lookup(r.states[j].last, s) == Lookup(r.states[i].last, s)
  {
    if j > i {
      LastKept(r, s, i, j - 1);
      assert Next(r.states[j - 1], r.steps[j - 1], r.states[j]);
    }
  }

  lemma {:induction false} LaterPuts(r: Run, s: Server, i: nat, j: nat)
    requires r.Valid() && i <= j <= |r.steps|
    ensures r.states[i].now <= r.states[j].now
    ensures s in r.states[i].last ==> s in r.states[j].last && r.states[i].last[s].at <= r.states[j].last[s].at
  {
    if j > i {
      LaterPuts(r, s, i, j - 1);
      LastInPast(r, s, j - 1);
      assert Next(r.states[j - 1], r.steps[j - 1], r.states[j]);
    }
  }

  lemma {:induction false} LastInPast(r: Run, s: Server, n: nat)
    requires r.Valid() && n < |r.states|
    ensures s in r.states[n].last ==> r.states[n].last[s].at <= r.states[n].now
  {
    if n > 0 {
      LastInPast(r, s, n - 1);
      assert Next(r.states[n - 1], r.steps[n - 1], r.states[n]);
    }
  }

  /** Exactly when that is also right for the last put at the time of return: if no put came
      in between, or the newest is stale as well, or the one read is still fresh and says the
      same. */
  lemma GetAtReturnExactly(r: Run, c: Caller, s: Server, i: nat, j: nat)
    requires r.Valid() && IsGet(r, c, s, i, j) && s in r.states[i].entries
    ensures c in r.states[j].gets && r.states[j].gets[c].Read? && s in r.states[i].last && s in r.states[j].last
    ensures var earlier, latest, now := r.states[i].last[s], r.states[j].last[s], r.states[j + 1].now;
            Returned(r, c, j) == (if now - latest.at <= 20_000_000_000 then Some(latest.json) else None) <==>
            || !PutBetween(r, s, i, j) || now - latest.at > 20_000_000_000
            || (now - earlier.at <= 20_000_000_000 && earlier.json == latest.json)
  {
    RunInv(r, i);
    GetIsExact(r, c, s, i, j);
    LaterPuts(r, s, i, j);
    if !PutBetween(r, s, i, j) { LastKept(r, s, i, j); }
  }

  /** A put between the read and the clock reading can make a get return nothing although a
      fresh entry was there at every moment. */
  lemma OvertakenGetMisses() returns (r: Run)
    ensures r.Valid() && IsGet(r, 0, "s", 1, 3) && PutBetween(r, "s", 1, 3)
    ensures 0 in r.states[3].gets && r.states[3].gets[0].Read?
    ensures forall k | 1 <= k < |r.states| :: Fresh(Lookup(r.states[k].last, "s"), r.states[k].now).Some?
    ensures Returned(r, 0, 3) == None
  {
    var a, b := Entry("a", 0), Entry("b", STALE_AFTER);
    var s0 := State(0, map[], map[], map[]);
    var s1 := State(0, map["s" := a], map["s" := a], map[]);
    var s2 := State(STALE_AFTER, map["s" := a], map["s" := a], map[0 := Read("s", a)]);
    var s3 := State(STALE_AFTER, map["s" := b], map["s" := b], map[0 := Read("s", a)]);
    var s4 := State(STALE_AFTER + 1, map["s" := b], map["s" := b], map[0 := Evict("s")]);
    r := Run([s0, s1, s2, s3, s4], [Put("s", "a"), GetRead(0, "s"), Put("s", "b"), GetCheck(0)]);
    assert Next(s0, r.steps[0], s1) && Next(s1, r.steps[1], s2) && Next(s2, r.steps[2], s3) && Next(s3, r.steps[3], s4);
    assert r.steps[2].Put?;
  }

  // ----- The cache -----

  class Cache {
    var entries: map<Server, Entry>

    constructor ()
      ensures entries == map[]
    {
      entries := map[];
    }

    method Store(s: Server, json: string, now: int)
      modifies this
      ensures entries == old(entries)[s := Entry(json, now)]
    {
      entries := entries[s := Entry(json, now)];
    }

    /** A get whose phases are not interleaved, with its three clock readings. */
    method Get(s: Server, checked: int, evicted: int) returns (json: Option<string>)
      requires checked <= evicted
      modifies this
      ensures json == if s in old(entries) && checked - old(entries)[s].at <= 20_000_000_000
                      then Some(old(entries)[s].json) else None
      ensures entries == if s in old(entries) && json.None? then old(entries) - {s} else old(entries)
    {
      if s !in entries { return None; }
      var e := entries[s];
      if checked - e.at > STALE_AFTER {
        if s in entries && evicted - entries[s].at > STALE_AFTER { entries := entries - {s}; }
        return None;
      }
      return Some(e.json);
    }

    /** Ranges over the map; deletes what is stale and nothing else. */
    method Sweep(now: int)
      modifies this
      ensures entries == map k | k in old(entries) && now - old(entries)[k].at <= 20_000_000_000 :: old(entries)[k]
    {
      var todo := entries.Keys;
      while todo != {}
        invariant todo <= entries.Keys <= old(entries).Keys
        invariant forall k | k in entries :: entries[k] == old(entries)[k] && (k in todo || !Stale(entries[k], now))
        invariant forall k | k in old(entries) && k !in entries :: Stale(old(entries)[k], now)
        decreases |todo|
      {
        var id :| id in todo;
        todo := todo - {id};
        if now - entries[id].at > STALE_AFTER { entries := entries - {id}; }
      }
    }
  }
}
