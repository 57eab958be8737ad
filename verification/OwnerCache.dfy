/** Which node may report for a server: a cached lookup with a time to live, checked while
    servers move and lookups overlap. Times are nanoseconds. */
module OwnerCache {
  import opened Options

  type Server = string
  type Node = string
  type Caller = nat

  const TTL := 60 * 1_000_000_000

  datatype Entry = Entry(node: Node, at: int)

  predicate Hit(entries: map<Server, Entry>, s: Server, n: Node, now: int) {
    s in entries && now - entries[s].at < TTL && entries[s].node == n
  }

  function Find<V>(m: map<string, V>, s: Server): Option<V> {
    if s in m then Some(m[s]) else None
  }

  // ----- Steps -----

  /** A call after its cache check, and after the locator has answered. */
  datatype Phase = Asking(s: Server, n: Node) | Answered(s: Server, n: Node, owner: Option<Node>, when: int)

  /** One use of the locator whose answer reached the cache. */
  datatype Named = Named(s: Server, n: Node, located: int, stored: int)

  /** `hosts` is the truth the locator reads; `log` is history. */
  datatype State = State(
    now: int,
    hosts: map<Server, Node>,
    entries: map<Server, Entry>,
    calls: map<Caller, Phase>,
    log: set<Named>)

  datatype Step =
    | Move(s: Server, to: Option<Node>)       // the server is created, transferred or deleted
    | Check(c: Caller, s: Server, n: Node)    // look into the cache; accept at once on a hit
    | Locate(c: Caller)
    | Finish(c: Caller)                       // store what was found and return

  predicate Enabled(st: State, step: Step) {
    match step
    case Move(_, _) => true
    case Check(c, s, _) => c !in st.calls && s != ""
    case Locate(c) => c in st.calls && st.calls[c].Asking?
    case Finish(c) => c in st.calls && st.calls[c].Answered?
  }

  function Apply(st: State, step: Step): State
    requires Enabled(st, step)
  {
    match step
    case Move(s, to) => st.(hosts := if to.Some? then st.hosts[s := to.value] else st.hosts - {s})
    case Check(c, s, n) =>
      if Hit(st.entries, s, n, st.now) then st else st.(calls := st.calls[c := Asking(s, n)])
    case Locate(c) =>
      var p := st.calls[c];
      st.(calls := st.calls[c := Answered(p.s, p.n, Find(st.hosts, p.s), st.now)])
    case Finish(c) =>
      var p := st.calls[c];
      if p.owner.None? then st.(calls := st.calls - {c})
      else
        st.(entries := st.entries[p.s := Entry(p.owner.value, st.now)],
            calls := st.calls - {c},
            log := st.log + {Named(p.s, p.owner.value, p.when, st.now)})
  }

  /** The answer a step gives, if it is the one that decides. */
  function Verdict(st: State, step: Step): Option<bool>
    requires Enabled(st, step)
  {
    match step
    case Check(_, s, n) => if Hit(st.entries, s, n, st.now) then Some(true) else None
    case Finish(c) => Some(st.calls[c].owner == Some(st.calls[c].n))
    case _ => None
  }

  predicate Next(st: State, step: Step, st': State) {
    && st.now <= st'.now
    && Enabled(st.(now := st'.now), step)
    && st' == Apply(st.(now := st'.now), step)
  }

  datatype Run = Run(states: seq<State>, steps: seq<Step>) {
    ghost predicate Valid() {
      && |states| == |steps| + 1
      && states[0].entries == map[] && states[0].calls == map[] && states[0].log == {}
      && forall i | 0 <= i < |steps| :: Next(states[i], steps[i], states[i + 1])
    }

    /** The state step i acts on. */
    function Before(i: nat): State
      requires i < |steps| && |states| == |steps| + 1
    {
      states[i].(now := states[i + 1].now)
    }

    /** Node n hosts s at some moment of [from, to]. */
    ghost predicate Hosted(s: Server, n: Node, from: int, to: int) {
      exists k :: 0 <= k < |states| && from <= states[k].now <= to && Find(states[k].hosts, s) == Some(n)
    }
  }

  // ----- Everything known about ownership was true when the locator said it -----

  ghost predicate EntriesOk(st: State) {
    forall s | s in st.entries :: exists located :: Named(s, st.entries[s].node, located, st.entries[s].at) in st.log
  }

  ghost predicate LogOk(r: Run, st: State) {
    forall e | e in st.log :: e.located <= e.stored <= st.now && r.Hosted(e.s, e.n, e.located, e.located)
  }

  ghost predicate AnswerOk(r: Run, now: int, p: Phase) {
    p.Answered? ==> p.when <= now && (p.owner.Some? ==> r.Hosted(p.s, p.owner.value, p.when, p.when))
  }

  ghost predicate CallsOk(r: Run, st: State) {
    forall c | c in st.calls :: AnswerOk(r, st.now, st.calls[c])
  }

  lemma EntriesNext(st: State, step: Step, st': State)
    requires Next(st, step, st') && EntriesOk(st)
    ensures EntriesOk(st')
  {
  }

  lemma LogNext(r: Run, st: State, step: Step, st': State)
    requires Next(st, step, st') && LogOk(r, st) && CallsOk(r, st)
    ensures LogOk(r, st')
  {
  }

  lemma CallsNext(r: Run, n: nat)
    requires n < |r.steps| && |r.states| == |r.steps| + 1
    requires Next(r.states[n], r.steps[n], r.states[n + 1]) && CallsOk(r, r.states[n])
    ensures CallsOk(r, r.states[n + 1])
  {
  }

  lemma {:induction false} RunInv(r: Run, n: nat)
    requires r.Valid() && n < |r.states|
    ensures EntriesOk(r.states[n]) && LogOk(r, r.states[n]) && CallsOk(r, r.states[n])
  {
    if n > 0 {
      RunInv(r, n - 1);
      EntriesNext(r.states[n - 1], r.steps[n - 1], r.states[n]);
      LogNext(r, r.states[n - 1], r.steps[n - 1], r.states[n]);
      CallsNext(r, n - 1);
    }
  }

  /** An accepted node hosted the server within the last 60 s, give or take the longest time
      an answer took to reach the cache. */
  lemma AcceptanceIsRecent(r: Run, i: nat, s: Server, n: Node, delay: nat)
    requires r.Valid() && i < |r.steps| && Verdict(r.Before(i), r.steps[i]) == Some(true)
    requires forall e | e in r.states[i + 1].log :: e.stored - e.located <= delay
    requires r.steps[i].Check? ==> r.steps[i].s == s && r.steps[i].n == n
    requires r.steps[i].Finish? ==> r.states[i].calls[r.steps[i].c].s == s && r.states[i].calls[r.steps[i].c].n == n
    ensures r.Hosted(s, n, r.states[i + 1].now - 60_000_000_000 - delay + 1, r.states[i + 1].now)
  {
    RunInv(r, i + 1);
    var st := r.states[i + 1];
    assert Next(r.states[i], r.steps[i], st);
    var located :| Named(s, n, located, st.entries[s].at) in st.log;
    assert r.Hosted(s, n, located, located);
  }

  /** A check accepts at once exactly if the cache names the node and is younger than 60 s; in
      that case nothing is asked, and otherwise the locator is. */
  lemma CheckExactly(r: Run, i: nat)
    requires r.Valid() && i < |r.steps| && r.steps[i].Check?
    ensures var Check(c, s, n) := r.steps[i];
            var st, st' := r.states[i], r.states[i + 1];
            && st'.entries == st.entries && st'.hosts == st.hosts && st'.log == st.log
            && if s in st.entries && st.entries[s].node == n && st'.now - st.entries[s].at < 60_000_000_000 then
                 Verdict(r.Before(i), r.steps[i]) == Some(true) && st'.calls == st.calls
               else
                 Verdict(r.Before(i), r.steps[i]) == None && st'.calls == st.calls[c := Asking(s, n)]
  {
    assert Next(r.states[i], r.steps[i], r.states[i + 1]);
  }

  /** The locator's answer is the server's node at that time; finishing stores it, if there is
      one, as of the time of storing, and accepts exactly the node that was named. */
  lemma AnswerExactly(r: Run, i: nat)
    requires r.Valid() && i < |r.steps| && (r.steps[i].Locate? || r.steps[i].Finish?)
    ensures r.steps[i].c in r.states[i].calls
    ensures var st, st', c := r.states[i], r.states[i + 1], r.steps[i].c;
            var p := st.calls[c];
            && st'.hosts == st.hosts
            && if r.steps[i].Locate? then
                 && st'.entries == st.entries
                 && st'.calls == st.calls[c := Answered(p.s, p.n, if p.s in st.hosts then Some(st.hosts[p.s]) else None,
                                                        st'.now)]
               else
                 && p.Answered? && st'.calls == st.calls - {c}
                 && st'.entries == (if p.owner.None? then st.entries
                                    else st.entries[p.s := Entry(p.owner.value, st'.now)])
                 && Verdict(r.Before(i), r.steps[i]) == Some(p.owner == Some(p.n))
  {
    assert Next(r.states[i], r.steps[i], r.states[i + 1]);
  }

  /** Only a move changes which node hosts a server, and of that server alone; the cache hears
      nothing of it. */
  lemma MoveExactly(r: Run, i: nat)
    requires r.Valid() && i < |r.steps| && r.steps[i].Move?
    ensures var Move(s, to) := r.steps[i];
            var st, st' := r.states[i], r.states[i + 1];
            && (if s in st'.hosts then to == Some(st'.hosts[s]) else to == None)
            && (forall t | t != s :: t in st'.hosts <==> t in st.hosts)
            && (forall t | t in st.hosts && t != s :: st'.hosts[t] == st.hosts[t])
            && st'.entries == st.entries && st'.calls == st.calls && st'.log == st.log
  {
    assert Next(r.states[i], r.steps[i], r.states[i + 1]);
  }

  /** Steps i to j are one call of c, from its cache check to its end. */
  predicate IsCall(r: Run, c: Caller, s: Server, n: Node, i: nat, j: nat)
    requires |r.states| == |r.steps| + 1
  {
    && i < j < |r.steps| && r.steps[i] == Check(c, s, n) && r.steps[j] == Finish(c)
    && (forall k | i < k < j :: r.steps[k] != Finish(c))
    && !Hit(r.states[i].entries, s, n, r.states[i + 1].now)
  }

  ghost predicate HostsThroughout(r: Run, s: Server, n: Node, i: nat, j: nat)
    requires i <= j < |r.states|
  {
    forall k | i <= k <= j :: Find(r.states[k].hosts, s) == Some(n)
  }

  lemma {:induction false} CallTracked(r: Run, c: Caller, s: Server, n: Node, i: nat, j: nat, k: nat)
    requires r.Valid() && IsCall(r, c, s, n, i, j) && HostsThroughout(r, s, n, i, j) && i < k <= j
    ensures c in r.states[k].calls
    ensures var p := r.states[k].calls[c]; p.s == s && p.n == n && (p.Answered? ==> p.owner == Some(n))
  {
    assert Next(r.states[k - 1], r.steps[k - 1], r.states[k]);
    if k > i + 1 {
      CallTracked(r, c, s, n, i, j, k - 1);
      assert Find(r.states[k - 1].hosts, s) == Some(n);
    }
  }

  /** A node that hosts the server while the call lasts is never refused, whatever the cache
      holds and whatever overlaps. */
  lemma HostIsNeverRefused(r: Run, c: Caller, s: Server, n: Node, i: nat, j: nat)
    requires r.Valid() && IsCall(r, c, s, n, i, j) && HostsThroughout(r, s, n, i, j)
    ensures Enabled(r.Before(j), r.steps[j]) && Verdict(r.Before(j), r.steps[j]) == Some(true)
  {
    CallTracked(r, c, s, n, i, j, j);
    assert Next(r.states[j], r.steps[j], r.states[j + 1]);
  }

  // ----- The cache -----

  class Cache {
    var entries: map<Server, Entry>
    const wired: bool

    constructor (wired: bool)
      ensures entries == map[] && this.wired == wired
    {
      entries := map[];
      this.wired := wired;
    }

    /** One call that nothing overlaps; `owner` is the locator's answer, given at `when`. */
    method OwnedBy(s: Server, n: Node, now: int, owner: Option<Node>, when: int) returns (ok: bool)
      requires now <= when
      modifies this
      ensures !wired ==> ok && entries == old(entries)
      ensures wired && s == "" ==> !ok && entries == old(entries)
      ensures wired && s != "" ==>
              var hit := s in old(entries) && now - old(entries)[s].at < 60_000_000_000 && old(entries)[s].node == n;
              && ok == (hit || owner == Some(n))
              && entries == if hit || owner.None? then old(entries)
                            else old(entries)[s := Entry(owner.value, when)]
    {
      if !wired { return true; }
      if s == "" { return false; }
      var young := s in entries && now - entries[s].at < TTL;
      if young && entries[s].node == n { return true; }
      if owner.Some? { entries := entries[s := Entry(owner.value, when)]; }
      return owner.Some? && owner.value == n;
    }
  }
}
