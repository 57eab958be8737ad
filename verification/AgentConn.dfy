/** One node connection: commands waiting for their acks, the read loop that delivers them,
    and what happens to the waiting ones when the connection drops. */
module AgentConn {
  import opened Options

  type Id = string
  type Tid = nat

  datatype Ack = Ack(id: Id, ok: bool, error: string)

  function Disconnected(id: Id): Ack {
    Ack(id, false, "node disconnected")
  }

  // ----- The shared state -----

  /** `chans[c]` is the buffer of the c-th channel made, of capacity one; `tags[c]` is the
      command it was made for; `pending` maps a command in flight to its channel. */
  datatype Table = Table(pending: map<Id, nat>, chans: seq<seq<Ack>>, tags: seq<Id>)

  /** A send in a `select` with a `default`: dropped when the buffer is full. */
  function Offer(buffer: seq<Ack>, ack: Ack): (r: seq<Ack>)
    ensures |buffer| <= 1 ==> |r| == 1
  {
    if |buffer| < 1 then buffer + [ack] else buffer
  }

  // ----- The goroutines, one step per critical section or channel operation -----

  datatype Outcome = Got(ack: Ack) | Failed

  datatype Sender =
    | Writing(id: Id, ch: nat)                 // registered, the frame not written yet
    | Awaiting(id: Id, ch: nat)                // in the select
    | Leaving(id: Id, ch: nat, out: Outcome)   // result fixed, entry not removed yet
    | Finished(id: Id, ch: nat, out: Outcome)

  datatype Reader =
    | Reading
    | Delivering(ack: Ack, ch: nat)  // channel found, not sent to yet
    | Failing                        // inside failPending, holding the table's mutex
    | Closed(made: nat)              // failPending is over; `made` channels existed then

  datatype State = State(tab: Table, senders: map<Tid, Sender>, reader: Reader)

  datatype Step =
    | Begin(t: Tid, id: Id)
    | Write(t: Tid, ok: bool)
    | Take(t: Tid)
    | GiveUp(t: Tid)
    | Forget(t: Tid)
    | Lookup(ack: Ack)
    | Deliver
    | FailBegin
    | FailOne(id: Id)
    | FailEnd

  const START := State(Table(map[], [], []), map[], Reading)

  predicate Live(x: Sender) {
    !x.Finished?
  }

  predicate InUse(s: State, id: Id) {
    exists t | t in s.senders :: Live(s.senders[t]) && s.senders[t].id == id
  }

  predicate Enabled(s: State, a: Step) {
    match a
    case Begin(t, id) => t !in s.senders && !s.reader.Failing? && !InUse(s, id)
    case Write(t, _) => t in s.senders && s.senders[t].Writing?
    case Take(t) => t in s.senders && s.senders[t].Awaiting? && s.senders[t].ch < |s.tab.chans|
        && s.tab.chans[s.senders[t].ch] != []
    case GiveUp(t) => t in s.senders && s.senders[t].Awaiting?
    case Forget(t) => t in s.senders && s.senders[t].Leaving? && !s.reader.Failing?
    case Lookup(_) => s.reader.Reading?
    case Deliver => s.reader.Delivering? && s.reader.ch < |s.tab.chans|
    case FailBegin => s.reader.Reading?
    case FailOne(id) => s.reader.Failing? && id in s.tab.pending && s.tab.pending[id] < |s.tab.chans|
    case FailEnd => s.reader.Failing? && s.tab.pending == map[]
  }

  function Registered(tab: Table, id: Id): Table {
    Table(tab.pending[id := |tab.chans|], tab.chans + [[]], tab.tags + [id])
  }

  function Offered(tab: Table, ch: nat, ack: Ack): Table
    requires ch < |tab.chans|
  {
    tab.(chans := tab.chans[ch := Offer(tab.chans[ch], ack)])
  }

  function FailedOne(tab: Table, id: Id): Table
    requires id in tab.pending && tab.pending[id] < |tab.chans|
  {
    Offered(tab, tab.pending[id], Disconnected(id)).(pending := tab.pending - {id})
  }

  function Apply(s: State, a: Step): State
    requires Enabled(s, a)
  {
    match a
    case Begin(t, id) => State(Registered(s.tab, id), s.senders[t := Writing(id, |s.tab.chans|)], s.reader)
    case Write(t, ok) =>
      var x := s.senders[t];
      s.(senders := s.senders[t := if ok then Awaiting(x.id, x.ch) else Leaving(x.id, x.ch, Failed)])
    case Take(t) =>
      var x := s.senders[t];
      var buffer := s.tab.chans[x.ch];
      State(s.tab.(chans := s.tab.chans[x.ch := buffer[1..]]), s.senders[t := Leaving(x.id, x.ch, Got(buffer[0]))],
          s.reader)
    case GiveUp(t) =>
      var x := s.senders[t];
      s.(senders := s.senders[t := Leaving(x.id, x.ch, Failed)])
    case Forget(t) =>
      var x := s.senders[t];
      State(s.tab.(pending := s.tab.pending - {x.id}), s.senders[t := Finished(x.id, x.ch, x.out)], s.reader)
    case Lookup(ack) =>
      if ack.id in s.tab.pending then s.(reader := Delivering(ack, s.tab.pending[ack.id])) else s
    case Deliver => State(Offered(s.tab, s.reader.ch, s.reader.ack), s.senders, Reading)
    case FailBegin => s.(reader := Failing)
    case FailOne(id) => s.(tab := FailedOne(s.tab, id))
    case FailEnd => s.(reader := Closed(|s.tab.chans|))
  }

  // ----- What every step keeps -----

  predicate TableOk(tab: Table) {
    && |tab.tags| == |tab.chans|
    && (forall id | id in tab.pending :: tab.pending[id] < |tab.tags| && tab.tags[tab.pending[id]] == id)
    && (forall c | 0 <= c < |tab.chans| :: BufferOk(tab, c))
  }

  /** A channel holds at most one ack, and only one for its own command. */
  predicate BufferOk(tab: Table, c: nat)
    requires c < |tab.chans| && |tab.tags| == |tab.chans|
  {
    |tab.chans[c]| <= 1 && forall ack | ack in tab.chans[c] :: ack.id == tab.tags[c]
  }

  /** A sender before its `select` has fired can still be found, or has been answered. */
  predicate Reachable(tab: Table, x: Sender) {
    (x.id in tab.pending && tab.pending[x.id] == x.ch) || (x.ch < |tab.chans| && tab.chans[x.ch] != [])
  }

  predicate SenderOk(tab: Table, x: Sender) {
    && x.ch < |tab.tags| && tab.tags[x.ch] == x.id
    && (x.Writing? || x.Awaiting? ==> Reachable(tab, x))
    && (x.Leaving? || x.Finished? ==> x.out.Got? ==> x.out.ack.id == x.id)
  }

  predicate Distinct(senders: map<Tid, Sender>) {
    forall t, u | t in senders && u in senders && t != u ::
      senders[t].ch != senders[u].ch && (Live(senders[t]) && Live(senders[u]) ==> senders[t].id != senders[u].id)
  }

  /** Only commands still in flight are pending. */
  predicate OwnersLive(s: State) {
    forall id | id in s.tab.pending :: Owned(s, id)
  }

  predicate Owned(s: State, id: Id)
    requires id in s.tab.pending
  {
    exists t | t in s.senders :: Live(s.senders[t]) && s.senders[t].id == id && s.senders[t].ch == s.tab.pending[id]
  }

  predicate ReaderOk(s: State) {
    match s.reader
    case Delivering(ack, ch) => ch < |s.tab.tags| && s.tab.tags[ch] == ack.id
    case Closed(made) => made <= |s.tab.chans| && forall id | id in s.tab.pending :: s.tab.pending[id] >= made
    case _ => true
  }

  predicate Inv(s: State) {
    && TableOk(s.tab) && Distinct(s.senders) && OwnersLive(s) && ReaderOk(s)
    && forall t | t in s.senders :: SenderOk(s.tab, s.senders[t])
  }

  lemma InvBegin(s: State, t: Tid, id: Id)
    requires Inv(s) && Enabled(s, Begin(t, id))
    ensures Inv(Apply(s, Begin(t, id)))
  {
    var s' := Apply(s, Begin(t, id));
    forall c | 0 <= c < |s'.tab.chans| ensures BufferOk(s'.tab, c) {
      assert c < |s.tab.chans| ==> BufferOk(s.tab, c);
    }
    forall u | u in s'.senders ensures SenderOk(s'.tab, s'.senders[u]) {
      if u != t {
        assert SenderOk(s.tab, s.senders[u]) && Live(s.senders[u]) ==> s.senders[u].id != id;
      }
    }
    OwnedBegin(s, t, id);
  }

  lemma OwnedBegin(s: State, t: Tid, id: Id)
    requires Enabled(s, Begin(t, id)) && OwnersLive(s)
    ensures OwnersLive(Apply(s, Begin(t, id)))
  {
    var s' := Apply(s, Begin(t, id));
    forall i | i in s'.tab.pending ensures Owned(s', i) {
      if i == id {
        assert t in s'.senders && Live(s'.senders[t]);
      } else {
        assert Owned(s, i);
        var u :| u in s.senders && Live(s.senders[u]) && s.senders[u].id == i && s.senders[u].ch == s.tab.pending[i];
        assert s'.senders[u] == s.senders[u];
      }
    }
  }

  lemma OwnersKept(s: State, s': State)
    requires OwnersLive(s)
    requires forall id | id in s'.tab.pending :: id in s.tab.pending && s.tab.pending[id] == s'.tab.pending[id]
    requires forall t | t in s.senders ::
      && t in s'.senders && s'.senders[t].id == s.senders[t].id && s'.senders[t].ch == s.senders[t].ch
      && (Live(s.senders[t]) ==> Live(s'.senders[t]) || s.senders[t].id !in s'.tab.pending)
    ensures OwnersLive(s')
  {
  }

  /** A sender moves on to another phase of the same command. */
  lemma InvPhase(s: State, t: Tid, x: Sender)
    requires Inv(s) && t in s.senders && x.id == s.senders[t].id && x.ch == s.senders[t].ch
    requires Live(x) && Live(s.senders[t]) && SenderOk(s.tab, x)
    ensures Inv(s.(senders := s.senders[t := x]))
  {
    hide SenderOk, TableOk, ReaderOk;
    var s' := s.(senders := s.senders[t := x]);
    assert ReaderOk(s') by { ReaderIgnoresSenders(s, s'); }
    assert Distinct(s'.senders);
    OwnersKept(s, s');
    hide OwnersLive, Distinct;
  }

  lemma ReaderIgnoresSenders(s: State, s': State)
    requires ReaderOk(s) && s' == s.(senders := s'.senders)
    ensures ReaderOk(s')
  {
  }

  lemma InvTake(s: State, t: Tid)
    requires Inv(s) && Enabled(s, Take(t))
    ensures Inv(Apply(s, Take(t)))
  {
    var s', ch := Apply(s, Take(t)), s.senders[t].ch;
    assert BufferOk(s.tab, ch) && s.tab.chans[ch][0] in s.tab.chans[ch];
    forall c | 0 <= c < |s'.tab.chans| ensures BufferOk(s'.tab, c) {
      assert BufferOk(s.tab, c);
    }
    forall u | u in s'.senders ensures SenderOk(s'.tab, s'.senders[u]) {
      assert SenderOk(s.tab, s.senders[u]);
    }
    OwnersKept(s, s');
  }

  lemma InvForget(s: State, t: Tid)
    requires Inv(s) && Enabled(s, Forget(t))
    ensures Inv(Apply(s, Forget(t)))
  {
    var s' := Apply(s, Forget(t));
    forall c | 0 <= c < |s'.tab.chans| ensures BufferOk(s'.tab, c) {
      assert BufferOk(s.tab, c);
    }
    forall u | u in s'.senders ensures SenderOk(s'.tab, s'.senders[u]) {
      assert SenderOk(s.tab, s.senders[u]);
    }
    OwnersKept(s, s');
  }

  /** Sending to a channel only ever fills an empty buffer with an ack for its command. */
  lemma InvOffered(s: State, ch: nat, ack: Ack)
    requires Inv(s) && ch < |s.tab.chans| && s.tab.tags[ch] == ack.id
    ensures Inv(s.(tab := Offered(s.tab, ch, ack)))
    ensures Offered(s.tab, ch, ack).chans[ch] != []
  {
    var s' := s.(tab := Offered(s.tab, ch, ack));
    forall c | 0 <= c < |s'.tab.chans| ensures BufferOk(s'.tab, c) {
      assert BufferOk(s.tab, c);
    }
    forall u | u in s'.senders ensures SenderOk(s'.tab, s'.senders[u]) {
      assert SenderOk(s.tab, s.senders[u]);
    }
    OwnersKept(s, s');
  }

  lemma InvUnpend(s: State, id: Id)
    requires Inv(s) && id in s.tab.pending && s.tab.chans[s.tab.pending[id]] != []
    ensures Inv(s.(tab := s.tab.(pending := s.tab.pending - {id})))
  {
    var s' := s.(tab := s.tab.(pending := s.tab.pending - {id}));
    forall c | 0 <= c < |s'.tab.chans| ensures BufferOk(s'.tab, c) {
      assert BufferOk(s.tab, c);
    }
    forall u | u in s'.senders ensures SenderOk(s'.tab, s'.senders[u]) {
      assert SenderOk(s.tab, s.senders[u]);
    }
    OwnersKept(s, s');
  }

  lemma InvReader(s: State, r: Reader)
    requires Inv(s) && ReaderOk(s.(reader := r))
    ensures Inv(s.(reader := r))
  {
  }

  lemma InvStep(s: State, a: Step)
    requires Inv(s) && Enabled(s, a)
    ensures Inv(Apply(s, a))
  {
    match a
    case Begin(t, id) => InvBegin(s, t, id);
    case Write(t, ok) => InvPhase(s, t, Apply(s, a).senders[t]);
    case Take(t) => InvTake(s, t);
    case GiveUp(t) => InvPhase(s, t, Apply(s, a).senders[t]);
    case Forget(t) => InvForget(s, t);
    case Lookup(ack) => InvReader(s, Apply(s, a).reader);
    case Deliver =>
      InvOffered(s, s.reader.ch, s.reader.ack);
      InvReader(s.(tab := Offered(s.tab, s.reader.ch, s.reader.ack)), Reading);
    case FailBegin => InvReader(s, Failing);
    case FailOne(id) =>
      var ch := s.tab.pending[id];
      InvOffered(s, ch, Disconnected(id));
      InvUnpend(s.(tab := Offered(s.tab, ch, Disconnected(id))), id);
    case FailEnd => InvReader(s, Closed(|s.tab.chans|));
  }

  // ----- Every interleaving -----

  predicate Next(s: State, a: Step, s': State) {
    Enabled(s, a) && s' == Apply(s, a)
  }

  predicate Run(states: seq<State>, steps: seq<Step>) {
    && |states| == |steps| + 1 && states[0] == START
    && forall i | 0 <= i < |steps| :: Next(states[i], steps[i], states[i + 1])
  }

  lemma {:induction false} RunInv(states: seq<State>, steps: seq<Step>, n: nat)
    requires Run(states, steps) && n < |states|
    ensures Inv(states[n])
  {
    if n > 0 {
      RunInv(states, steps, n - 1);
      assert Next(states[n - 1], steps[n - 1], states[n]);
      InvStep(states[n - 1], steps[n - 1]);
    }
  }

  /** In every reachable state: no channel holds more than one ack, a command that returned
      an ack returned its own, and the channel of a finished command is pending no more. */
  lemma AcksMatch(states: seq<State>, steps: seq<Step>, n: nat)
    requires Run(states, steps) && n < |states|
    ensures forall c | 0 <= c < |states[n].tab.chans| :: |states[n].tab.chans[c]| <= 1
    ensures forall t | t in states[n].senders ::
      var x := states[n].senders[t];
      && (x.Leaving? || x.Finished? ==> x.out.Got? ==> x.out.ack.id == x.id)
      && (x.Finished? && x.id in states[n].tab.pending ==> states[n].tab.pending[x.id] != x.ch)
  {
    RunInv(states, steps, n);
    var s := states[n];
    forall c | 0 <= c < |s.tab.chans| ensures |s.tab.chans[c]| <= 1 {
      assert BufferOk(s.tab, c);
    }
    forall t | t in s.senders && s.senders[t].Finished? && s.senders[t].id in s.tab.pending
      ensures s.tab.pending[s.senders[t].id] != s.senders[t].ch
    {
      assert Owned(s, s.senders[t].id);
    }
    forall t | t in s.senders ensures SenderOk(s.tab, s.senders[t]) { }
  }

  // ----- What each step does, field by field -----

  /** The sender's side: it is registered with a new empty channel, moves on as the write and
      the `select` decide, and takes its entry out when it leaves. */
  lemma SenderSteps(states: seq<State>, steps: seq<Step>, n: nat)
    requires Run(states, steps) && n < |steps|
    ensures var s, s', a := states[n], states[n + 1], steps[n];
      match a
      case Begin(t, id) =>
        && s'.senders == s.senders[t := Writing(id, |s.tab.chans|)] && s'.tab.chans == s.tab.chans + [[]]
        && s'.tab.pending == s.tab.pending[id := |s.tab.chans|]
      case Write(t, ok) =>
        && t in s.senders && s'.tab == s.tab
        && s'.senders == s.senders[t := if ok then Awaiting(s.senders[t].id, s.senders[t].ch)
                                        else Leaving(s.senders[t].id, s.senders[t].ch, Failed)]
      case Take(t) =>
        && t in s.senders && s.senders[t].ch < |s.tab.chans|
        && s'.tab == s.tab.(chans := s.tab.chans[s.senders[t].ch := []])
        && (forall ack | s.tab.chans[s.senders[t].ch] == [ack] ::
              s'.senders == s.senders[t := Leaving(s.senders[t].id, s.senders[t].ch, Got(ack))])
      case GiveUp(t) =>
        && t in s.senders && s'.tab == s.tab
        && s'.senders == s.senders[t := Leaving(s.senders[t].id, s.senders[t].ch, Failed)]
      case Forget(t) =>
        && t in s.senders && s.senders[t].Leaving? && s'.tab == s.tab.(pending := s.tab.pending - {s.senders[t].id})
        && s'.senders == s.senders[t := Finished(s.senders[t].id, s.senders[t].ch, s.senders[t].out)]
      case _ => s'.senders == s.senders
  {
    RunInv(states, steps, n);
    assert Next(states[n], steps[n], states[n + 1]);
    if steps[n].Take? {
      var ch := states[n].senders[steps[n].t].ch;
      assert BufferOk(states[n].tab, ch) && states[n].tab.chans[ch][1..] == [];
    }
  }

  /** The reader's side: an ack for a command in flight is sent to its channel, and fills it if
      it is empty; failPending does the same with a failure ack and takes the entry out. */
  lemma ReaderSteps(states: seq<State>, steps: seq<Step>, n: nat)
    requires Run(states, steps) && n < |steps|
    ensures var s, s', a := states[n], states[n + 1], steps[n];
      match a
      case Lookup(ack) =>
        s' == if ack.id in s.tab.pending then s.(reader := Delivering(ack, s.tab.pending[ack.id])) else s
      case Deliver =>
        && s.reader.Delivering? && s.reader.ch < |s.tab.chans|
        && var ch := s.reader.ch;
           var chans := if s.tab.chans[ch] == [] then s.tab.chans[ch := [s.reader.ack]] else s.tab.chans;
           s' == State(s.tab.(chans := chans), s.senders, Reading)
      case FailOne(id) =>
        && id in s.tab.pending && s.tab.pending[id] < |s.tab.chans| && s'.reader == s.reader
        && s'.tab.pending == s.tab.pending - {id}
        && var ch := s.tab.pending[id];
           s'.tab.chans == if s.tab.chans[ch] == [] then s.tab.chans[ch := [Ack(id, false, "node disconnected")]]
                           else s.tab.chans
      case FailBegin => s'.tab == s.tab && s'.reader == Failing
      case FailEnd => s'.tab == s.tab && s.tab.pending == map[] && s'.reader == Closed(|s.tab.chans|)
      case _ => s'.reader == s.reader
  {
    var s, a := states[n], steps[n];
    assert Next(s, a, states[n + 1]);
    RunInv(states, steps, n);
    if a.Deliver? {
      OfferedFills(s.tab, s.reader.ch, s.reader.ack);
    } else if a.FailOne? {
      OfferedFills(s.tab, s.tab.pending[a.id], Ack(a.id, false, "node disconnected"));
    }
  }

  lemma OfferedFills(tab: Table, ch: nat, ack: Ack)
    requires ch < |tab.chans|
    ensures Offered(tab, ch, ack) ==
            tab.(chans := if tab.chans[ch] == [] then tab.chans[ch := [ack]] else tab.chans)
  {
    assert [] + [ack] == [ack] && tab.chans[ch := tab.chans[ch]] == tab.chans;
  }

  // ----- The first ack wins -----

  predicate TakesFrom(s: State, a: Step, c: nat) {
    a.Take? && a.t in s.senders && s.senders[a.t].ch == c
  }

  /** An ack stays in its channel until the channel's sender takes it: neither a duplicate ack
      nor failPending replaces it. */
  lemma BufferStable(states: seq<State>, steps: seq<Step>, n: nat, c: nat)
    requires Run(states, steps) && n < |steps| && c < |states[n].tab.chans|
    requires states[n].tab.chans[c] != [] && !TakesFrom(states[n], steps[n], c)
    ensures c < |states[n + 1].tab.chans| && states[n + 1].tab.chans[c] == states[n].tab.chans[c]
  {
    assert Next(states[n], steps[n], states[n + 1]);
  }

  predicate Untaken(states: seq<State>, steps: seq<Step>, c: nat, n: nat)
    requires n <= |steps| && n <= |states|
  {
    forall k | 0 <= k < n :: !TakesFrom(states[k], steps[k], c)
  }

  predicate EmptyAt(s: State, c: nat) {
    c < |s.tab.chans| ==> s.tab.chans[c] == []
  }

  lemma {:induction false} EmptyBefore(states: seq<State>, steps: seq<Step>, c: nat, n: nat)
    requires Run(states, steps) && n < |states| && Untaken(states, steps, c, n) && EmptyAt(states[n], c)
    ensures forall k | 0 <= k <= n :: EmptyAt(states[k], c)
  {
    if n > 0 {
      assert !TakesFrom(states[n - 1], steps[n - 1], c) && Next(states[n - 1], steps[n - 1], states[n]);
      if !EmptyAt(states[n - 1], c) { BufferStable(states, steps, n - 1, c); }
      EmptyBefore(states, steps, c, n - 1);
    }
  }

  /** Step m puts `ack` into the empty channel c: it is the node's ack, or failPending's. */
  predicate FilledBy(states: seq<State>, steps: seq<Step>, c: nat, m: nat, ack: Ack)
    requires m < |steps| && m + 1 < |states|
  {
    && c < |states[m].tab.chans| && states[m].tab.chans[c] == []
    && c < |states[m + 1].tab.chans| && states[m + 1].tab.chans[c] == [ack]
    && (|| (steps[m].Deliver? && states[m].reader == Delivering(ack, c))
        || (steps[m] == FailOne(ack.id) && ack == Ack(ack.id, false, "node disconnected")))
  }

  lemma JustFilled(states: seq<State>, steps: seq<Step>, c: nat, n: nat) returns (ack: Ack)
    requires Run(states, steps) && n < |steps| && EmptyAt(states[n], c) && !EmptyAt(states[n + 1], c)
    ensures FilledBy(states, steps, c, n, ack)
  {
    ack := states[n + 1].tab.chans[c][0];
    SenderSteps(states, steps, n);
    ReaderSteps(states, steps, n);
    RunInv(states, steps, n);
    assert Next(states[n], steps[n], states[n + 1]);
  }

  lemma {:induction false} FirstFill(states: seq<State>, steps: seq<Step>, c: nat, n: nat) returns (m: nat, ack: Ack)
    requires Run(states, steps) && n < |states| && Untaken(states, steps, c, n) && !EmptyAt(states[n], c)
    ensures m < n && FilledBy(states, steps, c, m, ack) && states[n].tab.chans[c] == [ack]
    ensures forall k | 0 <= k <= m :: EmptyAt(states[k], c)
  {
    assert n > 0;
    hide Next, FilledBy;
    if EmptyAt(states[n - 1], c) {
      m := n - 1;
      ack := JustFilled(states, steps, c, m);
      EmptyBefore(states, steps, c, m);
      FilledHolds(states, steps, c, m, ack);
    } else {
      m, ack := FirstFill(states, steps, c, n - 1);
      BufferStable(states, steps, n - 1, c);
    }
  }

  lemma FilledHolds(states: seq<State>, steps: seq<Step>, c: nat, m: nat, ack: Ack)
    requires m < |steps| && m + 1 < |states| && FilledBy(states, steps, c, m, ack)
    ensures c < |states[m + 1].tab.chans| && states[m + 1].tab.chans[c] == [ack]
  {
  }

  predicate Waits(s: State, t: Tid, c: nat) {
    t in s.senders && (s.senders[t].Writing? || s.senders[t].Awaiting?) && s.senders[t].ch == c
  }

  lemma WaitsSince(states: seq<State>, steps: seq<Step>, n: nat, t: Tid, c: nat)
    requires Run(states, steps) && n < |steps| && Waits(states[n + 1], t, c)
    ensures (Waits(states[n], t, c) && !TakesFrom(states[n], steps[n], c)) || c >= |states[n].tab.chans|
  {
    RunInv(states, steps, n);
    SenderSteps(states, steps, n);
    if steps[n].Take? && steps[n].t in states[n].senders && steps[n].t != t && t in states[n].senders {
      assert states[n].senders[steps[n].t].ch != states[n].senders[t].ch;
    }
  }

  lemma {:induction false} WaitingUntaken(states: seq<State>, steps: seq<Step>, n: nat, t: Tid, c: nat)
    requires Run(states, steps) && n < |states| && Waits(states[n], t, c)
    ensures Untaken(states, steps, c, n)
  {
    if n > 0 {
      hide Waits, Next, TakesFrom;
      WaitsSince(states, steps, n - 1, t, c);
      if c >= |states[n - 1].tab.chans| {
        NotMadeYet(states, steps, n - 1, c);
        NoTakeYet(states, steps, n - 1, c);
      } else {
        WaitingUntaken(states, steps, n - 1, t, c);
      }
    }
  }

  lemma NoTakeYet(states: seq<State>, steps: seq<Step>, n: nat, c: nat)
    requires Run(states, steps) && n < |steps| && c >= |states[n].tab.chans|
    ensures !TakesFrom(states[n], steps[n], c)
  {
    assert Next(states[n], steps[n], states[n + 1]);
  }

  lemma {:induction false} NotMadeYet(states: seq<State>, steps: seq<Step>, n: nat, c: nat)
    requires Run(states, steps) && n < |states| && c >= |states[n].tab.chans|
    ensures Untaken(states, steps, c, n)
  {
    if n > 0 {
      assert Next(states[n - 1], steps[n - 1], states[n]);
      NotMadeYet(states, steps, n - 1, c);
    }
  }

  /** A command that returns an ack returns the first one its channel was ever given: the
      node's own first ack if it came before the connection failed, else failPending's. */
  lemma {:induction false} GotIsFirstAck(states: seq<State>, steps: seq<Step>, n: nat, t: Tid) returns (m: nat)
    requires Run(states, steps) && n < |states| && t in states[n].senders
    requires states[n].senders[t].Leaving? || states[n].senders[t].Finished?
    requires states[n].senders[t].out.Got?
    ensures var x := states[n].senders[t];
            && m < n && FilledBy(states, steps, x.ch, m, x.out.ack) && x.out.ack.id == x.id
            && forall k | 0 <= k <= m :: EmptyAt(states[k], x.ch)
  {
    AcksMatch(states, steps, n);
    SenderSteps(states, steps, n - 1);
    var s, c := states[n - 1], states[n].senders[t].ch;
    if steps[n - 1] == Take(t) {
      var ack;
      assert Next(s, steps[n - 1], states[n]);
      WaitingUntaken(states, steps, n - 1, t, c);
      m, ack := FirstFill(states, steps, c, n - 1);
    } else {
      m := GotIsFirstAck(states, steps, n - 1, t);
    }
  }

  /** Once failPending is over, every command registered before it ended that is still
      waiting finds an ack in its channel: its select fires at once. */
  lemma NobodyLeftWaiting(states: seq<State>, steps: seq<Step>, n: nat, t: Tid)
    requires Run(states, steps) && n < |states|
    requires states[n].reader.Closed? && t in states[n].senders && states[n].senders[t].ch < states[n].reader.made
    requires states[n].senders[t].Writing? || states[n].senders[t].Awaiting?
    ensures states[n].senders[t].ch < |states[n].tab.chans| && states[n].tab.chans[states[n].senders[t].ch] != []
    ensures states[n].senders[t].Awaiting? ==> Enabled(states[n], Take(t))
  {
    RunInv(states, steps, n);
    assert SenderOk(states[n].tab, states[n].senders[t]);
  }

  /** The reader never blocks: an ack it has found a channel for can always be sent, and
      inside failPending either the loop has another entry or it is done. */
  lemma ReaderNeverBlocks(states: seq<State>, steps: seq<Step>, n: nat)
    requires Run(states, steps) && n < |states|
    ensures states[n].reader.Reading? ==> Enabled(states[n], FailBegin) && forall ack :: Enabled(states[n], Lookup(ack))
    ensures states[n].reader.Delivering? ==> Enabled(states[n], Deliver)
    ensures states[n].reader.Failing? ==>
              Enabled(states[n], FailEnd) || exists id | id in states[n].tab.pending :: Enabled(states[n], FailOne(id))
  {
    RunInv(states, steps, n);
    var s := states[n];
    if s.reader.Failing? && s.tab.pending != map[] {
      var id :| id in s.tab.pending;
      assert Enabled(s, FailOne(id));
    }
  }

  /** No sender is ever stuck on its own account: until it is finished it can write, give up
      on its deadline, or leave, if only failPending is not holding the table. */
  lemma SenderNeverStuck(states: seq<State>, steps: seq<Step>, n: nat, t: Tid)
    requires Run(states, steps) && n < |states| && t in states[n].senders
    ensures var s, x := states[n], states[n].senders[t];
            match x
            case Writing(_, _) => Enabled(s, Write(t, true)) && Enabled(s, Write(t, false))
            case Awaiting(_, _) =>
              Enabled(s, GiveUp(t)) && x.ch < |s.tab.chans| && (s.tab.chans[x.ch] != [] ==> Enabled(s, Take(t)))
            case Leaving(_, _, _) => Enabled(s, Forget(t)) || s.reader.Failing?
            case Finished(_, _, _) => true
  {
    RunInv(states, steps, n);
    assert SenderOk(states[n].tab, states[n].senders[t]);
  }

  /** Each turn of failPending's loop shortens the table, which nobody else can change. */
  lemma FailingTerminates(s: State, a: Step)
    requires Inv(s) && s.reader.Failing? && Enabled(s, a)
    ensures Apply(s, a).tab.pending.Keys == s.tab.pending.Keys - (if a.FailOne? then {a.id} else {})
  {
  }

  // ----- The connection object -----

  /** failPending's effect: every pending command's empty channel gets a failure ack. */
  function AllFailed(tab: Table): Table
    requires |tab.tags| == |tab.chans|
  {
    Table(map[],
          seq(|tab.chans|, c requires 0 <= c < |tab.chans| =>
            if tab.tags[c] in tab.pending && tab.pending[tab.tags[c]] == c then Offer(tab.chans[c],
                Disconnected(tab.tags[c]))
            else tab.chans[c]),
          tab.tags)
  }

  /** The order in which the loop visits the map does not matter. */
  lemma FailOneFirst(tab: Table, id: Id)
    requires TableOk(tab) && id in tab.pending
    ensures TableOk(FailedOne(tab, id)) && AllFailed(FailedOne(tab, id)) == AllFailed(tab)
  {
    var next, ch := FailedOne(tab, id), tab.pending[id];
    forall c | 0 <= c < |tab.chans| ensures BufferOk(next, c) && AllFailed(next).chans[c] == AllFailed(tab).chans[c] {
      assert BufferOk(tab, c);
    }
    assert AllFailed(next).chans == AllFailed(tab).chans;
  }

  lemma NothingToFail(tab: Table)
    requires |tab.tags| == |tab.chans| && tab.pending == map[]
    ensures AllFailed(tab) == tab
  {
    assert AllFailed(tab).chans == tab.chans;
  }

  lemma AllFailedEffect(tab: Table)
    requires TableOk(tab)
    ensures var after := AllFailed(tab);
            && after.pending == map[] && |after.chans| == |tab.chans|
            && (forall c | 0 <= c < |tab.chans| && tab.chans[c] != [] :: after.chans[c] == tab.chans[c])
            && (forall c | 0 <= c < |tab.chans| && c !in tab.pending.Values :: after.chans[c] == tab.chans[c])
            && (forall id | id in tab.pending && tab.chans[tab.pending[id]] == [] ::
                  after.chans[tab.pending[id]] == [Ack(id, false, "node disconnected")])
  {
    forall c | 0 <= c < |tab.chans| ensures BufferOk(tab, c) {}
  }

  class Conn {
    var pending: map<Id, nat>
    var chans: seq<seq<Ack>>  // the buffers of the channels made so far
    ghost var tags: seq<Id>

    ghost function View(): Table
      reads this
    {
      Table(pending, chans, tags)
    }

    constructor ()
      ensures View() == START.tab && TableOk(View())
    {
      pending, chans, tags := map[], [], [];
    }

    /** SendCommand's first critical section. */
    method Register(id: Id) returns (ch: nat)
      requires TableOk(View())
      modifies this
      ensures View() == Registered(old(View()), id) && ch == |old(chans)|
      ensures pending == old(pending)[id := ch] && chans == old(chans) + [[]]
    {
      ch := |chans|;
      chans := chans + [[]];
      tags := tags + [id];
      pending := pending[id := ch];
    }

    /** SendCommand's deferred critical section. */
    method Forget(id: Id)
      modifies this`pending
      ensures View() == old(View()).(pending := old(pending) - {id})
    {
      pending := pending - {id};
    }

    /** SendCommand's receive, when the channel has an ack. */
    method Take(ch: nat) returns (ack: Ack)
      requires TableOk(View()) && ch < |chans| && chans[ch] != []
      modifies this`chans
      ensures View() == old(View()).(chans := old(chans)[ch := []]) && ack.id == tags[ch]
      ensures old(chans)[ch] == [ack]
    {
      assert BufferOk(View(), ch) && chans[ch][0] in chans[ch];
      ack := chans[ch][0];
      chans := chans[ch := chans[ch][1..]];
    }

    method ResolveAck(ack: Ack)
      requires TableOk(View())
      modifies this`chans
      ensures View() == if ack.id in pending then Offered(old(View()), pending[ack.id], ack) else old(View())
      ensures |chans| == |old(chans)| && forall c | 0 <= c < |chans| ::
        chans[c] == if old(chans)[c] == [] && ack.id in pending && pending[ack.id] == c then [ack] else old(chans)[c]
    {
      if ack.id in pending {
        var ch := pending[ack.id];
        if |chans[ch]| < 1 {
          chans := chans[ch := chans[ch] + [ack]];
        }
      }
    }

    method FailNext(id: Id)
      requires TableOk(View()) && id in pending
      modifies this`pending, this`chans
      ensures View() == FailedOne(old(View()), id) && pending.Keys == old(pending).Keys - {id}
    {
      var ch := pending[id];
      if |chans[ch]| < 1 {
        chans := chans[ch := chans[ch] + [Disconnected(id)]];
      }
      pending := pending - {id};
    }

    method FailPending()
      requires TableOk(View())
      modifies this`pending, this`chans
      ensures View() == AllFailed(old(View()))
      ensures pending == map[] && |chans| == |old(chans)|
      ensures forall c | 0 <= c < |chans| && (old(chans)[c] != [] || c !in old(pending).Values) ::
        chans[c] == old(chans)[c]
      ensures forall id | id in old(pending) && old(chans)[old(pending)[id]] == [] ::
        chans[old(pending)[id]] == [Ack(id, false, "node disconnected")]
    {
      AllFailedEffect(View());
      hide AllFailed, FailedOne, TableOk;
      while pending.Keys != {}
        invariant tags == old(tags) && |tags| == |chans| && TableOk(View())
        invariant AllFailed(View()) == AllFailed(old(View()))
        decreases |pending.Keys|
      {
        var id :| id in pending;
        FailOneFirst(View(), id);
        FailNext(id);
      }
      NothingToFail(View());
    }
  }

  // ----- The registry of live connections -----

  /** `Open` registers a connection for its node; `Shut` is its deferred unregister. */
  datatype Event = Open(node: string, conn: nat) | Shut(node: string, conn: nat)

  function Applied(conns: map<string, nat>, e: Event): map<string, nat> {
    match e
    case Open(node, conn) => conns[node := conn]
    case Shut(node, conn) => if node in conns && conns[node] == conn then conns - {node} else conns
  }

  class Registry {
    var conns: map<string, nat>

    constructor ()
      ensures conns == map[]
    {
      conns := map[];
    }

    method Register(node: string, conn: nat)
      modifies this
      ensures conns == Applied(old(conns), Open(node, conn))
      ensures conns == old(conns)[node := conn]
    {
      conns := conns[node := conn];
    }

    /** Only the connection that is still listed is taken out. */
    method Unregister(node: string, conn: nat)
      modifies this
      ensures conns == Applied(old(conns), Shut(node, conn))
      ensures conns == if node in old(conns) && old(conns)[node] == conn then old(conns) - {node} else old(conns)
    {
      if node in conns && conns[node] == conn {
        conns := conns - {node};
      }
    }
  }

  function After(events: seq<Event>): map<string, nat> {
    if events == [] then map[] else Applied(After(events[..|events| - 1]), events[|events| - 1])
  }

  /** The connection opened last for a node. */
  function Newest(events: seq<Event>, node: string): Option<nat> {
    if events == [] then None
    else
      var e := events[|events| - 1];
      if e.Open? && e.node == node then Some(e.conn) else Newest(events[..|events| - 1], node)
  }

  /** Each connection is opened once and shut only after that. */
  predicate Lifecycles(events: seq<Event>) {
    forall i, j | 0 <= i < |events| && 0 <= j < |events| :: Ordered(events[i], i, events[j], j)
  }

  predicate Ordered(a: Event, i: nat, b: Event, j: nat) {
    a.Open? && a.conn == b.conn ==> if b.Open? then i == j else i < j && b.node == a.node
  }

  lemma LifecyclesPrefix(events: seq<Event>, n: nat)
    requires Lifecycles(events) && n < |events|
    ensures Lifecycles(events[..n])
    ensures events[n].Open? ==> forall e | e in events[..n] :: e.conn != events[n].conn
  {
  }

  /** A node is listed exactly with its newest connection, until that one is shut; a late
      unregister of a replaced connection changes nothing. */
  lemma {:induction false} NewestIsListed(events: seq<Event>, node: string)
    requires Lifecycles(events)
    ensures var newest := Newest(events, node);
            && (node in After(events) <==> newest.Some? && Shut(node, newest.value) !in events)
            && (node in After(events) ==> After(events)[node] == newest.value)
  {
    if events != [] {
      var n := |events| - 1;
      LifecyclesPrefix(events, n);
      hide Lifecycles, Ordered;
      NewestIsListed(events[..n], node);
      assert events == events[..n] + [events[n]];
      assert After(events) == Applied(After(events[..n]), events[n]);
      hide After;
      assert events[n].Open? ==> Shut(node, events[n].conn) !in events[..n];
    }
  }
}
