/** Reference-counted locks, one per key, created on demand and dropped by their last user. */
module KeyedLock {
  import opened Options

  type Key = string
  type Tid = nat

  // ----- The protocol, one step per critical section of the map's own mutex or of a
  // ----- key's inner mutex -----

  datatype Lock = Lock(refs: int, holder: Option<Tid>)

  /** Where a caller is; callers outside lock/unlock are absent from the table. `l` is the
      lock object the caller found in the map, identified by its order of creation. */
  datatype Place =
    | Waiting(key: Key, l: nat)   // counted, not yet holding the inner mutex
    | Critical(key: Key, l: nat)  // between lock and unlock
    | Leaving(key: Key, l: nat)   // inner mutex released, still counted

  datatype State = State(locks: map<Key, nat>, objs: seq<Lock>, place: map<Tid, Place>)

  datatype Op = Enter(t: Tid, key: Key) | Acquire(t: Tid) | Release(t: Tid) | Leave(t: Tid)

  const EMPTY := State(map[], [], map[])

  predicate Enabled(s: State, op: Op) {
    match op
    case Enter(t, _) => t !in s.place
    case Acquire(t) => t in s.place && s.place[t].Waiting? && s.place[t].l < |s.objs|
        && s.objs[s.place[t].l].holder.None?
    case Release(t) => t in s.place && s.place[t].Critical? && s.place[t].l < |s.objs|
    case Leave(t) => t in s.place && s.place[t].Leaving? && s.place[t].l < |s.objs|
  }

  /** Keys have lock objects of their own. */
  predicate Indexed(s: State) {
    && (forall k | k in s.locks :: s.locks[k] < |s.objs|)
    && (forall k, j | k in s.locks && j in s.locks && s.locks[k] == s.locks[j] :: k == j)
  }

  function Found(s: State, key: Key): (r: State)
    requires Indexed(s)
    ensures Indexed(r) && key in r.locks
  {
    if key in s.locks then s else State(s.locks[key := |s.objs|], s.objs + [Lock(0, None)], s.place)
  }

  function AddUser(s: State, t: Tid, key: Key): State
    requires Indexed(s) && key in s.locks
  {
    var l := s.locks[key];
    State(s.locks, s.objs[l := s.objs[l].(refs := s.objs[l].refs + 1)], s.place[t := Waiting(key, l)])
  }

  function Entered(s: State, t: Tid, key: Key): State
    requires Indexed(s)
  {
    AddUser(Found(s, key), t, key)
  }

  function Apply(s: State, op: Op): State
    requires Enabled(s, op) && Indexed(s)
  {
    match op
    case Enter(t, key) => Entered(s, t, key)
    case Acquire(t) =>
      var p := s.place[t];
      State(s.locks, s.objs[p.l := s.objs[p.l].(holder := Some(t))], s.place[t := Critical(p.key, p.l)])
    case Release(t) =>
      var p := s.place[t];
      State(s.locks, s.objs[p.l := s.objs[p.l].(holder := None)], s.place[t := Leaving(p.key, p.l)])
    case Leave(t) =>
      var p := s.place[t];
      var refs := s.objs[p.l].refs - 1;
      State(if refs == 0 then s.locks - {p.key} else s.locks, s.objs[p.l := s.objs[p.l].(refs := refs)], s.place - {t})
  }

  // ----- What every step keeps -----

  function Users(place: map<Tid, Place>, key: Key): set<Tid> {
    set t | t in place && place[t].key == key
  }

  /** Every counted caller uses the lock object its key maps to. */
  predicate Linked(s: State) {
    forall t | t in s.place :: s.place[t].key in s.locks && s.locks[s.place[t].key] == s.place[t].l
  }

  predicate Counted(s: State, k: Key) {
    k in s.locks && s.locks[k] < |s.objs| &&
    s.objs[s.locks[k]].refs == |Users(s.place, k)| && Users(s.place, k) != {}
  }

  predicate AllCounted(s: State) {
    forall k | k in s.locks :: Counted(s, k)
  }

  /** The inner mutex of a key is held by a caller in its critical section, and the other
      way round. */
  predicate Holders(s: State)
    requires Indexed(s) && Linked(s)
  {
    && (forall t | t in s.place :: s.place[t].Critical? ==> s.objs[s.place[t].l].holder == Some(t))
    && (forall k | k in s.locks :: HolderInside(s, k))
  }

  predicate HolderInside(s: State, k: Key)
    requires k in s.locks && s.locks[k] < |s.objs|
  {
    var h := s.objs[s.locks[k]].holder;
    h.Some? ==> h.value in s.place && s.place[h.value] == Critical(k, s.locks[k])
  }

  predicate Inv(s: State) {
    Indexed(s) && Linked(s) && AllCounted(s) && Holders(s)
  }

  /** The lock `key` maps to gains one reference; a new key gets a new, free lock. */
  predicate GainsUser(s: State, t: Tid, key: Key, s': State) {
    var l := if key in s.locks then s.locks[key] else |s.objs|;
    && s'.locks == s.locks[key := l] && s'.place == s.place[t := Waiting(key, l)]
    && |s'.objs| == (if key in s.locks then |s.objs| else |s.objs| + 1)
    && l < |s'.objs|
    && s'.objs[l] == (if l < |s.objs| then Lock(s.objs[l].refs + 1, s.objs[l].holder) else Lock(1, None))
    && (forall i | 0 <= i < |s.objs| && i != l :: s'.objs[i] == s.objs[i])
  }

  lemma EnterEffect(s: State, t: Tid, key: Key)
    requires Indexed(s)
    ensures GainsUser(s, t, key, Entered(s, t, key)) && Indexed(Entered(s, t, key))
  {
  }

  lemma CountsEnter(s: State, t: Tid, key: Key)
    requires Indexed(s) && Linked(s) && AllCounted(s) && t !in s.place
    ensures AllCounted(Entered(s, t, key))
  {
    hide Entered;
    var s' := Entered(s, t, key);
    EnterEffect(s, t, key);
    forall k | k in s'.locks ensures Counted(s', k) {
      UsersEnter(s, t, key, s'.locks[key], k);
      assert k in s.locks ==> Counted(s, k);
    }
  }

  lemma UsersEnter(s: State, t: Tid, key: Key, l: nat, k: Key)
    requires Linked(s) && t !in s.place
    ensures Users(s.place[t := Waiting(key, l)], k) == Users(s.place, k) + (if k == key then {t} else {})
    ensures k !in s.locks ==> Users(s.place, k) == {}
  {
  }

  lemma InvEnter(s: State, t: Tid, key: Key)
    requires Inv(s) && t !in s.place
    ensures Inv(Entered(s, t, key))
  {
    hide Entered, AllCounted, GainsUser, Holders;
    EnterEffect(s, t, key);
    CountsEnter(s, t, key);
    HoldersEnter(s, t, key, Entered(s, t, key));
  }

  lemma HoldersEnter(s: State, t: Tid, key: Key, s': State)
    requires Indexed(s) && Linked(s) && Holders(s) && t !in s.place && GainsUser(s, t, key, s') && Indexed(s')
    ensures Linked(s') && Holders(s')
  {
    LinkedEnter(s, t, key, s');
    hide GainsUser, HolderInside;
    forall k | k in s'.locks ensures HolderInside(s', k) {
      HolderEnter(s, t, key, s', k);
    }
  }

  lemma LinkedEnter(s: State, t: Tid, key: Key, s': State)
    requires Indexed(s) && Linked(s) && t !in s.place && GainsUser(s, t, key, s') && Indexed(s')
    requires forall u | u in s.place :: s.place[u].Critical? ==> s.objs[s.place[u].l].holder == Some(u)
    ensures Linked(s')
    ensures forall u | u in s'.place :: s'.place[u].Critical? ==> s'.objs[s'.place[u].l].holder == Some(u)
  {
  }

  lemma HolderEnter(s: State, t: Tid, key: Key, s': State, k: Key)
    requires Indexed(s) && t !in s.place && GainsUser(s, t, key, s') && Indexed(s') && k in s'.locks
    requires k in s.locks ==> HolderInside(s, k)
    ensures HolderInside(s', k)
  {
  }

  lemma CountsMove(s: State, s': State, t: Tid, p: Place)
    requires AllCounted(s) && t in s.place && p.key == s.place[t].key
    requires s'.locks == s.locks && s'.place == s.place[t := p]
    requires |s'.objs| == |s.objs| && forall i | 0 <= i < |s.objs| :: s'.objs[i].refs == s.objs[i].refs
    ensures AllCounted(s')
  {
    forall k | k in s'.locks ensures Counted(s', k) {
      assert Users(s'.place, k) == Users(s.place, k) && Counted(s, k);
    }
  }

  lemma InvMove(s: State, t: Tid, p: Place, holder: Option<Tid>)
    requires Inv(s) && t in s.place && p.key == s.place[t].key && p.l == s.place[t].l
    requires if p.Critical? then s.objs[p.l].holder.None? && holder == Some(t)
             else p.Leaving? && s.place[t].Critical? && holder.None?
    ensures Inv(State(s.locks, s.objs[p.l := s.objs[p.l].(holder := holder)], s.place[t := p]))
  {
    var s' := State(s.locks, s.objs[p.l := s.objs[p.l].(holder := holder)], s.place[t := p]);
    CountsMove(s, s', t, p);
    assert Indexed(s') && Linked(s');
    forall k | k in s'.locks ensures HolderInside(s', k) {
      assert HolderInside(s, k);
    }
    forall u | u in s'.place && s'.place[u].Critical? ensures s'.objs[s'.place[u].l].holder == Some(u) {
      assert s.locks[s.place[t].key] == p.l && HolderInside(s, s.place[t].key);
    }
  }

  lemma CountsLeave(s: State, t: Tid)
    requires Indexed(s) && Linked(s) && AllCounted(s) && Enabled(s, Leave(t))
    ensures var s', key := Apply(s, Leave(t)), s.place[t].key;
            AllCounted(s') && (key in s'.locks <==> Users(s'.place, key) != {})
  {
    var s', key := Apply(s, Leave(t)), s.place[t].key;
    assert Counted(s, key) && t in Users(s.place, key);
    assert Users(s'.place, key) == Users(s.place, key) - {t};
    assert |Users(s'.place, key)| == |Users(s.place, key)| - 1 == s'.objs[s.place[t].l].refs;
    forall k | k in s'.locks ensures Counted(s', k) {
      if k != key { assert Users(s'.place, k) == Users(s.place, k) && Counted(s, k); }
    }
  }

  lemma LinkedLeave(s: State, t: Tid)
    requires Indexed(s) && Linked(s) && AllCounted(s) && Enabled(s, Leave(t))
    ensures Indexed(Apply(s, Leave(t))) && Linked(Apply(s, Leave(t)))
  {
    hide AllCounted;
    CountsLeave(s, t);
    var s', key := Apply(s, Leave(t)), s.place[t].key;
    forall u | u in s'.place ensures s'.place[u].key in s'.locks && s'.locks[s'.place[u].key] == s'.place[u].l {
      assert u in Users(s'.place, s'.place[u].key);
    }
  }

  lemma InvLeave(s: State, t: Tid)
    requires Inv(s) && Enabled(s, Leave(t))
    ensures Inv(Apply(s, Leave(t)))
  {
    hide AllCounted;
    CountsLeave(s, t);
    LinkedLeave(s, t);
    var s' := Apply(s, Leave(t));
    forall k | k in s'.locks ensures HolderInside(s', k) {
      assert HolderInside(s, k);
    }
  }

  lemma InvStep(s: State, op: Op)
    requires Inv(s) && Enabled(s, op)
    ensures Inv(Apply(s, op))
  {
    match op
    case Enter(t, key) => InvEnter(s, t, key);
    case Acquire(t) => InvMove(s, t, Critical(s.place[t].key, s.place[t].l), Some(t));
    case Release(t) => InvMove(s, t, Leaving(s.place[t].key, s.place[t].l), None);
    case Leave(t) => InvLeave(s, t);
  }

  // ----- Every interleaving -----

  /** `states` is the run that performs `ops`, in that order, from an empty map. */
  predicate Run(states: seq<State>, ops: seq<Op>) {
    && |states| == |ops| + 1 && states[0] == EMPTY
    && forall i | 0 <= i < |ops| :: Next(states[i], ops[i], states[i + 1])
  }

  predicate Next(s: State, op: Op, s': State) {
    Enabled(s, op) && Indexed(s) && s' == Apply(s, op)
  }

  lemma {:induction false} RunInv(states: seq<State>, ops: seq<Op>, n: nat)
    requires Run(states, ops) && n < |states|
    ensures Inv(states[n])
  {
    if n > 0 {
      RunInv(states, ops, n - 1);
      assert Next(states[n - 1], ops[n - 1], states[n]);
      InvStep(states[n - 1], ops[n - 1]);
    }
  }

  /** In every reachable state of every interleaving: a key has a map entry exactly while
      some caller is counted for it, `refs` is the number of those callers, they all hold
      the same lock object, and at most one of them is in its critical section. */
  lemma MutualExclusion(states: seq<State>, ops: seq<Op>, n: nat, key: Key)
    requires Run(states, ops) && n < |states|
    ensures var s := states[n];
            && (key in s.locks <==> Users(s.place, key) != {})
            && (key in s.locks ==> s.locks[key] < |s.objs| && s.objs[s.locks[key]].refs == |Users(s.place, key)|)
            && (forall t, u | t in Users(s.place, key) && u in Users(s.place, key) :: s.place[t].l == s.place[u].l)
            && (forall t, u | t in Users(s.place, key) && u in Users(s.place, key)
                              && s.place[t].Critical? && s.place[u].Critical? :: t == u)
  {
    var s := states[n];
    RunInv(states, ops, n);
    if key in s.locks {
      assert Counted(s, key);
    }
  }

  /** What the steps do to the caller and to the lock object it uses: counted and waiting, then
      inside and holding the mutex, then out of it with the mutex free, then gone; the entry
      goes with the last caller. */
  lemma CallerSteps(states: seq<State>, ops: seq<Op>, n: nat)
    requires Run(states, ops) && n < |ops|
    ensures var s, s' := states[n], states[n + 1];
      match ops[n]
      case Enter(t, key) =>
        && key in s'.locks && s'.locks == s.locks[key := s'.locks[key]] && s'.locks[key] < |s'.objs|
        && s'.place == s.place[t := Waiting(key, s'.locks[key])]
        && (if key in s.locks && s.locks[key] < |s.objs| then s'.locks == s.locks
            else s'.objs[s'.locks[key]] == Lock(1, None))
      case Acquire(t) =>
        && t in s.place && s.place[t].l < |s.objs| && s.objs[s.place[t].l].holder == None
        && s'.place == s.place[t := Critical(s.place[t].key, s.place[t].l)] && |s'.objs| == |s.objs|
        && s'.objs[s.place[t].l] == Lock(s.objs[s.place[t].l].refs, Some(t)) && s'.locks == s.locks
      case Release(t) =>
        && t in s.place && s.place[t].l < |s.objs| && s.objs[s.place[t].l].holder == Some(t)
        && s'.place == s.place[t := Leaving(s.place[t].key, s.place[t].l)] && |s'.objs| == |s.objs|
        && s'.objs[s.place[t].l] == Lock(s.objs[s.place[t].l].refs, None) && s'.locks == s.locks
      case Leave(t) =>
        && t in s.place && s'.place == s.place - {t}
        && s'.locks == if Users(s'.place, s.place[t].key) == {} then s.locks - {s.place[t].key} else s.locks
  {
    RunInv(states, ops, n);
    assert Next(states[n], ops[n], states[n + 1]);
    match ops[n]
    case Enter(t, key) => EnterEffect(states[n], t, key);
    case Leave(t) => CountsLeave(states[n], t);
    case _ =>
  }

  /** A caller never waits for a lock that nobody will give back: either it can take the
      inner mutex, or the holder is in its critical section of the same key. */
  lemma WaitingIsServed(states: seq<State>, ops: seq<Op>, n: nat, t: Tid)
    requires Run(states, ops) && n < |states|
    requires t in states[n].place && states[n].place[t].Waiting?
    ensures var s := states[n];
            || Enabled(s, Acquire(t))
            || exists u | u in s.place :: Enabled(s, Release(u)) && s.place[u].key == s.place[t].key
  {
    RunInv(states, ops, n);
    var s := states[n];
    var h := s.objs[s.place[t].l].holder;
    if h.Some? {
      assert h.value in s.place && Enabled(s, Release(h.value));
    }
  }

  // ----- The lock map itself -----

  class RefCountedLock {
    var refs: int
    var holder: Option<Tid>
    ghost const id: nat

    constructor (ghost id: nat)
      ensures this.id == id && refs == 0 && holder == None
    {
      refs, holder := 0, None;
      this.id := id;
    }
  }

  class KeyedMutex {
    var locks: map<Key, RefCountedLock>
    ghost var objs: seq<RefCountedLock>  // every lock object so far
    ghost var place: map<Tid, Place>

    ghost function Objects(): (r: seq<Lock>)
      reads this`objs, objs
      ensures |r| == |objs| && forall i | 0 <= i < |r| :: r[i] == Lock(objs[i].refs, objs[i].holder)
    {
      var all := objs;
      seq(|all|, i requires 0 <= i < |all| reads all => Lock(all[i].refs, all[i].holder))
    }

    ghost function Ids(): (r: map<Key, nat>)
      reads this`locks
      ensures r.Keys == locks.Keys && forall k | k in r :: r[k] == locks[k].id
    {
      map k | k in locks :: locks[k].id
    }

    ghost function View(): State
      reads this, objs
    {
      State(Ids(), Objects(), place)
    }

    /** The fields agree with `objs`; what callers may rely on beyond that is the protocol
        invariant of `View()`, which every step keeps. */
    ghost predicate Valid()
      reads this, objs
    {
      Tied() && Indexed(View())
    }

    ghost predicate Tied()
      reads this`locks, this`objs
    {
      && (forall i | 0 <= i < |objs| :: objs[i].id == i)
      && (forall k | k in locks :: locks[k].id < |objs| && objs[locks[k].id] == locks[k])
    }

    constructor ()
      ensures Valid() && View() == EMPTY
    {
      locks, objs, place := map[], [], map[];
    }

    /** First half of lock: find or create the entry and count the caller. */
    method Enter(t: Tid, key: Key) returns (l: RefCountedLock)
      requires Valid() && t !in place
      modifies this, objs
      ensures Valid() && View() == Apply(old(View()), Op.Enter(t, key))
      ensures l.id == place[t].l
      ensures locks == old(locks)[key := l] && place == old(place)[t := Waiting(key, l.id)]
      ensures if key in old(locks) then l == old(locks)[key] && l.refs == old(l.refs) + 1 && l.holder == old(l.holder)
              else fresh(l) && l.refs == 1 && l.holder == None
    {
      hide Objects, Ids;
      l := FindOrCreate(key);
      Count(t, key, l);
    }

    method FindOrCreate(key: Key) returns (l: RefCountedLock)
      requires Valid()
      modifies this`locks, this`objs
      ensures Valid() && View() == Found(old(View()), key)
      ensures locks == old(locks)[key := l] && l in objs && objs[l.id] == l
      ensures if key in old(locks) then l == old(locks)[key] && objs == old(objs)
              else fresh(l) && l.refs == 0 && l.holder == None && objs == old(objs) + [l]
    {
      hide Objects, Ids;
      if key in locks {
        l := locks[key];
      } else {
        ghost var after := Found(View(), key);
        l := new RefCountedLock(|objs|);
        locks := locks[key := l];
        objs := objs + [l];
        assert Ids() == after.locks;
        assert Objects() == after.objs;
      }
    }

    method Count(t: Tid, key: Key, l: RefCountedLock)
      requires Valid() && key in locks && locks[key] == l
      modifies l`refs, this`place
      ensures Valid() && View() == AddUser(old(View()), t, key)
      ensures l.refs == old(l.refs) + 1 && place == old(place)[t := Waiting(key, l.id)]
    {
      hide Objects, Ids;
      ghost var after := AddUser(View(), t, key);
      l.refs := l.refs + 1;
      place := place[t := Waiting(key, l.id)];
      assert Objects() == after.objs;
    }

    /** Second half of lock: the inner mutex, once it is free. */
    method Acquire(t: Tid, l: RefCountedLock)
      requires Valid() && Enabled(View(), Op.Acquire(t)) && objs[place[t].l] == l
      modifies this`place, l`holder
      ensures Valid() && View() == Apply(old(View()), Op.Acquire(t))
      ensures l.holder == Some(t) && place == old(place)[t := Critical(old(place)[t].key, old(place)[t].l)]
    {
      hide Objects, Ids;
      ghost var after := Apply(View(), Op.Acquire(t));
      l.holder := Some(t);
      place := place[t := Critical(place[t].key, place[t].l)];
      assert Objects() == after.objs;
    }

    /** First half of unlock. */
    method Release(t: Tid, l: RefCountedLock)
      requires Valid() && Enabled(View(), Op.Release(t)) && objs[place[t].l] == l
      modifies this`place, l`holder
      ensures Valid() && View() == Apply(old(View()), Op.Release(t))
      ensures l.holder == None && place == old(place)[t := Leaving(old(place)[t].key, old(place)[t].l)]
    {
      hide Objects, Ids;
      ghost var after := Apply(View(), Op.Release(t));
      l.holder := None;
      place := place[t := Leaving(place[t].key, place[t].l)];
      assert Objects() == after.objs;
    }

    /** Second half of unlock: uncount, and drop the entry with its last user. */
    method Leave(t: Tid, key: Key, l: RefCountedLock)
      requires Valid() && Enabled(View(), Op.Leave(t)) && place[t].key == key && objs[place[t].l] == l
      modifies this`place, this`locks, l`refs
      ensures Valid() && View() == Apply(old(View()), Op.Leave(t))
      ensures l.refs == old(l.refs) - 1 && place == old(place) - {t}
      ensures locks == if l.refs == 0 then old(locks) - {key} else old(locks)
    {
      hide Objects, Ids;
      Uncount(key, l);
      place := place - {t};
    }

    method Uncount(key: Key, l: RefCountedLock)
      requires Tied() && l in objs
      modifies this`locks, l`refs
      ensures Tied() && l.refs == old(l.refs) - 1
      ensures locks == if l.refs == 0 then old(locks) - {key} else old(locks)
      ensures Objects() == old(Objects())[l.id := Lock(l.refs, l.holder)]
      ensures Ids() == if l.refs == 0 then old(Ids()) - {key} else old(Ids())
    {
      hide Objects, Ids;
      l.refs := l.refs - 1;
      if l.refs == 0 {
        locks := locks - {key};
      }
    }
  }
}
