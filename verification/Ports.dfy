/** Port allocations, the servers that hold them, and the operations on both tables. */
module Ports {
  import opened Options

  type Sid = string
  type Aid = string
  type Node = string

  /** `port` is the primary port, 0 until one has been claimed. */
  datatype Server = Server(node: Node, port: int)

  datatype Alloc = Alloc(node: Node, port: int, holder: Option<Sid>)

  datatype Db = Db(nodes: set<Node>, servers: map<Sid, Server>, allocs: map<Aid, Alloc>)

  datatype Error = NotFound | InUse | WrongNode | Primary | NodeInUse | Failed

  datatype Result = Ok(value: int) | Err(error: Error)

  /** One call of a service or repository operation. New identifiers are random UUIDs, so
      they come in as arguments; so does the outcome of what the database cannot decide:
      whether saving the port works, whether the node recreates the container. */
  datatype Op =
    | AddNode(n: Node)
    | DeleteNode(n: Node)
    | CreateRange(n: Node, start: int, end: int, ids: seq<Aid>)
    | DeleteAlloc(a: Aid)
    | CreateServer(s: Sid, n: Node, portSaved: bool)
    | AddAlloc(s: Sid, a: Aid, reprovisioned: bool)
    | RemoveAlloc(s: Sid, a: Aid, reprovisioned: bool)
    | DeleteServer(s: Sid)

  // ----- Statements -----

  predicate Holds(db: Db, s: Sid, a: Aid) {
    a in db.allocs && db.allocs[a].holder == Some(s)
  }

  predicate FreeOn(db: Db, n: Node, a: Aid) {
    a in db.allocs && db.allocs[a].node == n && db.allocs[a].holder.None?
  }

  predicate HasFree(db: Db, n: Node) {
    exists a | a in db.allocs :: FreeOn(db, n, a)
  }

  /** The row ClaimFree picks. */
  predicate FirstFree(db: Db, n: Node, a: Aid) {
    FreeOn(db, n, a) && forall b | b in db.allocs && FreeOn(db, n, b) :: db.allocs[a].port <= db.allocs[b].port
  }

  function SetHolder(db: Db, a: Aid, holder: Option<Sid>): Db
    requires a in db.allocs
  {
    db.(allocs := db.allocs[a := db.allocs[a].(holder := holder)])
  }

  function Released(db: Db, s: Sid): Db {
    db.(allocs := map a | a in db.allocs ::
      if db.allocs[a].holder == Some(s) then db.allocs[a].(holder := None) else db.allocs[a])
  }

  /** Deleting the row; the foreign key sets what it held to NULL. */
  function Dropped(db: Db, s: Sid): Db {
    Released(db, s).(servers := db.servers - {s})
  }

  predicate HasPort(db: Db, n: Node, port: int) {
    exists a | a in db.allocs :: db.allocs[a].node == n && db.allocs[a].port == port
  }

  /** INSERT ... ON CONFLICT DO NOTHING. */
  function AddPort(db: Db, id: Aid, n: Node, port: int): Db {
    if HasPort(db, n, port) then db else db.(allocs := db.allocs[id := Alloc(n, port, None)])
  }

  function Ranged(db: Db, n: Node, low: int, ids: seq<Aid>): Db {
    if ids == [] then db
    else
      var k := |ids| - 1;
      AddPort(Ranged(db, n, low, ids[..k]), ids[k], n, low + k)
  }

  predicate FreshIds(db: Db, ids: seq<Aid>) {
    && (forall i | 0 <= i < |ids| :: ids[i] !in db.allocs)
    && (forall i, j | 0 <= i < j < |ids| :: ids[i] != ids[j])
  }

  function Low(a: int, b: int): int {
    if a < b then a else b
  }

  function High(a: int, b: int): int {
    if a < b then b else a
  }

  // ----- Calls -----

  /** What a caller guarantees: new identifiers are new, ports come from the handler's
      1..65535. */
  predicate Admissible(db: Db, op: Op) {
    match op
    case CreateRange(n, start, end, ids) =>
      1 <= start <= 65535 && 1 <= end <= 65535 && |ids| == High(start, end) - Low(start, end) + 1 && FreshIds(db, ids)
    case CreateServer(s, _, _) => s !in db.servers
    case _ => true
  }

  /** The row exists and holds its port, but the port is not saved in it yet. */
  function Claimed(db: Db, s: Sid, n: Node, a: Aid): Db
    requires a in db.allocs
  {
    SetHolder(db, a, Some(s)).(servers := db.servers[s := Server(n, 0)])
  }

  function NewServer(db: Db, s: Sid, n: Node, a: Aid): Db
    requires a in db.allocs
  {
    SetHolder(db, a, Some(s)).(servers := db.servers[s := Server(n, db.allocs[a].port)])
  }

  predicate RangeCreated(db: Db, n: Node, low: int, ids: seq<Aid>, db': Db, r: Result) {
    if n !in db.nodes then db' == db && r == Err(Failed)
    else db' == Ranged(db, n, low, ids) && r == Ok(|db'.allocs| - |db.allocs|)
  }

  ghost predicate ServerCreated(db: Db, s: Sid, n: Node, portSaved: bool, db': Db, r: Result) {
    if n in db.nodes && HasFree(db, n) && portSaved then
      exists a :: FirstFree(db, n, a) && db' == NewServer(db, s, n, a) && r == Ok(db.allocs[a].port)
    else
      db' == db && r == Err(if n in db.nodes && HasFree(db, n) then Failed else NotFound)
  }

  ghost predicate Next(db: Db, op: Op, db': Db, r: Result) {
    match op
    case AddNode(n) => db' == db.(nodes := db.nodes + {n}) && r == Ok(0)
    case DeleteNode(n) =>
      if exists s | s in db.servers :: db.servers[s].node == n then db' == db && r == Err(NodeInUse)
      else if n !in db.nodes then db' == db && r == Err(NotFound)
      else db' == Db(db.nodes - {n}, db.servers, map a | a in db.allocs
          && db.allocs[a].node != n :: db.allocs[a]) && r == Ok(0)
    case CreateRange(n, start, end, ids) => RangeCreated(db, n, Low(start, end), ids, db', r)
    case DeleteAlloc(a) =>
      if a !in db.allocs then db' == db && r == Err(NotFound)
      else if db.allocs[a].holder.Some? then db' == db && r == Err(InUse)
      else db' == db.(allocs := db.allocs - {a}) && r == Ok(0)
    case CreateServer(s, n, portSaved) => ServerCreated(db, s, n, portSaved, db', r)
    case AddAlloc(s, a, reprovisioned) =>
      if s !in db.servers || a !in db.allocs then db' == db && r == Err(NotFound)
      else if db.allocs[a].node != db.servers[s].node then db' == db && r == Err(WrongNode)
      else if db.allocs[a].holder.Some? then db' == db && r == Err(InUse)
      else if !reprovisioned then db' == db && r == Err(Failed)
      else db' == SetHolder(db, a, Some(s)) && r == Ok(0)
    case RemoveAlloc(s, a, reprovisioned) =>
      if s !in db.servers || !Holds(db, s, a) then db' == db && r == Err(NotFound)
      else if db.allocs[a].port == db.servers[s].port then db' == db && r == Err(Primary)
      else db' == SetHolder(db, a, None) && r == if reprovisioned then Ok(0) else Err(Failed)
    case DeleteServer(s) =>
      if s !in db.servers then db' == db && r == Err(NotFound)
      else db' == Dropped(db, s) && r == Ok(0)
  }

  // ----- The relational invariant -----

  predicate UniquePorts(db: Db) {
    forall a, b | a in db.allocs && b in db.allocs && db.allocs[a].node == db.allocs[b].node
        && db.allocs[a].port == db.allocs[b].port :: a == b
  }

  /** Every row's node exists, ports are real ports, and a held port's server exists on the
      port's own node. */
  predicate AllocOk(db: Db, a: Aid)
    requires a in db.allocs
  {
    var row := db.allocs[a];
    row.node in db.nodes && row.port > 0 &&
    (row.holder.Some? ==> row.holder.value in db.servers && db.servers[row.holder.value].node == row.node)
  }

  predicate HoldsPrimary(db: Db, s: Sid)
    requires s in db.servers
  {
    exists a | a in db.allocs :: Holds(db, s, a) && db.allocs[a].port == db.servers[s].port
  }

  predicate ServerOk(db: Db, s: Sid)
    requires s in db.servers
  {
    db.servers[s].node in db.nodes && db.servers[s].port > 0 && HoldsPrimary(db, s)
  }

  predicate Inv(db: Db) {
    && UniquePorts(db)
    && (forall a | a in db.allocs :: AllocOk(db, a))
    && (forall s | s in db.servers :: ServerOk(db, s))
  }

  lemma PrimaryKept(db: Db, db': Db, s: Sid)
    requires s in db.servers && s in db'.servers && db'.servers[s] == db.servers[s] && ServerOk(db, s)
    requires db'.servers[s].node in db'.nodes
    requires forall a | Holds(db, s, a) && db.allocs[a].port == db.servers[s].port ::
               a in db'.allocs && db'.allocs[a] == db.allocs[a]
    ensures ServerOk(db', s)
  {
  }

  lemma InvNodes(db: Db, op: Op, db': Db, r: Result)
    requires Inv(db) && Next(db, op, db', r) && (op.AddNode? || op.DeleteNode?)
    ensures Inv(db')
  {
    forall a | a in db'.allocs ensures AllocOk(db', a) { assert AllocOk(db, a); }
    forall s | s in db'.servers ensures ServerOk(db', s) {
      assert ServerOk(db, s);
      forall a | Holds(db, s, a) ensures a in db'.allocs { assert AllocOk(db, a); }
      PrimaryKept(db, db', s);
    }
  }

  lemma InvAddPort(db: Db, id: Aid, n: Node, port: int)
    requires Inv(db) && id !in db.allocs && n in db.nodes && port > 0
    ensures var db' := AddPort(db, id, n, port);
            && Inv(db') && db'.nodes == db.nodes && db'.servers == db.servers
            && forall a | a in db'.allocs :: a in db.allocs || a == id
  {
    var db' := AddPort(db, id, n, port);
    forall a | a in db'.allocs ensures AllocOk(db', a) { if a in db.allocs { assert AllocOk(db, a); } }
    forall s | s in db'.servers ensures ServerOk(db', s) {
      PrimaryKept(db, db', s);
    }
  }

  lemma RangeUnfold(db: Db, n: Node, low: int, ids: seq<Aid>)
    requires ids != []
    ensures var k := |ids| - 1; Ranged(db, n, low, ids) == AddPort(Ranged(db, n, low, ids[..k]), ids[k], n, low + k)
  {
  }

  lemma {:induction false} InvRange(db: Db, n: Node, low: int, ids: seq<Aid>)
    requires Inv(db) && n in db.nodes && low > 0 && FreshIds(db, ids)
    ensures var db' := Ranged(db, n, low, ids);
            && Inv(db') && db'.nodes == db.nodes && db'.servers == db.servers
            && (forall a | a in db'.allocs :: a in db.allocs || a in ids)
  {
    hide Inv, AddPort, FreshIds;
    if ids != [] {
      hide Ranged;
      var rest, id := ids[..|ids| - 1], ids[|ids| - 1];
      FreshPrefix(db, ids);
      InvRange(db, n, low, rest);
      RangeUnfold(db, n, low, ids);
      InvAddPort(Ranged(db, n, low, rest), id, n, low + |rest|);
    }
  }

  lemma FreshPrefix(db: Db, ids: seq<Aid>)
    requires FreshIds(db, ids) && ids != []
    ensures var rest, id := ids[..|ids| - 1], ids[|ids| - 1];
            FreshIds(db, rest) && id !in rest && id !in db.allocs && (forall a | a in rest :: a in ids) && id in ids
  {
  }

  lemma InvDeleteAlloc(db: Db, a: Aid)
    requires Inv(db) && a in db.allocs && db.allocs[a].holder.None?
    ensures Inv(db.(allocs := db.allocs - {a}))
  {
    var db' := db.(allocs := db.allocs - {a});
    forall b | b in db'.allocs ensures AllocOk(db', b) { assert AllocOk(db, b); }
    forall s | s in db'.servers ensures ServerOk(db', s) { PrimaryKept(db, db', s); }
  }

  lemma InvNewServer(db: Db, s: Sid, n: Node, a: Aid)
    requires Inv(db) && s !in db.servers && n in db.nodes && FreeOn(db, n, a)
    ensures Inv(NewServer(db, s, n, a))
  {
    var db' := NewServer(db, s, n, a);
    forall b | b in db'.allocs ensures AllocOk(db', b) { assert AllocOk(db, b); }
    assert Holds(db', s, a);
    forall t | t in db'.servers ensures ServerOk(db', t) {
      if t != s { PrimaryKept(db, db', t); }
    }
  }

  /** Handing a port over is harmless when it is free, or an extra port of its holder. */
  lemma InvSetHolder(db: Db, a: Aid, holder: Option<Sid>)
    requires Inv(db) && a in db.allocs
    requires holder.Some? ==>
               && db.allocs[a].holder.None? && holder.value in db.servers
               && db.servers[holder.value].node == db.allocs[a].node
    requires holder.None? && db.allocs[a].holder.Some? ==>
               AllocOk(db, a) && db.allocs[a].port != db.servers[db.allocs[a].holder.value].port
    ensures Inv(SetHolder(db, a, holder))
  {
    var db' := SetHolder(db, a, holder);
    forall b | b in db'.allocs ensures AllocOk(db', b) { assert AllocOk(db, b); }
    forall s | s in db'.servers ensures ServerOk(db', s) { PrimaryKept(db, db', s); }
  }

  lemma InvDropped(db: Db, s: Sid)
    requires Inv(db)
    ensures Inv(Dropped(db, s))
  {
    var db' := Dropped(db, s);
    forall b | b in db'.allocs ensures AllocOk(db', b) { assert AllocOk(db, b); }
    forall t | t in db'.servers ensures ServerOk(db', t) { PrimaryKept(db, db', t); }
  }

  lemma InvNext(db: Db, op: Op, db': Db, r: Result)
    requires Inv(db) && Admissible(db, op) && Next(db, op, db', r)
    ensures Inv(db')
  {
    match op
    case AddNode(_) => InvNodes(db, op, db', r);
    case DeleteNode(_) => InvNodes(db, op, db', r);
    case CreateRange(n, start, end, ids) => if n in db.nodes { InvRange(db, n, Low(start, end), ids); }
    case DeleteAlloc(a) => if FreeOn(db, if a in db.allocs then db.allocs[a].node else "", a) { InvDeleteAlloc(db, a); }
    case CreateServer(s, n, _) =>
      if db' != db {
        var a :| FirstFree(db, n, a) && db' == NewServer(db, s, n, a);
        InvNewServer(db, s, n, a);
      }
    case AddAlloc(s, a, _) => if db' != db { InvSetHolder(db, a, Some(s)); }
    case RemoveAlloc(s, a, _) =>
      if db' != db {
        assert AllocOk(db, a);
        InvSetHolder(db, a, None);
      }
    case DeleteServer(s) => InvDropped(db, s);
  }

  // ----- Any sequence of calls -----

  const START := Db({}, map[], map[])

  ghost predicate Run(dbs: seq<Db>, ops: seq<Op>, rs: seq<Result>) {
    && |dbs| == |ops| + 1 && |rs| == |ops| && dbs[0] == START
    && forall i | 0 <= i < |ops| :: Admissible(dbs[i], ops[i]) && Next(dbs[i], ops[i], dbs[i + 1], rs[i])
  }

  /** Every run keeps: (node, port) pairs unique, every held port's server exists on the
      port's node, and every server has a primary port and holds it. */
  lemma {:induction false} RunInv(dbs: seq<Db>, ops: seq<Op>, rs: seq<Result>, n: nat)
    requires Run(dbs, ops, rs) && n < |dbs|
    ensures Inv(dbs[n])
  {
    if n > 0 {
      RunInv(dbs, ops, rs, n - 1);
      InvNext(dbs[n - 1], ops[n - 1], dbs[n], rs[n - 1]);
    }
  }

  /** The guard of RemoveServerAllocation compares port numbers only; because of the
      invariant it refuses exactly the row of the primary port, which the server keeps. */
  lemma GuardRefusesPrimaryRow(db: Db, s: Sid, a: Aid, reprovisioned: bool, db': Db, r: Result) returns (p: Aid)
    requires Inv(db) && s in db.servers && Holds(db, s, a)
    requires Next(db, RemoveAlloc(s, a, reprovisioned), db', r)
    ensures Holds(db, s, p) && db.allocs[p].port == db.servers[s].port && db.allocs[p].node == db.servers[s].node
    ensures r == Err(Primary) <==> a == p
    ensures Holds(db', s, p) && (a != p ==> !Holds(db', s, a))
  {
    assert ServerOk(db, s);
    p :| p in db.allocs && Holds(db, s, p) && db.allocs[p].port == db.servers[s].port;
    assert AllocOk(db, p) && AllocOk(db, a);
  }

  /** Deleting a node, which is refused while it has servers, removes free ports only. */
  lemma NodeDeletionTakesFreePorts(db: Db, n: Node, db': Db, r: Result)
    requires Inv(db) && Next(db, DeleteNode(n), db', r)
    ensures forall a | a in db.allocs && a !in db'.allocs :: db.allocs[a].holder.None?
    ensures db'.servers == db.servers
  {
  }

  /** Operations that name a server. */
  predicate ServerOp(op: Op) {
    op.CreateServer? || op.AddAlloc? || op.RemoveAlloc? || op.DeleteServer?
  }

  /** A port stays where it is; its holder changes only by an operation on that server, from
      nobody to the server or back. */
  predicate PortKept(row: Alloc, row': Alloc, op: Op) {
    && row'.node == row.node && row'.port == row.port
    && (row'.holder != row.holder ==>
          && ServerOp(op)
          && (if row.holder.None? then row'.holder == Some(op.s) else row.holder == Some(op.s) && row'.holder.None?))
  }

  /** What one call may do to the ports: rows go only while free, with their node or one by
      one, and come only as free ports of a new range. */
  predicate PortsConserved(db: Db, op: Op, db': Db) {
    && (forall a | a in db.allocs && a in db'.allocs :: PortKept(db.allocs[a], db'.allocs[a], op))
    && (forall a | a in db.allocs && a !in db'.allocs ::
          db.allocs[a].holder.None? && (op == DeleteAlloc(a) || op == DeleteNode(db.allocs[a].node)))
    && (forall a | a in db'.allocs && a !in db.allocs :: op.CreateRange? && a in op.ids && db'.allocs[a].holder.None?)
  }

  lemma RangeConserves(db: Db, op: Op, db': Db, r: Result)
    requires op.CreateRange? && Admissible(db, op) && Next(db, op, db', r)
    ensures PortsConserved(db, op, db')
  {
    RangeEffect(db, op.n, Low(op.start, op.end), op.ids);
  }

  lemma NodeConserves(db: Db, op: Op, db': Db, r: Result)
    requires Inv(db) && op.DeleteNode? && Next(db, op, db', r)
    ensures PortsConserved(db, op, db')
  {
    forall a | a in db.allocs ensures AllocOk(db, a) {}
  }

  lemma ServerOpConserves(db: Db, op: Op, db': Db, r: Result)
    requires ServerOp(op) && Next(db, op, db', r)
    ensures PortsConserved(db, op, db')
  {
    assert db'.allocs.Keys == db.allocs.Keys;
  }

  lemma CallConservesPorts(db: Db, op: Op, db': Db, r: Result)
    requires Inv(db) && Admissible(db, op) && Next(db, op, db', r)
    ensures PortsConserved(db, op, db')
  {
    if op.CreateRange? {
      RangeConserves(db, op, db', r);
    } else if op.DeleteNode? {
      NodeConserves(db, op, db', r);
    } else if ServerOp(op) {
      ServerOpConserves(db, op, db', r);
    }
  }

  /** What takes port `a` from server `s`. */
  predicate Takes(op: Op, s: Sid, a: Aid) {
    op == DeleteServer(s) || (op.RemoveAlloc? && op.s == s && op.a == a)
  }

  lemma HeldStep(db: Db, op: Op, db': Db, r: Result, s: Sid, a: Aid)
    requires Next(db, op, db', r) && PortsConserved(db, op, db') && Holds(db, s, a) && !Takes(op, s, a)
    ensures Holds(db', s, a) && db'.allocs[a] == db.allocs[a]
  {
  }

  /** Over any stretch of any run a port that a server holds stays its own, on the same node
      with the same number, until that port is removed from it or the server is deleted. */
  lemma {:induction false} HeldUntilTaken(dbs: seq<Db>, ops: seq<Op>, rs: seq<Result>, i: nat, n: nat, s: Sid, a: Aid)
    requires Run(dbs, ops, rs) && i <= n < |dbs| && Holds(dbs[i], s, a)
    requires forall k | i <= k < n :: !Takes(ops[k], s, a)
    ensures Holds(dbs[n], s, a) && dbs[n].allocs[a] == dbs[i].allocs[a]
  {
    if n > i {
      hide Inv, Holds, PortsConserved, Takes;
      HeldUntilTaken(dbs, ops, rs, i, n - 1, s, a);
      RunInv(dbs, ops, rs, n - 1);
      CallConservesPorts(dbs[n - 1], ops[n - 1], dbs[n], rs[n - 1]);
      HeldStep(dbs[n - 1], ops[n - 1], dbs[n], rs[n - 1], s, a);
    }
  }

  /** ... and a port is held by nobody right after its server was deleted, whoever held others. */
  lemma DeletionFreesExactly(dbs: seq<Db>, ops: seq<Op>, rs: seq<Result>, n: nat, a: Aid)
    requires Run(dbs, ops, rs) && n < |ops| && ops[n].DeleteServer? && a in dbs[n].allocs
    ensures a in dbs[n + 1].allocs
    ensures dbs[n + 1].allocs[a].holder == if Holds(dbs[n], ops[n].s, a) then None else dbs[n].allocs[a].holder
  {
    RunInv(dbs, ops, rs, n);
    assert AllocOk(dbs[n], a);
    assert Next(dbs[n], ops[n], dbs[n + 1], rs[n]);
  }

  // ----- Creating ranges -----

  /** `after` has the rows of `before`, untouched, and free rows for ports in [low, high) of
      the node that were missing. */
  predicate GrownBy(before: Db, after: Db, n: Node, low: int, high: int) {
    && after.nodes == before.nodes && after.servers == before.servers
    && (forall a | a in before.allocs :: a in after.allocs && after.allocs[a] == before.allocs[a])
    && (forall a | a in after.allocs && a !in before.allocs ::
          && after.allocs[a].node == n && after.allocs[a].holder.None?
          && low <= after.allocs[a].port < high && !HasPort(before, n, after.allocs[a].port))
  }

  lemma StillHas(before: Db, after: Db, n: Node, low: int, high: int, port: int)
    requires GrownBy(before, after, n, low, high) && HasPort(before, n, port)
    ensures HasPort(after, n, port)
  {
  }

  lemma GrownByNothing(db: Db, n: Node, low: int)
    ensures GrownBy(db, db, n, low, low)
  {
  }

  /** After the loop every port of the range exists, and that is all that happened. */
  lemma {:induction false} RangeEffect(db: Db, n: Node, low: int, ids: seq<Aid>)
    requires FreshIds(db, ids)
    ensures var db' := Ranged(db, n, low, ids);
            && GrownBy(db, db', n, low, low + |ids|)
            && (forall a | a in db'.allocs && a !in db.allocs :: a in ids)
            && (forall port | low <= port < low + |ids| :: HasPort(db', n, port))
  {
    hide GrownBy, HasPort, AddPort;
    if ids == [] {
      GrownByNothing(db, n, low);
    } else {
      var k := |ids| - 1;
      RangeEffect(db, n, low, ids[..k]);
      var before, after := Ranged(db, n, low, ids[..k]), Ranged(db, n, low, ids);
      assert ids == ids[..k] + [ids[k]] && ids[k] !in ids[..k] && ids[k] !in before.allocs;
      RangeStep(db, before, n, low, k, ids[k]);
    }
  }

  lemma RangeStep(db: Db, before: Db, n: Node, low: int, k: nat, id: Aid)
    requires GrownBy(db, before, n, low, low + k) && id !in before.allocs
    requires forall port | low <= port < low + k :: HasPort(before, n, port)
    ensures var after := AddPort(before, id, n, low + k);
            && GrownBy(db, after, n, low, low + k + 1)
            && (forall port | low <= port < low + k + 1 :: HasPort(after, n, port))
            && (forall a | a in after.allocs :: a in before.allocs || a == id)
  {
    var after := AddPort(before, id, n, low + k);
    if HasPort(db, n, low + k) { StillHas(db, before, n, low, low + k, low + k); }
    assert GrownBy(before, after, n, low + k, low + k + 1);
    forall port | low <= port < low + k + 1 ensures HasPort(after, n, port) {
      if HasPort(before, n, port) {
        StillHas(before, after, n, low + k, low + k + 1, port);
      } else {
        assert port == low + k && id in after.allocs;
      }
    }
  }

  lemma {:induction false} RangeOfPresent(db: Db, n: Node, low: int, ids: seq<Aid>)
    requires forall port | low <= port < low + |ids| :: HasPort(db, n, port)
    ensures Ranged(db, n, low, ids) == db
  {
    if ids != [] {
      RangeOfPresent(db, n, low, ids[..|ids| - 1]);
    }
  }

  /** Creating the same range again creates nothing and reports 0. */
  lemma RepeatedRangeIsEmpty(db: Db, n: Node, start: int, end: int, ids: seq<Aid>, again: seq<Aid>,
                             db1: Db, r1: Result, db2: Db, r2: Result)
    requires Inv(db) && n in db.nodes
    requires Admissible(db, CreateRange(n, start, end, ids)) && Next(db, CreateRange(n, start, end, ids), db1, r1)
    requires Admissible(db1, CreateRange(n, start, end, again)) && Next(db1, CreateRange(n, start, end, again), db2, r2)
    ensures db2 == db1 && r2 == Ok(0)
  {
    RangeEffect(db, n, Low(start, end), ids);
    RangeOfPresent(db1, n, Low(start, end), again);
  }

  // ----- What each call answers and leaves behind, row by row -----

  /** An additional port is attached exactly when it is a free row of the server's own node and
      the container was recreated with it; otherwise nothing changes. */
  lemma AddEffect(dbs: seq<Db>, ops: seq<Op>, rs: seq<Result>, n: nat)
    requires Run(dbs, ops, rs) && n < |ops| && ops[n].AddAlloc?
    ensures var db, db', op, r := dbs[n], dbs[n + 1], ops[n], rs[n];
            var s, a, reprovisioned := op.s, op.a, op.reprovisioned;
            && (r.Ok? <==> s in db.servers && a in db.allocs && db.allocs[a].node == db.servers[s].node
                           && db.allocs[a].holder == None && reprovisioned)
            && (r.Ok? ==> db' == db.(allocs := db.allocs[a := Alloc(db.allocs[a].node, db.allocs[a].port, Some(s))]))
            && (r.Err? ==> db' == db)
            && (r == Err(NotFound) <==> s !in db.servers || a !in db.allocs)
            && (r == Err(WrongNode) ==> db.allocs[a].node != db.servers[s].node)
            && (r == Err(InUse) ==> db.allocs[a].holder.Some?) && (r == Err(Failed) ==> !reprovisioned)
            && (r.Err? ==> r.error in {NotFound, WrongNode, InUse, Failed})
  {
    assert Next(dbs[n], ops[n], dbs[n + 1], rs[n]);
  }

  /** A port is detached exactly when the server holds it and it is not the primary one, also
      when the container cannot be recreated; the answer says whether it was. */
  lemma RemoveEffect(dbs: seq<Db>, ops: seq<Op>, rs: seq<Result>, n: nat)
    requires Run(dbs, ops, rs) && n < |ops| && ops[n].RemoveAlloc?
    ensures var db, db', op, r := dbs[n], dbs[n + 1], ops[n], rs[n];
            var s, a, reprovisioned := op.s, op.a, op.reprovisioned;
            var detached := s in db.servers && a in db.allocs && db.allocs[a].holder == Some(s)
                            && db.allocs[a].port != db.servers[s].port;
            && db' == (if detached then db.(allocs := db.allocs[a := Alloc(db.allocs[a].node, db.allocs[a].port, None)])
                       else db)
            && (r.Ok? <==> detached && reprovisioned) && (r == Err(Failed) <==> detached && !reprovisioned)
            && (r == Err(Primary) <==> s in db.servers && a in db.allocs && db.allocs[a].holder == Some(s) && !detached)
            && (r == Err(NotFound) <==> s !in db.servers || a !in db.allocs || db.allocs[a].holder != Some(s))
  {
    assert Next(dbs[n], ops[n], dbs[n + 1], rs[n]);
  }

  /** A new server takes a free port of its node with the lowest number there; it exists exactly
      when there was one and its number could be saved, and otherwise nothing changes. */
  lemma CreateEffect(dbs: seq<Db>, ops: seq<Op>, rs: seq<Result>, n: nat)
    requires Run(dbs, ops, rs) && n < |ops| && ops[n].CreateServer?
    ensures var db, db', op, r := dbs[n], dbs[n + 1], ops[n], rs[n];
            var s, m, portSaved := op.s, op.n, op.portSaved;
            var free := set a | a in db.allocs && db.allocs[a].node == m && db.allocs[a].holder == None;
            && (r.Ok? <==> m in db.nodes && free != {} && portSaved)
            && (r.Ok? ==>
                  exists a | a in free ::
                    && (forall b | b in free :: db.allocs[a].port <= db.allocs[b].port) && r.value == db.allocs[a].port
                    && db' == Db(db.nodes, db.servers[s := Server(m, r.value)],
                                 db.allocs[a := Alloc(m, r.value, Some(s))]))
            && (r.Err? ==> db' == db && r.error == if m in db.nodes && free != {} then Failed else NotFound)
  {
    var db, s, m := dbs[n], ops[n].s, ops[n].n;
    assert Next(db, ops[n], dbs[n + 1], rs[n]);
    var free := set a | a in db.allocs && db.allocs[a].node == m && db.allocs[a].holder == None;
    if HasFree(db, m) {
      var a :| a in db.allocs && FreeOn(db, m, a);
      assert a in free;
    }
    if rs[n].Ok? {
      var a :| FirstFree(db, m, a) && dbs[n + 1] == NewServer(db, s, m, a) && rs[n] == Ok(db.allocs[a].port);
      assert a in free;
      forall b | b in free ensures db.allocs[a].port <= db.allocs[b].port { assert FreeOn(db, m, b); }
    } else if free != {} {
      var a :| a in free;
      assert FreeOn(db, m, a);
    }
  }

  /** Deleting a server takes its row and frees its ports, and only those. */
  lemma DeleteEffect(dbs: seq<Db>, ops: seq<Op>, rs: seq<Result>, n: nat)
    requires Run(dbs, ops, rs) && n < |ops| && ops[n].DeleteServer?
    ensures var db, db', s, r := dbs[n], dbs[n + 1], ops[n].s, rs[n];
            && (r.Ok? <==> s in db.servers) && (r.Err? ==> db' == db && r == Err(NotFound))
            && (r.Ok? ==>
                  && db'.nodes == db.nodes && db'.servers == db.servers - {s} && db'.allocs.Keys == db.allocs.Keys
                  && forall a | a in db.allocs ::
                       db'.allocs[a] == Alloc(db.allocs[a].node, db.allocs[a].port,
                                              if db.allocs[a].holder == Some(s) then None else db.allocs[a].holder))
  {
    assert Next(dbs[n], ops[n], dbs[n + 1], rs[n]);
  }

  /** Nodes are deleted with their ports exactly when they have no servers, and single ports
      exactly while they are free. */
  lemma CleanupEffect(dbs: seq<Db>, ops: seq<Op>, rs: seq<Result>, n: nat)
    requires Run(dbs, ops, rs) && n < |ops| && (ops[n].DeleteNode? || ops[n].DeleteAlloc? || ops[n].AddNode?)
    ensures var db, db', r := dbs[n], dbs[n + 1], rs[n];
      (r.Err? ==> db' == db) &&
      match ops[n]
      case AddNode(m) => r.Ok? && db' == Db(db.nodes + {m}, db.servers, db.allocs)
      case DeleteNode(m) =>
        && (r.Ok? <==> m in db.nodes && forall s | s in db.servers :: db.servers[s].node != m)
        && (r.Err? ==> r.error == if exists s | s in db.servers :: db.servers[s].node == m then NodeInUse else NotFound)
        && (r.Ok? ==>
              && db'.nodes == db.nodes - {m} && db'.servers == db.servers
              && (forall a :: a in db'.allocs <==> a in db.allocs && db.allocs[a].node != m)
              && forall a | a in db'.allocs :: db'.allocs[a] == db.allocs[a])
      case DeleteAlloc(a) =>
        && (r.Ok? <==> a in db.allocs && db.allocs[a].holder == None)
        && (r.Err? ==> r.error == if a in db.allocs then InUse else NotFound)
        && (r.Ok? ==> db' == Db(db.nodes, db.servers, db.allocs - {a}))
  {
    assert Next(dbs[n], ops[n], dbs[n + 1], rs[n]);
  }

  /** After a range was created on an existing node, every port from the lower to the higher
      bound exists there once; rows there before are as they were, rows that are new are free
      and of the range, and the answer is their number. */
  lemma CreateRangeEffect(dbs: seq<Db>, ops: seq<Op>, rs: seq<Result>, n: nat, port: int)
    requires Run(dbs, ops, rs) && n < |ops| && ops[n].CreateRange?
    ensures var db, db', op, r := dbs[n], dbs[n + 1], ops[n], rs[n];
            var low := if op.start < op.end then op.start else op.end;
            var high := if op.start < op.end then op.end else op.start;
            && (r.Ok? <==> op.n in db.nodes) && (r.Err? ==> db' == db)
            && (r.Ok? ==> r.value == |db'.allocs| - |db.allocs| && RangeAdded(db, db', op.n, low, high))
            && (r.Ok? && low <= port <= high ==>
                  exists a | a in db'.allocs :: db'.allocs[a].node == op.n && db'.allocs[a].port == port)
            && UniquePorts(db')
  {
    var db, op := dbs[n], ops[n];
    assert Next(db, op, dbs[n + 1], rs[n]) && Admissible(db, op);
    RunInv(dbs, ops, rs, n + 1);
    RangeEffect(db, op.n, Low(op.start, op.end), op.ids);
    hide Ranged, FreshIds;
    if op.n in db.nodes && Low(op.start, op.end) <= port <= High(op.start, op.end) {
      assert HasPort(dbs[n + 1], op.n, port);
    }
  }

  /** Only free rows of the node, with ports from low to high, were added. */
  predicate RangeAdded(db: Db, db': Db, m: Node, low: int, high: int) {
    && db'.nodes == db.nodes && db'.servers == db.servers
    && (forall a | a in db.allocs :: a in db'.allocs && db'.allocs[a] == db.allocs[a])
    && (forall a | a in db'.allocs && a !in db.allocs ::
          db'.allocs[a].node == m && low <= db'.allocs[a].port <= high && db'.allocs[a].holder == None)
  }

  // ----- Published ports -----

  /** The rows of ListByServer: each row the server holds, once, ordered by port. */
  predicate Listing(db: Db, s: Sid, rows: seq<Aid>) {
    && (forall i | 0 <= i < |rows| :: Holds(db, s, rows[i]))
    && (forall a | a in db.allocs && Holds(db, s, a) :: a in rows)
    && (forall i, j | 0 <= i < j < |rows| :: rows[i] != rows[j] && db.allocs[rows[i]].port <= db.allocs[rows[j]].port)
  }

  function PortsOf(db: Db, rows: seq<Aid>): (r: seq<int>)
    requires forall i | 0 <= i < |rows| :: rows[i] in db.allocs
    ensures |r| == |rows| && forall i | 0 <= i < |rows| :: r[i] == db.allocs[rows[i]].port
  {
    seq(|rows|, i requires 0 <= i < |rows| => db.allocs[rows[i]].port)
  }

  function Others(ports: seq<int>, primary: int): seq<int> {
    if ports == [] then []
    else Others(ports[..|ports| - 1], primary) + (if ports[|ports| - 1] == primary then [] else [ports[|ports| - 1]])
  }

  /** The primary port first, then the additional ones in ascending order. */
  method PublishedPorts(primary: int, held: seq<int>) returns (ports: seq<int>)
    ensures ports == [primary] + Others(held, primary)
    ensures |ports| >= 1 && ports[0] == primary && forall p :: p in ports <==> p == primary || p in held
  {
    ports := [primary];
    var extras := [];
    for i := 0 to |held|
      invariant extras == Others(held[..i], primary)
      invariant forall p :: p in extras <==> p in held[..i] && p != primary
    {
      assert held[..i + 1][..i] == held[..i] && held[..i + 1] == held[..i] + [held[i]];
      if held[i] != primary {
        extras := extras + [held[i]];
      }
    }
    assert held[..|held|] == held;
    ports := ports + extras;
  }

  predicate Ascending(ports: seq<int>) {
    forall i, j | 0 <= i < j < |ports| :: ports[i] < ports[j]
  }

  lemma {:induction false} OthersEffect(ports: seq<int>, primary: int)
    requires Ascending(ports)
    ensures forall p :: p in Others(ports, primary) <==> p in ports && p != primary
    ensures Ascending(Others(ports, primary))
  {
    if ports != [] {
      var rest, last := ports[..|ports| - 1], ports[|ports| - 1];
      OthersEffect(rest, primary);
      assert ports == rest + [last];
      var r := Others(rest, primary);
      forall i | 0 <= i < |r| ensures r[i] < last {
        assert r[i] in r && r[i] in rest;
      }
    }
  }

  function Published(db: Db, s: Sid, rows: seq<Aid>): seq<int>
    requires s in db.servers && Listing(db, s, rows)
  {
    [db.servers[s].port] + Others(PortsOf(db, rows), db.servers[s].port)
  }

  predicate HoldsPort(db: Db, s: Sid, p: int) {
    exists a | a in db.allocs :: db.allocs[a].holder == Some(s) && db.allocs[a].port == p
  }

  lemma ListingAscends(db: Db, s: Sid, rows: seq<Aid>)
    requires Inv(db) && Listing(db, s, rows)
    ensures Ascending(PortsOf(db, rows))
  {
  }

  /** A server publishes each port it holds exactly once, its primary port first and the
      others in ascending order, and nothing else. */
  lemma PublishesWhatItHolds(db: Db, s: Sid, rows: seq<Aid>)
    requires Inv(db) && s in db.servers && Listing(db, s, rows)
    ensures forall p :: p in Published(db, s, rows) <==> HoldsPort(db, s, p)
    ensures var ports := Published(db, s, rows);
            && ports != [] && ports[0] == db.servers[s].port
            && forall i, j | 0 <= i < j < |ports| :: ports[i] != ports[j] && (i > 0 ==> ports[i] < ports[j])
  {
    var held, primary := PortsOf(db, rows), db.servers[s].port;
    assert HoldsPort(db, s, primary) by { assert ServerOk(db, s); }
    ListingAscends(db, s, rows);
    OthersEffect(held, primary);
    var ports, others := Published(db, s, rows), Others(held, primary);
    forall p ensures p in ports <==> HoldsPort(db, s, p) {
      HeldPorts(db, s, rows, p);
    }
    forall i, j | 0 <= i < j < |ports| ensures ports[i] != ports[j] && (i > 0 ==> ports[i] < ports[j]) {
      assert ports[j] == others[j - 1] && others[j - 1] in others;
    }
  }

  lemma HeldPorts(db: Db, s: Sid, rows: seq<Aid>, p: int)
    requires Listing(db, s, rows)
    ensures p in PortsOf(db, rows) <==> HoldsPort(db, s, p)
  {
  }

  /** Two servers on one node never publish the same port. */
  lemma NoPortPublishedTwice(db: Db, s: Sid, t: Sid, rows: seq<Aid>, others: seq<Aid>, p: int)
    requires Inv(db) && s in db.servers && t in db.servers && s != t && db.servers[s].node == db.servers[t].node
    requires Listing(db, s, rows) && Listing(db, t, others)
    ensures !(p in Published(db, s, rows) && p in Published(db, t, others))
  {
    PublishesWhatItHolds(db, s, rows);
    PublishesWhatItHolds(db, t, others);
    forall a, b | a in db.allocs && b in db.allocs && Holds(db, s, a) && Holds(db, t, b)
      ensures db.allocs[a].port != db.allocs[b].port
    {
      assert AllocOk(db, a) && AllocOk(db, b);
    }
  }

  // ----- The tables and the calls, statement by statement -----

  lemma {:induction false} FirstFreeExists(db: Db, n: Node, rows: set<Aid>) returns (a: Aid)
    requires rows <= db.allocs.Keys && rows != {}
    ensures a in rows && forall b | b in rows :: db.allocs[a].port <= db.allocs[b].port
  {
    a :| a in rows;
    if rows != {a} {
      var rest := rows - {a};
      assert rows == rest + {a};
      var b := FirstFreeExists(db, n, rest);
      if db.allocs[b].port < db.allocs[a].port { a := b; }
    }
  }

  lemma SomeFirstFree(db: Db, n: Node)
    requires HasFree(db, n)
    ensures exists a | a in db.allocs :: FirstFree(db, n, a)
  {
    var rows := set a | a in db.allocs && FreeOn(db, n, a);
    var b :| b in db.allocs && FreeOn(db, n, b);
    assert b in rows;
    var a := FirstFreeExists(db, n, rows);
    assert FirstFree(db, n, a);
  }

  class Panel {
    var nodes: set<Node>
    var servers: map<Sid, Server>
    var allocs: map<Aid, Alloc>

    function View(): Db
      reads this
    {
      Db(nodes, servers, allocs)
    }

    constructor ()
      ensures View() == START
    {
      nodes, servers, allocs := {}, map[], map[];
    }

    method ClaimFree(n: Node, s: Sid) returns (r: Result)
      requires s in servers
      modifies this`allocs
      ensures if HasFree(old(View()), n) then
                exists a :: FirstFree(old(View()), n, a) && View() == SetHolder(old(View()), a, Some(s))
                    && r == Ok(old(allocs)[a].port)
              else View() == old(View()) && r == Err(NotFound)
    {
      if !HasFree(View(), n) {
        return Err(NotFound);
      }
      SomeFirstFree(View(), n);
      var a :| a in allocs && FirstFree(View(), n, a);
      allocs := allocs[a := allocs[a].(holder := Some(s))];
      r := Ok(allocs[a].port);
    }

    method ClaimSpecific(a: Aid, s: Sid) returns (r: Result)
      requires s in servers
      modifies this`allocs
      ensures if a !in old(allocs) then View() == old(View()) && r == Err(NotFound)
              else if old(allocs)[a].holder.Some? then View() == old(View()) && r == Err(InUse)
              else View() == SetHolder(old(View()), a, Some(s)) && r == Ok(old(allocs)[a].port)
    {
      if a in allocs && allocs[a].holder.None? {
        allocs := allocs[a := allocs[a].(holder := Some(s))];
        return Ok(allocs[a].port);
      }
      r := Err(if a !in allocs then NotFound else InUse);
    }

    /** A late call for a port that somebody else holds by now does nothing. */
    method ReleaseOne(a: Aid, s: Sid)
      modifies this`allocs
      ensures View() == if Holds(old(View()), s, a) then SetHolder(old(View()), a, None) else old(View())
      ensures forall b | b in old(allocs) ::
        && b in allocs
        && allocs[b] == if b == a && old(allocs)[a].holder == Some(s) then old(allocs)[a].(holder := None)
                        else old(allocs)[b]
    {
      if a in allocs && allocs[a].holder == Some(s) {
        allocs := allocs[a := allocs[a].(holder := None)];
      }
    }

    method ReleaseByServerID(s: Sid)
      modifies this`allocs
      ensures View() == Released(old(View()), s)
      ensures forall b | b in old(allocs) ::
        && b in allocs
        && allocs[b] == if old(allocs)[b].holder == Some(s) then old(allocs)[b].(holder := None) else old(allocs)[b]
    {
      allocs := map a | a in allocs :: if allocs[a].holder == Some(s) then allocs[a].(holder := None) else allocs[a];
    }

    method DeleteServerRow(s: Sid)
      modifies this`allocs, this`servers
      ensures View() == Dropped(old(View()), s)
    {
      ReleaseByServerID(s);
      servers := servers - {s};
    }

    method DeleteAllocation(a: Aid) returns (r: Result)
      modifies this`allocs
      ensures Next(old(View()), DeleteAlloc(a), View(), r)
    {
      if a in allocs && allocs[a].holder.None? {
        allocs := allocs - {a};
        return Ok(0);
      }
      r := Err(if a !in allocs then NotFound else InUse);
    }

    /** One INSERT of the range; the result is whether a row was added. */
    method InsertPort(id: Aid, n: Node, port: int) returns (added: bool)
      requires id !in allocs
      modifies this`allocs
      ensures View() == AddPort(old(View()), id, n, port)
      ensures |allocs| == |old(allocs)| + (if added then 1 else 0)
    {
      added := !HasPort(View(), n, port);
      if added {
        allocs := allocs[id := Alloc(n, port, None)];
      }
    }

    /** The loop over the range; the result counts the new rows. */
    method InsertPorts(n: Node, low: int, ids: seq<Aid>) returns (created: int)
      requires FreshIds(View(), ids)
      modifies this`allocs
      ensures View() == Ranged(old(View()), n, low, ids) && created == |allocs| - |old(allocs)|
    {
      hide Ranged, FreshIds, AddPort, HasPort;
      RangeEnds(View(), n, low, ids);
      created := 0;
      for k := 0 to |ids|
        invariant View() == Ranged(old(View()), n, low, ids[..k])
        invariant created == |allocs| - |old(allocs)|
      {
        RangeNext(old(View()), n, low, ids, k);
        var added := InsertPort(ids[k], n, low + k);
        if added {
          created := created + 1;
        }
      }
    }

    method CreatePorts(n: Node, start: int, end: int, ids: seq<Aid>) returns (r: Result)
      requires |ids| == High(start, end) - Low(start, end) + 1 && FreshIds(View(), ids)
      modifies this`allocs
      ensures RangeCreated(old(View()), n, Low(start, end), ids, View(), r)
    {
      if n !in nodes {
        return Err(Failed);
      }
      var low, high := start, end;
      if low > high {
        low, high := high, low;
      }
      var created := InsertPorts(n, low, ids);
      r := Ok(created);
    }

    /** The new server's row, then a port for it; without one the row goes again. */
    method InsertAndClaim(s: Sid, n: Node) returns (r: Result)
      requires Inv(View()) && s !in servers
      modifies this
      ensures if HasFree(old(View()), n) then
                exists a :: FirstFree(old(View()), n, a) && View() == Claimed(old(View()), s, n, a)
                    && r == Ok(old(allocs)[a].port)
              else View() == old(View()) && r == Err(NotFound)
    {
      ghost var before := View();
      servers := servers[s := Server(n, 0)];
      ghost var inserted := View();
      SameFree(before, inserted, n);
      r := ClaimFree(n, s);
      if r.Err? {
        DeleteServerRow(s);
        NothingHeld(before, inserted, s);
      }
    }

    /** A new server with its port; every failure is undone. */
    method Create(s: Sid, n: Node, portSaved: bool) returns (r: Result)
      requires Inv(View()) && s !in servers
      modifies this
      ensures ServerCreated(old(View()), s, n, portSaved, View(), r)
    {
      if n !in nodes {
        return Err(NotFound);
      }
      r := InsertAndClaim(s, n);
      if r.Err? {
        return;
      }
      ghost var a :| FirstFree(old(View()), n, a) && View() == Claimed(old(View()), s, n, a)
          && r == Ok(old(allocs)[a].port);
      if portSaved {
        servers := servers[s := Server(n, r.value)];
      } else {
        ReleaseByServerID(s);
        DeleteServerRow(s);
        ClaimUndone(old(View()), n, s, a);
        r := Err(Failed);
      }
    }

    method AddAllocation(s: Sid, a: Aid, reprovisioned: bool) returns (r: Result)
      modifies this`allocs
      ensures Next(old(View()), AddAlloc(s, a, reprovisioned), View(), r)
      ensures r.Ok? ==> reprovisioned && a in old(allocs)
                        && allocs == old(allocs)[a := old(allocs)[a].(holder := Some(s))]
      ensures r.Err? ==> allocs == old(allocs)
    {
      if s !in servers || a !in allocs {
        return Err(NotFound);
      }
      if allocs[a].node != servers[s].node {
        return Err(WrongNode);
      }
      r := ClaimSpecific(a, s);
      if r.Err? {
        return;
      }
      if !reprovisioned {
        ReleaseOne(a, s);
        assert allocs == old(allocs);
        return Err(Failed);
      }
      r := Ok(0);
    }

    method RemoveAllocation(s: Sid, a: Aid, reprovisioned: bool) returns (r: Result)
      modifies this`allocs
      ensures Next(old(View()), RemoveAlloc(s, a, reprovisioned), View(), r)
      ensures r.Ok? || r == Err(Failed) ==>
                a in old(allocs) && allocs == old(allocs)[a := old(allocs)[a].(holder := None)]
      ensures r.Err? && r != Err(Failed) ==> allocs == old(allocs)
    {
      if s !in servers || a !in allocs || allocs[a].holder != Some(s) {
        return Err(NotFound);
      }
      if allocs[a].port == servers[s].port {
        return Err(Primary);
      }
      ReleaseOne(a, s);
      r := if reprovisioned then Ok(0) else Err(Failed);
    }

    method Delete(s: Sid) returns (r: Result)
      modifies this`allocs, this`servers
      ensures Next(old(View()), DeleteServer(s), View(), r)
    {
      if s !in servers {
        return Err(NotFound);
      }
      ReleaseByServerID(s);
      DeleteServerRow(s);
      assert Released(Released(old(View()), s), s).allocs == Released(old(View()), s).allocs;
      r := Ok(0);
    }

    method DeleteEmptyNode(n: Node) returns (r: Result)
      modifies this`nodes, this`allocs
      ensures Next(old(View()), DeleteNode(n), View(), r)
    {
      if exists s | s in servers :: servers[s].node == n {
        return Err(NodeInUse);
      }
      if n !in nodes {
        return Err(NotFound);
      }
      nodes := nodes - {n};
      allocs := map a | a in allocs && allocs[a].node != n :: allocs[a];
      r := Ok(0);
    }
  }

  lemma RangeEnds(db: Db, n: Node, low: int, ids: seq<Aid>)
    ensures Ranged(db, n, low, ids[..0]) == db && ids[..|ids|] == ids
  {
  }

  lemma RangeNext(db: Db, n: Node, low: int, ids: seq<Aid>, k: nat)
    requires FreshIds(db, ids) && k < |ids|
    ensures ids[k] !in Ranged(db, n, low, ids[..k]).allocs
    ensures Ranged(db, n, low, ids[..k + 1]) == AddPort(Ranged(db, n, low, ids[..k]), ids[k], n, low + k)
  {
    hide GrownBy, HasPort, AddPort;
    assert ids[..k + 1][..k] == ids[..k] && ids[k] !in ids[..k];
    RangeEffect(db, n, low, ids[..k]);
  }

  lemma SameFree(db: Db, inserted: Db, n: Node)
    requires inserted.allocs == db.allocs
    ensures HasFree(inserted, n) == HasFree(db, n)
    ensures forall a :: FirstFree(inserted, n, a) <==> FirstFree(db, n, a)
    ensures forall a :: FirstFree(inserted, n, a) ==> a in db.allocs
  {
  }

  lemma NothingHeld(db: Db, inserted: Db, s: Sid)
    requires Inv(db) && s !in db.servers
    requires inserted.nodes == db.nodes && inserted.allocs == db.allocs && inserted.servers - {s} == db.servers
    ensures Dropped(inserted, s) == db
  {
  }

  lemma ClaimUndone(db: Db, n: Node, s: Sid, a: Aid)
    requires Inv(db) && s !in db.servers && FirstFree(db, n, a)
    ensures Dropped(Released(Claimed(db, s, n, a), s), s) == db
  {
    var released := Released(Claimed(db, s, n, a), s);
    assert released.allocs == db.allocs by {
      forall b | b in db.allocs ensures db.allocs[b].holder != Some(s) { assert AllocOk(db, b); }
    }
    NothingHeld(db, released, s);
  }
}
