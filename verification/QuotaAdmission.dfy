/** Per-user resource quotas, and the create/clone requests that have to stay within them. */
module QuotaAdmission {
  import opened Options
  import opened Int64
  import opened KeyedLock

  // ----- Quota arithmetic -----

  datatype Res = Res(mem: int, cpu: int, disk: int)

  /** A row of the servers table, as far as quotas look at it. */
  datatype Server = Server(id: string, owner: Key, res: Res)

  datatype Dimension = Memory | Cpu | Disk

  datatype Verdict =
    | Allowed
    | UnlimitedCpu
    | Exceeded(dim: Dimension, limit: int, have: int, requested: int)

  const DEFAULT := Res(2048 * 1024 * 1024, 200, 10240 * 1024 * 1024)

  function Plus(a: Res, b: Res): Res {
    Res(a.mem + b.mem, a.cpu + b.cpu, a.disk + b.disk)
  }

  function Wrapped(a: Res): Res {
    Res(Wrap(a.mem), Wrap(a.cpu), Wrap(a.disk))
  }

  predicate Within(a: Res, limit: Res) {
    a.mem <= limit.mem && a.cpu <= limit.cpu && a.disk <= limit.disk
  }

  predicate FitsAll(a: Res) {
    Fits(a.mem) && Fits(a.cpu) && Fits(a.disk)
  }

  predicate NonNegative(a: Res) {
    a.mem >= 0 && a.cpu >= 0 && a.disk >= 0
  }

  /** The true total of a user's servers, in unbounded arithmetic. */
  function Total(rows: seq<Server>, user: Key): Res {
    if rows == [] then Res(0, 0, 0)
    else
      var rest := Total(rows[..|rows| - 1], user);
      var last := rows[|rows| - 1];
      if last.owner == user then Plus(rest, last.res) else rest
  }

  /** Effective: each setting or its default, plus the bought bonus. */
  function Effective(settings: (Option<int>, Option<int>, Option<int>), bonus: Res): Res {
    Wrapped(Plus(Res(if settings.0.Some? then settings.0.value else DEFAULT.mem,
                     if settings.1.Some? then settings.1.value else DEFAULT.cpu,
                     if settings.2.Some? then settings.2.value else DEFAULT.disk), bonus))
  }

  function Without(rows: seq<Server>, id: string): seq<Server> {
    if rows == [] then []
    else Without(rows[..|rows| - 1], id) + (if rows[|rows| - 1].id == id then [] else [rows[|rows| - 1]])
  }

  /** Usage: the loop over the rows of one owner, leaving one server out; every addition
      wraps. `counted` is the outcome of the databases query, which counts 0 when it fails. */
  method Usage(owned: seq<Server>, user: Key, exclude: string, counted: Option<nat>)
    returns (servers: nat, u: Res, databases: nat)
    requires forall srv | srv in owned :: srv.owner == user
    ensures databases == if counted.Some? then counted.value else 0
    ensures u == Wrapped(Total(Without(owned, exclude), user)) && servers == |Without(owned, exclude)|
    ensures u.mem == Wrap(Used(owned, user, Some(exclude), Memory))
    ensures u.cpu == Wrap(Used(owned, user, Some(exclude), Cpu))
    ensures u.disk == Wrap(Used(owned, user, Some(exclude), Disk))
  {
    u := Res(0, 0, 0);
    databases := if counted.Some? then counted.value else 0;
    servers := 0;
    for i := 0 to |owned|
      invariant servers == |Without(owned[..i], exclude)|
      invariant u == Wrapped(Total(Without(owned[..i], exclude), user))
    {
      var srv := owned[i];
      UsageStep(owned, i, user, exclude);
      if srv.id == exclude {
        continue;
      }
      PlusWrapped(Total(Without(owned[..i], exclude), user), srv.res);
      servers := servers + 1;
      u := Wrapped(Plus(u, srv.res));
    }
    assert owned[..|owned|] == owned;
    UsedExactly(owned, user, Some(exclude));
  }

  /** What a user's servers take up in one dimension, leaving out at most one of them. */
  function Used(rows: seq<Server>, user: Key, except: Option<string>, dim: Dimension): int {
    if rows == [] then 0
    else
      var last := rows[|rows| - 1];
      Used(rows[..|rows| - 1], user, except, dim) +
      if last.owner != user || except == Some(last.id) then 0
      else match dim
        case Memory => last.res.mem
        case Cpu => last.res.cpu
        case Disk => last.res.disk
  }

  lemma TotalLast(rows: seq<Server>, last: Server, user: Key)
    ensures var total, rest := Total(rows + [last], user), Total(rows, user);
            if last.owner == user then
              && total.mem == rest.mem + last.res.mem && total.cpu == rest.cpu + last.res.cpu
              && total.disk == rest.disk + last.res.disk
            else total == rest
  {
    TotalSnoc(rows, last, user);
  }

  lemma WithoutLast(rows: seq<Server>, last: Server, id: string)
    ensures Without(rows + [last], id) == if last.id == id then Without(rows, id) else Without(rows, id) + [last]
  {
    assert (rows + [last])[..|rows|] == rows;
  }

  predicate Matches(total: Res, rows: seq<Server>, user: Key, except: Option<string>) {
    && total.mem == Used(rows, user, except, Memory)
    && total.cpu == Used(rows, user, except, Cpu)
    && total.disk == Used(rows, user, except, Disk)
  }

  lemma MatchesLast(total: Res, rows: seq<Server>, last: Server, user: Key, except: Option<string>)
    requires Matches(total, rows, user, except)
    ensures var res := last.res;
            var more := if last.owner != user || except == Some(last.id) then total
                        else Res(total.mem + res.mem, total.cpu + res.cpu, total.disk + res.disk);
            Matches(more, rows + [last], user, except)
  {
    assert (rows + [last])[..|rows|] == rows;
  }

  lemma {:induction false} UsedAll(rows: seq<Server>, user: Key)
    ensures Matches(Total(rows, user), rows, user, None)
  {
    if rows != [] {
      hide Matches;
      var rest, last := rows[..|rows| - 1], rows[|rows| - 1];
      UsedAll(rest, user);
      assert rows == rest + [last];
      TotalLast(rest, last, user);
      MatchesLast(Total(rest, user), rest, last, user, None);
    }
  }

  lemma TotalWithoutLast(rest: seq<Server>, last: Server, user: Key, id: string)
    ensures var total, next := Total(Without(rest, id), user), Total(Without(rest + [last], id), user);
            next == if last.owner != user || last.id == id then total
                    else Res(total.mem + last.res.mem, total.cpu + last.res.cpu, total.disk + last.res.disk)
  {
    hide Total, Without;
    WithoutLast(rest, last, id);
    TotalLast(Without(rest, id), last, user);
  }

  lemma UsedNothing(user: Key, id: string)
    ensures Matches(Total(Without([], id), user), [], user, Some(id))
  {
  }

  lemma {:induction false} UsedWithout(rows: seq<Server>, user: Key, id: string)
    ensures Matches(Total(Without(rows, id), user), rows, user, Some(id))
  {
    hide *;
    if rows == [] {
      UsedNothing(user, id);
    } else {
      var rest, last := rows[..|rows| - 1], rows[|rows| - 1];
      UsedWithout(rest, user, id);
      assert rows == rest + [last];
      TotalWithoutLast(rest, last, user, id);
      MatchesLast(Total(Without(rest, id), user), rest, last, user, Some(id));
    }
  }

  /** The totals are the sums, dimension by dimension. */
  lemma UsedExactly(rows: seq<Server>, user: Key, except: Option<string>)
    ensures var total := Total(if except.Some? then Without(rows, except.value) else rows, user);
            && total.mem == Used(rows, user, except, Memory)
            && total.cpu == Used(rows, user, except, Cpu)
            && total.disk == Used(rows, user, except, Disk)
  {
    if except.Some? { UsedWithout(rows, user, except.value); } else { UsedAll(rows, user); }
  }

  lemma UsageStep(owned: seq<Server>, i: nat, user: Key, exclude: string)
    requires i < |owned| && owned[i].owner == user
    ensures var kept, next := Without(owned[..i], exclude), Without(owned[..i + 1], exclude);
            if owned[i].id == exclude then next == kept
            else |next| == |kept| + 1 && Total(next, user) == Plus(Total(kept, user), owned[i].res)
  {
    var kept := Without(owned[..i], exclude);
    assert owned[..i + 1][..i] == owned[..i] && kept + [] == kept;
    TotalSnoc(kept, owned[i], user);
  }

  lemma PlusWrapped(total: Res, res: Res)
    ensures Wrapped(Plus(Wrapped(total), res)) == Wrapped(Plus(total, res))
  {
    WrapAdd(total.mem, res.mem);
    WrapAdd(total.cpu, res.cpu);
    WrapAdd(total.disk, res.disk);
  }

  lemma TotalSnoc(rows: seq<Server>, row: Server, user: Key)
    ensures Total(rows + [row], user) == if row.owner == user then Plus(Total(rows, user), row.res)
        else Total(rows, user)
  {
  }

  /** check: refuse, naming the first dimension whose wrapped sum is above the limit. */
  function Check(allowUnlimitedCpu: bool, limit: Res, usage: Res, req: Res): Verdict {
    var sum := Wrapped(Plus(usage, req));
    if req.cpu <= 0 && !allowUnlimitedCpu then UnlimitedCpu
    else if sum.mem > limit.mem then Exceeded(Memory, limit.mem, usage.mem, req.mem)
    else if sum.cpu > limit.cpu then Exceeded(Cpu, limit.cpu, usage.cpu, req.cpu)
    else if sum.disk > limit.disk then Exceeded(Disk, limit.disk, usage.disk, req.disk)
    else Allowed
  }

  function Setting(s: Option<int>, fallback: int): int {
    if s.Some? then s.value else fallback
  }

  /** The quota, dimension by dimension: the setting, or 2 GiB, 200 % and 10 GiB, plus the
      user's bonus. */
  lemma EffectiveExactly(settings: (Option<int>, Option<int>, Option<int>), bonus: Res)
    requires Fits(Setting(settings.0, 2_147_483_648) + bonus.mem)
    requires Fits(Setting(settings.1, 200) + bonus.cpu)
    requires Fits(Setting(settings.2, 10_737_418_240) + bonus.disk)
    ensures var limit := Effective(settings, bonus);
            && limit.mem == (if settings.0.Some? then settings.0.value else 2_147_483_648) + bonus.mem
            && limit.cpu == (if settings.1.Some? then settings.1.value else 200) + bonus.cpu
            && limit.disk == (if settings.2.Some? then settings.2.value else 10_737_418_240) + bonus.disk
  {
  }

  /** An allowed request leaves the user within the quota exactly when the new true total is a
      64-bit number, whatever wrapped before. */
  lemma AllowedIsWithin(allowUnlimitedCpu: bool, limit: Res, total: Res, req: Res)
    requires FitsAll(limit) && FitsAll(req) && NonNegative(total) && NonNegative(req)
    requires Check(allowUnlimitedCpu, limit, Wrapped(total), req) == Allowed
    ensures Within(Plus(total, req), limit) <==> FitsAll(Plus(total, req))
  {
  }

  /** Without wrap-around the check is exact: it refuses nothing that would fit. */
  lemma CheckExact(allowUnlimitedCpu: bool, limit: Res, total: Res, req: Res)
    requires FitsAll(Plus(total, req))
    ensures Check(allowUnlimitedCpu, limit, total, req) == Allowed <==>
            Within(Plus(total, req), limit) && (req.cpu > 0 || allowUnlimitedCpu)
  {
  }

  function Along(r: Res, dim: Dimension): int {
    match dim
    case Memory => r.mem
    case Cpu => r.cpu
    case Disk => r.disk
  }

  lemma {:induction false} WithoutNone(owned: seq<Server>, id: string)
    requires forall s | s in owned :: s.id != id
    ensures Without(owned, id) == owned
  {
    if owned != [] {
      var k := |owned| - 1;
      assert owned[k] in owned && owned == owned[..k] + [owned[k]];
      WithoutNone(owned[..k], id);
    }
  }

  /** The rows of one owner, as the query returns them. */
  predicate Listing(owned: seq<Server>, user: Key) {
    && (forall i, j | 0 <= i < j < |owned| :: owned[i].id != owned[j].id)
    && (forall s | s in owned :: s.owner == user)
  }

  lemma ListingPrefix(owned: seq<Server>, user: Key, k: nat)
    requires Listing(owned, user) && k < |owned|
    ensures Listing(owned[..k], user) && owned[k].owner == user && forall s | s in owned[..k] :: s.id != owned[k].id
  {
  }

  /** Leaving out one server of an owner takes exactly that server off the total. */
  lemma {:induction false} TotalWithoutOne(owned: seq<Server>, user: Key, i: nat)
    requires i < |owned| && Listing(owned, user)
    ensures Total(owned, user) == Plus(Total(Without(owned, owned[i].id), user), owned[i].res)
  {
    hide Listing, Without;
    var k := |owned| - 1;
    ListingPrefix(owned, user, k);
    UsageStep(owned, k, user, owned[i].id);
    assert Total(owned, user) == Plus(Total(owned[..k], user), owned[k].res);
    assert owned[..k + 1] == owned;
    hide Total;
    if i == k {
      WithoutNone(owned[..k], owned[k].id);
    } else {
      OtherId(owned, user, i);
      assert owned[..k][i] == owned[i];
      TotalWithoutOne(owned[..k], user, i);
    }
  }

  lemma OtherId(owned: seq<Server>, user: Key, i: nat)
    requires i < |owned| - 1 && Listing(owned, user)
    ensures owned[i].id != owned[|owned| - 1].id
  {
  }

  /** Saving a server's limits again unchanged is documented to pass always. It passes exactly
      while the user's total, as a 64-bit sum, is within the quota, which an admin may have
      lowered since. */
  lemma ResavingExact(allowUnlimitedCpu: bool, limit: Res, owned: seq<Server>, user: Key, srv: Server)
    requires Listing(owned, user) && srv in owned
    ensures Check(allowUnlimitedCpu, limit, Wrapped(Total(Without(owned, srv.id), user)), srv.res) == Allowed <==>
            Within(Wrapped(Total(owned, user)), limit) && (srv.res.cpu > 0 || allowUnlimitedCpu)
  {
    hide Total, Without, Wrapped;
    var i :| 0 <= i < |owned| && owned[i] == srv;
    TotalWithoutOne(owned, user, i);
    PlusWrapped(Total(Without(owned, srv.id), user), srv.res);
  }

  const GIB := 1024 * 1024 * 1024

  lemma OneServer(srv: Server)
    ensures Listing([srv], srv.owner) && Without([srv], srv.id) == []
    ensures Total([srv], srv.owner) == srv.res && Total([], srv.owner) == Res(0, 0, 0)
  {
    assert [srv][..0] == [];
  }

  lemma LoweredLimit(mem: int)
    requires Fits(mem)
    ensures Effective((Some(mem), None, None), Res(0, 0, 0)) == Res(mem, 200, 10 * GIB)
  {
  }

  /** A user's only server has the 2 GiB of the default quota. Then the memory setting is
      lowered to 1 GiB, and saving the server unchanged is refused. */
  lemma ResavingCanFail(user: Key, id: string)
    ensures var srv, limit := Server(id, user, Res(2 * GIB, 100, 0)), Effective((Some(GIB), None, None), Res(0, 0, 0));
            && Listing([srv], user) && Within(Total([srv], user), DEFAULT)
            && Check(true, limit, Wrapped(Total(Without([srv], id), user)), srv.res)
               == Exceeded(Memory, GIB, 0, 2 * GIB)
  {
    hide Total, Without, Effective, Check, Wrapped, Listing;
    var srv := Server(id, user, Res(2 * GIB, 100, 0));
    OneServer(srv);
    LoweredLimit(GIB);
    CheckSmall(Res(GIB, 200, 10 * GIB), srv.res);
  }

  lemma CheckSmall(limit: Res, req: Res)
    requires FitsAll(req)
    ensures Check(true, limit, Wrapped(Res(0, 0, 0)), req) ==
            if req.mem > limit.mem then Exceeded(Memory, limit.mem, 0, req.mem)
            else if req.cpu > limit.cpu then Exceeded(Cpu, limit.cpu, 0, req.cpu)
            else if req.disk > limit.disk then Exceeded(Disk, limit.disk, 0, req.disk)
            else Allowed
  {
  }

  /** A refusal reports the numbers of a dimension that really is over its limit, and every
      dimension named before it fits. */
  lemma RefusalIsTrue(allowUnlimitedCpu: bool, limit: Res, total: Res, req: Res)
    requires FitsAll(Plus(total, req))
    ensures var v := Check(allowUnlimitedCpu, limit, total, req);
            v.Exceeded? ==>
              && v.limit == Along(limit, v.dim) && v.have == Along(total, v.dim) && v.requested == Along(req, v.dim)
              && v.have + v.requested > v.limit
              && (v.dim != Memory ==> total.mem + req.mem <= limit.mem)
              && (v.dim == Disk ==> total.cpu + req.cpu <= limit.cpu)
  {
  }

  /** The wrapped case is reachable: a request the handler's own validation lets through. */
  lemma WrappedRequestIsAllowed()
    ensures var req := Res(MAX, 0, 0);
            && req.mem > 0 && req.cpu >= 0 && req.disk >= 0
            && Check(true, DEFAULT, Res(1, 0, 0), req) == Allowed
            && !Within(Plus(Res(1, 0, 0), req), DEFAULT)
  {
  }

  // ----- Concurrent create and clone requests -----

  datatype Config = Config(
    settings: (Option<int>, Option<int>, Option<int>),
    bonus: Key -> Res,
    admins: set<Key>,
    allowUnlimitedCpu: bool)

  function Limit(cfg: Config, user: Key): Res {
    Effective(cfg.settings, cfg.bonus(user))
  }

  /** A user's total fits the settings and the bonus, dimension by dimension. */
  predicate FitsSettings(cfg: Config, user: Key, total: Res) {
    && total.mem <= Setting(cfg.settings.0, 2_147_483_648) + cfg.bonus(user).mem
    && total.cpu <= Setting(cfg.settings.1, 200) + cfg.bonus(user).cpu
    && total.disk <= Setting(cfg.settings.2, 10_737_418_240) + cfg.bonus(user).disk
  }

  /** The quota itself is a 64-bit number in each dimension. */
  predicate ProperQuota(cfg: Config, user: Key) {
    && Fits(Setting(cfg.settings.0, 2_147_483_648) + cfg.bonus(user).mem)
    && Fits(Setting(cfg.settings.1, 200) + cfg.bonus(user).cpu)
    && Fits(Setting(cfg.settings.2, 10_737_418_240) + cfg.bonus(user).disk)
  }

  lemma LimitExactly(cfg: Config, user: Key, total: Res)
    requires ProperQuota(cfg, user)
    ensures Within(total, Limit(cfg, user)) <==> FitsSettings(cfg, user, total)
  {
    EffectiveExactly(cfg.settings, cfg.bonus(user));
  }

  /** A request is allowed exactly when total and request together fit the settings and the
      bonus in every dimension, and unlimited CPU is asked for only where it may be. */
  lemma AllowedExactly(cfg: Config, rows: seq<Server>, user: Key, req: Res)
    requires ProperQuota(cfg, user) && FitsAll(Plus(Total(rows, user), req))
    ensures Check(cfg.allowUnlimitedCpu, Limit(cfg, user), Wrapped(Total(rows, user)), req) == Allowed <==>
            && (req.cpu > 0 || cfg.allowUnlimitedCpu)
            && FitsSettings(cfg, user, Res(Used(rows, user, None, Memory) + req.mem,
                                           Used(rows, user, None, Cpu) + req.cpu,
                                           Used(rows, user, None, Disk) + req.disk))
  {
    UsedExactly(rows, user, None);
    LimitExactly(cfg, user, Plus(Total(rows, user), req));
    WrappedSum(Total(rows, user), req);
    hide Limit, Used, Total, Wrapped, FitsSettings;
  }

  lemma WrappedSum(total: Res, req: Res)
    requires FitsAll(Plus(total, req))
    ensures Wrapped(Plus(Wrapped(total), req)) == Plus(total, req)
            == Res(total.mem + req.mem, total.cpu + req.cpu, total.disk + req.disk)
  {
    PlusWrapped(total, req);
  }

  /** A request that passed its check and has not inserted its row yet. `exact` records
      that no sum wrapped in that check. */
  datatype Grant = Grant(user: Key, res: Res, exact: bool)

  datatype World = World(lock: State, rows: seq<Server>, grants: map<Tid, Grant>)

  datatype Action =
    | Sync(op: Op)                // a step of the per-user lock
    | Pass(t: Tid, req: Res)      // the quota check succeeds, or the user is an admin
    | Insert(t: Tid, id: string)  // the server row is written
    | Remove(i: nat)              // a row goes: roll-back or delete, by anyone, unlocked

  predicate Inside(lock: State, t: Tid) {
    t in lock.place && lock.place[t].Critical?
  }

  predicate Possible(cfg: Config, w: World, a: Action) {
    match a
    case Sync(op) => Enabled(w.lock, op) && Indexed(w.lock)
    case Pass(t, req) =>
      && Inside(w.lock, t) && t !in w.grants && NonNegative(req) && FitsAll(req)
      && var user := w.lock.place[t].key;
         user in cfg.admins ||
         Check(cfg.allowUnlimitedCpu, Limit(cfg, user), Wrapped(Total(w.rows, user)), req) == Allowed
    case Insert(t, _) => t in w.grants
    case Remove(i) => i < |w.rows|
  }

  function Perform(cfg: Config, w: World, a: Action): World
    requires Possible(cfg, w, a)
  {
    match a
    case Sync(op) => World(Apply(w.lock, op), w.rows, if op.Release? then w.grants - {op.t} else w.grants)
    case Pass(t, req) =>
      var user := w.lock.place[t].key;
      w.(grants := w.grants[t := Grant(user, req, FitsAll(Plus(Total(w.rows, user), req)))])
    case Insert(t, id) =>
      var g := w.grants[t];
      World(w.lock, w.rows + [Server(id, g.user, g.res)], w.grants - {t})
    case Remove(i) => w.(rows := w.rows[..i] + w.rows[i + 1..])
  }

  /** Inside the lock, a request of a metered user that fits is let through, and an admin's
      always. */
  lemma FittingRequestPasses(cfg: Config, w: World, t: Tid, req: Res)
    requires Inside(w.lock, t) && t !in w.grants && NonNegative(req) && FitsAll(req)
    requires var user := w.lock.place[t].key;
             || user in cfg.admins
             || (&& ProperQuota(cfg, user) && FitsAll(Plus(Total(w.rows, user), req))
                 && (req.cpu > 0 || cfg.allowUnlimitedCpu)
                 && FitsSettings(cfg, user, Res(Used(w.rows, user, None, Memory) + req.mem,
                                                Used(w.rows, user, None, Cpu) + req.cpu,
                                                Used(w.rows, user, None, Disk) + req.disk)))
    ensures Possible(cfg, w, Pass(t, req))
  {
    var user := w.lock.place[t].key;
    if user !in cfg.admins { AllowedExactly(cfg, w.rows, user, req); }
  }

  predicate RowsOk(rows: seq<Server>) {
    forall row | row in rows :: NonNegative(row.res)
  }

  /** What a grant promises as long as it is held. */
  predicate Honoured(cfg: Config, w: World, t: Tid)
    requires t in w.grants
  {
    var g := w.grants[t];
    && Inside(w.lock, t) && w.lock.place[t].key == g.user && NonNegative(g.res)
    && (g.exact && g.user !in cfg.admins ==> Within(Plus(Total(w.rows, g.user), g.res), Limit(cfg, g.user)))
  }

  predicate WorldInv(cfg: Config, w: World) {
    Inv(w.lock) && RowsOk(w.rows) && forall t | t in w.grants :: Honoured(cfg, w, t)
  }

  lemma {:induction false} TotalNonNegative(rows: seq<Server>, user: Key)
    requires RowsOk(rows)
    ensures NonNegative(Total(rows, user))
  {
    if rows != [] {
      TotalNonNegative(rows[..|rows| - 1], user);
      assert rows[|rows| - 1] in rows;
    }
  }

  /** Removing a row never raises anyone's total. */
  lemma {:induction false} TotalRemove(rows: seq<Server>, i: nat, user: Key)
    requires RowsOk(rows) && i < |rows|
    ensures Within(Total(rows[..i] + rows[i + 1..], user), Total(rows, user))
  {
    var n := |rows| - 1;
    assert rows[n] in rows;
    if i == n {
      assert rows[..i] + rows[i + 1..] == rows[..n];
    } else {
      TotalRemove(rows[..n], i, user);
      assert rows[..n][..i] + rows[..n][i + 1..] == rows[..i] + rows[i + 1..n];
      assert rows[..i] + rows[i + 1..] == rows[..i] + rows[i + 1..n] + [rows[n]];
      TotalSnoc(rows[..i] + rows[i + 1..n], rows[n], user);
    }
  }

  /** One user's critical sections exclude each other. */
  lemma OneInside(lock: State, t: Tid, u: Tid)
    requires Inv(lock) && Inside(lock, t) && Inside(lock, u) && lock.place[t].key == lock.place[u].key
    ensures t == u
  {
  }

  lemma PassInv(cfg: Config, w: World, t: Tid, req: Res)
    requires WorldInv(cfg, w) && Possible(cfg, w, Pass(t, req))
    ensures WorldInv(cfg, Perform(cfg, w, Pass(t, req)))
  {
    hide Limit, Total, Check, Inv;
    var w', user := Perform(cfg, w, Pass(t, req)), w.lock.place[t].key;
    if w'.grants[t].exact && user !in cfg.admins { PassedIsWithin(cfg, w.rows, user, req); }
    forall u | u in w'.grants ensures Honoured(cfg, w', u) {
      if u != t { assert Honoured(cfg, w, u); }
    }
  }

  lemma PassedIsWithin(cfg: Config, rows: seq<Server>, user: Key, req: Res)
    requires RowsOk(rows) && NonNegative(req) && FitsAll(Plus(Total(rows, user), req))
    requires Check(cfg.allowUnlimitedCpu, Limit(cfg, user), Wrapped(Total(rows, user)), req) == Allowed
    ensures Within(Plus(Total(rows, user), req), Limit(cfg, user))
  {
    hide Limit, Total, Check;
    TotalNonNegative(rows, user);
    assert Wrapped(Total(rows, user)) == Total(rows, user);
    CheckExact(cfg.allowUnlimitedCpu, Limit(cfg, user), Total(rows, user), req);
  }

  lemma InsertInv(cfg: Config, w: World, t: Tid, id: string)
    requires WorldInv(cfg, w) && Possible(cfg, w, Insert(t, id))
    ensures WorldInv(cfg, Perform(cfg, w, Insert(t, id)))
  {
    var w', g := Perform(cfg, w, Insert(t, id)), w.grants[t];
    assert Honoured(cfg, w, t);
    forall u | u in w'.grants ensures Honoured(cfg, w', u) {
      assert Honoured(cfg, w, u);
      TotalSnoc(w.rows, Server(id, g.user, g.res), w.grants[u].user);
      if w.grants[u].user == g.user {
        OneInside(w.lock, t, u);
      }
    }
  }

  lemma RemoveInv(cfg: Config, w: World, i: nat)
    requires WorldInv(cfg, w) && i < |w.rows|
    ensures WorldInv(cfg, Perform(cfg, w, Remove(i)))
  {
    var w' := Perform(cfg, w, Remove(i));
    forall u | u in w'.grants ensures Honoured(cfg, w', u) {
      assert Honoured(cfg, w, u);
      TotalRemove(w.rows, i, w.grants[u].user);
    }
  }

  lemma SyncInv(cfg: Config, w: World, op: Op)
    requires WorldInv(cfg, w) && Possible(cfg, w, Sync(op))
    ensures WorldInv(cfg, Perform(cfg, w, Sync(op)))
  {
    hide Inv, Apply, Enabled, Limit, Total, Plus;
    InvStep(w.lock, op);
    var w' := Perform(cfg, w, Sync(op));
    forall u | u in w'.grants ensures Honoured(cfg, w', u) {
      assert Honoured(cfg, w, u);
      OnlyReleaseLeaves(w.lock, op, u);
    }
  }

  lemma OnlyReleaseLeaves(lock: State, op: Op, u: Tid)
    requires Enabled(lock, op) && Indexed(lock) && Inside(lock, u) && !(op.Release? && op.t == u)
    ensures Inside(Apply(lock, op), u) && Apply(lock, op).place[u] == lock.place[u]
  {
  }

  lemma ActionInv(cfg: Config, w: World, a: Action)
    requires WorldInv(cfg, w) && Possible(cfg, w, a)
    ensures WorldInv(cfg, Perform(cfg, w, a))
  {
    match a
    case Sync(op) => SyncInv(cfg, w, op);
    case Pass(t, req) => PassInv(cfg, w, t, req);
    case Insert(t, id) => InsertInv(cfg, w, t, id);
    case Remove(i) => RemoveInv(cfg, w, i);
  }

  /** `worlds` is the run performing `acts` from any table, with no request in flight. */
  predicate History(cfg: Config, worlds: seq<World>, acts: seq<Action>) {
    && |worlds| == |acts| + 1
    && worlds[0].lock == EMPTY && worlds[0].grants == map[] && RowsOk(worlds[0].rows)
    && forall i | 0 <= i < |acts| :: Follows(cfg, worlds[i], acts[i], worlds[i + 1])
  }

  predicate Follows(cfg: Config, w: World, a: Action, w': World) {
    Possible(cfg, w, a) && w' == Perform(cfg, w, a)
  }

  lemma {:induction false} HistoryInv(cfg: Config, worlds: seq<World>, acts: seq<Action>, n: nat)
    requires History(cfg, worlds, acts) && n < |worlds|
    ensures WorldInv(cfg, worlds[n])
  {
    if n > 0 {
      HistoryInv(cfg, worlds, acts, n - 1);
      assert Follows(cfg, worlds[n - 1], acts[n - 1], worlds[n]);
      ActionInv(cfg, worlds[n - 1], acts[n - 1]);
    }
  }

  /** A request that passes holds what it asked for, for the user it entered the lock with; it
      is an admin's or it fits the settings. A row that is written is that request's, and only
      deletes take rows away. */
  lemma RequestEffect(cfg: Config, worlds: seq<World>, acts: seq<Action>, n: nat)
    requires History(cfg, worlds, acts) && n < |acts|
    ensures var w, w' := worlds[n], worlds[n + 1];
            match acts[n]
            case Sync(op) => w'.rows == w.rows
            case Pass(t, req) =>
              && t in w.lock.place && w.lock.place[t].Critical? && w'.lock == w.lock && w'.rows == w.rows
              && t in w'.grants && w'.grants == w.grants[t := w'.grants[t]]
              && w'.grants[t].user == w.lock.place[t].key && w'.grants[t].res == req
              && (w'.grants[t].exact <==> FitsAll(Plus(Total(w.rows, w.lock.place[t].key), req)))
            case Insert(t, id) =>
              && t in w.grants && w'.lock == w.lock && w'.grants == w.grants - {t}
              && w'.rows == w.rows + [Server(id, w.grants[t].user, w.grants[t].res)]
            case Remove(i) => i < |w.rows| && w'.rows == w.rows[..i] + w.rows[i + 1..]
  {
    hide Total, Limit;
    assert Follows(cfg, worlds[n], acts[n], worlds[n + 1]);
  }

  /** What a metered user got through fits the settings and the bonus. */
  lemma PassedFits(cfg: Config, worlds: seq<World>, acts: seq<Action>, n: nat)
    requires History(cfg, worlds, acts) && n < |acts| && acts[n].Pass?
    ensures acts[n].t in worlds[n].lock.place
    ensures var w, req := worlds[n], acts[n].req;
            var user := w.lock.place[acts[n].t].key;
            user !in cfg.admins && ProperQuota(cfg, user) && FitsAll(Plus(Total(w.rows, user), req)) ==>
              && (req.cpu > 0 || cfg.allowUnlimitedCpu)
              && FitsSettings(cfg, user, Res(Used(w.rows, user, None, Memory) + req.mem,
                                             Used(w.rows, user, None, Cpu) + req.cpu,
                                             Used(w.rows, user, None, Disk) + req.disk))
  {
    hide Total, Limit, Check, Used, FitsSettings;
    var w, req := worlds[n], acts[n].req;
    assert Follows(cfg, w, acts[n], worlds[n + 1]);
    var user := w.lock.place[acts[n].t].key;
    if user !in cfg.admins && ProperQuota(cfg, user) && FitsAll(Plus(Total(w.rows, user), req)) {
      AllowedExactly(cfg, w.rows, user, req);
    }
  }

  /** In every interleaving of all users' create and clone requests with any deletes: when
      a metered user's server row is written, that user's true totals are within the quota,
      provided no sum wrapped in the check that admitted it. */
  lemma InsertStaysWithinQuota(cfg: Config, worlds: seq<World>, acts: seq<Action>, n: nat)
    requires History(cfg, worlds, acts) && n < |acts| && acts[n].Insert?
    requires acts[n].t in worlds[n].grants && worlds[n].grants[acts[n].t].exact
    ensures var g := worlds[n].grants[acts[n].t];
            && Total(worlds[n + 1].rows, g.user) == Plus(Total(worlds[n].rows, g.user), g.res)
            && (g.user !in cfg.admins ==> Within(Total(worlds[n + 1].rows, g.user), Limit(cfg, g.user)))
  {
    HistoryInv(cfg, worlds, acts, n);
    var t := acts[n].t;
    var g := worlds[n].grants[t];
    assert Follows(cfg, worlds[n], acts[n], worlds[n + 1]) && Honoured(cfg, worlds[n], t);
    TotalSnoc(worlds[n].rows, Server(acts[n].id, g.user, g.res), g.user);
  }

  /** Every insert of a request by `user` was admitted by a check in which no sum wrapped. */
  predicate InsertsAreExact(worlds: seq<World>, acts: seq<Action>, user: Key)
    requires |worlds| == |acts| + 1
  {
    forall i | 0 <= i < |acts| :: InsertIsExact(worlds[i], acts[i], user)
  }

  predicate InsertIsExact(w: World, a: Action, user: Key) {
    a.Insert? && a.t in w.grants && w.grants[a.t].user == user ==> w.grants[a.t].exact
  }

  lemma WithinStep(cfg: Config, w: World, a: Action, w': World, user: Key)
    requires WorldInv(cfg, w) && Follows(cfg, w, a, w') && InsertIsExact(w, a, user)
    requires user !in cfg.admins && Within(Total(w.rows, user), Limit(cfg, user))
    ensures Within(Total(w'.rows, user), Limit(cfg, user))
  {
    hide Limit, Total, Inv;
    match a
    case Insert(t, id) =>
      assert Honoured(cfg, w, t);
      TotalSnoc(w.rows, Server(id, w.grants[t].user, w.grants[t].res), user);
    case Remove(i) => TotalRemove(w.rows, i, user);
    case _ =>
  }

  lemma HistoryLength(cfg: Config, worlds: seq<World>, acts: seq<Action>)
    requires History(cfg, worlds, acts)
    ensures |worlds| == |acts| + 1
  {
  }

  lemma HistoryAt(cfg: Config, worlds: seq<World>, acts: seq<Action>, user: Key, i: nat)
    requires History(cfg, worlds, acts) && i < |acts| && InsertsAreExact(worlds, acts, user)
    ensures |worlds| == |acts| + 1
    ensures Follows(cfg, worlds[i], acts[i], worlds[i + 1]) && InsertIsExact(worlds[i], acts[i], user)
  {
  }

  /** So a metered user who starts within the quota is within it in every state of every
      history, as long as no sum wraps in a check of that user's. */
  lemma {:induction false} AlwaysWithinQuota(cfg: Config, worlds: seq<World>, acts: seq<Action>, user: Key, n: nat)
    requires History(cfg, worlds, acts) && n < |worlds| && InsertsAreExact(worlds, acts, user)
    requires user !in cfg.admins && Within(Total(worlds[0].rows, user), Limit(cfg, user))
    ensures Within(Total(worlds[n].rows, user), Limit(cfg, user))
  {
    hide *;
    HistoryLength(cfg, worlds, acts);
    if n > 0 {
      HistoryAt(cfg, worlds, acts, user, n - 1);
      AlwaysWithinQuota(cfg, worlds, acts, user, n - 1);
      HistoryInv(cfg, worlds, acts, n - 1);
      WithinStep(cfg, worlds[n - 1], acts[n - 1], worlds[n], user);
    }
  }

  /** The same on the settings, the bonus and the rows. */
  lemma AlwaysWithinSettings(cfg: Config, worlds: seq<World>, acts: seq<Action>, user: Key, n: nat)
    requires History(cfg, worlds, acts) && n < |worlds| && InsertsAreExact(worlds, acts, user)
    requires user !in cfg.admins && ProperQuota(cfg, user) && FitsSettings(cfg, user, Total(worlds[0].rows, user))
    ensures var rows := worlds[n].rows;
            FitsSettings(cfg, user, Res(Used(rows, user, None, Memory), Used(rows, user, None, Cpu),
                                        Used(rows, user, None, Disk)))
  {
    hide Limit, Total, Used, FitsSettings;
    LimitExactly(cfg, user, Total(worlds[0].rows, user));
    AlwaysWithinQuota(cfg, worlds, acts, user, n);
    LimitExactly(cfg, user, Total(worlds[n].rows, user));
    UsedExactly(worlds[n].rows, user, None);
  }
}
