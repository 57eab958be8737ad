/** Coins: balances and their append-only ledger, redeem codes, and the store. */
module Economy {
  import opened Options
  import opened Int64

  type User = string

  datatype Reason = Gift | RedeemCode | StorePurchase | StoreRefund | Other

  /** `via` names the code a redemption went through; it is history, the table has no such
      column. */
  datatype Entry = Entry(user: User, amount: int, reason: Reason, via: Option<string>)

  datatype Code = Code(id: string, coins: int, maxUses: int, uses: int)

  datatype Bonus = Bonus(memory: int, cpu: int, disk: int, databases: int)

  datatype Dimension = Memory | Cpu | Disk | Databases | Unknown(name: string)

  datatype Item = Item(id: string, dimension: Dimension, amount: int, price: int)

  datatype Order = Order(user: User, item: Item)

  /** `coins`, `entries`, `codes` (by code text), `redeemed` and `bonus` are tables. `open`
      lists purchases between debit and grant; `granted` and `lost` are history: granted
      purchases, and failed ones whose refund was refused. */
  datatype Bank = Bank(
    coins: map<User, int>,
    entries: seq<Entry>,
    codes: map<string, Code>,
    redeemed: set<(string, User)>,
    bonus: map<User, Bonus>,
    open: seq<Order>,
    granted: seq<Order>,
    lost: seq<Order>)

  datatype Error = NotFound | Overflow | Insufficient | BadAmount | ToSelf | Exhausted | AlreadyRedeemed | Refused

  datatype Result = Ok(value: int) | Err(error: Error)

  // ----- Ledger -----

  /** Balance and ledger line, always together. */
  function Post(b: Bank, e: Entry, balance: int): Bank {
    b.(coins := b.coins[e.user := balance], entries := b.entries + [e])
  }

  /** AddEntry's checks, on 64-bit values. */
  function AddCheck(b: Bank, user: User, amount: int): Result {
    if user !in b.coins then Err(NotFound)
    else if amount > 0 && b.coins[user] > Wrap(MAX - amount) then Err(Overflow)
    else if Wrap(b.coins[user] + amount) < 0 then Err(Insufficient)
    else Ok(Wrap(b.coins[user] + amount))
  }

  function Added(b: Bank, e: Entry): Bank {
    var r := AddCheck(b, e.user, e.amount);
    if r.Ok? then Post(b, e, r.value) else b
  }

  function TransferCheck(b: Bank, from: User, to: User, amount: int): Result {
    if amount <= 0 then Err(BadAmount)
    else if from == to then Err(ToSelf)
    else if from !in b.coins then Err(NotFound)
    else if Wrap(b.coins[from] - amount) < 0 then Err(Insufficient)
    else if to !in b.coins then Err(NotFound)
    else if b.coins[to] > Wrap(MAX - amount) then Err(Overflow)
    else Ok(Wrap(b.coins[from] - amount))
  }

  function Transferred(b: Bank, from: User, to: User, amount: int): Bank {
    var r := TransferCheck(b, from, to, amount);
    if r.Err? then b
    else
      Post(Post(b, Entry(from, -amount, Gift, None), r.value),
           Entry(to, amount, Gift, None), Wrap(b.coins[to] + amount))
  }

  // ----- Redeem codes -----

  function RedeemCheck(b: Bank, text: string, user: User): Result {
    if text !in b.codes then Err(NotFound)
    else
      var c := b.codes[text];
      if c.maxUses > 0 && c.uses >= c.maxUses then Err(Exhausted)
      else if user !in b.coins then Err(Refused)  // foreign key of the redemption row
      else if (c.id, user) in b.redeemed then Err(AlreadyRedeemed)
      else if !(c.maxUses == 0 || c.uses < c.maxUses) then Err(Exhausted)
      else if c.coins > 0 && b.coins[user] > Wrap(MAX - c.coins) then Err(Overflow)
      else Ok(Wrap(b.coins[user] + c.coins))
  }

  function Redeemed(b: Bank, text: string, user: User): Bank {
    var r := RedeemCheck(b, text, user);
    if r.Err? then b
    else
      var c := b.codes[text];
      Post(b, Entry(user, c.coins, RedeemCode, Some(c.id)), r.value)
        .(codes := b.codes[text := c.(uses := c.uses + 1)], redeemed := b.redeemed + {(c.id, user)})
  }

  // ----- Store -----

  const MB := 1024 * 1024
  const GB := 1024 * MB

  function Catalog(): seq<Item> {
    [Item("mem-512", Memory, 512 * MB, 250),
     Item("mem-1024", Memory, 1 * GB, 450),
     Item("cpu-50", Cpu, 50, 300),
     Item("cpu-100", Cpu, 100, 550),
     Item("disk-5", Disk, 5 * GB, 200),
     Item("disk-10", Disk, 10 * GB, 350),
     Item("db-1", Databases, 1, 300),
     Item("db-3", Databases, 3, 750)]
  }

  function BonusOf(b: Bank, user: User): Bonus {
    if user in b.bonus then b.bonus[user] else Bonus(0, 0, 0, 0)
  }

  function Plus(x: Bonus, y: Bonus): Bonus {
    Bonus(x.memory + y.memory, x.cpu + y.cpu, x.disk + y.disk, x.databases + y.databases)
  }

  /** What one item adds: its amount, in its own dimension. */
  function Pack(item: Item): Bonus {
    match item.dimension
    case Memory => Bonus(item.amount, 0, 0, 0)
    case Cpu => Bonus(0, item.amount, 0, 0)
    case Disk => Bonus(0, 0, item.amount, 0)
    case Databases => Bonus(0, 0, 0, item.amount)
    case Unknown(_) => Bonus(0, 0, 0, 0)
  }

  function Debit(o: Order): Entry {
    Entry(o.user, -o.item.price, StorePurchase, None)
  }

  function Refund(o: Order): Entry {
    Entry(o.user, o.item.price, StoreRefund, None)
  }

  function Drop<T>(s: seq<T>, i: nat): seq<T>
    requires i < |s|
  {
    s[..i] + s[i + 1..]
  }

  function Opened(b: Bank, o: Order): Bank {
    if AddCheck(b, o.user, Debit(o).amount).Ok? then Added(b, Debit(o)).(open := b.open + [o]) else b
  }

  /** The second half of a purchase: the grant, or after its failure the refund. */
  function Settled(b: Bank, i: nat, grantWorks: bool): Bank
    requires i < |b.open|
  {
    var o := b.open[i];
    var rest := b.(open := Drop(b.open, i));
    if grantWorks && !o.item.dimension.Unknown? then
      rest.(bonus := b.bonus[o.user := Plus(BonusOf(rest, o.user), Pack(o.item))], granted := b.granted + [o])
    else if AddCheck(rest, o.user, o.item.price).Ok? then Added(rest, Refund(o))
    else rest.(lost := b.lost + [o])
  }

  // ----- Any sequence of operations -----

  datatype Op =
    | NewUser(u: User)
    | Add(u: User, amount: int)       // AFK credit, daily reward, admin adjustment
    | Transfer(from: User, to: User, amount: int)
    | Mint(text: string, code: Code)
    | DeleteCode(text: string)
    | Redeem(text: string, u: User)
    | StartPurchase(u: User, item: Item)
    | FinishPurchase(i: nat, grantWorks: bool)

  const START := Bank(map[], [], map[], {}, map[], [], [], [])

  /** Amounts are 64-bit; codes are minted by the handler with 1 to 1,000,000,000 coins, a
      non-negative cap, and a new identifier; items come from the catalog. */
  predicate Admissible(b: Bank, op: Op) {
    match op
    case Add(_, amount) => Fits(amount)
    case Transfer(_, _, amount) => Fits(amount)
    case Mint(_, c) =>
      && 1 <= c.coins <= 1_000_000_000 && c.maxUses >= 0 && c.uses == 0
      && (forall t | t in b.codes :: b.codes[t].id != c.id)
      && (forall p | p in b.redeemed :: p.0 != c.id) && (forall e | e in b.entries :: e.via != Some(c.id))
    case StartPurchase(_, item) => item in Catalog()
    case FinishPurchase(i, _) => i < |b.open|
    case _ => true
  }

  function Apply(b: Bank, op: Op): Bank
    requires Admissible(b, op)
  {
    match op
    case NewUser(u) => if u in b.coins then b else b.(coins := b.coins[u := 0])
    case Add(u, amount) => Added(b, Entry(u, amount, Other, None))
    case Transfer(from, to, amount) => Transferred(b, from, to, amount)
    case Mint(text, c) => if text in b.codes then b else b.(codes := b.codes[text := c])
    case DeleteCode(text) =>
      if text !in b.codes then b
      else b.(codes := b.codes - {text}, redeemed := set p | p in b.redeemed && p.0 != b.codes[text].id)
    case Redeem(text, u) => Redeemed(b, text, u)
    case StartPurchase(u, item) => Opened(b, Order(u, item))
    case FinishPurchase(i, works) => Settled(b, i, works)
  }

  // ----- Sums over the ledger and over orders -----

  datatype Pick = All | ByUser(u: User) | ByStore(u: User) | ByCode(id: string)

  predicate Picks(p: Pick, e: Entry) {
    match p
    case All => true
    case ByUser(u) => e.user == u
    case ByStore(u) => e.user == u && (e.reason.StorePurchase? || e.reason.StoreRefund?)
    case ByCode(id) => e.via == Some(id)
  }

  function Sum(entries: seq<Entry>, p: Pick): int {
    if entries == [] then 0
    else
      var e := entries[|entries| - 1];
      Sum(entries[..|entries| - 1], p) + (if Picks(p, e) then e.amount else 0)
  }

  lemma SumSnoc(entries: seq<Entry>, e: Entry, p: Pick)
    ensures Sum(entries + [e], p) == Sum(entries, p) + (if Picks(p, e) then e.amount else 0)
  {
    hide Picks;
    assert (entries + [e])[..|entries|] == entries;
  }

  function Prices(orders: seq<Order>, u: User): int {
    if orders == [] then 0
    else
      var o := orders[|orders| - 1];
      Prices(orders[..|orders| - 1], u) + (if o.user == u then o.item.price else 0)
  }

  /** What the user's orders of one dimension add up to. */
  function Amounts(orders: seq<Order>, u: User, d: Dimension): int {
    if orders == [] then 0
    else
      var o := orders[|orders| - 1];
      Amounts(orders[..|orders| - 1], u, d) + (if o.user == u && o.item.dimension == d then o.item.amount else 0)
  }

  lemma OrdersSnoc(orders: seq<Order>, o: Order, u: User)
    ensures Prices(orders + [o], u) == Prices(orders, u) + (if o.user == u then o.item.price else 0)
  {
    assert (orders + [o])[..|orders|] == orders;
  }

  lemma AmountsSnoc(orders: seq<Order>, o: Order, u: User, d: Dimension)
    ensures Amounts(orders + [o], u, d)
            == Amounts(orders, u, d) + (if o.user == u && o.item.dimension == d then o.item.amount else 0)
  {
    assert (orders + [o])[..|orders|] == orders;
  }

  lemma DropBeforeLast<T>(s: seq<T>, i: nat)
    requires i < |s| - 1
    ensures Drop(s, i) == Drop(s[..|s| - 1], i) + [s[|s| - 1]]
  {
  }

  lemma {:induction false} PricesDrop(orders: seq<Order>, i: nat, u: User)
    requires i < |orders|
    ensures Prices(Drop(orders, i), u) == Prices(orders, u) - (if orders[i].user == u then orders[i].item.price else 0)
  {
    var n := |orders| - 1;
    if i == n {
      assert Drop(orders, i) == orders[..n];
    } else {
      PricesDrop(orders[..n], i, u);
      DropBeforeLast(orders, i);
      OrdersSnoc(Drop(orders[..n], i), orders[n], u);
      hide Drop;
    }
  }

  // ----- Balances agree with the ledger -----

  predicate BalanceOk(b: Bank, u: User)
    requires u in b.coins
  {
    0 <= b.coins[u] <= MAX && b.coins[u] == Sum(b.entries, ByUser(u))
  }

  predicate BalancesOk(b: Bank) {
    && (forall u | u in b.coins :: BalanceOk(b, u))
    && (forall e | e in b.entries :: e.user in b.coins)
  }

  /** With a balance that is not negative, the guards are exact: no 64-bit step wraps, and an
      amount is refused only if the true balance would leave the range. */
  lemma AddExact(b: Bank, u: User, amount: int)
    requires u in b.coins && 0 <= b.coins[u] <= MAX && Fits(amount)
    ensures AddCheck(b, u, amount) ==
            if b.coins[u] + amount > MAX then Err(Overflow)
            else if b.coins[u] + amount < 0 then Err(Insufficient)
            else Ok(b.coins[u] + amount)
  {
  }

  lemma PostOk(b: Bank, e: Entry)
    requires BalancesOk(b) && e.user in b.coins && 0 <= b.coins[e.user] + e.amount <= MAX
    ensures BalancesOk(Post(b, e, b.coins[e.user] + e.amount))
  {
  }

  lemma AddedOk(b: Bank, e: Entry)
    requires BalancesOk(b) && Fits(e.amount)
    ensures BalancesOk(Added(b, e))
  {
  }

  lemma TransferExact(b: Bank, from: User, to: User, amount: int)
    requires BalancesOk(b) && Fits(amount)
    ensures var r := TransferCheck(b, from, to, amount);
            && (r.Ok? <==> amount > 0 && from != to && from in b.coins && to in b.coins
                           && b.coins[from] >= amount && b.coins[to] + amount <= MAX)
            && (r.Ok? ==> r.value == b.coins[from] - amount
                          && Transferred(b, from, to, amount).coins
                              == b.coins[from := b.coins[from] - amount][to := b.coins[to] + amount])
  {
  }

  /** The reason given for a refused transfer is the first that holds. */
  lemma TransferRefusal(b: Bank, from: User, to: User, amount: int)
    requires BalancesOk(b) && Fits(amount) && TransferCheck(b, from, to, amount).Err?
    ensures var e := TransferCheck(b, from, to, amount).error;
            if amount <= 0 then e == BadAmount
            else if from == to then e == ToSelf
            else if from !in b.coins then e == NotFound
            else if b.coins[from] < amount then e == Insufficient
            else if to !in b.coins then e == NotFound
            else e == Overflow && b.coins[to] + amount > 0x7FFF_FFFF_FFFF_FFFF
  {
    hide Sum;
    assert from in b.coins ==> BalanceOk(b, from);
    assert to in b.coins ==> BalanceOk(b, to);
  }

  lemma TransferredOk(b: Bank, from: User, to: User, amount: int)
    requires BalancesOk(b) && Fits(amount)
    ensures BalancesOk(Transferred(b, from, to, amount))
  {
    hide Sum;
    TransferExact(b, from, to, amount);
    if TransferCheck(b, from, to, amount).Ok? {
      assert BalanceOk(b, from) && BalanceOk(b, to);
      var e := Entry(from, -amount, Gift, None);
      PostOk(b, e);
      var paid := Post(b, e, b.coins[from] - amount);
      assert BalanceOk(paid, to) && paid.coins[to] == b.coins[to];
      PostOk(paid, Entry(to, amount, Gift, None));
    }
  }

  // ----- Coins are conserved -----

  ghost function Total(coins: map<User, int>): int
    decreases |coins|
  {
    if coins == map[] then 0
    else
      var u :| u in coins;
      coins[u] + Total(coins - {u})
  }

  lemma {:induction false} TotalWithout(coins: map<User, int>, u: User)
    requires u in coins
    ensures Total(coins) == coins[u] + Total(coins - {u})
    decreases |coins|
  {
    var v :| v in coins && Total(coins) == coins[v] + Total(coins - {v});
    if u != v {
      TotalWithout(coins - {v}, u);
      TotalWithout(coins - {u}, v);
      assert coins - {v} - {u} == coins - {u} - {v};
    }
  }

  lemma TotalUpdate(coins: map<User, int>, u: User, amount: int)
    requires u in coins
    ensures Total(coins[u := amount]) == Total(coins) - coins[u] + amount
  {
    TotalWithout(coins, u);
    TotalWithout(coins[u := amount], u);
    assert coins[u := amount] - {u} == coins - {u};
  }

  /** A transfer, whatever its outcome, leaves the sum of all balances as it was. */
  lemma TransferConserves(b: Bank, from: User, to: User, amount: int)
    requires BalancesOk(b) && Fits(amount)
    ensures Total(Transferred(b, from, to, amount).coins) == Total(b.coins)
  {
    TransferExact(b, from, to, amount);
    if TransferCheck(b, from, to, amount).Ok? {
      TotalUpdate(b.coins, from, b.coins[from] - amount);
      TotalUpdate(b.coins[from := b.coins[from] - amount], to, b.coins[to] + amount);
    }
  }

  // ----- Codes keep their promises -----

  function Redeemers(redeemed: set<(string, User)>, id: string): set<(string, User)> {
    set p | p in redeemed && p.0 == id
  }

  /** Uses are counted exactly, capped, and paid for exactly. */
  predicate CodeOk(b: Bank, text: string)
    requires text in b.codes
  {
    var c := b.codes[text];
    && 1 <= c.coins <= 1_000_000_000 && c.maxUses >= 0
    && c.uses == |Redeemers(b.redeemed, c.id)|
    && (c.maxUses > 0 ==> c.uses <= c.maxUses)
    && Sum(b.entries, ByCode(c.id)) == c.coins * c.uses
  }

  predicate CodesOk(b: Bank) {
    && (forall t | t in b.codes :: CodeOk(b, t))
    && (forall t, v | t in b.codes && v in b.codes && b.codes[t].id == b.codes[v].id :: t == v)
  }

  lemma {:induction false} NoSuchCode(entries: seq<Entry>, id: string)
    requires forall e | e in entries :: e.via != Some(id)
    ensures Sum(entries, ByCode(id)) == 0
  {
    if entries != [] {
      assert entries[|entries| - 1] in entries;
      NoSuchCode(entries[..|entries| - 1], id);
    }
  }

  lemma CodesPost(b: Bank, e: Entry, balance: int)
    requires CodesOk(b) && e.via == None
    ensures CodesOk(Post(b, e, balance))
  {
  }

  lemma UseCounted(b: Bank, text: string, user: User)
    requires RedeemCheck(b, text, user).Ok? && CodeOk(b, text)
    ensures CodeOk(Redeemed(b, text, user), text)
  {
    hide Sum;
    var b', c := Redeemed(b, text, user), b.codes[text];
    SumSnoc(b.entries, Entry(user, c.coins, RedeemCode, Some(c.id)), ByCode(c.id));
    assert Redeemers(b'.redeemed, c.id) == Redeemers(b.redeemed, c.id) + {(c.id, user)};
    assert c.coins * (c.uses + 1) == c.coins * c.uses + c.coins;
  }

  lemma OtherCodeKept(b: Bank, text: string, user: User, t: string)
    requires RedeemCheck(b, text, user).Ok? && t in b.codes && CodeOk(b, t)
    requires t != text && b.codes[t].id != b.codes[text].id
    ensures CodeOk(Redeemed(b, text, user), t)
  {
    hide Sum;
    var b', c := Redeemed(b, text, user), b.codes[text];
    SumSnoc(b.entries, Entry(user, c.coins, RedeemCode, Some(c.id)), ByCode(b.codes[t].id));
    assert Redeemers(b'.redeemed, b.codes[t].id) == Redeemers(b.redeemed, b.codes[t].id);
  }

  lemma CodesRedeemed(b: Bank, text: string, user: User)
    requires CodesOk(b)
    ensures CodesOk(Redeemed(b, text, user))
  {
    hide CodeOk;
    if RedeemCheck(b, text, user).Ok? {
      var b' := Redeemed(b, text, user);
      forall t | t in b'.codes ensures CodeOk(b', t) {
        assert CodeOk(b, t);
        if t == text { UseCounted(b, text, user); } else { OtherCodeKept(b, text, user, t); }
      }
    }
  }

  lemma CodesMinted(b: Bank, text: string, c: Code)
    requires CodesOk(b) && Admissible(b, Mint(text, c)) && text !in b.codes
    ensures CodesOk(b.(codes := b.codes[text := c]))
  {
    var b' := b.(codes := b.codes[text := c]);
    NoSuchCode(b.entries, c.id);
    assert Redeemers(b.redeemed, c.id) == {};
    forall t | t in b'.codes ensures CodeOk(b', t) {
      if t != text { assert CodeOk(b, t); }
    }
  }

  lemma CodesDeleted(b: Bank, text: string)
    requires CodesOk(b) && text in b.codes
    ensures CodesOk(Apply(b, DeleteCode(text)))
  {
    var b' := Apply(b, DeleteCode(text));
    forall t | t in b'.codes ensures CodeOk(b', t) {
      assert CodeOk(b, t);
      assert Redeemers(b'.redeemed, b.codes[t].id) == Redeemers(b.redeemed, b.codes[t].id);
    }
  }

  /** Under the invariants a redemption fails only for the reasons given, and then changes
      nothing; the cap of the conditional update is never what stops it. */
  lemma RedeemExact(b: Bank, text: string, user: User)
    requires BalancesOk(b) && CodesOk(b)
    ensures var r := RedeemCheck(b, text, user);
            && (r.Ok? <==> text in b.codes && user in b.coins && (b.codes[text].id, user) !in b.redeemed
                           && (b.codes[text].maxUses == 0 || b.codes[text].uses < b.codes[text].maxUses)
                           && b.coins[user] + b.codes[text].coins <= MAX)
            && (r.Ok? ==> Redeemed(b, text, user).coins == b.coins[user := b.coins[user] + b.codes[text].coins])
            && (r.Err? ==> Redeemed(b, text, user) == b)
  {
  }

  /** The reason given for a refused redemption is the first that holds. */
  lemma RedeemRefusal(b: Bank, text: string, user: User)
    requires BalancesOk(b) && CodesOk(b) && RedeemCheck(b, text, user).Err?
    ensures var e := RedeemCheck(b, text, user).error;
            if text !in b.codes then e == NotFound
            else
              var c := b.codes[text];
              if c.maxUses > 0 && c.uses == c.maxUses then e == Exhausted
              else if user !in b.coins then e == Refused
              else if (c.id, user) in b.redeemed then e == AlreadyRedeemed
              else e == Overflow && b.coins[user] + c.coins > 0x7FFF_FFFF_FFFF_FFFF
  {
    hide Sum, Redeemers;
    assert text in b.codes ==> CodeOk(b, text);
    assert user in b.coins ==> BalanceOk(b, user);
  }

  lemma RedeemedOk(b: Bank, text: string, user: User)
    requires BalancesOk(b) && CodesOk(b)
    ensures BalancesOk(Redeemed(b, text, user))
  {
    RedeemExact(b, text, user);
    if RedeemCheck(b, text, user).Ok? {
      assert CodeOk(b, text) && BalanceOk(b, user);
      var c := b.codes[text];
      var posted := Post(b, Entry(user, c.coins, RedeemCode, Some(c.id)), b.coins[user] + c.coins);
      PostOk(b, Entry(user, c.coins, RedeemCode, Some(c.id)));
      var b' := Redeemed(b, text, user);
      forall u | u in b'.coins ensures BalanceOk(b', u) { assert BalanceOk(posted, u); }
    }
  }

  /** Redeem, unlike AddEntry, has no guard against a negative balance: for a code of any
      64-bit value it is safe exactly when the sum stays non-negative, which minting with
      positive coins guarantees. */
  lemma RedeemSafeExactly(b: Bank, text: string, user: User)
    requires BalancesOk(b) && RedeemCheck(b, text, user).Ok? && Fits(b.codes[text].coins)
    ensures BalancesOk(Redeemed(b, text, user)) <==> b.coins[user] + b.codes[text].coins >= 0
  {
  }

  // ----- Purchases: coins and quota never drift apart -----

  lemma CatalogIsSound(item: Item)
    requires item in Catalog()
    ensures !item.dimension.Unknown? && 0 < item.price <= 750 && 0 < item.amount <= MAX
  {
  }

  predicate AllFromCatalog(orders: seq<Order>) {
    forall o | o in orders :: o.item in Catalog()
  }

  /** What a user's purchases cost, net of refunds, is the price of what was granted, what
      is still open, and what failed without a refund; the bonus is what was granted. */
  predicate StoreOk(b: Bank, u: User) {
    SpendingOk(b, u) && BonusOk(b, u)
  }

  predicate SpendingOk(b: Bank, u: User) {
    -Sum(b.entries, ByStore(u)) == Prices(b.granted, u) + Prices(b.open, u) + Prices(b.lost, u)
  }

  predicate BonusOk(b: Bank, u: User) {
    BonusOf(b, u) == Bonus(Amounts(b.granted, u, Memory), Amounts(b.granted, u, Cpu),
                           Amounts(b.granted, u, Disk), Amounts(b.granted, u, Databases))
  }

  ghost predicate StoresOk(b: Bank) {
    AllFromCatalog(b.open) && forall u :: StoreOk(b, u)
  }

  lemma StorePost(b: Bank, e: Entry, balance: int, u: User)
    requires StoreOk(b, u) && !Picks(ByStore(u), e)
    ensures StoreOk(Post(b, e, balance), u)
  {
    hide Sum, Prices, Amounts;
    SumSnoc(b.entries, e, ByStore(u));
  }

  lemma StoreOpened(b: Bank, o: Order, u: User)
    requires StoreOk(b, u)
    ensures StoreOk(Opened(b, o), u)
  {
    hide Sum, Prices, Amounts, Pack, AddCheck;
    SumSnoc(b.entries, Debit(o), ByStore(u));
    OrdersSnoc(b.open, o, u);
  }

  lemma SpendingSettled(b: Bank, i: nat, grantWorks: bool, u: User)
    requires SpendingOk(b, u) && i < |b.open|
    ensures SpendingOk(Settled(b, i, grantWorks), u)
  {
    hide Sum, Prices, Amounts, Pack, Drop;
    var o := b.open[i];
    PricesDrop(b.open, i, u);
    OrdersSnoc(b.granted, o, u);
    OrdersSnoc(b.lost, o, u);
    SumSnoc(b.entries, Refund(o), ByStore(u));
  }

  lemma BonusSettled(b: Bank, i: nat, grantWorks: bool, u: User)
    requires BonusOk(b, u) && i < |b.open|
    ensures BonusOk(Settled(b, i, grantWorks), u)
  {
    hide Amounts, Drop;
    AmountsSnoc(b.granted, b.open[i], u, Memory);
    AmountsSnoc(b.granted, b.open[i], u, Cpu);
    AmountsSnoc(b.granted, b.open[i], u, Disk);
    AmountsSnoc(b.granted, b.open[i], u, Databases);
  }

  /** A refund is refused exactly when the balance has risen so far since the debit that the
      price no longer fits; then, and only then, the coins stay lost. */
  lemma RefundExact(b: Bank, i: nat)
    requires BalancesOk(b) && i < |b.open| && b.open[i].item in Catalog() && b.open[i].user in b.coins
    ensures var o, b' := b.open[i], Settled(b, i, false);
            if b.coins[o.user] + o.item.price > MAX then b'.lost == b.lost + [o] && b'.coins == b.coins
            else b'.lost == b.lost && b'.coins == b.coins[o.user := b.coins[o.user] + o.item.price]
  {
    CatalogIsSound(b.open[i].item);
    assert BalanceOk(b, b.open[i].user);
    AddExact(b, b.open[i].user, b.open[i].item.price);
  }

  /** With no other credit in between, a purchase whose grant fails gives every coin back. */
  lemma FailedPurchaseRestores(b: Bank, o: Order)
    requires BalancesOk(b) && o.item in Catalog() && AddCheck(b, o.user, Debit(o).amount).Ok?
    ensures var b' := Settled(Opened(b, o), |b.open|, false);
            b'.coins == b.coins && b'.bonus == b.bonus && b'.open == b.open && b'.lost == b.lost
                && b'.granted == b.granted
  {
    CatalogIsSound(o.item);
    assert BalanceOk(b, o.user);
    AddExact(b, o.user, -o.item.price);
    var started := Opened(b, o);
    AddedOk(b, Debit(o));
    var debited := Added(b, Debit(o));
    forall u | u in started.coins ensures BalanceOk(started, u) { assert BalanceOk(debited, u); }
    RefundExact(started, |b.open|);
    assert Drop(started.open, |b.open|) == b.open;
  }

  // ----- Every run -----

  ghost predicate Inv(b: Bank) {
    BalancesOk(b) && CodesOk(b) && StoresOk(b)
  }

  lemma SameBalances(b: Bank, b': Bank)
    requires BalancesOk(b) && b'.coins == b.coins && b'.entries == b.entries
    ensures BalancesOk(b')
  {
  }

  lemma SameCodes(b: Bank, b': Bank)
    requires CodesOk(b) && b'.codes == b.codes && b'.redeemed == b.redeemed && b'.entries == b.entries
    ensures CodesOk(b')
  {
  }

  lemma SameStores(b: Bank, b': Bank)
    requires StoresOk(b) && b'.bonus == b.bonus && b'.entries == b.entries
    requires b'.open == b.open && b'.granted == b.granted && b'.lost == b.lost
    ensures StoresOk(b')
  {
    hide Sum, Prices, Amounts;
    forall u ensures StoreOk(b', u) { assert StoreOk(b, u); }
  }

  lemma InvNewUser(b: Bank, u: User)
    requires Inv(b) && u !in b.coins
    ensures Inv(b.(coins := b.coins[u := 0]))
  {
    var b' := b.(coins := b.coins[u := 0]);
    NoEntries(b.entries, u);
    forall v | v in b'.coins ensures BalanceOk(b', v) { if v != u { assert BalanceOk(b, v); } }
    SameCodes(b, b');
    SameStores(b, b');
  }

  lemma {:induction false} NoEntries(entries: seq<Entry>, u: User)
    requires forall e | e in entries :: e.user != u
    ensures Sum(entries, ByUser(u)) == 0
  {
    if entries != [] {
      assert entries[|entries| - 1] in entries;
      NoEntries(entries[..|entries| - 1], u);
    }
  }

  lemma InvAdd(b: Bank, e: Entry)
    requires Inv(b) && Fits(e.amount) && e.via == None && !e.reason.StorePurchase? && !e.reason.StoreRefund?
    ensures Inv(Added(b, e))
  {
    AddedOk(b, e);
    var r := AddCheck(b, e.user, e.amount);
    if r.Ok? {
      CodesPost(b, e, r.value);
      forall v ensures StoreOk(Post(b, e, r.value), v) { assert StoreOk(b, v); StorePost(b, e, r.value, v); }
    }
  }

  lemma InvTransfer(b: Bank, from: User, to: User, amount: int)
    requires Inv(b) && Fits(amount)
    ensures Inv(Transferred(b, from, to, amount))
  {
    TransferredOk(b, from, to, amount);
    var r := TransferCheck(b, from, to, amount);
    if r.Ok? {
      var e, f := Entry(from, -amount, Gift, None), Entry(to, amount, Gift, None);
      var paid := Post(b, e, r.value);
      CodesPost(b, e, r.value);
      CodesPost(paid, f, Wrap(b.coins[to] + amount));
      forall v ensures StoreOk(Transferred(b, from, to, amount), v) {
        assert StoreOk(b, v);
        StorePost(b, e, r.value, v);
        StorePost(paid, f, Wrap(b.coins[to] + amount), v);
      }
    }
  }

  lemma InvRedeem(b: Bank, text: string, u: User)
    requires Inv(b)
    ensures Inv(Redeemed(b, text, u))
  {
    RedeemedOk(b, text, u);
    CodesRedeemed(b, text, u);
    var r := RedeemCheck(b, text, u);
    if r.Ok? {
      var c := b.codes[text];
      var e := Entry(u, c.coins, RedeemCode, Some(c.id));
      forall v ensures StoreOk(Redeemed(b, text, u), v) {
        assert StoreOk(b, v);
        StorePost(b, e, r.value, v);
      }
    }
  }

  lemma InvStart(b: Bank, o: Order)
    requires Inv(b) && o.item in Catalog()
    ensures Inv(Opened(b, o))
  {
    CatalogIsSound(o.item);
    AddedOk(b, Debit(o));
    var r := AddCheck(b, o.user, Debit(o).amount);
    if r.Ok? {
      var debited := Post(b, Debit(o), r.value);
      CodesPost(b, Debit(o), r.value);
      var b' := Opened(b, o);
      SameBalances(debited, b');
      SameCodes(debited, b');
      forall v ensures StoreOk(b', v) { assert StoreOk(b, v); StoreOpened(b, o, v); }
    }
  }

  lemma BalancesSettled(b: Bank, i: nat, works: bool)
    requires BalancesOk(b) && i < |b.open| && b.open[i].item in Catalog()
    ensures BalancesOk(Settled(b, i, works))
  {
    hide BalancesOk, Drop;
    var o, rest := b.open[i], b.(open := Drop(b.open, i));
    CatalogIsSound(o.item);
    SameBalances(b, rest);
    if (works && !o.item.dimension.Unknown?) || AddCheck(b, o.user, o.item.price).Err? {
      SameBalances(b, Settled(b, i, works));
    } else {
      AddedOk(rest, Refund(o));
    }
  }

  lemma CodesSettled(b: Bank, i: nat, works: bool)
    requires CodesOk(b) && i < |b.open|
    ensures CodesOk(Settled(b, i, works))
  {
    hide CodesOk, Drop;
    var o, rest := b.open[i], b.(open := Drop(b.open, i));
    var r := AddCheck(b, o.user, o.item.price);
    SameCodes(b, rest);
    if (works && !o.item.dimension.Unknown?) || r.Err? {
      SameCodes(b, Settled(b, i, works));
    } else {
      CodesPost(rest, Refund(o), r.value);
    }
  }

  lemma StoresSettled(b: Bank, i: nat, works: bool)
    requires StoresOk(b) && i < |b.open|
    ensures StoresOk(Settled(b, i, works))
  {
    hide SpendingOk, BonusOk;
    forall v ensures StoreOk(Settled(b, i, works), v) {
      assert StoreOk(b, v);
      SpendingSettled(b, i, works, v);
      BonusSettled(b, i, works, v);
    }
  }

  lemma InvFinish(b: Bank, i: nat, works: bool)
    requires Inv(b) && i < |b.open|
    ensures Inv(Settled(b, i, works))
  {
    hide BalancesOk, CodesOk, Settled;
    assert b.open[i] in b.open;
    BalancesSettled(b, i, works);
    CodesSettled(b, i, works);
    StoresSettled(b, i, works);
  }

  lemma InvStep(b: Bank, op: Op)
    requires Inv(b) && Admissible(b, op)
    ensures Inv(Apply(b, op))
  {
    match op
    case NewUser(u) => if u !in b.coins { InvNewUser(b, u); }
    case Add(u, amount) => InvAdd(b, Entry(u, amount, Other, None));
    case Transfer(from, to, amount) => InvTransfer(b, from, to, amount);
    case Mint(text, c) =>
      if text !in b.codes {
        CodesMinted(b, text, c);
        SameBalances(b, Apply(b, op));
        SameStores(b, Apply(b, op));
      }
    case DeleteCode(text) =>
      if text in b.codes {
        CodesDeleted(b, text);
        SameBalances(b, Apply(b, op));
        SameStores(b, Apply(b, op));
      }
    case Redeem(text, u) => InvRedeem(b, text, u);
    case StartPurchase(u, item) => InvStart(b, Order(u, item));
    case FinishPurchase(i, works) => InvFinish(b, i, works);
  }

  predicate Next(b: Bank, op: Op, b': Bank) {
    Admissible(b, op) && b' == Apply(b, op)
  }

  predicate Run(banks: seq<Bank>, ops: seq<Op>) {
    && |banks| == |ops| + 1 && banks[0] == START
    && forall i | 0 <= i < |ops| :: Next(banks[i], ops[i], banks[i + 1])
  }

  lemma {:induction false} RunInv(banks: seq<Bank>, ops: seq<Op>, n: nat)
    requires Run(banks, ops) && n < |banks|
    ensures Inv(banks[n])
  {
    if n > 0 {
      RunInv(banks, ops, n - 1);
      assert Next(banks[n - 1], ops[n - 1], banks[n]);
      InvStep(banks[n - 1], ops[n - 1]);
    }
  }

  /** After any sequence of operations from an empty database: a user's cached balance is the
      sum of that user's ledger entries and a non-negative 64-bit number. */
  lemma BalancesAgree(banks: seq<Bank>, ops: seq<Op>, n: nat, u: User)
    requires Run(banks, ops) && n < |banks| && u in banks[n].coins
    ensures 0 <= banks[n].coins[u] <= MAX && banks[n].coins[u] == Sum(banks[n].entries, ByUser(u))
  {
    RunInv(banks, ops, n);
    assert BalanceOk(banks[n], u);
  }

  /** ... a code's uses are its redemption rows, at most its cap, and what was credited
      through it is its value times its uses. */
  lemma CodesAgree(banks: seq<Bank>, ops: seq<Op>, n: nat, text: string)
    requires Run(banks, ops) && n < |banks| && text in banks[n].codes
    ensures var b, c := banks[n], banks[n].codes[text];
            && c.uses == |Redeemers(b.redeemed, c.id)| && (c.maxUses > 0 ==> c.uses <= c.maxUses)
            && Sum(b.entries, ByCode(c.id)) == c.coins * c.uses
  {
    RunInv(banks, ops, n);
    assert CodeOk(banks[n], text);
  }

  /** ... and a user's net spending and bonus are those of the granted purchases, up to
      purchases still open and refunds that were refused. */
  lemma PurchasesAgree(banks: seq<Bank>, ops: seq<Op>, n: nat, u: User)
    requires Run(banks, ops) && n < |banks|
    ensures var b := banks[n];
            && -Sum(b.entries, ByStore(u)) == Prices(b.granted, u) + Prices(b.open, u) + Prices(b.lost, u)
            && var bought := if u in b.bonus then b.bonus[u] else Bonus(0, 0, 0, 0);
            && bought.memory == Amounts(b.granted, u, Memory) && bought.cpu == Amounts(b.granted, u, Cpu)
            && bought.disk == Amounts(b.granted, u, Disk) && bought.databases == Amounts(b.granted, u, Databases)
  {
    RunInv(banks, ops, n);
    assert StoreOk(banks[n], u);
  }

  /** The five states after the first, in order. */
  function LosingBanks(u: User, item: Item): seq<Bank> {
    var o := Order(u, item);
    var paid, credit := Entry(u, item.price, Other, None), Entry(u, MAX, Other, None);
    [START,
     START.(coins := map[u := 0]),
     START.(coins := map[u := item.price], entries := [paid]),
     START.(coins := map[u := 0], entries := [paid, Debit(o)], open := [o]),
     START.(coins := map[u := MAX], entries := [paid, Debit(o), credit], open := [o]),
     START.(coins := map[u := MAX], entries := [paid, Debit(o), credit], lost := [o])]
  }

  function LosingOps(u: User, item: Item): seq<Op> {
    [NewUser(u), Add(u, item.price), StartPurchase(u, item), Add(u, MAX), FinishPurchase(0, false)]
  }

  lemma LosingCredit(u: User, item: Item, i: nat)
    requires item in Catalog() && i in [0, 1, 3]
    ensures Next(LosingBanks(u, item)[i], LosingOps(u, item)[i], LosingBanks(u, item)[i + 1])
  {
    hide Catalog;
    CatalogIsSound(item);
    var b, b' := LosingBanks(u, item)[i], LosingBanks(u, item)[i + 1];
    assert b'.coins == b.coins[u := b'.coins[u]];
    assert i > 0 ==> b'.entries == b.entries + [Entry(u, LosingOps(u, item)[i].amount, Other, None)];
  }

  lemma LosingStart(u: User, item: Item)
    requires item in Catalog()
    ensures Next(LosingBanks(u, item)[2], LosingOps(u, item)[2], LosingBanks(u, item)[3])
  {
    hide Catalog;
    CatalogIsSound(item);
    var b, b', o := LosingBanks(u, item)[2], LosingBanks(u, item)[3], Order(u, item);
    assert b'.coins == b.coins[u := 0] && b'.entries == b.entries + [Debit(o)] && b'.open == b.open + [o];
  }

  lemma LosingFinish(u: User, item: Item)
    requires item in Catalog()
    ensures Next(LosingBanks(u, item)[4], LosingOps(u, item)[4], LosingBanks(u, item)[5])
  {
    hide Catalog;
    CatalogIsSound(item);
    var o := Order(u, item);
    assert [] + [o] == [o] && Drop([o], 0) == [];
  }

  lemma SpentOnly(u: User, paid: Entry, debit: Entry, credit: Entry)
    requires debit.user == u && debit.reason == StorePurchase && paid.reason == credit.reason == Other
    ensures Sum([paid, debit, credit], ByStore(u)) == debit.amount
  {
    assert [paid] == [] + [paid];
    assert [paid, debit] == [paid] + [debit];
    assert [paid, debit, credit] == [paid, debit] + [credit];
    SumSnoc([], paid, ByStore(u));
    SumSnoc([paid], debit, ByStore(u));
    SumSnoc([paid, debit], credit, ByStore(u));
  }

  /** The store's promise can fail, for any item: the user spends the last coins on it, is
      credited the largest amount there is, and then the grant fails. The refund no longer
      fits, so the price is gone and nothing was granted. */
  lemma RefundCanBeLost(u: User, item: Item) returns (banks: seq<Bank>, ops: seq<Op>)
    requires item in Catalog()
    ensures Run(banks, ops) && |ops| == 5
    ensures ops == [NewUser(u), Add(u, item.price), StartPurchase(u, item), Add(u, MAX), FinishPurchase(0, false)]
    ensures var b := banks[5];
            && b.lost == [Order(u, item)] && b.open == [] && b.granted == []
            && -Sum(b.entries, ByStore(u)) == item.price > Prices(b.granted, u) == 0
            && BonusOf(b, u) == Bonus(0, 0, 0, 0)
  {
    hide Catalog, Sum;
    CatalogIsSound(item);
    banks, ops := LosingBanks(u, item), LosingOps(u, item);
    forall i | 0 <= i < 5 ensures Next(banks[i], ops[i], banks[i + 1]) {
      if i == 2 { LosingStart(u, item); } else if i == 4 { LosingFinish(u, item); } else { LosingCredit(u, item, i); }
    }
    hide Next;
    SpentOnly(u, Entry(u, item.price, Other, None), Debit(Order(u, item)), Entry(u, MAX, Other, None));
  }

  // ----- All coins come from the ledger -----

  ghost predicate Covered(b: Bank) {
    Total(b.coins) == Sum(b.entries, All)
  }

  lemma CoveredPost(b: Bank, e: Entry)
    requires Covered(b) && e.user in b.coins
    ensures Covered(Post(b, e, b.coins[e.user] + e.amount))
  {
    hide Total, Sum;
    TotalUpdate(b.coins, e.user, b.coins[e.user] + e.amount);
    SumSnoc(b.entries, e, All);
  }

  lemma CoveredAdded(b: Bank, e: Entry)
    requires Covered(b) && BalancesOk(b) && Fits(e.amount)
    ensures Covered(Added(b, e))
  {
    hide Total, Sum;
    if e.user in b.coins {
      assert BalanceOk(b, e.user);
      AddExact(b, e.user, e.amount);
      CoveredPost(b, e);
    }
  }

  lemma CoveredTransfer(b: Bank, from: User, to: User, amount: int)
    requires Covered(b) && BalancesOk(b) && Fits(amount)
    ensures Covered(Transferred(b, from, to, amount))
  {
    hide Total, Sum, BalancesOk;
    TransferConserves(b, from, to, amount);
    var e, f := Entry(from, -amount, Gift, None), Entry(to, amount, Gift, None);
    if TransferCheck(b, from, to, amount).Ok? {
      SumSnoc(b.entries, e, All);
      SumSnoc(b.entries + [e], f, All);
    }
  }

  lemma CoveredRedeem(b: Bank, text: string, u: User)
    requires Covered(b) && BalancesOk(b) && CodesOk(b)
    ensures Covered(Redeemed(b, text, u))
  {
    hide Total, Sum, BalancesOk, CodesOk;
    RedeemExact(b, text, u);
    if RedeemCheck(b, text, u).Ok? {
      CoveredPost(b, Entry(u, b.codes[text].coins, RedeemCode, Some(b.codes[text].id)));
    }
  }

  lemma CoveredSettled(b: Bank, i: nat, works: bool)
    requires Covered(b) && BalancesOk(b) && i < |b.open| && b.open[i].item in Catalog()
    ensures Covered(Settled(b, i, works))
  {
    hide Total, Sum, Drop, BalancesOk;
    var o, rest := b.open[i], b.(open := Drop(b.open, i));
    CatalogIsSound(o.item);
    SameBalances(b, rest);
    CoveredAdded(rest, Refund(o));
  }

  lemma CoveredNext(b: Bank, op: Op)
    requires Inv(b) && Covered(b) && Admissible(b, op)
    ensures Covered(Apply(b, op))
  {
    hide Total, Sum, BalancesOk, CodesOk;
    match op
    case NewUser(u) =>
      if u !in b.coins {
        TotalWithout(b.coins[u := 0], u);
        assert b.coins[u := 0] - {u} == b.coins;
      }
    case Add(u, amount) => CoveredAdded(b, Entry(u, amount, Other, None));
    case Transfer(from, to, amount) => CoveredTransfer(b, from, to, amount);
    case Redeem(text, u) => CoveredRedeem(b, text, u);
    case StartPurchase(u, item) =>
      CatalogIsSound(item);
      CoveredAdded(b, Debit(Order(u, item)));
    case FinishPurchase(i, works) =>
      assert b.open[i] in b.open;
      CoveredSettled(b, i, works);
    case _ =>
  }

  lemma CoveredStep(b: Bank, op: Op, b': Bank)
    requires Inv(b) && Covered(b) && Next(b, op, b')
    ensures Covered(b')
  {
    hide Covered, Apply, Admissible, Inv;
    CoveredNext(b, op);
  }

  lemma RunAt(banks: seq<Bank>, ops: seq<Op>, n: nat)
    requires Run(banks, ops)
    ensures |banks| == |ops| + 1 && banks[0] == START && Covered(START)
    ensures 0 < n < |banks| ==> Next(banks[n - 1], ops[n - 1], banks[n])
  {
    hide Next;
  }

  lemma {:induction false} RunCovered(banks: seq<Bank>, ops: seq<Op>, n: nat)
    requires Run(banks, ops) && n < |banks|
    ensures Covered(banks[n])
  {
    hide *;
    RunAt(banks, ops, n);
    if n > 0 {
      RunCovered(banks, ops, n - 1);
      RunInv(banks, ops, n - 1);
      CoveredStep(banks[n - 1], ops[n - 1], banks[n]);
    }
  }

  /** After any sequence of operations the coins of all users together are the sum of the
      whole ledger: none appear or vanish without an entry. */
  lemma CirculationIsLedger(banks: seq<Bank>, ops: seq<Op>, n: nat)
    requires Run(banks, ops) && n < |banks|
    ensures Total(banks[n].coins) == Sum(banks[n].entries, All)
  {
    RunCovered(banks, ops, n);
  }

  // ----- What each operation of a run does -----

  lemma StepAt(banks: seq<Bank>, ops: seq<Op>, n: nat)
    requires Run(banks, ops) && n < |ops|
    ensures Admissible(banks[n], ops[n]) && banks[n + 1] == Apply(banks[n], ops[n]) && Inv(banks[n])
  {
    hide Inv, Apply, Admissible;
    RunInv(banks, ops, n);
    assert Next(banks[n], ops[n], banks[n + 1]);
  }

  /** A credit or debit happens exactly if the user exists and the balance stays between 0
      and the 64-bit maximum; then balance and ledger change by it, and nothing else does. */
  lemma AddEffect(banks: seq<Bank>, ops: seq<Op>, n: nat)
    requires Run(banks, ops) && n < |ops| && (ops[n].Add? || ops[n].NewUser?)
    ensures var b, op := banks[n], ops[n];
            banks[n + 1] ==
            if op.NewUser? then b.(coins := b.coins[op.u := if op.u in b.coins then b.coins[op.u] else 0])
            else if op.u in b.coins && 0 <= b.coins[op.u] + op.amount <= 0x7FFF_FFFF_FFFF_FFFF then
              b.(coins := b.coins[op.u := b.coins[op.u] + op.amount],
                 entries := b.entries + [Entry(op.u, op.amount, Other, None)])
            else b
  {
    hide Sum, CodesOk, StoresOk;
    StepAt(banks, ops, n);
    var b, op := banks[n], ops[n];
    if op.Add? && op.u in b.coins {
      assert BalanceOk(b, op.u);
      AddExact(b, op.u, op.amount);
    } else if op.NewUser? && op.u in b.coins {
      assert b.coins[op.u := b.coins[op.u]] == b.coins;
    }
  }

  /** A transfer happens exactly for a positive amount between two users, the sender having
      it and the recipient room for it; it leaves a line for each, the sender's first. */
  lemma TransferEffect(banks: seq<Bank>, ops: seq<Op>, n: nat)
    requires Run(banks, ops) && n < |ops| && ops[n].Transfer?
    ensures var b, Transfer(from, to, amount) := banks[n], ops[n];
            banks[n + 1] ==
            if amount > 0 && from != to && from in b.coins && to in b.coins && b.coins[from] >= amount
               && b.coins[to] + amount <= 0x7FFF_FFFF_FFFF_FFFF then
              b.(coins := b.coins[from := b.coins[from] - amount][to := b.coins[to] + amount],
                 entries := b.entries + [Entry(from, -amount, Gift, None), Entry(to, amount, Gift, None)])
            else b
  {
    hide Sum, CodesOk, StoresOk, BalanceOk;
    StepAt(banks, ops, n);
    var b, op := banks[n], ops[n];
    TransferExact(b, op.from, op.to, op.amount);
    assert b.entries + [Entry(op.from, -op.amount, Gift, None)] + [Entry(op.to, op.amount, Gift, None)]
        == b.entries + [Entry(op.from, -op.amount, Gift, None), Entry(op.to, op.amount, Gift, None)];
  }

  /** A user redeems a code exactly if both exist, the user has not redeemed it, a use is
      left, and the coins fit; a deleted code takes its redemptions with it and no coins. */
  lemma RedeemEffect(banks: seq<Bank>, ops: seq<Op>, n: nat)
    requires Run(banks, ops) && n < |ops| && (ops[n].Redeem? || ops[n].Mint? || ops[n].DeleteCode?)
    ensures var b, b', text := banks[n], banks[n + 1], ops[n].text;
      match ops[n]
      case Mint(_, c) => b' == if text in b.codes then b else b.(codes := b.codes[text := c])
      case DeleteCode(_) =>
        && b' == b.(codes := b.codes - {text}, redeemed := b'.redeemed)
        && forall p :: p in b'.redeemed <==> p in b.redeemed && (text in b.codes ==> p.0 != b.codes[text].id)
      case Redeem(_, u) =>
        if text in b.codes && u in b.coins && (b.codes[text].id, u) !in b.redeemed
           && (b.codes[text].maxUses == 0 || b.codes[text].uses < b.codes[text].maxUses)
           && b.coins[u] + b.codes[text].coins <= 0x7FFF_FFFF_FFFF_FFFF then
          var c := b.codes[text];
          b' == b.(coins := b.coins[u := b.coins[u] + c.coins], redeemed := b.redeemed + {(c.id, u)},
                   codes := b.codes[text := c.(uses := c.uses + 1)],
                   entries := b.entries + [Entry(u, c.coins, RedeemCode, Some(c.id))])
        else b' == b
  {
    hide StoresOk, Sum;
    StepAt(banks, ops, n);
    if ops[n].Redeem? { RedeemExact(banks[n], ops[n].text, ops[n].u); }
    if ops[n].DeleteCode? && ops[n].text !in banks[n].codes {
      assert banks[n].codes - {ops[n].text} == banks[n].codes;
    }
  }

  /** A purchase starts exactly if the user has the price, which is debited at once. */
  lemma StartEffect(banks: seq<Bank>, ops: seq<Op>, n: nat)
    requires Run(banks, ops) && n < |ops| && ops[n].StartPurchase?
    ensures var b, StartPurchase(u, item) := banks[n], ops[n];
            banks[n + 1] ==
            if u in b.coins && b.coins[u] >= item.price then
              b.(coins := b.coins[u := b.coins[u] - item.price], open := b.open + [Order(u, item)],
                 entries := b.entries + [Entry(u, -item.price, StorePurchase, None)])
            else b
  {
    hide Sum, CodesOk, StoresOk, Catalog;
    StepAt(banks, ops, n);
    var b, op := banks[n], ops[n];
    CatalogIsSound(op.item);
    if op.u in b.coins {
      assert BalanceOk(b, op.u);
      AddExact(b, op.u, -op.item.price);
    }
  }

  /** A grant that works adds the amount in the item's dimension and in no other, and moves
      no coins. One that fails gives the price back if it fits and changes no bonus. */
  lemma FinishEffect(banks: seq<Bank>, ops: seq<Op>, n: nat)
    requires Run(banks, ops) && n < |ops| && ops[n].FinishPurchase?
    ensures var b, b', FinishPurchase(i, works) := banks[n], banks[n + 1], ops[n];
            && i < |b.open| && b'.open == b.open[..i] + b.open[i + 1..]
            && var Order(u, item) := b.open[i];
            if works then
              && b' == b.(open := b'.open, bonus := b'.bonus, granted := b.granted + [b.open[i]])
              && Enlarged(b.bonus, b'.bonus, u, item)
            else if u in b.coins && b.coins[u] + item.price <= 0x7FFF_FFFF_FFFF_FFFF then
              b' == b.(open := b'.open, coins := b.coins[u := b.coins[u] + item.price],
                       entries := b.entries + [Entry(u, item.price, StoreRefund, None)])
            else b' == b.(open := b'.open, lost := b.lost + [b.open[i]])
  {
    hide Sum, CodesOk, SpendingOk, BonusOk, Catalog;
    StepAt(banks, ops, n);
    var b, op := banks[n], ops[n];
    var o := b.open[op.i];
    assert o in b.open;
    CatalogIsSound(o.item);
    if o.user in b.coins {
      assert BalanceOk(b, o.user);
      AddExact(b, o.user, o.item.price);
    }
  }

  /** The user's bonus has grown by the item, in its dimension; all other bonuses are as they
      were. A user without a row counts as having no bonus. */
  predicate Enlarged(before: map<User, Bonus>, after: map<User, Bonus>, user: User, item: Item) {
    && after.Keys == before.Keys + {user} && (forall u | u in before && u != user :: after[u] == before[u])
    && var x, y := if user in before then before[user] else Bonus(0, 0, 0, 0), after[user];
    && y.memory == x.memory + (if item.dimension == Memory then item.amount else 0)
    && y.cpu == x.cpu + (if item.dimension == Cpu then item.amount else 0)
    && y.disk == x.disk + (if item.dimension == Disk then item.amount else 0)
    && y.databases == x.databases + (if item.dimension == Databases then item.amount else 0)
  }

  lemma PackEnlarges(b: Bank, user: User, item: Item)
    requires !item.dimension.Unknown?
    ensures Enlarged(b.bonus, b.bonus[user := Plus(BonusOf(b, user), Pack(item))], user, item)
  {
  }

  // ----- The services, on tables -----

  method Lookup(itemId: string) returns (found: Option<Item>)
    ensures found.Some? ==> found.value in Catalog() && found.value.id == itemId
    ensures found.None? ==> forall item | item in Catalog() :: item.id != itemId
  {
    var catalog := Catalog();
    var k := 0;
    while k < |catalog|
      invariant 0 <= k <= |catalog|
      invariant forall j | 0 <= j < k :: catalog[j].id != itemId
    {
      if catalog[k].id == itemId { return Some(catalog[k]); }
      k := k + 1;
    }
    return None;
  }

  class Tables {
    var coins: map<User, int>
    var entries: seq<Entry>
    var codes: map<string, Code>
    var redeemed: set<(string, User)>
    var bonus: map<User, Bonus>
    ghost var open: seq<Order>
    ghost var granted: seq<Order>
    ghost var lost: seq<Order>

    ghost function View(): Bank
      reads this
    {
      Bank(coins, entries, codes, redeemed, bonus, open, granted, lost)
    }

    constructor ()
      ensures View() == START
    {
      coins, entries, codes, redeemed, bonus := map[], [], map[], {}, map[];
      open, granted, lost := [], [], [];
    }

    method AddEntry(user: User, amount: int, reason: Reason) returns (r: Result)
      modifies this
      ensures r == AddCheck(old(View()), user, amount)
      ensures View() == Added(old(View()), Entry(user, amount, reason, None))
      ensures r.Err? ==> coins == old(coins) && entries == old(entries)
      ensures r.Ok? ==> coins == old(coins)[user := r.value]
                        && entries == old(entries) + [Entry(user, amount, reason, None)]
      ensures Fits(amount) && user in old(coins) && 0 <= old(coins)[user] <= 0x7FFF_FFFF_FFFF_FFFF ==>
                && (r.Ok? <==> 0 <= old(coins)[user] + amount <= 0x7FFF_FFFF_FFFF_FFFF)
                && (r.Ok? ==> r.value == old(coins)[user] + amount)
      ensures user !in old(coins) ==> r == Err(NotFound)
    {
      if user !in coins { return Err(NotFound); }
      var balance := coins[user];
      if amount > 0 && balance > Wrap(MAX - amount) { return Err(Overflow); }
      var newBalance := Wrap(balance + amount);
      if newBalance < 0 { return Err(Insufficient); }
      coins := coins[user := newBalance];
      entries := entries + [Entry(user, amount, reason, None)];
      return Ok(newBalance);
    }

    method Transfer(from: User, to: User, amount: int) returns (r: Result)
      modifies this
      ensures r == TransferCheck(old(View()), from, to, amount)
      ensures View() == Transferred(old(View()), from, to, amount)
      ensures r.Err? ==> coins == old(coins) && entries == old(entries)
      ensures r.Ok? ==> from in old(coins) && to in old(coins) && from != to && amount > 0
      ensures r.Ok? && 0 <= old(coins)[from] <= MAX && 0 <= old(coins)[to] <= MAX && Fits(amount) ==>
                && r.value == old(coins)[from] - amount >= 0 && old(coins)[to] + amount <= 0x7FFF_FFFF_FFFF_FFFF
                && coins == old(coins)[from := r.value][to := old(coins)[to] + amount]
                && entries == old(entries) + [Entry(from, -amount, Gift, None), Entry(to, amount, Gift, None)]
    {
      if amount <= 0 { return Err(BadAmount); }
      if from == to { return Err(ToSelf); }
      if from !in coins { return Err(NotFound); }
      var fromBalance := Wrap(coins[from] - amount);
      if fromBalance < 0 { return Err(Insufficient); }
      if to !in coins { return Err(NotFound); }
      var recipientBalance := coins[to];
      if recipientBalance > Wrap(MAX - amount) { return Err(Overflow); }
      coins := coins[from := fromBalance];
      coins := coins[to := Wrap(recipientBalance + amount)];
      entries := entries + [Entry(from, -amount, Gift, None)];
      entries := entries + [Entry(to, amount, Gift, None)];
      return Ok(fromBalance);
    }

    /** Rows are written before the last checks; a failure rolls them back. */
    method Redeem(text: string, user: User) returns (r: Result)
      modifies this
      ensures r == RedeemCheck(old(View()), text, user)
      ensures View() == Redeemed(old(View()), text, user)
      ensures r.Err? ==> coins == old(coins) && entries == old(entries) && codes == old(codes)
                         && redeemed == old(redeemed)
      ensures r.Ok? ==> text in old(codes) && user in old(coins) && (old(codes)[text].id, user) !in old(redeemed)
      ensures r.Ok? ==>
                && coins == old(coins)[user := r.value]
                && redeemed == old(redeemed) + {(old(codes)[text].id, user)}
                && codes == old(codes)[text := old(codes)[text].(uses := old(codes)[text].uses + 1)]
                && entries == old(entries)
                              + [Entry(user, old(codes)[text].coins, RedeemCode, Some(old(codes)[text].id))]
      ensures r.Ok? && 0 <= old(coins)[user] <= MAX && 0 <= old(codes)[text].coins <= MAX ==>
                r.value == old(coins)[user] + old(codes)[text].coins <= 0x7FFF_FFFF_FFFF_FFFF
    {
      if text !in codes { return Err(NotFound); }
      var c := codes[text];
      if c.maxUses > 0 && c.uses >= c.maxUses { return Err(Exhausted); }
      if user !in coins { return Err(Refused); }
      if (c.id, user) in redeemed { return Err(AlreadyRedeemed); }
      var savedCodes, savedRedeemed := codes, redeemed;
      redeemed := redeemed + {(c.id, user)};
      if !(c.maxUses == 0 || c.uses < c.maxUses) {
        redeemed := savedRedeemed;
        return Err(Exhausted);
      }
      codes := codes[text := c.(uses := c.uses + 1)];
      var balance := coins[user];
      if c.coins > 0 && balance > Wrap(MAX - c.coins) {
        codes, redeemed := savedCodes, savedRedeemed;
        return Err(Overflow);
      }
      var newBalance := Wrap(balance + c.coins);
      coins := coins[user := newBalance];
      entries := entries + [Entry(user, c.coins, RedeemCode, Some(c.id))];
      return Ok(newBalance);
    }

    /** The grant; `works` is the outcome of the upsert. */
    method Grant(user: User, item: Item, works: bool) returns (ok: bool)
      modifies this`bonus
      ensures ok == (works && !item.dimension.Unknown?)
      ensures bonus == if ok then old(bonus)[user := Plus(BonusOf(old(View()), user), Pack(item))] else old(bonus)
      ensures if ok then Enlarged(old(bonus), bonus, user, item) else bonus == old(bonus)
    {
      hide Enlarged;
      if item.dimension.Unknown? || !works { return false; }
      PackEnlarges(View(), user, item);
      var b := if user in bonus then bonus[user] else Bonus(0, 0, 0, 0);
      match item.dimension {
        case Memory => b := b.(memory := b.memory + item.amount);
        case Cpu => b := b.(cpu := b.cpu + item.amount);
        case Disk => b := b.(disk := b.disk + item.amount);
        case Databases => b := b.(databases := b.databases + item.amount);
      }
      bonus := bonus[user := b];
      return true;
    }

    /** Debit, grant, and on a failed grant refund. The balance reported is the balance
        afterwards, whichever way it went. */
    method Buy(user: User, item: Item, grantWorks: bool) returns (r: Result, balance: int)
      modifies this
      ensures View() == Bought(old(View()), Order(user, item), grantWorks)
      ensures r == Bill(old(View()), Order(user, item), grantWorks)
      ensures if AddCheck(old(View()), user, -item.price).Ok? then user in coins && balance == coins[user]
              else balance == 0
    {
      hide AddCheck, Pack, BonusOf;
      ghost var o, b := Order(user, item), View();
      var debit := AddEntry(user, -item.price, StorePurchase);
      if debit.Err? { return debit, 0; }
      open := open + [o];
      assert View() == Opened(b, o);
      open := Drop(open, |b.open|);
      var granting := Grant(user, item, grantWorks);
      if granting {
        granted := granted + [o];
        return debit, debit.value;
      }
      var refund := AddEntry(user, item.price, StoreRefund);
      if refund.Ok? { return Err(Refused), refund.value; }
      lost := lost + [o];
      return Err(Refused), debit.value;
    }

    method Purchase(user: User, itemId: string, grantWorks: bool) returns (r: Result, balance: int)
      modifies this
      ensures (forall item | item in Catalog() :: item.id != itemId) ==> r == Err(NotFound) && View() == old(View())
      ensures (exists item | item in Catalog() :: item.id == itemId) ==>
              exists item | item in Catalog() ::
                && item.id == itemId
                && View() == Bought(old(View()), Order(user, item), grantWorks)
                && r == Bill(old(View()), Order(user, item), grantWorks)
    {
      hide Catalog, Bought, Bill;
      var found := Lookup(itemId);
      if found.None? { return Err(NotFound), 0; }
      r, balance := Buy(user, found.value, grantWorks);
    }
  }

  /** One purchase from start to finish, with nothing in between. */
  function Bought(b: Bank, o: Order, grantWorks: bool): Bank {
    if AddCheck(b, o.user, -o.item.price).Ok? then Settled(Opened(b, o), |b.open|, grantWorks) else b
  }

  function Bill(b: Bank, o: Order, grantWorks: bool): Result {
    var r := AddCheck(b, o.user, -o.item.price);
    if r.Ok? && !(grantWorks && !o.item.dimension.Unknown?) then Err(Refused) else r
  }

  /** A purchase on its own: without the coins nothing happens; with them the price buys the
      item's amount in the item's dimension, or both halves of a failed grant cancel. */
  lemma BoughtEffect(b: Bank, o: Order, grantWorks: bool)
    requires 0 < o.item.price <= MAX && (o.user in b.coins ==> 0 <= b.coins[o.user] <= MAX)
    ensures var b', r, price := Bought(b, o, grantWorks), Bill(b, o, grantWorks), o.item.price;
            if o.user !in b.coins || b.coins[o.user] < price then b' == b && r.Err?
            else if grantWorks && !o.item.dimension.Unknown? then
              && r == Ok(b.coins[o.user] - price)
              && b' == b.(coins := b.coins[o.user := r.value], bonus := b'.bonus, granted := b.granted + [o],
                          entries := b.entries + [Entry(o.user, -price, StorePurchase, None)])
              && Enlarged(b.bonus, b'.bonus, o.user, o.item)
            else
              && r == Err(Refused)
              && b' == b.(entries := b.entries + [Entry(o.user, -price, StorePurchase, None),
                                                  Entry(o.user, price, StoreRefund, None)])
  {
    hide Opened, Settled, AddCheck, Enlarged;
    OpenedEffect(b, o);
    if o.user in b.coins && b.coins[o.user] >= o.item.price {
      var price, started := o.item.price, Opened(b, o);
      DropLast(b.open, o);
      if grantWorks && !o.item.dimension.Unknown? {
        SettledGrant(started, |b.open|);
      } else {
        SettledRefund(started, |b.open|, grantWorks);
        assert b.coins == b.coins[o.user := b.coins[o.user] - price][o.user := b.coins[o.user]];
        assert b.entries + [Entry(o.user, -price, StorePurchase, None)] + [Entry(o.user, price, StoreRefund, None)]
            == b.entries + [Entry(o.user, -price, StorePurchase, None), Entry(o.user, price, StoreRefund, None)];
      }
    }
  }

  lemma OpenedEffect(b: Bank, o: Order)
    requires 0 < o.item.price <= MAX && (o.user in b.coins ==> 0 <= b.coins[o.user] <= MAX)
    ensures var price := o.item.price;
            if o.user in b.coins && b.coins[o.user] >= price then
              && AddCheck(b, o.user, -price) == Ok(b.coins[o.user] - price)
              && Opened(b, o) == b.(coins := b.coins[o.user := b.coins[o.user] - price], open := b.open + [o],
                                    entries := b.entries + [Entry(o.user, -price, StorePurchase, None)])
            else AddCheck(b, o.user, -price).Err?
  {
    if o.user in b.coins { AddExact(b, o.user, -o.item.price); }
    hide AddCheck;
  }

  lemma SettledGrant(b: Bank, i: nat)
    requires i < |b.open| && !b.open[i].item.dimension.Unknown?
    ensures var b', o := Settled(b, i, true), b.open[i];
            && b' == b.(open := Drop(b.open, i), bonus := b'.bonus, granted := b.granted + [o])
            && Enlarged(b.bonus, b'.bonus, o.user, o.item)
  {
    hide Drop, Enlarged;
    PackEnlarges(b, b.open[i].user, b.open[i].item);
  }

  lemma SettledRefund(b: Bank, i: nat, works: bool)
    requires i < |b.open| && b.open[i].user in b.coins && !(works && !b.open[i].item.dimension.Unknown?)
    requires var o := b.open[i]; 0 < o.item.price && 0 <= b.coins[o.user] && b.coins[o.user] + o.item.price <= MAX
    ensures var o := b.open[i];
            Settled(b, i, works)
            == b.(open := Drop(b.open, i), coins := b.coins[o.user := b.coins[o.user] + o.item.price],
                  entries := b.entries + [Entry(o.user, o.item.price, StoreRefund, None)])
  {
    var rest := b.(open := Drop(b.open, i));
    AddExact(rest, b.open[i].user, b.open[i].item.price);
    hide Drop, AddCheck;
  }

  lemma DropLast<T>(s: seq<T>, x: T)
    ensures Drop(s + [x], |s|) == s
  {
  }
}
