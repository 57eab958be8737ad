# Sky Panel control plane: a verified model

This project models the stateful parts of `panel-api`, the Go control plane of Sky Panel, and
one function of its web client, and proves what their documentation promises of them.

| Module | Subject |
|---|---|
| `KeyedLock` | the reference-counted per-key lock, as a machine of interleaved steps and as classes |
| `QuotaAdmission` | quota arithmetic, and concurrent create/clone requests under that lock |
| `AgentConn` | the command/ack protocol of one node connection, and the connection registry |
| `ReplayGuard` | message budget, freshness and replay cache of the inbound read loop |
| `Ports` | port allocations and the server life cycle over two tables |
| `Economy` | ledger, transfers, redeem codes and the coin store |
| `Rewards` | AFK earning and the daily reward |
| `StartupTemplate` | the placeholder expander and its second implementation in the browser |
| `CommandTokens` | the quote-aware tokenizer, alone and after expansion |
| `EggVariables` | which values an owner can bring into a startup command |
| `RateLimit` | per-key token buckets with idle eviction |
| `StatsCache`, `OwnerCache` | the two time-limited caches of the node hub, with overlapping calls |
| `Schedules` | recurring schedules and scheduled backups |
| `TokenBucket`, `Int64`, `Options` | shared vocabulary |

Conventions. Objects whose methods update fields are classes with those fields; every method's
`ensures` ties the new state to a function of the old one, and theorems about runs are stated on
that function. Concurrent code is a step relation, one step per critical section, channel
operation or SQL transaction, and theorems quantify over every sequence of steps. Clock readings,
random identifiers and the outcomes of network calls and of single SQL statements are inputs.
Integers are unbounded unless a value is wrapped explicitly (`Int64.Wrap`); times are nanoseconds.
A theorem about runs names the states visited in a sequence, so `n < |states|` means "any reachable
state".
Laws called `...Effect`, `...Exactly` or `...Steps` are stated on fields, numbers and characters, not
on the functions that define the model, so that they say by themselves what an operation does.

## Where code and comments part

* `agenthub/handler.go:22-25` says a message can never pass the freshness check with an expired
  nonce. That holds if and only if at most 59 s pass between the two checks of a message
  (`NoReplayExactly`); one nanosecond more lets a replay through (`LateCheckAcceptsReplay`).
* `quotasvc` adds 64-bit numbers without an overflow check. An allowed request is within the
  quota exactly when the new true totals fit (`AllowedIsWithin`); a wrapped request is let through
  (`WrappedRequestIsAllowed`).
* `quotasvc/service.go:146-147` says re-saving the same limits always passes. It passes exactly
  while the user is within the quota (`ResavingExact`, `ResavingCanFail`).
* `renderStartup` is called a mirror of `substitute`. `PreviewExactly` says for which strings it
  is one. It differs in three ways: a declared name that is no word, such as `A-B`, is expanded by
  the server only (`NonWordName`; nothing restricts the names an egg declares); a known name at the
  end of an unfinished placeholder, as in `{{{A}}`, is replaced by the preview only (`NestedName`);
  and a name padded with U+0085 or U+FEFF is read by one side only (`NonWordName`,
  `OddlyPaddedName`).
* `httpapi/schedules_handlers.go:76` accepts any positive number of minutes, and the product with a
  minute is a 64-bit duration. The configured interval is kept up to 153,722,867 minutes
  (`IntervalExact`); beyond, a schedule never runs or runs at the wrapped interval, which can be
  seconds (`NeverDueExactly`, `WrappedIntervals`).
* Backup hours are not capped either; beyond 2,562,047 of them the coarse filter of the backup query
  can drop rows the exact test picks (`CoarseFilterIsSafe`, `HoursExact`, `FilterCanDrop`).
* A timestamp exactly 2^63 s away from the clock counts as fresh, because the negative of the least
  64-bit number is itself (`FreshExactly`). It opens no way to a replay (`NoEnvelopeTwice`).
* `AddEntry` refuses a negative balance, `Redeem` does not; it depends on codes being minted with
  positive coins (`RedeemSafeExactly`).
* The store promises that coins and quota never drift apart. They do when a refund is refused for
  overflow, which needs another credit in between (`RefundExact`, `FailedPurchaseRestores`), for
  instance an admin adjustment, whose amount is not capped (`RefundCanBeLost`).
* A stats `get` overtaken by a put between its read and its clock reading can return nothing
  although a fresh entry was there all along (`OvertakenGetMisses`, `GetAtReturnExactly`).

The earning limits hold for all settings the admin handler stores; its caps are what keeps their
durations from wrapping (`CapsPreventWrap`).

## Model

| member | source | states |
|---|---|---|
| KeyedLock.MutualExclusion | panel-api/internal/httpapi/keyed_mutex.go:27-48 | in every reachable state of every interleaving a key has an entry exactly while callers are counted for it, `refs` is their number, they share one lock object, and at most one is in its critical section |
| KeyedLock.WaitingIsServed | panel-api/internal/httpapi/keyed_mutex.go:27-48 | a waiting caller can take the mutex, or its holder is a live caller of the same key that can release it: no lock is lost with a deleted entry |
| KeyedLock.InvStep | panel-api/internal/httpapi/keyed_mutex.go:27-48 | the invariant behind both survives each atomic step |
| KeyedLock.CallerSteps | panel-api/internal/httpapi/keyed_mutex.go:27-48 | in every run: entering counts the caller on its key's lock, acquiring puts it inside with the mutex its own, releasing frees the mutex, leaving removes it, and the entry with the last caller |
| KeyedLock.KeyedMutex.Enter | panel-api/internal/httpapi/keyed_mutex.go:28-35 | first half of `lock`: finds or creates the entry and counts the caller; on real lock objects this is the machine's step |
| KeyedLock.KeyedMutex.Acquire | panel-api/internal/httpapi/keyed_mutex.go:37 | takes the inner mutex |
| KeyedLock.KeyedMutex.Release | panel-api/internal/httpapi/keyed_mutex.go:40 | gives the inner mutex back |
| KeyedLock.KeyedMutex.Leave | panel-api/internal/httpapi/keyed_mutex.go:41-47 | uncounts the caller and deletes the entry with its last user |
| QuotaAdmission.Usage | panel-api/internal/quotasvc/service.go:99-120 | the loop computes the wrapped totals and the number of the user's servers without the excluded one; a failed count of databases is reported as 0 |
| QuotaAdmission.UsedExactly | panel-api/internal/quotasvc/service.go:99-120 | in each dimension the total is the sum over the user's rows, without the excluded one |
| QuotaAdmission.EffectiveExactly | panel-api/internal/quotasvc/service.go:79-94 | each limit is the setting, or 2 GiB, 200 % and 10 GiB, plus the bonus in that dimension, whenever the sum is a 64-bit number |
| QuotaAdmission.AllowedExactly | panel-api/internal/quotasvc/service.go:159-184 | a request is allowed if and only if rows plus request are at most setting plus bonus in memory, CPU and disk, and unlimited CPU is not asked for where it is forbidden |
| QuotaAdmission.AllowedIsWithin | panel-api/internal/quotasvc/service.go:159-184 | an allowed request leaves the true totals within the quota if and only if the new true totals are 64-bit numbers, also for a user admitted by overflow before |
| QuotaAdmission.CheckExact | panel-api/internal/quotasvc/service.go:159-184 | without wrap-around a request is allowed exactly when it fits in every dimension and does not dodge the CPU limit |
| QuotaAdmission.ResavingExact | panel-api/internal/quotasvc/service.go:146-153 | saving unchanged limits again passes exactly while the user's 64-bit total is within the quota, not always |
| QuotaAdmission.ResavingCanFail | panel-api/internal/quotasvc/service.go:146-153 | a user with one 2 GiB server, allowed by the default quota, cannot save it unchanged after the memory setting is lowered to 1 GiB |
| QuotaAdmission.RefusalIsTrue | panel-api/internal/quotasvc/service.go:172-182 | a refusal names the first dimension that is really over, with its true numbers |
| QuotaAdmission.WrappedRequestIsAllowed | panel-api/internal/quotasvc/service.go:172-182 | a request far over the memory quota passes by overflow |
| QuotaAdmission.ActionInv | panel-api/internal/httpapi/servers_handlers.go:97-115 | checks, inserts, unlocked deletes and lock steps keep: between its check and its insert a request holds its user's lock and still fits |
| QuotaAdmission.HistoryInv | panel-api/internal/httpapi/server_clone_handlers.go:27-50 | so does every interleaving of create and clone requests |
| QuotaAdmission.FittingRequestPasses | panel-api/internal/httpapi/servers_handlers.go:97-115 | inside the lock a request that fits setting plus bonus can pass, and an admin's always |
| QuotaAdmission.RequestEffect | panel-api/internal/httpapi/servers_handlers.go:97-115 | in every history a request that passed holds exactly what it asked for, the row written is that one, and only deletes remove rows |
| QuotaAdmission.PassedFits | panel-api/internal/httpapi/servers_handlers.go:97-115 | in every history what a metered user got through fits setting plus bonus, if no sum wrapped |
| QuotaAdmission.InsertStaysWithinQuota | panel-api/internal/httpapi/servers_handlers.go:97-115 | in every interleaving, right after a metered user's row is written the user's true totals are within the effective quota, if no sum wrapped in the admitting check |
| QuotaAdmission.AlwaysWithinQuota | panel-api/internal/httpapi/servers_handlers.go:97-115 | a metered user who starts within the quota is within it in every state of every history, if no sum wraps in that user's admitting checks |
| QuotaAdmission.AlwaysWithinSettings | panel-api/internal/httpapi/servers_handlers.go:97-115 | the same on the settings, the bonus and the sums over the rows |
| AgentConn.RunInv | panel-api/internal/agenthub/registry.go:49-120 | the protocol invariant holds in every reachable state of senders and reader |
| AgentConn.AcksMatch | panel-api/internal/agenthub/registry.go:49-85 | no channel ever holds two acks, a returned ack carries the command's own ID, a finished command is not pending |
| AgentConn.BufferStable | panel-api/internal/agenthub/registry.go:87-120 | in every run an ack in a channel stays as it is until that channel's own sender takes it: a late, duplicate or failure ack is dropped |
| AgentConn.GotIsFirstAck | panel-api/internal/agenthub/registry.go:78-120 | so a command returns the first ack its channel was ever given, after steps at all of which the channel was empty |
| AgentConn.SenderSteps | panel-api/internal/agenthub/registry.go:49-85 | what each step of a command does to it, to the table and to its channel |
| AgentConn.ReaderSteps | panel-api/internal/agenthub/registry.go:87-120 | what each step of the read loop does: an ack fills an empty channel of its own command, the loop of `failPending` fills an empty one with the failure ack |
| AgentConn.NobodyLeftWaiting | panel-api/internal/agenthub/registry.go:110-120 | after `failPending` every command registered before it and still waiting has an ack in its channel and can take it |
| AgentConn.ReaderNeverBlocks | panel-api/internal/agenthub/registry.go:87-120 | `resolveAck` and `failPending` always have an enabled step |
| AgentConn.SenderNeverStuck | panel-api/internal/agenthub/registry.go:49-85 | in every reachable state a command can write, give up on its deadline, take an ack that is there, or leave unless `failPending` holds the table |
| AgentConn.FailingTerminates | panel-api/internal/agenthub/registry.go:110-120 | each turn of the loop removes exactly one entry and nobody else can add one |
| AgentConn.FailOneFirst | panel-api/internal/agenthub/registry.go:113-119 | the order of the map iteration does not matter |
| AgentConn.AllFailedEffect | panel-api/internal/agenthub/registry.go:110-120 | afterwards nothing is pending, full channels are as they were, and each pending command's empty channel holds the failure ack |
| AgentConn.Conn.Register | panel-api/internal/agenthub/registry.go:53-56 | a fresh one-slot channel becomes pending under the command's ID |
| AgentConn.Conn.Forget | panel-api/internal/agenthub/registry.go:58-62 | the deferred removal |
| AgentConn.Conn.Take | panel-api/internal/agenthub/registry.go:78-84 | receiving empties the channel and yields an ack for its own command |
| AgentConn.Conn.ResolveAck | panel-api/internal/agenthub/registry.go:87-100 | fills the empty channel of a pending command and leaves every other channel, and every full one, as it was |
| AgentConn.Conn.FailPending | panel-api/internal/agenthub/registry.go:110-120 | nothing is pending, every empty pending channel holds the failure ack, every full one what it held |
| AgentConn.Registry.Register | panel-api/internal/agenthub/registry.go:132-136 | the newest connection replaces the listed one |
| AgentConn.Registry.Unregister | panel-api/internal/agenthub/registry.go:138-146 | only the connection still listed is taken out |
| AgentConn.NewestIsListed | panel-api/internal/agenthub/registry.go:132-146 | over any history of opens and shuts a node is listed exactly with its newest connection until that one is shut |
| ReplayGuard.NonceCache.CheckAndRecord | panel-api/internal/agenthub/nonce_cache.go:25-41 | sweeps what has expired, refuses exactly what is left, records the rest |
| ReplayGuard.ReadLoop | panel-api/internal/agenthub/handler.go:209-232 | accepts up to the first message that is not signed, fresh, within the budget and unused for 120 s |
| ReplayGuard.AcceptedExactly | panel-api/internal/agenthub/handler.go:209-232 | with a clock that never runs backwards a connection is still open after some messages if and only if each was signed, fresh, within 40 plus 20 a second since every earlier one, and 120 s from every earlier use of its nonce |
| ReplayGuard.VerifiedExactly | panel-api/internal/agenthub/messages.go:207-220 | an envelope passes exactly when it is signed and its timestamp is fresh |
| ReplayGuard.BudgetExactly | panel-api/internal/agenthub/handler.go:30-33 | the limiter admits a message exactly when no stretch of accepted messages up to it holds more than 40 and 20 for each second |
| ReplayGuard.CacheIsExact | panel-api/internal/agenthub/nonce_cache.go:25-41 | against an unbounded history: refused if and only if the nonce was accepted less than the time to live ago |
| ReplayGuard.FreshExactly | panel-api/internal/agenthub/messages.go:214-220 | fresh means within 30 s of the clock, or exactly 2^63 s away, in 64-bit arithmetic |
| ReplayGuard.FreshnessWindow | panel-api/internal/agenthub/messages.go:214-220 | two passes for one timestamp are less than 61 s apart, for clock readings less than 292 years apart |
| ReplayGuard.NoEnvelopeTwice | panel-api/internal/agenthub/handler.go:209-232 | no envelope is accepted twice on a connection younger than 292 years if at most 59 s separate freshness and nonce check |
| ReplayGuard.LateCheckAcceptsReplay | panel-api/internal/agenthub/handler.go:22-25 | with 59 s and one nanosecond an envelope is accepted twice, on a connection younger than 292 years |
| ReplayGuard.NoReplayExactly | panel-api/internal/agenthub/handler.go:22-25 | for every d: no such connection accepts an envelope twice with at most d between the two checks if and only if d is at most 59 s |
| ReplayGuard.BudgetSpent | panel-api/internal/agenthub/handler.go:30-33 | accepted messages since any message are bounded by burst plus rate times time |
| ReplayGuard.CacheIsSmall | panel-api/internal/agenthub/handler.go:25-33 | the cache never reaches 40 + 20 * 120 nonces when one clock reading serves a message |
| TokenBucket.LevelLater | panel-api/internal/httpapi/ratelimit.go:47-74 | refilling in two stretches is refilling once |
| TokenBucket.AllowsExactly | panel-api/internal/httpapi/ratelimit.go:47-74 | a bucket that was full grants a request if and only if, from any request granted before, the requests cost no more than a full bucket and what has flowed in |
| RateLimit.KeyedLimiter.Allow | panel-api/internal/httpapi/ratelimit.go:47-74 | answers and updates the table as specified, evicting when many keys are known |
| RateLimit.KeyedLimiter.EvictIdle | panel-api/internal/httpapi/ratelimit.go:62-68 | removes exactly the buckets idle longer than the idle time |
| RateLimit.EvictsExactly | panel-api/internal/httpapi/ratelimit.go:47-68 | a call drops nothing up to 2048 keys, and beyond exactly the other keys not seen for 15 minutes |
| RateLimit.EvictionUnobservable | panel-api/internal/httpapi/ratelimit.go:47-74 | after any calls a limiter that evicts answers like one that never does, if a bucket refills within the idle time |
| RateLimit.EvictionUnobservableExactly | panel-api/internal/httpapi/ratelimit.go:47-74 | and only then: otherwise some sequence of calls sees the difference |
| RateLimit.AnswerExactly | panel-api/internal/httpapi/ratelimit.go:47-74 | for every sequence of calls, with or without eviction: granted if and only if no window from an earlier granted call of the key is over the burst plus the rate |
| RateLimit.SmallBurstRefills | panel-api/internal/httpapi/ratelimit.go:37-45 | refilling in time means a burst of at most fifteen minutes' worth |
| RateLimit.ConfiguredLimitersNeverForget | panel-api/internal/httpapi/ratelimit.go:126-139 | none of the ten configured limiters can be seen to evict |
| RateLimit.ConfiguredLimitersExactly | panel-api/internal/httpapi/ratelimit.go:126-139 | the same window rule for each of the ten configured limiters, in numbers |
| Ports.InvNext | panel-api/internal/serversvc/service.go:86-139 | each operation on nodes, ports and servers keeps the relational invariant |
| Ports.RunInv | panel-api/internal/serversvc/service.go:574-605 | every run keeps: (node, port) pairs unique, each held port's server exists on its node, each server has a primary port and holds it |
| Ports.GuardRefusesPrimaryRow | panel-api/internal/serversvc/service.go:229-248 | the guard compares port numbers, and refuses exactly the row of the primary port, which stays held |
| Ports.NodeDeletionTakesFreePorts | panel-api/internal/httpapi/nodes_handlers.go:132-160 | deleting a node, refused while it has servers, removes free ports only |
| Ports.CallConservesPorts | panel-api/internal/serversvc/service.go:201-248 | under the invariant a call never moves or renumbers a port, changes a holder only between nobody and the server it names, removes free rows only, and adds free rows of a range only |
| Ports.HeldUntilTaken | panel-api/internal/repo/allocations.go:129-199 | over any stretch of any run a held port stays with its server, on its node with its number, until that port is removed from it or the server is deleted |
| Ports.DeletionFreesExactly | panel-api/internal/serversvc/service.go:574-605 | in every run deleting a server keeps all ports, frees exactly its own and leaves the other holders |
| Ports.AddEffect | panel-api/internal/serversvc/service.go:201-221 | in every run a port is added exactly if server and port exist on one node, the port is free and the container is recreated; then the server holds it and no other row changes, and otherwise nothing changes |
| Ports.RemoveEffect | panel-api/internal/serversvc/service.go:229-248 | in every run a port is freed exactly if the server holds it and it is not the primary one, also when recreating fails; no other row changes |
| Ports.CreateEffect | panel-api/internal/serversvc/service.go:86-139 | in every run a server is created exactly if its node has a free port and the number can be saved; it holds a lowest-numbered free one, and otherwise nothing changes |
| Ports.DeleteEffect | panel-api/internal/serversvc/service.go:574-605 | in every run an existing server's row goes, its ports become free, and all else stays |
| Ports.CleanupEffect | panel-api/internal/httpapi/nodes_handlers.go:132-160 | in every run a node goes with its ports exactly if it has no servers, and a single port exactly if it is free |
| Ports.CreateRangeEffect | panel-api/internal/repo/allocations.go:36-66 | in every run, after a range was created on a known node each of its ports exists there once, rows there before are as they were, new ones are free, and their number is the answer |
| Ports.RangeEffect | panel-api/internal/repo/allocations.go:36-66 | after the loop every port of the range exists, other rows are untouched, and the count is the growth of the table |
| Ports.RepeatedRangeIsEmpty | panel-api/internal/repo/allocations.go:36-66 | creating the same range again changes nothing and reports 0 |
| Ports.PublishedPorts | panel-api/internal/serversvc/service.go:484-495 | primary first, then the held ports other than it in listing order; nothing else, nothing missing |
| Ports.PublishesWhatItHolds | panel-api/internal/serversvc/service.go:478-495 | under the invariant a server publishes each port it holds exactly once, primary first and the rest ascending, and nothing else |
| Ports.NoPortPublishedTwice | panel-api/internal/serversvc/service.go:512-522 | two servers of one node never publish the same port |
| Ports.NothingHeld | panel-api/internal/serversvc/service.go:119-123 | removing a server row that never got a port restores both tables |
| Ports.ClaimUndone | panel-api/internal/serversvc/service.go:124-132 | release plus delete after a failed save restores both tables |
| Ports.Panel.ClaimFree | panel-api/internal/repo/allocations.go:104-127 | hands out a free port with the lowest number, or reports that there is none |
| Ports.Panel.ClaimSpecific | panel-api/internal/repo/allocations.go:159-194 | hands out the given port if it is free, and says why not otherwise |
| Ports.Panel.ReleaseOne | panel-api/internal/repo/allocations.go:196-199 | frees the port only if that server still holds it |
| Ports.Panel.ReleaseByServerID | panel-api/internal/repo/allocations.go:129-134 | frees all ports of a server |
| Ports.Panel.DeleteAllocation | panel-api/internal/repo/allocations.go:73-102 | deletes free ports only |
| Ports.Panel.InsertPorts | panel-api/internal/repo/allocations.go:36-66 | the loop adds the missing ports and counts the new rows |
| Ports.Panel.CreatePorts | panel-api/internal/repo/allocations.go:36-66 | orders the bounds and adds the range, counting the new rows |
| Ports.Panel.Create | panel-api/internal/serversvc/service.go:86-139 | a new server with a port, or both tables as before |
| Ports.Panel.AddAllocation | panel-api/internal/serversvc/service.go:201-221 | claims a port of the server's own node, and gives it back when the container cannot be recreated; on success the server holds it, on failure the table is as before |
| Ports.Panel.RemoveAllocation | panel-api/internal/serversvc/service.go:229-248 | refuses foreign and primary ports, frees others |
| Ports.Panel.Delete | panel-api/internal/serversvc/service.go:574-605 | frees the ports and deletes the row |
| Ports.Panel.DeleteEmptyNode | panel-api/internal/httpapi/nodes_handlers.go:132-160 | refuses while servers remain, else takes the node and its ports |
| Economy.AddExact | panel-api/internal/repo/ledger.go:51-57 | for a non-negative balance no 64-bit step wraps and an amount is refused exactly when the true balance would leave the range |
| Economy.TransferExact | panel-api/internal/repo/ledger.go:74-117 | a transfer works exactly when it is positive, between two known users, covered and does not overflow; then it moves exactly that amount |
| Economy.TransferRefusal | panel-api/internal/repo/ledger.go:74-117 | which of the reasons for refusing a transfer is given |
| Economy.TransferConserves | panel-api/internal/repo/ledger.go:74-137 | whatever its outcome, the sum of all balances stays as it was |
| Economy.RedeemExact | panel-api/internal/repo/redeemcodes.go:92-162 | a redemption works exactly for a known, unexhausted code not yet redeemed by this known user whose balance has room, and otherwise changes nothing |
| Economy.RedeemRefusal | panel-api/internal/repo/redeemcodes.go:92-162 | which of the reasons for refusing a redemption is given |
| Economy.RedeemSafeExactly | panel-api/internal/repo/redeemcodes.go:140-150 | for codes of any value, balances stay in range if and only if the new balance is not negative; the code itself does not check |
| Economy.RefundExact | panel-api/internal/storesvc/service.go:104-110 | a refund is lost exactly when the price no longer fits on top of the balance |
| Economy.RefundCanBeLost | panel-api/internal/storesvc/service.go:104-110 | for every user and item a run of five calls ends with the price spent, nothing granted and the refund lost |
| Economy.FailedPurchaseRestores | panel-api/internal/storesvc/service.go:79-114 | a purchase whose grant fails restores every balance when no other credit intervenes |
| Economy.InvStep | panel-api/internal/repo/ledger.go:31-137 | every operation keeps balances, codes and purchases in order |
| Economy.AddEffect | panel-api/internal/repo/ledger.go:31-70 | in every run a credit or debit happens exactly if the user exists and the balance stays from 0 to 2^63 - 1; then balance and ledger change by it |
| Economy.TransferEffect | panel-api/internal/repo/ledger.go:74-137 | in every run a transfer happens exactly if positive, between two users, covered and not overflowing; then both balances and two ledger lines |
| Economy.RedeemEffect | panel-api/internal/repo/redeemcodes.go:92-162 | in every run a redemption happens exactly if code and user exist, it is the user's first, a use is left and the coins fit; then balance, ledger, use count and redemption row |
| Economy.StartEffect | panel-api/internal/storesvc/service.go:79-90 | in every run a purchase starts exactly if the user has the price, which is debited at once |
| Economy.FinishEffect | panel-api/internal/storesvc/service.go:91-114 | in every run a grant that works adds the amount in the item's dimension alone; one that fails gives the price back if it fits and changes no bonus |
| Economy.BoughtEffect | panel-api/internal/storesvc/service.go:79-114 | one purchase alone: nothing without the coins, else the price for the item's amount in its dimension, or a debit and a refund that cancel |
| Economy.BalancesAgree | panel-api/internal/repo/ledger.go:31-137 | in every run each cached balance is the sum of the user's ledger entries and a non-negative 64-bit number |
| Economy.CirculationIsLedger | panel-api/internal/repo/ledger.go:31-137 | in every run the coins of all users together are the sum of the whole ledger |
| Economy.CodesAgree | panel-api/internal/repo/redeemcodes.go:92-162 | in every run a code's uses are its redemption rows, within its cap, and the coins credited through it are its value times its uses |
| Economy.PurchasesAgree | panel-api/internal/storesvc/service.go:79-114 | in every run, with purchases of all users overlapping, net spending is the price of granted, open and lost purchases, and each of the four bonus numbers is the sum of the granted amounts of that dimension |
| Economy.CatalogIsSound | panel-api/internal/storesvc/service.go:42-51 | every item has a known dimension and positive price and amount |
| Economy.Lookup | panel-api/internal/storesvc/service.go:65-72 | finds an item with the ID if and only if there is one |
| Economy.Tables.AddEntry | panel-api/internal/repo/ledger.go:31-70 | balance and ledger line together, or an error and no change |
| Economy.Tables.Transfer | panel-api/internal/repo/ledger.go:74-137 | both balances and both ledger lines, or an error and no change |
| Economy.Tables.Redeem | panel-api/internal/repo/redeemcodes.go:92-162 | redemption row, use count and credit together; rows already written are rolled back on a later failure |
| Economy.Tables.Grant | panel-api/internal/repo/quotas.go:39-63 | the bought dimension grows by the amount, the other three and all other users stay |
| Economy.Tables.Buy | panel-api/internal/storesvc/service.go:85-114 | debit, then grant or refund; the balance reported is the balance there is |
| Economy.Tables.Purchase | panel-api/internal/storesvc/service.go:79-114 | unknown items change nothing; known ones are bought |
| Rewards.CapsPreventWrap | panel-api/internal/httpapi/validation.go:59-89 | for every setting the admin handler lets in, the stored number applies where it is positive, and 20 s, 90 s, 24 h or 1 coin otherwise; an empty window is the default one; nothing wraps |
| Rewards.BeatExactly | panel-api/internal/coinsvc/service.go:142-160 | when a beat is shut out, let in and paid, and the row it leaves |
| Rewards.PaidExactly | panel-api/internal/coinsvc/service.go:142-158 | in every run a beat is paid if and only if the last beat let in before it was the same named tab's, from the minimum to the maximum interval ago |
| Rewards.EarningIsLimited | panel-api/internal/coinsvc/service.go:122-173 | for all storable settings and however many tabs beat, coins earned are at most coins per beat times elapsed time over the effective minimum interval |
| Rewards.OneTabEarns | panel-api/internal/coinsvc/service.go:142-158 | two tabs are never paid within the effective maximum interval of each other |
| Rewards.TakeoverIsLate | panel-api/internal/coinsvc/service.go:142-160 | ownership of a session changes only after a gap above the maximum |
| Rewards.SessionStart | panel-api/internal/coinsvc/service.go:148-160 | the reported session start is the beat since which no gap was above the maximum and no other tab was let in |
| Rewards.ClaimsAreSpaced | panel-api/internal/repo/daily_rewards.go:42-57 | for all storable settings accepted daily claims are pairwise the configured interval apart, in any order of arrival |
| Rewards.ClaimedExactly | panel-api/internal/repo/daily_rewards.go:42-57 | a claim is accepted if and only if it comes the configured hours after every claim accepted before it |
| Rewards.ClaimsTakeTime | panel-api/internal/coinsvc/service.go:178-196 | so k accepted claims take at least k - 1 configured intervals since the first |
| Rewards.Service.Heartbeat | panel-api/internal/coinsvc/service.go:122-173 | rejects a second live tab, else rewrites the session row and credits the ledger as specified |
| Rewards.Service.ClaimDailyReward | panel-api/internal/coinsvc/service.go:178-196 | records the claim only if due, then credits the ledger |
| StartupTemplate.Substitute | panel-api/internal/serversvc/template.go:31-56 | on every string, stays in bounds, ends, and equals evaluating the template the string denotes; inserted values are not looked at again |
| StartupTemplate.PrintParse | panel-api/internal/serversvc/template.go:31-56 | printing what was read gives the text back |
| StartupTemplate.ParsePrint | panel-api/internal/serversvc/template.go:31-56 | reading what was printed gives the template back if and only if it is canonical |
| StartupTemplate.ParseCanonical | panel-api/internal/serversvc/template.go:31-56 | every string is the print of exactly one canonical template |
| StartupTemplate.ExpandsFirst | panel-api/internal/serversvc/template.go:31-56 | of any text with a placeholder: the text before it, then the value of what it holds between its spaces, or the placeholder as written, then the expansion of the rest |
| StartupTemplate.ExpandsNothing | panel-api/internal/serversvc/template.go:34-43 | text in which no `}}` follows a `{{` is left as it is, by the server and by the preview |
| StartupTemplate.SpacesExactly | panel-api/internal/serversvc/template.go:45 | the characters trimmed around a name, one by one, on both sides |
| StartupTemplate.WordExpands | web/src/components/server/StartupTab.tsx:8-15 | a word with blanks or tabs around it expands to its value on both sides, or stays as written if it has none |
| StartupTemplate.CapturedNameIsMatch | web/src/components/server/StartupTab.tsx:12 | the regular expression's capture is unique and is found by trimming |
| StartupTemplate.RenderSegment | web/src/components/server/StartupTab.tsx:11-15 | after a literal the preview turns a placeholder into `PreviewText`, whatever it contains and whatever follows |
| StartupTemplate.PreviewExactly | web/src/components/server/StartupTab.tsx:8-15 | for every string and every set of declared names the preview is the server's expansion for all values if and only if each placeholder agrees |
| StartupTemplate.PreviewOfWordsExactly | web/src/components/server/StartupTab.tsx:8-15 | for names that are words: if and only if no placeholder is read as two names and none ends in a complete placeholder |
| StartupTemplate.OrdinaryAgreesExactly | web/src/components/server/StartupTab.tsx:12 | a placeholder without inner brace, U+0085 or U+FEFF agrees exactly unless it names a declared variable whose name is no word |
| StartupTemplate.NonWordName | panel-api/internal/serversvc/template.go:45-51 | a declared name such as A-B: the server inserts its value, the preview keeps the placeholder |
| StartupTemplate.OddlyPaddedName | web/src/components/server/StartupTab.tsx:12-13 | a name only the preview reads, for its padding, is replaced by the preview alone |
| StartupTemplate.NestedName | panel-api/internal/serversvc/template.go:36-52 | a known name at the end of an unfinished placeholder, as in `{{{A}}`, is kept by the server and replaced by the preview |
| CommandTokens.TokenizeCommand | panel-api/internal/serversvc/template.go:64-97 | the character loop computes the specified argument vector |
| CommandTokens.PieceThenRest | panel-api/internal/serversvc/template.go:64-97 | a word or a quoted text at the front is a token of its own before a blank or the end, and the beginning of the next token otherwise |
| CommandTokens.BlankThenRest | panel-api/internal/serversvc/template.go:64-97 | blanks and tabs before a token are skipped; the empty text has no tokens |
| CommandTokens.QuotingRoundTrip | panel-api/internal/serversvc/template.go:58-97 | quoting every argument is undone if and only if no argument contains a double quote |
| CommandTokens.TokensConcat | panel-api/internal/serversvc/template.go:64-97 | for every input the tokens in a row are the input minus quotes and minus blanks outside quotes |
| CommandTokens.ArgumentsPreserved | panel-api/internal/serversvc/service.go:532 | expanding then splitting gives the template's own argument vector with values filled in, if and only if each value is a plain word where it stands and no argument vanishes |
| CommandTokens.UnsafeChangesArguments | panel-api/internal/serversvc/service.go:532 | a value with a quote, or with a blank outside quotes, always changes the argument vector |
| CommandTokens.StartupCommand | panel-api/internal/serversvc/service.go:532 | the composition of both loops |
| EggVariables.ResolveVariables | panel-api/internal/serversvc/template.go:14-26 | exactly the declared names, each with its default or an override its last declaration permits |
| EggVariables.ValueExactly | panel-api/internal/serversvc/service.go:469-476 | a name's value is the panel's, else what its last declaration allows, else for MEMORY the server's memory |
| EggVariables.OnlyEditableMatters | panel-api/internal/serversvc/service.go:469-476 | overrides that agree on editable names not owned by the panel give the same command for every template |
| StatsCache.InvNext | panel-api/internal/agenthub/stats_cache.go:29-67 | every step keeps: what is cached is the last put, what is missing is stale |
| StatsCache.GetIsExact | panel-api/internal/agenthub/stats_cache.go:37-54 | in every interleaving a get returns the put that was last when it read, exactly when that is at most 20 s old |
| StatsCache.MissIsExact | panel-api/internal/agenthub/stats_cache.go:37-43 | a get that finds no entry is right: no put, or a stale one |
| StatsCache.PutsAreKept | panel-api/internal/agenthub/stats_cache.go:29-67 | a put is cached and is the last put; every other step leaves the last puts alone and takes only entries more than 20 s old out |
| StatsCache.StaleIsDropped | panel-api/internal/agenthub/stats_cache.go:48-67 | what an eviction or a sweep looked at is gone if it was more than 20 s old |
| StatsCache.GetSteps | panel-api/internal/agenthub/stats_cache.go:37-54 | the course of a get through its two locks |
| StatsCache.GetAtReturnExactly | panel-api/internal/agenthub/stats_cache.go:37-54 | the answer is right for the last put at the time of return if and only if no put came in between, or the newest is stale too, or the one read is fresh and says the same |
| StatsCache.OvertakenGetMisses | panel-api/internal/agenthub/stats_cache.go:37-54 | with a put in between a get can miss although a fresh entry was there throughout |
| StatsCache.Cache.Store | panel-api/internal/agenthub/stats_cache.go:29-33 | the newest JSON with its time |
| StatsCache.Cache.Get | panel-api/internal/agenthub/stats_cache.go:37-54 | fresh JSON or nothing; evicts nothing fresh |
| StatsCache.Cache.Sweep | panel-api/internal/agenthub/stats_cache.go:59-67 | deletes the stale entries and no others |
| OwnerCache.RunInv | panel-api/internal/agenthub/owner_cache.go:42-67 | in every interleaving, cached and pending answers were true when the locator gave them |
| OwnerCache.CheckExactly | panel-api/internal/agenthub/owner_cache.go:50-57 | the cache accepts at once exactly if it names the node and is younger than 60 s, and otherwise the locator is asked |
| OwnerCache.AnswerExactly | panel-api/internal/agenthub/owner_cache.go:59-67 | the locator's answer is stored as of the time of storing and accepts exactly the node it names |
| OwnerCache.AcceptanceIsRecent | panel-api/internal/agenthub/owner_cache.go:50-67 | an accepted node hosted the server within the last 60 s plus the longest time an answer took to reach the cache |
| OwnerCache.HostIsNeverRefused | panel-api/internal/agenthub/owner_cache.go:50-67 | a node that hosts the server during the call is accepted, whatever is cached and whatever overlaps |
| OwnerCache.Cache.OwnedBy | panel-api/internal/agenthub/owner_cache.go:42-67 | one call: open without a locator, refuses an empty server, else by cache or locator |
| Schedules.Scheduler.DueNow | panel-api/internal/repo/schedules.go:40-61 | the enabled schedules that never ran or whose interval is over, in table order |
| Schedules.Scheduler.MarkRun | panel-api/internal/repo/schedules.go:63-66 | sets the time of that row alone |
| Schedules.Scheduler.RunOnce | panel-api/internal/schedulesvc/scheduler.go:43-62 | marks each due row whose update works, starts exactly those, and leaves the other rows |
| Schedules.DueIdsAre | panel-api/internal/repo/schedules.go:40-61 | an ID is listed if and only if a row with it is due |
| Schedules.DueExactly | panel-api/internal/repo/schedules.go:40-61 | up to 153,722,867 minutes: due exactly if enabled and never run or last run that many minutes ago |
| Schedules.StartedExactly | panel-api/internal/schedulesvc/scheduler.go:43-62 | a tick starts each schedule that is due and could be marked, once, and nothing else |
| Schedules.StartsExactly | panel-api/internal/schedulesvc/scheduler.go:43-62 | over any ticks a schedule starts exactly at those that can mark it while it is enabled and that come the configured minutes after every start before |
| Schedules.StartsAreSpaced | panel-api/internal/schedulesvc/scheduler.go:43-62 | whatever marks fail, two starts are at least the wrapped interval apart |
| Schedules.RunsAreRegular | panel-api/internal/schedulesvc/scheduler.go:43-62 | successive starts are at least the wrapped interval apart, and less than that plus one tick gap and one more for each failed mark in between |
| Schedules.RunsAsConfigured | panel-api/internal/schedulesvc/scheduler.go:43-62 | for up to 153,722,867 minutes that is the configured interval |
| Schedules.RunsAgain | panel-api/internal/schedulesvc/scheduler.go:43-62 | once a tick that can mark sees the interval over, there has been a start |
| Schedules.IntervalExact | panel-api/internal/repo/schedules.go:52 | for the positive minutes the handler accepts, the interval is the configured one if and only if there are at most 153,722,867 |
| Schedules.NeverDueExactly | panel-api/internal/repo/schedules.go:51-59 | a schedule never runs if and only if it is disabled or its wrapped interval is not positive; otherwise it is due when that interval is over |
| Schedules.WrappedIntervals | panel-api/internal/repo/schedules.go:52 | both happen: 153,722,868 minutes never run, 307,445,735 minutes run every 26.3 s |
| Schedules.CoarseFilterIsSafe | panel-api/internal/repo/servers.go:167-190 | the coarse filter drops no row the exact test picks, if and only if the wrapped interval is an hour or more |
| Schedules.HoursExact | panel-api/internal/repo/servers.go:185 | the configured hours are the interval if and only if there are at most 2,562,047, and then the filter is safe |
| Schedules.FilterCanDrop | panel-api/internal/repo/servers.go:167-190 | with 2,562,048 hours the exact test picks a server backed up just now and the coarse filter drops it |
| Schedules.DueForBackup | panel-api/internal/repo/servers.go:167-190 | the two stages pick exactly the overdue servers in order |

## Left out

* Text is a sequence of characters: bytes, invalid UTF-8 and the JavaScript view of strings as
  UTF-16 units are not modelled. The regular expression, `strings.TrimSpace`, `rate.Limiter` and
  HMAC are taken by their documented meaning, the last as a boolean.
* The limiter's 64-bit floating point: rates are exact integers per nanosecond.
* SQL statements fail only where an input of the model says so. In particular the clean-up
  statements after a failed create or add are taken to succeed.
* Each call on ports and servers is one step: two overlapping calls of `AddServerAllocation`, or a
  server created between `CountByNode` and the delete of its node, are not modelled.
* Quota proof: limits are fixed during a run; `UpdateServer` and ownership transfer, which do not
  take the lock, are not actions. The handlers' sequence of lock, check, insert and unlock is a
  step relation rather than a method, because interleaving is its point.
* Overlapping heartbeats of one user, whose read and write are separate statements.
* Commands registered after `failPending` has run may wait for their deadline; replay across
  reconnects is not prevented by the per-connection cache. Neither is claimed.
* Deleting users and its cascades; `Set` on bonus quotas and admin grants, which would be further
  terms of the bonus sum; overflow of bonus columns, which SQLite would turn into floating point.
* The cached statistics are opaque text, and a sweep is a series of single deletions, which
  allows more interleavings than its lock does.
* `SERVER_PORT_1..n` and number formatting in `buildSpec`: the panel's own variables are given.
* Saturation of time differences beyond 292 years in the caches and limiters; it is modelled for
  rewards, schedules and backups.
* HTTP, WebSocket framing, JSON, logging, password and token handling, files, Docker, and the
  easy members: players, favorites, audit, settings, achievements, leaderboard, user interface.
- RateLimit.KeyedLimiter.Allow: one clock reading stands for the two the code takes, one for
  `lastSeen` and a later one inside the limiter. The exact bound for eviction is for equal readings.
- Rewards.ClaimsAreSpaced: speaks of each accepted claim, not of the coin credited after it, whose own failure the service does not undo.
