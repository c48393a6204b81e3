# Verified model of the CometVisu knxd FastCGI back end

cometvisu-knxd-fcgi lets a CometVisu page read and write KNX group addresses over HTTP. One
*cache reader* process receives telegrams from knxd and pushes them into a fixed table in shared
memory. Many *worker* processes answer `/r` (read, long poll) from that table and turn `/w` into
group packets. A supervisor keeps the reader and the workers alive and hands out tokens of two
semaphores.

The project models this core in Dafny and proves what it promises: a client that feeds each
index back into its next request holds exactly the cached values; the hash table behaves like a
bounded map; no wakeup and no semaphore token is lost; messages survive any cutting into reads; the
codecs undo each other; and a value written through `/w` is what `/r` reports.

`dafny verify dfyconfig.toml` checks everything.

## How it is built

- **History.** Both caches carry a ghost `log` of all pushes. `TelegramLog.SharedView(log)` is the
  bounded map the shared table has to represent, `GroupView(log)` the unbounded one of the
  in-process cache. Both are tied to a description without recursion over the run: the last pushed
  value of the first 2048 distinct addresses. `ProbeTable.ServedView(log)` is what queries are answered
  from; it adds what a vacant slot answers for address 0.
- **Interleavings.** The cache has one writer, so an interleaving of a request with the pushes is
  the number of pushes before each of its cache accesses (`ReadProtocol.Env`). Clocks are
  parameters too.
- **Concurrency.** The condition variable (`Wakeup`) and the worker pool (`WorkerPool`) are state
  machines over atomic steps; their theorems are about every run from the initial state, with
  crashes at any step.
- **Methods.** What the source does step by step is a method or class here, with its loops, and
  is proved against specification functions about which the lemmas speak.

| file | content |
|---|---|
| `Positions`, `TelegramLog`, `CacheQueries` | the modular index, histories, answers of the caches |
| `ProbeTable`, `SharedCache`, `InProcessCache` | the hash table, the two cache classes |
| `ReadProtocol`, `ReadHandler` | the long-poll protocol, the handler and its body |
| `Wakeup`, `WorkerPool` | condition variable; supervisor, workers and semaphores |
| `KnxdProtocol`, `KnxdClient`, `CacheReader` | messages and APDUs, reassembly, reconnect loop |
| `Hex`, `Decimal`, `KnxAddress`, `Json`, `Multimap`, `QueryString` | codecs |
| `WriteHandler`, `SessionStore`, `EndToEnd` | `/w`, sessions, results across the whole program |

## Where the code does not keep what it says

Each entry names the members that state it. Where a promise holds under a condition, the condition is
an if-and-only-if.

- An index is compared modulo 100 000. Nothing is lost exactly under `CompleteCondition`, and nothing
  is delivered twice or lost exactly under `ExactCondition` (`Positions.CompleteExactlyWhen`,
  `ExactExactlyWhen`). An index of 0 counts as a new client even after a wrap.
- The raw counter wraps at 2^32, which is not a multiple of 100 000
  (`Positions.CounterShowsRawCountExactlyWhen`).
- The initial read takes the lock once per address and loads the position afterwards, and with
  `t > 0` an age filter leaves values out although the index passes them. Reads and deltas lose nothing
  exactly under the conditions of `ReadProtocol.InitialReadCompletesExactlyWhen` and
  `FilteredDeltaCompletesExactlyWhen`; `SplitReadLeavesClientBehind` and
  `AgeFilterLeavesClientBehind` are runs that do lose something.
- Address 0 marks an empty slot. A query for 0/0/0 is answered from the first vacant slot, so that the
  two caches disagree about it exactly as `InProcessCache.SameAnswers` says.
- A push to 0/0/0 is counted in `num_entries` each time, so that the header's "≤ capacity" is kept
  exactly as `SharedCache.CountExactlyWhen` says; `CountExceedsCapacity` is a history that breaks it.
- A pusher that dies between its generation bump and its broadcast can leave a waiter asleep
  (`Wakeup.NoWakeupIsLostExactlyWhen`, `DeadPusherStrandsWaiter`).
- "Never exceed the initial capacity" (src/main.cpp:562) is not kept. The tokens stay exactly n in
  exactly the runs without a restore for a worker that held none
  (`WorkerPool.CapacityIsExactExactlyWhen`). For every n some run reaches 2n - 1 (`BoundIsReached`),
  and none exceeds it.
- "Every dead child is logged and restarted" (src/main.cpp:535) is not kept after a failed fork
  (`WorkerPool.ChildrenAreRestartedExactlyWhen`, `FailedForksLoseChildren`).
- "Push every pending group telegram" (src/knxd/cache_reader.cpp:63) is not kept: a message that
  carries no telegram ends a drain, and telegrams already buffered behind it wait for new bytes
  (`KnxdClient.DrainsEverythingExactlyWhen`, `TelegramIsLeftBehind`). In the same way the comment
  "immediately look for pending telegrams" (src/knxd/cache_reader.cpp:129) does not hold for what the
  handshake has read beyond its own message.
- A value pushed before the wait of a long poll begins is delivered late, though not lost
  (`ReadProtocol.DeliveredPromptlyExactlyWhen`, `PushBeforeTheWaitIsNotPrompt`).
- Control bits 11 of an APDU are accepted by `/w` but stored as an empty value
  (`KnxdProtocol.WrittenValueIsCachedExactlyWhen`, `EndToEnd.ReportedTextExactlyWhen`).
- `/w` answers 503 when any send failed (`WriteHandler.Handle`); the comment above that line speaks
  of all sends.
- A namespace with a colon cannot be read back (`KnxAddress.CometVisuRoundTripExactlyWhen`), and
  control characters other than line feed, carriage return and tab are left raw in JSON
  (`Json.StringRoundTripExactlyWhen`).

## Model

| member | source | states |
|---|---|---|
| `Positions.CompleteExactlyWhen` | src/state/shared_group_cache.cpp:203-250 | every unseen push is handed over if and only if fewer than 100 000 pushes separate index and query, or the wrapped distances fall into the full-refresh case |
| `Positions.ExactExactlyWhen` | src/state/shared_group_cache.cpp:208-250 | among the last 100 000 pushes exactly the unseen ones are handed over, if and only if the stated condition on index and counter holds |
| `Positions.CounterShowsRawCountExactlyWhen` | src/state/shared_group_cache.h:143 | the 32-bit counter modulo 100 000 shows the true push count if and only if the number of completed 2^32-epochs is a multiple of 3125 |
| `TelegramLog.SharedViewIsLastValueOfAdmitted` | src/state/shared_group_cache.cpp:88-155 | over every history: exactly the first 2048 distinct nonzero addresses are stored, each with its last value cut to 14 bytes, its time and its wrapped position |
| `TelegramLog.GroupViewIsLastValue` | src/state/group_cache.cpp:20-30 | over every history: exactly the pushed addresses are stored, each with its whole last value |
| `TelegramLog.ViewAfterPush` | src/state/shared_group_cache.cpp:103-155 | a push to a stored address, or with room left, changes that entry and nothing else |
| `CacheQueries.CachesAgreeExactlyWhenItFits` | src/state/shared_group_cache.cpp:118-255 | the two caches hold the same entries if and only if no address is 0, at most 2048 addresses occur and last values have at most 14 bytes |
| `CacheQueries.EntriesPersist` | src/state/shared_group_cache.cpp:103-114 | a stored address is never forgotten, and only a push to it changes its entry |
| `CacheQueries.FreshIsYoung` | src/state/shared_group_cache.cpp:172-178 | the unsigned 32-bit age test decides as the true age does, while the clock has not gone back nor on by 2^32 seconds |
| `CacheQueries.LookupIsLastValue` | src/state/shared_group_cache.cpp:157-185 | a stored address is answered with its last value if and only if that was pushed less than the limit ago; likewise in the in-process cache |
| `CacheQueries.DeltaIsYoungAndNew` | src/state/shared_group_cache.cpp:220-251 | a stored address is in a delta if and only if it is subscribed, its last push is less than the limit ago, and that push is new; likewise in the in-process cache |
| `ProbeTable.ProbesReachEverySlot` | src/state/shared_group_cache.cpp:93-99 | the probe sequence of any address covers the whole table |
| `ProbeTable.VacancyCount` | src/state/shared_group_cache.cpp:94-99 | by pigeonhole, the number of occupied slots is 2048 if and only if no slot is vacant, and never more |
| `ProbeTable.FindsStored` | src/state/shared_group_cache.cpp:88-101 | the search for a stored address ends in the slot that holds its entry |
| `ProbeTable.MissesAbsent` | src/state/shared_group_cache.cpp:88-101 | the search for an absent address ends in a vacant slot if there is one, else it reports a full table |
| `ProbeTable.OverwriteKeeps` | src/state/shared_group_cache.cpp:103-114 | overwriting keeps uniqueness, probe chains and contents, with the map updated |
| `ProbeTable.InsertKeeps` | src/state/shared_group_cache.cpp:103-114 | filling the vacant slot the search found keeps uniqueness, probe chains and contents, with the map extended |
| `ProbeTable.ZeroKeeps` | src/state/shared_group_cache.cpp:103-114 | writing an entry with address 0 leaves the represented map unchanged |
| `ProbeTable.LookupZero` | src/state/shared_group_cache.cpp:88-101 | a search for address 0 stops at the first vacant slot, and fails exactly when the table is full |
| `ProbeTable.TableRepresents` | src/state/shared_group_cache.cpp:88-155 | over every history the table keeps uniqueness and probe chains and holds exactly the entries of the bounded map |
| `ProbeTable.SearchServes` | src/state/shared_group_cache.cpp:88-101 | over every history the slot returned for any address, 0 included, holds it exactly when the served map does, with the same entry |
| `ProbeTable.ServedIsShared` | src/state/shared_group_cache.cpp:88-101 | queries are answered from the bounded map, and for address 0 exactly while a slot is vacant |
| `ProbeTable.ZeroServesEmpty` | src/state/shared_group_cache.cpp:88-114 | while 0/0/0 was never pushed, the vacant slot answers for it with an empty entry |
| `SharedCache.SharedGroupCache.FindSlot` | src/state/shared_group_cache.cpp:88-101 | the loop computes the slot of linear probing over the array |
| `SharedCache.SharedGroupCache.InsertLocked` | src/state/shared_group_cache.cpp:103-114 | the array changes in that one slot only, or not at all when full; the count grows exactly for a vacant slot |
| `SharedCache.SharedGroupCache.Push` | src/state/shared_group_cache.cpp:118-155 | appends one push to the history while array, position, generation and count remain those of that history |
| `SharedCache.CountExactlyWhen` | src/state/shared_group_cache.h:80 | below 2^32 pushes, `num_entries` is within the capacity if and only if stored addresses and counted pushes to 0 together are, and counts the occupied slots if and only if there was no such push |
| `SharedCache.CountExceedsCapacity` | src/state/shared_group_cache.h:80 | 2049 pushes to 0/0/0 leave an empty table that counts 2049 entries |
| `SharedCache.SharedGroupCache.Get` | src/state/shared_group_cache.cpp:157-185 | for every address the served value if there is one and it is fresh, else nothing; for a stored address the cut last value if and only if it was pushed less than the limit ago |
| `SharedCache.SharedGroupCache.DeltaEntry` | src/state/shared_group_cache.cpp:220-251 | any address is in the delta exactly when it is served, fresh, and new by the modular comparison |
| `SharedCache.SharedGroupCache.GetDelta` | src/state/shared_group_cache.cpp:187-255 | the loop yields exactly the served, fresh, new entries among the subscribed addresses, and the position; a stored address is in it if and only if its last push is new and less than the limit ago |
| `InProcessCache.GroupCache.Push` | src/state/group_cache.cpp:20-30 | appends one push to the history while the map keeps holding its last values |
| `InProcessCache.GroupCache.Get` | src/state/group_cache.cpp:32-45 | the last value if it was pushed less than the limit ago, else nothing |
| `InProcessCache.GroupCache.GetDelta` | src/state/group_cache.cpp:47-95 | exactly the subscribed addresses whose last push is new and less than the limit ago, and the position |
| `InProcessCache.GroupCache.Clear` | src/state/group_cache.cpp:97-101 | back to the empty history |
| `InProcessCache.SameAnswers` | src/state/group_cache.cpp:32-95 | after the same history that fits, both caches give the same position, and the same `get` and `get_delta` if and only if 0/0/0 is not asked for, the table is full, or the filters reject an empty entry of time and position 0; apart from 0/0/0 the deltas are always the same |
| `ReadProtocol.DeltaCompletes` | src/state/shared_group_cache.cpp:203-250 | with any age filter that rejects nothing new, the cache as the client saw it, patched with a delta, is the subscribed part of the cache at the time of the query |
| `ReadProtocol.InitialReadIsState` | src/handlers/read_handler.cpp:166-175 | an unsplit initial read reports the subscribed part of the cache at the position it returns |
| `ReadProtocol.InitialReadCompletes` | src/handlers/read_handler.cpp:166-175 | with any age filter that rejects nothing new, an unsplit initial read brings any client to the state at the position it returns |
| `ReadProtocol.InitialReadCompletesExactlyWhen` | src/handlers/read_handler.cpp:166-175 | for all pushed values, the initial read brings a client to the state of its index if and only if no stored subscribed address is pushed between its `get` and the position load and the age filter accepts everything new |
| `ReadProtocol.PollLoopKeepsSync` | src/handlers/read_handler.cpp:196-239 | through any number of wakeups, timeouts and empty deltas the client stays in sync |
| `ReadProtocol.RequestKeepsSync` | src/handlers/read_handler.cpp:166-245 | any request in any mode of `t`, new or continued, leaves a client that was in sync in sync |
| `ReadProtocol.SessionIsInSync` | src/handlers/read_handler.cpp:166-245 | for every interleaving and any mixture of `t`, after any number of requests a client holds exactly the cached values of its addresses at the raw position of its index |
| `ReadProtocol.DeltaIsExact` | src/state/shared_group_cache.cpp:208-250 | under the exactness condition an address is delivered if and only if it was pushed after the index |
| `ReadProtocol.SplitReadSkipsThePush` | src/handlers/read_handler.cpp:167-174 | a push between `get` and position load is neither in the initial read nor in a later exact delta, until the address is pushed again |
| `ReadProtocol.SplitReadLeavesClientBehind` | src/handlers/read_handler.cpp:167-174 | a concrete run that leaves a client with an old value under a new index |
| `ReadProtocol.FilteredDeltaCompletesExactlyWhen` | src/state/shared_group_cache.cpp:203-250 | for all pushed values, a delta taken in time loses nothing if and only if its age filter accepts every stored subscribed address pushed since the index |
| `ReadProtocol.AgeFilterLeavesClientBehind` | src/handlers/read_handler.cpp:216-234 | a concrete request with `t=1`, woken by another address, that leaves a client in sync with an old value under a new index |
| `ReadProtocol.DeliveredPromptlyExactlyWhen` | src/handlers/read_handler.cpp:196-239 | in an iteration that begins in time, a new value for the client is in the reply, with the index of the query, if and only if something is pushed between the entry and the return of the wait |
| `ReadProtocol.ServedPromptlyExactlyWhen` | src/handlers/read_handler.cpp:166-246 | the same for a whole request in every mode that polls, whether it continues from an index or its initial read finds nothing |
| `ReadProtocol.FoundIsReplied` | src/handlers/read_handler.cpp:166-200 | an initial read that finds something is the reply, without a wait |
| `ReadProtocol.ServedIsGenuine` | src/handlers/read_handler.cpp:166-246 | whatever a request delivers was asked for, is the last value pushed before one of its cache accesses, and is younger than a positive `t` at that access |
| `ReadProtocol.ModeMeans` | src/handlers/read_handler.cpp:89-132 | the bus is read exactly for `t=0`, the read is forced exactly for `t<=0`, the age limit is exactly a positive `t`; how long each polls |
| `ReadProtocol.NegativeReadsTheCacheOnce` | src/handlers/read_handler.cpp:127-132 | a negative `t` reads the cache once, whatever the index, and never waits |
| `ReadProtocol.PushDuringTheWaitIsPrompt` | src/handlers/read_handler.cpp:210-222 | a run in which the same value, pushed during the wait, is in the reply |
| `ReadProtocol.PushBeforeTheWaitIsNotPrompt` | src/handlers/read_handler.cpp:210-222 | a run in which a value pushed before the wait is not in the reply and is not lost |
| `ReadProtocol.LoopEndsInTime` | src/handlers/read_handler.cpp:193-239 | however often it is woken, the poll loop ends less than one second after its timeout plus the longest pause between two iterations |
| `ReadProtocol.RemainingExactlyWhen` | src/handlers/read_handler.cpp:202-212 | an iteration waits if and only if the timeout has not passed, and its wait ends at or less than a second after the timeout |
| `ReadProtocol.EmptyLoopWaitsItsTime` | src/handlers/read_handler.cpp:193-239 | a poll loop that delivers nothing does not end before its timeout |
| `ReadProtocol.WaitLimitFitsExactlyWhen` | src/handlers/read_handler.cpp:205-212 | the limit of every wait in milliseconds fits a 32-bit int if and only if the timeout is at most 2147483 seconds |
| `ReadHandler.Handle` | src/handlers/read_handler.cpp:71-247 | from a raw query string: which of 400, 401, 404 and 200 is answered, as an if-and-only-if on the parameters for each, and with which body; for 200 the delivered values and the index are those of the protocol, in any iteration order, the body is the canonical JSON of them, and bus reads go to exactly the uncached addresses when `t=0` |
| `ReadHandler.AnswersAre` | src/handlers/read_handler.cpp:71-146 | the status of every request: a session is looked at only when one is given, malformed addresses are ignored as long as one is well-formed |
| `ReadHandler.Serve` | src/handlers/read_handler.cpp:154-246 | initial read, bus reads, poll loop and JSON building together produce the reply of the protocol |
| `ReadHandler.ReadInitial` | src/handlers/read_handler.cpp:166-173 | the loop writes exactly the cached fresh values, each address once |
| `ReadHandler.PollForData` | src/handlers/read_handler.cpp:192-239 | the loop delivers the first nonempty delta and the index of its query, or nothing |
| `ReadHandler.AddressSet` | src/handlers/read_handler.cpp:134-141 | collects an address if and only if some text is well-formed and stands for it |
| `ReadHandler.BodyReadsBack` | src/handlers/read_handler.cpp:154-246 | the body is JSON that reads back to the object with members `d` and `i` |
| `ReadHandler.BodyDeterminesReply` | src/handlers/read_handler.cpp:148-246 | different values or indices never have the same body |
| `ReadHandler.IndexComesBack` | src/handlers/read_handler.cpp:116-122 | every index the server can send is understood unchanged when the client returns it |
| `ReadHandler.IndexOfIs` | src/handlers/read_handler.cpp:116-122 | a missing, malformed or negative index counts as 0 |
| `ReadHandler.MemberIs` | src/handlers/read_handler.cpp:166-230 | the body has a member for an address, with a text, if and only if the address was delivered and the text is the hex of its value |
| `ReadHandler.BodyIsUnderstood` | src/handlers/read_handler.cpp:148-246 | a client that parses the body gets back exactly the delivered values and the index |
| `Wakeup.StepLosesNoWakeup` | src/state/shared_group_cache.cpp:257-309 | every step keeps: a sleeper with an outdated generation has a broadcast pending, unless a pusher died before it |
| `Wakeup.StepKeepsExclusion` | src/state/shared_group_cache.cpp:257-309 | the mutex is held by exactly the process it names, through every step and crash |
| `Wakeup.NoWakeupIsLost` | src/state/shared_group_cache.cpp:148-154 | in every reachable state a sleeping waiter with an outdated generation has a broadcast pending, unless a pusher died before its broadcast |
| `Wakeup.ResultMeansNewData` | src/state/shared_group_cache.cpp:257-302 | the wait returns true exactly when pushes (not a multiple of 2^32) happened between entry and return, and false only after a timeout |
| `Wakeup.WokenWaiterReturnsExactlyWhen` | src/state/shared_group_cache.cpp:287-301 | a woken waiter that gets the mutex returns if and only if the generation has moved or its time is up, and otherwise sleeps on as before |
| `Wakeup.TimedOutWaiterReturns` | src/state/shared_group_cache.cpp:287-301 | in every reachable state a sleeper whose time is up returns when the mutex is free, with true if and only if pushes (not a multiple of 2^32) have happened since its entry |
| `Wakeup.WakeIsExplained` | src/state/shared_group_cache.cpp:287-301 | a sleeper woken without a timeout sleeps again while the generation is unchanged and returns true otherwise |
| `Wakeup.PushGoesThrough` | src/state/shared_group_cache.cpp:118-155 | whenever the mutex is free a push can be carried through: generation up by one, every sleeper woken |
| `Wakeup.WaitBegins` | src/state/shared_group_cache.cpp:262-290 | whenever the mutex is free a wait can begin, and sleeps on the generation it found |
| `Wakeup.DeathIsSurvived` | src/state/shared_group_cache.cpp:262-267 | anyone may die at any step; the mutex is then free unless another one holds it, no push is undone, and a wakeup is owed exactly when a pusher had bumped and not yet broadcast |
| `Wakeup.NoWakeupIsLostExactlyWhen` | src/state/shared_group_cache.cpp:148-154 | over every run, no sleeper is ever left without a pending broadcast if and only if no pusher dies, between bump and broadcast, as the last one that would have woken a sleeper |
| `Wakeup.DueWakeupHappens` | src/state/shared_group_cache.cpp:148-154 | finishing the pending push wakes every sleeper |
| `Wakeup.DeadPusherStrandsWaiter` | src/state/shared_group_cache.cpp:148-154 | a run in which a dead pusher leaves a waiter asleep although the generation moved |
| `WorkerPool.StepKeepsSupervised` | src/main.cpp:574-636 | every step keeps each child in the one variable meant for it, across failed forks and reused pids |
| `WorkerPool.ChildrenAreSupervised` | src/main.cpp:474-636 | in every reachable state the pid of a cache reader is in the reader variable and in no slot, so that there is at most one, every unreaped worker is in exactly one slot, and there are at most n workers |
| `WorkerPool.StepConserves` | src/main.cpp:564-635 | while the pool runs, every step of any process conserves the tokens, except that a restore adds one for a dead worker that held none and leaves one out when the semaphore is full |
| `WorkerPool.StepKeepsCover` | src/main.cpp:564-635 | every step of any process keeps semaphore value plus claims at n or more |
| `WorkerPool.CapacitySurvivesCrashes` | src/main.cpp:561-635 | whatever dies and whenever, the tokens and the claims on them never add up to less than n, no request is turned away, and every live worker about to take a token finds one |
| `WorkerPool.TokenIsAvailable` | src/fcgi/fcgi_server.cpp:200-230 | a live worker that asks for a token finds one |
| `WorkerPool.TokensAreConserved` | src/main.cpp:561-635 | in every run that has not stopped, the tokens are n plus the surplus restores minus the restores left out, and the semaphore exceeds n if and only if that balance exceeds the claims |
| `WorkerPool.CapacityIsExactExactlyWhen` | src/main.cpp:561-572 | in a run that has not stopped, the tokens are exactly n in every state if and only if the supervisor never finds a semaphore below n after the death of a worker that held no token of it |
| `WorkerPool.TokensStayBelowTwiceThePool` | src/main.cpp:561-572 | in every reachable state a semaphore holds at most 2n - 1 tokens |
| `WorkerPool.BoundIsReached` | src/main.cpp:561-572 | for every pool size some run reaches 2n - 1 tokens |
| `WorkerPool.WorkerIsReplaced` | src/main.cpp:616-635 | any worker may die at any stage of its request loop and is replaced: each semaphore below its capacity gets a token, the new worker starts afresh |
| `WorkerPool.RequestGoesThrough` | src/fcgi/fcgi_server.cpp:200-230 | whatever the supervisor is doing, a request that finds both tokens is served and leaves the pool exactly as it was |
| `WorkerPool.TurnedAwayExactlyWhen` | src/fcgi/fcgi_server.cpp:202-229 | a request is turned away if and only if a token is missing |
| `WorkerPool.AnyChildMayDie` | src/main.cpp:574-600 | any child may die at any moment, and keeps its pid and its tokens until it is reaped |
| `WorkerPool.StoppedStartsNobody` | src/main.cpp:638-653 | once the pool stops, nobody is started any more |
| `WorkerPool.StepGivesUpExactlyWhen` | src/main.cpp:602-635 | while the pool runs, a step gives up a slot or the reader if and only if it is the failed fork of its restart, and what is given up stays so |
| `WorkerPool.ChildrenAreRestartedExactlyWhen` | src/main.cpp:535-636 | in every run, whenever the supervisor waits, a slot has its worker if and only if no restart of it has failed, and likewise for the cache reader |
| `WorkerPool.FailedForksLoseChildren` | src/main.cpp:602-635 | a run in which two failed forks leave the supervisor waiting without any child |
| `KnxdProtocol.MessageRoundTripExactlyWhen` | src/knxd/knxd_protocol.cpp:178-214 | a built message is framed, and parsed back, exactly up to 65 533 bytes of data |
| `KnxdProtocol.TelegramRoundTrip` | src/knxd/knxd_client.cpp:430-446 | a delivered telegram arrives with its address and APDU, whoever sent it |
| `KnxdProtocol.TelegramInExactlyWhen` | src/knxd/knxd_client.cpp:430-459 | a built message carries a telegram if and only if it is of one of the two packet types with at least six bytes of data; which address and APDU |
| `KnxdProtocol.KnownPackets` | src/knxd/knxd_protocol.cpp:178-252 | the bytes of a packet to and from knxd, spelled out |
| `KnxdProtocol.CacheValueIs` | src/knxd/knxd_protocol.cpp:145-174 | for every control byte and value: a read request caches nothing, a response or a write the bytes behind it or else its low six bits, anything else an empty value |
| `KnxdProtocol.WrittenValueIsCachedExactlyWhen` | src/knxd/knxd_protocol.cpp:145-174 | a written value is what gets cached if and only if the control byte is below 0xc0 |
| `KnxdClient.Receiver.TryExtractMessage` | src/knxd/knxd_protocol.cpp:216-232 | takes exactly the first whole message off the buffer, or leaves the buffer alone |
| `KnxdClient.Receiver.ReadSome` | src/knxd/knxd_client.cpp:120-149 | appends a read, dropping the oldest bytes only beyond one megabyte |
| `KnxdClient.Receiver.Fill` | src/knxd/knxd_client.cpp:120-149 | in the read loops no byte is ever dropped and the buffer stays within 69 632 bytes |
| `KnxdClient.Receiver.ReadMessage` | src/knxd/knxd_client.cpp:153-164 | returns the next message when complete, else stops at a read without data; bytes read equal bytes returned plus bytes buffered |
| `KnxdClient.Receiver.ReadMessageDeadline` | src/knxd/knxd_client.cpp:172-215 | the same with a deadline: it gives up exactly at the first iteration past the deadline, with a failed poll, or at end of file |
| `KnxdClient.Receiver.PollGroupTelegram` | src/knxd/knxd_client.cpp:417-459 | reports the telegram of the next message on the stream, if it carries one |
| `KnxdClient.StreamReassembly` | src/knxd/knxd_client.cpp:153-164 | messages handed out are a prefix of those sent, and all of them once the bytes are in |
| `KnxdClient.ReceiveAll` | src/knxd/knxd_client.cpp:153-164 | for every list of messages and every cutting into reads with would-blocks anywhere, exactly those messages are received in order |
| `KnxdClient.DrainTakes` | src/knxd/cache_reader.cpp:69-79 | for every list of messages, a drain yields the telegrams before the first message without one and leaves what follows it |
| `KnxdClient.DrainsEverythingExactlyWhen` | src/knxd/cache_reader.cpp:63-81 | a drain takes every pending telegram if and only if none follows a message without one, and leaves a whole message behind if and only if any message follows such a one |
| `KnxdClient.TelegramIsLeftBehind` | src/knxd/knxd_client.cpp:430-459 | a two-byte message in front of a telegram leaves the telegram in the buffer |
| `CacheReader.SleepInterruptible` | src/knxd/cache_reader.cpp:46-61 | sleeps slices that add up to the duration, and less only after it saw the stop flag |
| `CacheReader.DrainTelegrams` | src/knxd/cache_reader.cpp:65-81 | for every buffer and every cutting of the pending bytes into reads, pushes in order what the telegrams before the first message without one contain, and leaves the bytes behind that message |
| `CacheReader.TelegramIsPushed` | src/knxd/cache_reader.cpp:65-81 | a drain of one telegram pushes exactly what its control byte says |
| `CacheReader.BackoffDoubles` | src/knxd/cache_reader.cpp:87-137 | repeated doubling under the limit is min(initial * 2^k, max), never below the initial delay |
| `CacheReader.DoublingFitsExactlyWhen` | src/knxd/cache_reader.cpp:137 | the doubling of the delay fits a 32-bit int in all runs if and only if the larger configured delay is below 2^30 ms |
| `CacheReader.RunCacheReader` | src/knxd/cache_reader.cpp:85-168 | for every environment: one action per turn until a stop, a sleep between any two connection attempts, the k-th sleep since the last good connection lasts exactly min(initial * 2^k, max), waits only while connected, and the pushes are those of what its drains take off the byte streams of its connections |
| `CacheReader.ActionsAre` | src/knxd/cache_reader.cpp:116-167 | the first action connects; a wait comes exactly after a good connection and after a wait that did not find it lost; each has the outcome its turn gave it |
| `CacheReader.ConnectionDrains` | src/knxd/cache_reader.cpp:142-147 | however the bytes of a connection are spread over its waits, after a wait with data the telegrams drained are exactly those of all whole messages that have arrived, as long as every message carries one |
| `Hex.HexDecode` | src/util/hex.cpp:28-56 | the bytes of well-formed text of either case, nothing for any other text |
| `Hex.HexEncode` | src/util/hex.cpp:58-68 | two lower-case digits per byte |
| `Hex.DecodeUndoesEncode` | src/util/hex.cpp:28-68 | decoding undoes encoding for all bytes |
| `Hex.EncodeUndoesDecode` | src/util/hex.cpp:28-68 | encoding a decoded text gives it back in lower case |
| `Hex.EmptyExactlyWhen` | src/util/hex.cpp:28-56 | the empty result means empty or malformed text |
| `Hex.HexDigitsAre` | src/util/hex.cpp:33-46 | the accepted digits are exactly those of both cases |
| `Hex.KnownBytes` | src/util/hex.cpp:28-68 | high digit first, lower case, spelled out |
| `Decimal.ParseUndoesPrint` | src/handlers/read_handler.cpp:56-69 | a printed number is parsed back if and only if it fits a 32-bit int |
| `Decimal.KnownNumbers` | src/handlers/read_handler.cpp:56-69 | numbers spelled out: most significant digit first; leading zeros are accepted, an empty text, a lone minus, a plus sign and trailing characters are not |
| `KnxAddress.EibRoundTrip` | src/knxd/knxd_protocol.cpp:92-103 | the 16-bit form and the three parts determine each other |
| `KnxAddress.EibIs` | src/knxd/knxd_protocol.cpp:92-95 | five bits, three bits and eight bits in this order |
| `KnxAddress.ParsePart` | src/knxd/knxd_protocol.cpp:38-86 | the digit loop with its early exit accepts what the whole number decides |
| `KnxAddress.FromString` | src/knxd/knxd_protocol.cpp:38-86 | the cursor-based parser computes the specified parse of the whole text |
| `KnxAddress.AcceptsExactly` | src/knxd/knxd_protocol.cpp:38-86 | a text is accepted as a group if and only if it is three numerals of its parts with slashes between |
| `KnxAddress.ParseUndoesText` | src/knxd/knxd_protocol.cpp:38-90 | a printed group address is parsed back |
| `KnxAddress.ParseCometVisu` | src/knxd/knxd_protocol.cpp:107-126 | the search for the colon and the parser behind it compute the specified parse, as both handlers use it |
| `KnxAddress.CometVisuRoundTripExactlyWhen` | src/knxd/knxd_protocol.cpp:107-133 | a namespaced address is read back if and only if the namespace has no colon, or is empty and the default |
| `KnxAddress.KeysAreDistinct` | src/handlers/read_handler.cpp:148-152 | different addresses have different JSON keys |
| `Json.JsonBuilder.AddQuoted` | src/util/json_builder.cpp:43-79 | appends the string in quotes with its characters escaped |
| `Json.JsonBuilder.AddString` | src/util/json_builder.cpp:81-87 | appends a member with a comma unless it is the first |
| `Json.JsonBuilder.AddNumber` | src/util/json_builder.cpp:89-95 | appends a number member with a comma unless it is the first |
| `Json.JsonBuilder.AddKey` | src/util/json_builder.cpp:97-102 | appends a key and expects a value without a comma |
| `Json.StringRoundTripExactlyWhen` | src/util/json_builder.cpp:43-79 | a reader after section 7 of RFC 8259 reads a quoted string back if and only if it has no control characters other than line feed, carriage return and tab |
| `Json.NumberRoundTrip` | src/util/json_builder.cpp:89-95 | a printed number is read back with the rest of the text untouched |
| `Json.ReadUndoesPrint` | src/util/json_builder.cpp:25-102 | any tree of clean strings, numbers and objects is read back from its print |
| `Multimap.AddKeeps` | src/util/query_string.cpp:74-121 | adding pair by pair under the limits keeps exactly the first keys and the first values of each |
| `QueryString.UrlDecode` | src/util/query_string.cpp:38-72 | the loop computes percent-decoding, leaving malformed escapes as they are |
| `QueryString.DecodeUndoesEncode` | src/util/query_string.cpp:38-72 | decoding undoes percent-encoding (section 2.1 of RFC 3986) of any octets |
| `QueryString.PlainIs` | src/util/query_string.cpp:38-72 | a plus sign is a space, other characters but the percent sign are themselves |
| `QueryString.TripletIs` | src/util/query_string.cpp:38-72 | a percent sign with two hex digits of any case is one octet, the high digit first |
| `QueryString.BarePercentIs` | src/util/query_string.cpp:38-72 | a percent sign without two hex digits behind it is itself |
| `QueryString.PairInExactlyWhen` | src/util/query_string.cpp:74-121 | a segment is a pair if and only if it has an equals sign, and the first one separates |
| `QueryString.ParseQuery` | src/util/query_string.cpp:74-121 | the cursor loop equals: split at ampersands, take the first 256 segments, keep the first 100 keys and the first 250 values of each in order |
| `QueryString.ParseUndoesEncode` | src/util/query_string.cpp:74-121 | any list of pairs within the limits survives encoding and parsing, all values in order |
| `QueryString.LookupsAre` | src/util/query_string.cpp:123-142 | `get` finds the first value of a key, `get_all` all of them in order |
| `WriteHandler.Handle` | src/handlers/write_handler.cpp:42-117 | from a raw query string: 401 if and only if a session is given and invalid; otherwise every well-formed address is sent the same APDU in request order if the value stands for one; which of 200, 404 and 503 is answered |
| `WriteHandler.SendAll` | src/handlers/write_handler.cpp:86-100 | one send per well-formed address, failures do not stop the loop |
| `WriteHandler.TargetsAreTheValidAddresses` | src/handlers/write_handler.cpp:89-96 | an address is sent to if and only if some address text is well-formed and stands for it |
| `WriteHandler.ApduExactlyWhen` | src/handlers/write_handler.cpp:64-84 | a value is sent if and only if it is well-formed hex whose first digit is 8 to f; the APDU determines the text up to case |
| `SessionStore.SessionStore.constructor` | src/state/session_store.cpp:31-32 | starts empty |
| `SessionStore.ExpiredExactlyWhen` | src/state/session_store.cpp:94-106 | a session expires exactly when its age reaches the limit |
| `SessionStore.SessionStore.CleanupExpired` | src/state/session_store.cpp:94-106 | removes exactly the expired sessions |
| `SessionStore.SessionStore.CreateSession` | src/state/session_store.cpp:34-58 | drops the expired sessions, evicts exactly one oldest session if and only if the limit is reached, adds the new one; the store keeps its limit, and everything evicted so far was created no later than everything retained |
| `SessionStore.SessionStore.IsValid` | src/state/session_store.cpp:60-83 | true exactly for the anonymous id and for known unexpired ids; an expired one is forgotten |
| `SessionStore.SessionStore.Remove` | src/state/session_store.cpp:85-92 | forgets exactly that session |
| `EndToEnd.WriteIsUnderstood` | src/handlers/write_handler.cpp:42-100 | an encoded request for `/w` with one address and an accepted value sends the APDU of that value to that address, unless it names an invalid session |
| `EndToEnd.WriteAs` | src/handlers/write_handler.cpp:42-117 | from the raw string, with or without a session: an invalid one is answered 401 and nothing is sent, otherwise the APDU goes to the address |
| `EndToEnd.WriteIsStored` | src/knxd/cache_reader.cpp:65-81 | a delivered write becomes the entry of its address, and no other entry changes |
| `EndToEnd.WrittenValueIsRead` | src/handlers/write_handler.cpp:42-100 | from the query string of `/w` through packet, relay, telegram and push to the body of `/r`: until the next telegram for the address, an unfiltered initial read has exactly one member for it, with the hex text of the stored value |
| `EndToEnd.ReportedTextExactlyWhen` | src/knxd/knxd_protocol.cpp:145-174 | that text is the written one without its control byte, in lower case, if and only if the control byte is 80 to bf and the value has at most 14 bytes; a control byte alone gives its low six bits |
| `EndToEnd.RequestIsUnderstood` | src/handlers/read_handler.cpp:71-146 | a request that a client writes out as a query string is understood with the same addresses, the mode of its `t`, and its index, unless it names an invalid session |
| `EndToEnd.ReadAs` | src/handlers/read_handler.cpp:71-247 | from the raw string, with or without a session: an invalid one is answered 401 and asks the bus for nothing, otherwise the reply of the protocol; the bus is asked for exactly the uncached addresses, and only for `t=0` |
| `EndToEnd.BodyIsPromptExactlyWhen` | src/handlers/read_handler.cpp:166-246 | in an iteration of a long poll that begins in time, a new value for the client is a member of the body, in hex, if and only if something is pushed between the entry and the return of the wait |
| `EndToEnd.Exchange` | src/handlers/read_handler.cpp:71-247 | one exchange of query string and body gives the client exactly the values and the index of the protocol |
| `EndToEnd.RunSession` | src/handlers/read_handler.cpp:71-247 | over a whole session of query strings and bodies, whatever is pushed meanwhile, the client ends with exactly the cached values of its addresses at the position of its index |

## Left out

- ReadProtocol.SessionIsInSync: says nothing about 0/0/0 itself, for which vacant slots answer; other
  addresses of a client that also asks for 0/0/0 are covered. It is for fewer than 2^32 pushes, beyond
  which the counter no longer shows the push count (`Positions.CounterShowsRawCountExactlyWhen`).
- ReadProtocol.LoopEndsInTime: takes waits that honour their limit, which `remaining * 1000` states
  without overflow exactly under the condition of `ReadProtocol.WaitLimitFitsExactlyWhen`.
- WorkerPool.CapacitySurvivesCrashes: once the pool shuts down, a slot without a child counts as a
  claim, because nothing is restored any more. While the pool runs, `WorkerPool.TokensAreConserved`
  says exactly how many tokens there are.
- CacheReader.RunCacheReader: computes the doubling without overflow, which is what the code does
  exactly under the condition of `CacheReader.DoublingFitsExactlyWhen`.
- KnxdClient.Receiver.PollGroupTelegram: leaves out the reconnect before and after a failed read.
- KnxdProtocol.ParseMessage: requires a payload of at least two bytes once four bytes are there, as
  the source does; both callers pass framed messages, for which this holds.
- EndToEnd.WrittenValueIsRead: knxd is not part of this model. `EndToEnd.Relay` is what it is taken to
  do: deliver the APDU of a group packet under the same address.
- The supervisor loop and the accept loop are steps of one state machine rather than methods,
  because their properties are about interleavings with crashes. The restart delays, child exit
  codes and the signals at shutdown are not part of it.
- Null or detached shared memory, errors of the mutex other than a dead owner, errors of the
  condition wait other than a timeout, and `wait_for_new_data` with a timeout of zero. A push is one
  atomic change of the table.
- A stored value is a sequence of bytes rather than an array with a length; iteration over sets and
  maps is in any order rather than in ascending order.
- Bit operations are written with division and remainder. The numbers of eibd's message types come
  from eibtypes.h, which is not part of this model.
- `\uXXXX` escapes and white space in the JSON reader, which the builder never produces.
- Connecting, the group socket handshake around `read_message_deadline`, rate limiting and retry in
  `send_group_packet`, and `write_all`.
- FastCGI request reading, the router, the login handler, environment variables, logging, and the
  randomness of session ids.
