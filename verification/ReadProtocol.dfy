/** The long-poll protocol behind `/r`.

    The cache has a single writer, so an interleaving of one request with the pushes is
    given by the number of pushes that precede each of its cache accesses. `log` is the
    whole history, including pushes that happen during or after the request; an access
    "at n" sees the state after the first n pushes. */
module ReadProtocol {
  import opened Basics
  import opened Positions
  import opened TelegramLog
  import opened CacheQueries
  import opened ProbeTable

  /** What the parameter `t` means. */
  datatype Mode = Mode(timeoutSec: int, maxAge: int, forceInitial: bool, readBus: bool)

  function ModeOf(t: Option<int>, longpollSec: int): Mode {
    match t
    case None => Mode(longpollSec, -1, false, false)
    case Some(t) =>
      if t > 0 then Mode(t, t, false, false)
      else if t == 0 then Mode(1, -1, true, true)
      else Mode(0, -1, true, false)
  }

  /** One cache access: the pushes before it and the wall clock it reads. */
  datatype Access = Access(at: nat, wall: int)

  /** One iteration of the poll loop: the steady clock (ms) when the elapsed time is
      computed and when the wait returns, the pushes at the moments when the wait takes the
      lock and when it returns, and the delta query after it. */
  datatype Poll = Poll(clock: int, returned: int, entered: nat, left: nat, query: Access)

  /** Whether the wait reports new data: its two looks at the generation differ. */
  predicate Woken(p: Poll) {
    Wrap(p.entered) != Wrap(p.left)
  }

  /** What one request meets: a `get` per subscribed address, the load of `position()`,
      the clock at the start of the poll loop, and the iterations the loop gets to run. */
  datatype Env = Env(gets: map<Address, Access>, positionAt: nat, start: int, polls: seq<Poll>)

  /** The values put into the response, the index `i` of the response, and the number of
      pushes that index stands for (which the client does not get to see). */
  datatype Reply = Reply(values: map<Address, seq<Byte>>, index: Word32, seen: nat)

  function StateAt(log: Log, n: nat): View
    requires n <= |log|
  {
    SharedView(log[..n])
  }

  /** What queries are answered from at that time. */
  function ServedAt(log: Log, n: nat): View
    requires n <= |log|
  {
    ServedView(log[..n])
  }

  function RemainingSec(timeoutSec: int, start: int, clock: int): int {
    timeoutSec - (clock - start) / 1000
  }

  function InitialRead(log: Log, addresses: set<Address>, gets: map<Address, Access>, maxAge: int)
    : map<Address, seq<Byte>>
    requires addresses <= gets.Keys && forall a | a in gets :: gets[a].at <= |log|
  {
    map a | a in addresses && Lookup(ServedAt(log, gets[a].at), a, maxAge, gets[a].wall).Some? ::
      Lookup(ServedAt(log, gets[a].at), a, maxAge, gets[a].wall).value
  }

  function Delta(log: Log, addresses: set<Address>, maxAge: int, query: Access, since: Word32)
    : map<Address, seq<Byte>>
    requires query.at <= |log|
  {
    DeltaValues(ServedAt(log, query.at), Position(Wrap(query.at)), since, addresses, maxAge, query.wall)
  }

  function PollLoop(log: Log, addresses: set<Address>, mode: Mode, start: int, polls: seq<Poll>,
                    index: Word32, seen: nat): Reply
    requires forall k | 0 <= k < |polls| :: polls[k].query.at <= |log|
    decreases |polls|
  {
    if polls == [] || RemainingSec(mode.timeoutSec, start, polls[0].clock) <= 0 || !Woken(polls[0]) then
      Reply(map[], index, seen)
    else
      var n := polls[0].query.at;
      var values := Delta(log, addresses, mode.maxAge, polls[0].query, index);
      if values != map[] then Reply(values, Position(Wrap(n)), n)
      else PollLoop(log, addresses, mode, start, polls[1..], Position(Wrap(n)), n)
  }

  predicate Timed(log: Log, addresses: set<Address>, env: Env) {
    && addresses <= env.gets.Keys
    && (forall a | a in env.gets :: env.gets[a].at <= |log|)
    && env.positionAt <= |log|
    && forall k | 0 <= k < |env.polls| :: env.polls[k].query.at <= |log|
  }

  /** The response to a request with index `index`, whose client has seen `seen` pushes. */
  function Serve(log: Log, addresses: set<Address>, mode: Mode, index: Word32, seen: nat, env: Env): Reply
    requires Timed(log, addresses, env)
  {
    if mode.forceInitial || index == 0 then
      var values := InitialRead(log, addresses, env.gets, mode.maxAge);
      var index' := Position(Wrap(env.positionAt));
      if values != map[] || mode.timeoutSec <= 0 then Reply(values, index', env.positionAt)
      else PollLoop(log, addresses, mode, env.start, env.polls, index', env.positionAt)
    else if mode.timeoutSec <= 0 then
      Reply(map[], index, seen)
    else
      PollLoop(log, addresses, mode, env.start, env.polls, index, seen)
  }

  // ---- A client that feeds each index into its next request ----

  datatype Client = Client(view: map<Address, seq<Byte>>, index: Word32, seen: nat)

  function Updated(client: Client, reply: Reply): Client {
    Client(client.view + reply.values, reply.index, reply.seen)
  }

  /** The subscribed part of the cache. */
  function Values(view: View, addresses: set<Address>): map<Address, seq<Byte>> {
    map a | a in addresses && a in view :: view[a].value
  }

  /** The client holds exactly the cache as it was at the raw position of its index; address
      0, for which vacant slots answer, is left aside. */
  ghost predicate InSync(log: Log, addresses: set<Address>, client: Client) {
    && client.seen <= |log|
    && client.index == Position(Wrap(client.seen))
    && client.view - {0} == Values(StateAt(log, client.seen), addresses)
  }

  /** No stored subscribed address is pushed between its `get` and the `position()` load. */
  ghost predicate Unsplit(log: Log, addresses: set<Address>, env: Env)
    requires Timed(log, addresses, env)
  {
    forall a | a in addresses && a in StateAt(log, env.positionAt) ::
      LastPush(log[..env.positionAt], a) <= env.gets[a].at
  }

  /** The age filter rejects nothing that is new to a client at raw position `seen`. */
  ghost predicate Retained(log: Log, addresses: set<Address>, maxAge: int, seen: nat, query: Access)
    requires query.at <= |log|
  {
    forall a | a in addresses && a in StateAt(log, query.at) && LastPush(log[..query.at], a) > seen ::
      Fresh(StateAt(log, query.at)[a], maxAge, query.wall)
  }

  /** The same for the accesses of an initial read. */
  ghost predicate RetainedByRead(log: Log, addresses: set<Address>, maxAge: int, seen: nat, env: Env)
    requires Timed(log, addresses, env)
  {
    forall a | a in addresses && a in StateAt(log, env.positionAt) && LastPush(log[..env.positionAt], a) > seen ::
      Fresh(StateAt(log, env.positionAt)[a], maxAge, env.gets[a].wall)
  }

  /** The raw position behind the index that the k-th delta query uses. */
  function Since(seen: nat, polls: seq<Poll>, k: nat): nat
    requires k < |polls|
  {
    if k == 0 then seen else polls[k - 1].query.at
  }

  /** Time does not run backwards, each delta query comes early enough for its index, and it
      filters nothing new out. */
  ghost predicate Paced(log: Log, addresses: set<Address>, maxAge: int, seen: nat, polls: seq<Poll>)
    requires forall k | 0 <= k < |polls| :: polls[k].query.at <= |log|
  {
    forall k: nat | k < |polls| ::
      && Since(seen, polls, k) <= polls[k].query.at
      && CompleteCondition(Since(seen, polls, k), polls[k].query.at)
      && Retained(log, addresses, maxAge, Since(seen, polls, k), polls[k].query)
  }

  /** What a request has to meet, for the client to stay in sync. */
  ghost predicate Admissible(log: Log, addresses: set<Address>, mode: Mode, client: Client, env: Env) {
    var initial := mode.forceInitial || client.index == 0;
    && Timed(log, addresses, env)
    && (initial ==>
          && client.seen <= env.positionAt
          && (forall a | a in addresses :: env.gets[a].at <= env.positionAt)
          && Unsplit(log, addresses, env)
          && RetainedByRead(log, addresses, mode.maxAge, client.seen, env))
    && Paced(log, addresses, mode.maxAge, if initial then env.positionAt else client.seen, env.polls)
  }

  // ---- One delta ----

  /** Apart from address 0, a delta is taken from the stored entries. */
  lemma DeltaOfStored(log: Log, addresses: set<Address>, maxAge: int, query: Access, since: Word32)
    requires query.at <= |log|
    ensures Delta(log, addresses, maxAge, query, since) - {0} ==
            DeltaValues(StateAt(log, query.at), Position(Wrap(query.at)), since, addresses, maxAge, query.wall)
  {
    assert 0 !in StateAt(log, query.at);
    hide SharedView, ServedView, Delivered, Position, Wrap;
    ServedIsShared(log[..query.at]);
  }

  /** The delta between two raw positions completes the older state to the newer one, when
      its age filter rejects nothing new. */
  lemma DeltaCompletes(log: Log, addresses: set<Address>, maxAge: int, seen: nat, query: Access)
    requires |log| < 0x1_0000_0000 && seen <= query.at <= |log|
    requires CompleteCondition(seen, query.at) && Retained(log, addresses, maxAge, seen, query)
    ensures Values(StateAt(log, seen), addresses)
            + (Delta(log, addresses, maxAge, query, Position(Wrap(seen))) - {0})
            == Values(StateAt(log, query.at), addresses)
  {
    hide Delta, CompleteCondition, Position, Wrap, StateAt, Retained;
    var delta := Delta(log, addresses, maxAge, query, Position(Wrap(seen))) - {0};
    forall a: Address ensures Patches(StateAt(log, seen), delta, StateAt(log, query.at), addresses, a) {
      DeltaPatches(log, addresses, maxAge, seen, query, a);
    }
    PatchedView(StateAt(log, seen), delta, StateAt(log, query.at), addresses);
  }

  /** What a delta has to do for one address to carry an older state to a newer one. */
  predicate Patches(older: View, delta: map<Address, seq<Byte>>, newer: View, addresses: set<Address>, a: Address) {
    && (a in delta ==> a in addresses && a in newer && delta[a] == newer[a].value)
    && (a in older ==> a in newer)
    && (a in addresses && a in newer && a !in delta ==> a in older && older[a] == newer[a])
  }

  lemma PatchedView(older: View, delta: map<Address, seq<Byte>>, newer: View, addresses: set<Address>)
    requires forall a: Address :: Patches(older, delta, newer, addresses, a)
    ensures Values(older, addresses) + delta == Values(newer, addresses)
  {
    forall a: Address
      ensures a in Values(older, addresses) + delta <==> a in Values(newer, addresses)
      ensures a in Values(newer, addresses) ==>
                (Values(older, addresses) + delta)[a] == Values(newer, addresses)[a]
    {
      assert Patches(older, delta, newer, addresses, a);
    }
  }

  lemma DeltaPatches(log: Log, addresses: set<Address>, maxAge: int, seen: nat, query: Access, a: Address)
    requires |log| < 0x1_0000_0000 && seen <= query.at <= |log|
    requires CompleteCondition(seen, query.at) && Retained(log, addresses, maxAge, seen, query)
    ensures Patches(StateAt(log, seen), Delta(log, addresses, maxAge, query, Position(Wrap(seen))) - {0},
                    StateAt(log, query.at), addresses, a)
  {
    hide Delta, Delivered, CompleteCondition, Position, Wrap, StateAt;
    DeltaOfStored(log, addresses, maxAge, query, Position(Wrap(seen)));
    StateGrows(log, seen, query.at, a);
    UnselectedIsUnchanged(log, seen, query.at, a);
  }

  /** Stored addresses stay stored, and change only by a push. */
  lemma StateGrows(log: Log, seen: nat, n: nat, a: Address)
    requires seen <= n <= |log|
    ensures a in StateAt(log, seen) ==> a in StateAt(log, n)
    ensures a in StateAt(log, n) && LastPush(log[..n], a) <= seen ==>
              a in StateAt(log, seen) && StateAt(log, seen)[a] == StateAt(log, n)[a]
  {
    var now := log[..n];
    assert now[..seen] == log[..seen];
    if a in StateAt(log, seen) {
      EntriesPersist(now, seen, a);
    }
    if a in StateAt(log, n) && LastPush(now, a) <= seen {
      UnpushedIsOld(now, seen, a);
      EntriesPersist(now, seen, a);
    }
  }

  lemma UnselectedIsUnchanged(log: Log, seen: nat, n: nat, a: Address)
    requires |log| < 0x1_0000_0000 && seen <= n <= |log|
    requires CompleteCondition(seen, n)
    ensures a in StateAt(log, n)
            && !Delivered(Position(Wrap(seen)), Position(Wrap(n)), StateAt(log, n)[a].pushedAt)
            ==> LastPush(log[..n], a) <= seen
  {
    hide Delivered, CompleteCondition;
    if a in StateAt(log, n) {
      SharedViewValue(log[..n], a);
      var r := LastPush(log[..n], a);
      if r > seen {
        UnseenIsDelivered(seen, n, r);
      }
    }
  }

  /** An address that is stored without a recent push was stored before. */
  lemma {:induction false} UnpushedIsOld(log: Log, m: nat, a: Address)
    requires m <= |log| && a in SharedView(log) && LastPush(log, a) <= m
    ensures a in SharedView(log[..m])
  {
    if m < |log| {
      var short := log[..|log| - 1];
      assert short[..m] == log[..m];
      UnpushedIsOld(short, m, a);
    } else {
      assert log[..m] == log;
    }
  }

  // ---- The initial read ----

  /** Apart from address 0, an initial read is taken from the stored entries. */
  lemma ReadAt(log: Log, addresses: set<Address>, gets: map<Address, Access>, maxAge: int, a: Address)
    requires addresses <= gets.Keys && forall a | a in gets :: gets[a].at <= |log|
    ensures var values := InitialRead(log, addresses, gets, maxAge) - {0};
            && (a in values <==>
                && a in addresses && a in StateAt(log, gets[a].at)
                && Fresh(StateAt(log, gets[a].at)[a], maxAge, gets[a].wall))
            && (a in values ==> values[a] == StateAt(log, gets[a].at)[a].value)
  {
    if a in addresses {
      assert 0 !in StateAt(log, gets[a].at);
      hide SharedView, ServedView, Wrap;
      ServedIsShared(log[..gets[a].at]);
    }
  }

  /** What an initial read does for one address. */
  lemma ReadPatches(log: Log, addresses: set<Address>, maxAge: int, seen: nat, env: Env, a: Address)
    requires Timed(log, addresses, env) && seen <= env.positionAt
    requires forall a | a in addresses :: env.gets[a].at <= env.positionAt
    requires Unsplit(log, addresses, env) && RetainedByRead(log, addresses, maxAge, seen, env)
    ensures Patches(StateAt(log, seen), InitialRead(log, addresses, env.gets, maxAge) - {0},
                    StateAt(log, env.positionAt), addresses, a)
  {
    hide InitialRead, StateAt, Fresh, LastPush;
    StateGrows(log, seen, env.positionAt, a);
    ReadAt(log, addresses, env.gets, maxAge, a);
    if a in addresses {
      StateGrows(log, env.gets[a].at, env.positionAt, a);
    }
  }

  /** An unsplit initial read completes what a client knows, or nothing at all, to the state
      at the position load, when its age filter rejects nothing new. */
  lemma InitialReadCompletes(log: Log, addresses: set<Address>, maxAge: int, seen: nat, env: Env)
    requires Timed(log, addresses, env) && seen <= env.positionAt
    requires forall a | a in addresses :: env.gets[a].at <= env.positionAt
    requires Unsplit(log, addresses, env) && RetainedByRead(log, addresses, maxAge, seen, env)
    ensures Values(StateAt(log, seen), addresses) + (InitialRead(log, addresses, env.gets, maxAge) - {0})
            == Values(StateAt(log, env.positionAt), addresses)
  {
    hide InitialRead, StateAt, Unsplit, RetainedByRead;
    var values := InitialRead(log, addresses, env.gets, maxAge) - {0};
    forall a: Address ensures Patches(StateAt(log, seen), values, StateAt(log, env.positionAt), addresses, a) {
      ReadPatches(log, addresses, maxAge, seen, env, a);
    }
    PatchedView(StateAt(log, seen), values, StateAt(log, env.positionAt), addresses);
  }

  lemma NothingAtFirst(log: Log, addresses: set<Address>)
    ensures Values(StateAt(log, 0), addresses) == map[]
  {
    assert log[..0] == [];
  }

  /** Without a filter, an unsplit initial read alone yields the state at the position load. */
  lemma InitialReadIsState(log: Log, addresses: set<Address>, env: Env)
    requires Timed(log, addresses, env)
    requires forall a | a in addresses :: env.gets[a].at <= env.positionAt
    requires Unsplit(log, addresses, env)
    ensures InitialRead(log, addresses, env.gets, -1) - {0} == Values(StateAt(log, env.positionAt), addresses)
  {
    hide InitialRead, StateAt, Values, Unsplit, RetainedByRead, Retained;
    NothingAtFirst(log, addresses);
    UnfilteredIsRetained(log, addresses, -1, 0, Access(0, 0), env);
    InitialReadCompletes(log, addresses, -1, 0, env);
    var values := InitialRead(log, addresses, env.gets, -1) - {0};
    assert map[] + values == values;
  }

  // ---- One request ----

  lemma Combine(x: map<Address, seq<Byte>>, y: map<Address, seq<Byte>>)
    ensures (x + y) - {0} == (x - {0}) + (y - {0})
  {}

  lemma {:induction false} PollLoopKeepsSync(log: Log, addresses: set<Address>, mode: Mode, start: int,
                                             polls: seq<Poll>, client: Client)
    requires |log| < 0x1_0000_0000
    requires forall k | 0 <= k < |polls| :: polls[k].query.at <= |log|
    requires InSync(log, addresses, client)
    requires Paced(log, addresses, mode.maxAge, client.seen, polls)
    ensures InSync(log, addresses,
                   Updated(client, PollLoop(log, addresses, mode, start, polls, client.index, client.seen)))
    decreases |polls|
  {
    hide Delta, StateAt, Values, CompleteCondition, Position, Wrap, Retained;
    if polls == [] || RemainingSec(mode.timeoutSec, start, polls[0].clock) <= 0 || !Woken(polls[0]) {
      assert client.view + map[] == client.view;
    } else {
      var n := polls[0].query.at;
      assert Since(client.seen, polls, 0) == client.seen;
      assert forall k: nat | k < |polls| - 1 :: Since(n, polls[1..], k) == Since(client.seen, polls, k + 1);
      var values := Delta(log, addresses, mode.maxAge, polls[0].query, client.index);
      DeltaCompletes(log, addresses, mode.maxAge, client.seen, polls[0].query);
      Combine(client.view, values);
      if values == map[] {
        var client' := Client(client.view, Position(Wrap(n)), n);
        assert client.view + values == client.view;
        PollLoopKeepsSync(log, addresses, mode, start, polls[1..], client');
      }
    }
  }

  /** One request of a client in sync leaves it in sync, whatever is pushed meanwhile and
      whatever `t` says. */
  lemma RequestKeepsSync(log: Log, addresses: set<Address>, mode: Mode, client: Client, env: Env)
    requires |log| < 0x1_0000_0000
    requires InSync(log, addresses, client)
    requires Admissible(log, addresses, mode, client, env)
    ensures InSync(log, addresses,
                   Updated(client, Serve(log, addresses, mode, client.index, client.seen, env)))
  {
    hide InitialRead, PollLoop, StateAt, Values, Paced, Unsplit, RetainedByRead, Position, Wrap;
    if mode.forceInitial || client.index == 0 {
      var values := InitialRead(log, addresses, env.gets, mode.maxAge);
      InitialReadCompletes(log, addresses, mode.maxAge, client.seen, env);
      Combine(client.view, values);
      var client' := Client(client.view + values, Position(Wrap(env.positionAt)), env.positionAt);
      if values == map[] && mode.timeoutSec > 0 {
        assert client.view + values == client.view;
        PollLoopKeepsSync(log, addresses, mode, env.start, env.polls, client');
      }
    } else if mode.timeoutSec <= 0 {
      assert client.view + map[] == client.view;
    } else {
      PollLoopKeepsSync(log, addresses, mode, env.start, env.polls, client);
    }
  }

  /** Without a filter a request only has to be unsplit and on time. */
  lemma UnfilteredIsRetained(log: Log, addresses: set<Address>, maxAge: int, seen: nat, query: Access, env: Env)
    requires maxAge < 0 && query.at <= |log| && Timed(log, addresses, env)
    ensures Retained(log, addresses, maxAge, seen, query) && RetainedByRead(log, addresses, maxAge, seen, env)
  {}

  // ---- Whole sessions ----

  datatype Request = Request(t: Option<int>, env: Env)

  /** The client after a sequence of requests. */
  function Session(log: Log, addresses: set<Address>, longpollSec: int, client: Client, requests: seq<Request>): Client
    requires forall k | 0 <= k < |requests| :: Timed(log, addresses, requests[k].env)
    decreases |requests|
  {
    if requests == [] then client else
    var mode := ModeOf(requests[0].t, longpollSec);
    var reply := Serve(log, addresses, mode, client.index, client.seen, requests[0].env);
    Session(log, addresses, longpollSec, Updated(client, reply), requests[1..])
  }

  ghost predicate AdmissibleSession(log: Log, addresses: set<Address>, longpollSec: int, client: Client,
                                    requests: seq<Request>)
    requires forall k | 0 <= k < |requests| :: Timed(log, addresses, requests[k].env)
    decreases |requests|
  {
    requests == [] ||
    (var mode := ModeOf(requests[0].t, longpollSec);
     && Admissible(log, addresses, mode, client, requests[0].env)
     && var reply := Serve(log, addresses, mode, client.index, client.seen, requests[0].env);
        AdmissibleSession(log, addresses, longpollSec, Updated(client, reply), requests[1..]))
  }

  lemma NewClientIsInSync(log: Log, addresses: set<Address>)
    ensures InSync(log, addresses, Client(map[], 0, 0))
  {
    NothingAtFirst(log, addresses);
  }

  /** Over every session of a client that starts without an index, with any mixture of `t`,
      and every interleaving with pushes, the client ends with exactly the subscribed state
      of the cache at the raw position of its last index. */
  lemma SessionIsInSync(log: Log, addresses: set<Address>, longpollSec: int, requests: seq<Request>)
    requires |log| < 0x1_0000_0000
    requires forall k | 0 <= k < |requests| :: Timed(log, addresses, requests[k].env)
    requires AdmissibleSession(log, addresses, longpollSec, Client(map[], 0, 0), requests)
    ensures InSync(log, addresses, Session(log, addresses, longpollSec, Client(map[], 0, 0), requests))
  {
    NewClientIsInSync(log, addresses);
    hide InSync, AdmissibleSession;
    SessionKeepsSync(log, addresses, longpollSec, Client(map[], 0, 0), requests);
  }

  lemma {:induction false} SessionKeepsSync(log: Log, addresses: set<Address>, longpollSec: int, client: Client,
                                            requests: seq<Request>)
    requires |log| < 0x1_0000_0000
    requires forall k | 0 <= k < |requests| :: Timed(log, addresses, requests[k].env)
    requires InSync(log, addresses, client)
    requires AdmissibleSession(log, addresses, longpollSec, client, requests)
    ensures InSync(log, addresses, Session(log, addresses, longpollSec, client, requests))
    decreases |requests|
  {
    hide InSync, Admissible, Serve;
    if requests != [] {
      var mode := ModeOf(requests[0].t, longpollSec);
      RequestKeepsSync(log, addresses, mode, client, requests[0].env);
      var reply := Serve(log, addresses, mode, client.index, client.seen, requests[0].env);
      SessionKeepsSync(log, addresses, longpollSec, Updated(client, reply), requests[1..]);
    }
  }

  // ---- Where delivery is exact, and where telegrams get lost ----

  lemma StoredIsNotZero(log: Log, n: nat, a: Address)
    requires n <= |log| && a in StateAt(log, n)
    ensures a != 0
  {}

  lemma StoredPosition(log: Log, n: nat, a: Address)
    requires n <= |log| && a in StateAt(log, n)
    ensures 0 < LastPush(log[..n], a) <= n
    ensures StateAt(log, n)[a].pushedAt == Position(Wrap(LastPush(log[..n], a)))
  {
    hide SharedView, LastPush, Position, Wrap;
    SharedViewValue(log[..n], a);
  }

  /** No duplicate delivery: under the exactness condition a delta contains a subscribed
      address pushed within the last MODULUS pushes if and only if it is new. */
  lemma DeltaIsExact(log: Log, addresses: set<Address>, seen: nat, query: Access, a: Address)
    requires |log| < 0x1_0000_0000 && seen <= query.at <= |log|
    requires ExactCondition(seen, query.at)
    requires a in addresses && a in StateAt(log, query.at)
    requires query.at - LastPush(log[..query.at], a) < MODULUS
    ensures a in Delta(log, addresses, -1, query, Position(Wrap(seen))) <==>
              seen < LastPush(log[..query.at], a)
  {
    StoredIsNotZero(log, query.at, a);
    hide Delivered, ExactCondition, Position, Wrap, Delta, StateAt, LastPush;
    DeltaOfStored(log, addresses, -1, query, Position(Wrap(seen)));
    ExactExactlyWhen(seen, query.at);
    StoredPosition(log, query.at, a);
    var r := LastPush(log[..query.at], a);
    assert DeliveredAt(seen, query.at, r) <==> seen < r;
    assert a in Delta(log, addresses, -1, query, Position(Wrap(seen))) <==>
           a in Delta(log, addresses, -1, query, Position(Wrap(seen))) - {0};
  }

  /** A push that falls between the `get` of its address and the `position()` load is never
      delivered: the initial read reports the older value, the index says the push has been
      seen, and exact deltas leave it out for as long as the address is not pushed again. */
  lemma SplitReadSkipsThePush(log: Log, addresses: set<Address>, env: Env, a: Address, later: Access)
    requires |log| < 0x1_0000_0000 && Timed(log, addresses, env)
    requires a in addresses && a in StateAt(log, env.positionAt)
    requires env.gets[a].at < LastPush(log[..env.positionAt], a)
    requires env.positionAt <= later.at <= |log| && ExactCondition(env.positionAt, later.at)
    requires LastPush(log[..later.at], a) == LastPush(log[..env.positionAt], a)
    requires later.at - LastPush(log[..later.at], a) < MODULUS
    ensures var values := InitialRead(log, addresses, env.gets, -1);
            a in values ==>
              var r := LastPush(log[..env.gets[a].at], a);
              0 < r < LastPush(log[..env.positionAt], a) && values[a] == SharedEntry(log, r).value
    ensures a !in Delta(log, addresses, -1, later, Position(Wrap(env.positionAt)))
  {
    assert a != 0;
    hide InitialRead, Delta, SharedView, ExactCondition, Position, Wrap;
    assert log[..later.at][..env.positionAt] == log[..env.positionAt];
    EntriesPersist(log[..later.at], env.positionAt, a);
    DeltaIsExact(log, addresses, env.positionAt, later, a);
    ReadAt(log, addresses, env.gets, -1, a);
    if a in StateAt(log, env.gets[a].at) {
      SharedViewValue(log[..env.gets[a].at], a);
    }
  }

  /** Histories that differ in the pushed values only. */
  ghost predicate SameTraffic(log: Log, other: Log) {
    |log| == |other| && forall i | 0 <= i < |log| :: log[i].addr == other[i].addr && log[i].time == other[i].time
  }

  lemma {:induction false} SameTrafficSamePushes(log: Log, other: Log, a: Address)
    requires SameTraffic(log, other)
    ensures LastPush(log, a) == LastPush(other, a)
    ensures SharedView(log).Keys == SharedView(other).Keys
  {
    if log != [] {
      var n := |log| - 1;
      assert log[n].addr == other[n].addr;
      SameTrafficSamePushes(log[..n], other[..n], a);
      assert |SharedView(log[..n]).Keys| == |SharedView(other[..n]).Keys|;
    }
  }

  /** Such histories agree in everything but the values. */
  lemma SameTrafficSameState(log: Log, other: Log, n: nat, a: Address)
    requires SameTraffic(log, other) && n <= |log|
    ensures LastPush(log[..n], a) == LastPush(other[..n], a)
    ensures a in StateAt(log, n) <==> a in StateAt(other, n)
    ensures a in StateAt(log, n) ==>
              && 0 < LastPush(log[..n], a)
              && StateAt(other, n)[a] ==
                 StateAt(log, n)[a].(value := Cut(other[LastPush(log[..n], a) - 1].value))
  {
    SameTrafficSamePushes(log[..n], other[..n], a);
    assert a in StateAt(log, n) <==> a in SharedView(log[..n]).Keys;
    if a in StateAt(log, n) {
      SharedViewValue(log[..n], a);
      SharedViewValue(other[..n], a);
    }
  }

  /** A short value that is neither `x` nor `y`. */
  function Unlike(x: seq<Byte>, y: seq<Byte>): (v: seq<Byte>)
    ensures v != x && v != y && Cut(v) == v
  {
    if [] != x && [] != y then [] else if [0] != x && [0] != y then [0] else [1]
  }

  function ValueIn(view: View, a: Address): seq<Byte> {
    if a in view then view[a].value else []
  }

  /** The history in which the last push of `a` before `n` carries a value that the states at
      `l` and `m` do not have. */
  function Changed(log: Log, l: nat, m: nat, n: nat, a: Address): Log
    requires l <= m <= |log| && n <= |log| && 0 < LastPush(log[..n], a)
  {
    var k := LastPush(log[..n], a) - 1;
    log[k := log[k].(value := Unlike(ValueIn(StateAt(log, l), a), ValueIn(StateAt(log, m), a)))]
  }

  lemma ChangedDiffers(log: Log, l: nat, m: nat, n: nat, a: Address)
    requires l <= m <= |log| && n <= |log| && m < LastPush(log[..n], a) && a in StateAt(log, n)
    ensures var other := Changed(log, l, m, n, a);
            && SameTraffic(log, other) && |other| == |log| && a in StateAt(other, n)
            && StateAt(other, l) == StateAt(log, l) && StateAt(other, m) == StateAt(log, m)
            && (a in StateAt(log, l) ==> StateAt(other, n)[a].value != StateAt(log, l)[a].value)
            && (a in StateAt(log, m) ==> StateAt(other, n)[a].value != StateAt(log, m)[a].value)
  {
    var other := Changed(log, l, m, n, a);
    ChangedIs(log, l, m, n, a);
    hide SharedView, Changed, LastPush, Unlike;
    SameTrafficSameState(log, other, n, a);
  }

  lemma ChangedIs(log: Log, l: nat, m: nat, n: nat, a: Address)
    requires l <= m <= |log| && n <= |log| && m < LastPush(log[..n], a)
    ensures var other := Changed(log, l, m, n, a);
            && SameTraffic(log, other) && other[..l] == log[..l] && other[..m] == log[..m]
            && other[LastPush(log[..n], a) - 1].value == Unlike(ValueIn(StateAt(log, l), a), ValueIn(StateAt(log, m), a))
  {
    hide SharedView, LastPush, Unlike;
  }

  // ---- When an initial read loses nothing ----

  ghost predicate ReadCompletes(log: Log, addresses: set<Address>, maxAge: int, seen: nat, env: Env)
    requires Timed(log, addresses, env) && seen <= |log|
  {
    Values(StateAt(log, seen), addresses) + (InitialRead(log, addresses, env.gets, maxAge) - {0})
    == Values(StateAt(log, env.positionAt), addresses)
  }

  lemma SameTrafficSameRead(log: Log, other: Log, addresses: set<Address>, maxAge: int, seen: nat, env: Env)
    requires SameTraffic(log, other) && Timed(log, addresses, env)
    requires Unsplit(log, addresses, env) && RetainedByRead(log, addresses, maxAge, seen, env)
    ensures Unsplit(other, addresses, env) && RetainedByRead(other, addresses, maxAge, seen, env)
  {
    hide StateAt, LastPush;
    var n := env.positionAt;
    forall a | a in addresses && a in StateAt(other, n)
      ensures LastPush(other[..n], a) <= env.gets[a].at
      ensures LastPush(other[..n], a) > seen ==> Fresh(StateAt(other, n)[a], maxAge, env.gets[a].wall)
    {
      SameTrafficSameState(log, other, n, a);
    }
  }

  lemma SplitReadCanDiffer(log: Log, addresses: set<Address>, maxAge: int, seen: nat, env: Env, a: Address)
    requires Timed(log, addresses, env) && a in addresses && a in StateAt(log, env.positionAt)
    requires seen <= env.gets[a].at < LastPush(log[..env.positionAt], a)
    ensures var other := Changed(log, seen, env.gets[a].at, env.positionAt, a);
            SameTraffic(log, other) && !ReadCompletes(other, addresses, maxAge, seen, env)
  {
    hide InitialRead, StateAt, Changed, LastPush, Fresh;
    var n, m := env.positionAt, env.gets[a].at;
    var other := Changed(log, seen, m, n, a);
    ChangedDiffers(log, seen, m, n, a);
    ReadAt(other, addresses, env.gets, maxAge, a);
    assert a in Values(StateAt(other, n), addresses);
  }

  lemma StaleReadCanDiffer(log: Log, addresses: set<Address>, maxAge: int, seen: nat, env: Env, a: Address)
    requires Timed(log, addresses, env) && a in addresses && a in StateAt(log, env.positionAt)
    requires seen < LastPush(log[..env.positionAt], a) <= env.gets[a].at <= env.positionAt
    requires !Fresh(StateAt(log, env.positionAt)[a], maxAge, env.gets[a].wall)
    ensures var other := Changed(log, seen, seen, env.positionAt, a);
            SameTraffic(log, other) && !ReadCompletes(other, addresses, maxAge, seen, env)
  {
    hide InitialRead, StateAt, Changed, LastPush, Wrap;
    var n := env.positionAt;
    var other := Changed(log, seen, seen, n, a);
    ChangedDiffers(log, seen, seen, n, a);
    SameTrafficSameState(log, other, n, a);
    StateGrows(other, env.gets[a].at, n, a);
    ReadAt(other, addresses, env.gets, maxAge, a);
    assert a in Values(StateAt(other, n), addresses);
  }

  /** An initial read brings a client from what it has seen to the state of the index,
      whatever values are pushed, exactly when no stored subscribed address is pushed between
      its `get` and the `position()` load and the age filter accepts everything new. Without a
      filter, and for a client that has seen nothing, this is about the read alone. */
  lemma InitialReadCompletesExactlyWhen(log: Log, addresses: set<Address>, maxAge: int, seen: nat, env: Env)
    requires Timed(log, addresses, env) && seen <= env.positionAt
    requires forall a | a in addresses :: seen <= env.gets[a].at <= env.positionAt
    ensures Unsplit(log, addresses, env) && RetainedByRead(log, addresses, maxAge, seen, env) <==>
            forall other | SameTraffic(log, other) :: ReadCompletes(other, addresses, maxAge, seen, env)
  {
    hide ReadCompletes, StateAt, LastPush, Fresh;
    if !Unsplit(log, addresses, env) {
      var a :| a in addresses && a in StateAt(log, env.positionAt)
               && LastPush(log[..env.positionAt], a) > env.gets[a].at;
      SplitReadCanDiffer(log, addresses, maxAge, seen, env, a);
    } else if !RetainedByRead(log, addresses, maxAge, seen, env) {
      var a :| a in addresses && a in StateAt(log, env.positionAt) && LastPush(log[..env.positionAt], a) > seen
               && !Fresh(StateAt(log, env.positionAt)[a], maxAge, env.gets[a].wall);
      StaleReadCanDiffer(log, addresses, maxAge, seen, env, a);
    } else {
      forall other | SameTraffic(log, other) ensures ReadCompletes(other, addresses, maxAge, seen, env) {
        SameTrafficSameRead(log, other, addresses, maxAge, seen, env);
        UnsplitCompletes(other, addresses, maxAge, seen, env);
      }
    }
  }

  lemma UnsplitCompletes(log: Log, addresses: set<Address>, maxAge: int, seen: nat, env: Env)
    requires Timed(log, addresses, env) && seen <= env.positionAt
    requires forall a | a in addresses :: env.gets[a].at <= env.positionAt
    requires Unsplit(log, addresses, env) && RetainedByRead(log, addresses, maxAge, seen, env)
    ensures ReadCompletes(log, addresses, maxAge, seen, env)
  {
    InitialReadCompletes(log, addresses, maxAge, seen, env);
  }

  // ---- When a delta loses nothing ----

  ghost predicate Completes(log: Log, addresses: set<Address>, maxAge: int, seen: nat, query: Access)
    requires seen <= |log| && query.at <= |log|
  {
    Values(StateAt(log, seen), addresses) + (Delta(log, addresses, maxAge, query, Position(Wrap(seen))) - {0})
    == Values(StateAt(log, query.at), addresses)
  }

  lemma SameTrafficSameRetained(log: Log, other: Log, addresses: set<Address>, maxAge: int, seen: nat, query: Access)
    requires SameTraffic(log, other) && query.at <= |log| && Retained(log, addresses, maxAge, seen, query)
    ensures Retained(other, addresses, maxAge, seen, query)
  {
    hide StateAt, LastPush;
    var n := query.at;
    forall a | a in addresses && a in StateAt(other, n) && LastPush(other[..n], a) > seen
      ensures Fresh(StateAt(other, n)[a], maxAge, query.wall)
    {
      SameTrafficSameState(log, other, n, a);
    }
  }

  lemma StaleValueIsLost(log: Log, addresses: set<Address>, maxAge: int, seen: nat, query: Access, a: Address)
    requires seen <= query.at <= |log| && a in addresses && a in StateAt(log, query.at)
    requires LastPush(log[..query.at], a) > seen && !Fresh(StateAt(log, query.at)[a], maxAge, query.wall)
    ensures var other := Changed(log, seen, seen, query.at, a);
            SameTraffic(log, other) && !Completes(other, addresses, maxAge, seen, query)
  {
    hide Delta, StateAt, Changed, LastPush, Position, Wrap;
    var n := query.at;
    var other := Changed(log, seen, seen, n, a);
    ChangedDiffers(log, seen, seen, n, a);
    SameTrafficSameState(log, other, n, a);
    DeltaOfStored(other, addresses, maxAge, query, Position(Wrap(seen)));
    assert a !in Delta(other, addresses, maxAge, query, Position(Wrap(seen))) - {0};
    assert a in Values(StateAt(other, n), addresses);
  }

  /** A delta taken in time loses nothing, whatever values are pushed, exactly when its age
      filter accepts every stored subscribed address pushed since the index. */
  lemma FilteredDeltaCompletesExactlyWhen(log: Log, addresses: set<Address>, maxAge: int, seen: nat, query: Access)
    requires |log| < 0x1_0000_0000 && seen <= query.at <= |log| && CompleteCondition(seen, query.at)
    ensures Retained(log, addresses, maxAge, seen, query) <==>
            forall other | SameTraffic(log, other) :: Completes(other, addresses, maxAge, seen, query)
  {
    hide Completes, StateAt, Fresh, CompleteCondition, LastPush;
    if Retained(log, addresses, maxAge, seen, query) {
      forall other | SameTraffic(log, other) ensures Completes(other, addresses, maxAge, seen, query) {
        SameTrafficSameRetained(log, other, addresses, maxAge, seen, query);
        RetainedCompletes(other, addresses, maxAge, seen, query);
      }
    } else {
      var a :| a in addresses && a in StateAt(log, query.at) && LastPush(log[..query.at], a) > seen
               && !Fresh(StateAt(log, query.at)[a], maxAge, query.wall);
      StaleValueIsLost(log, addresses, maxAge, seen, query, a);
    }
  }

  lemma RetainedCompletes(log: Log, addresses: set<Address>, maxAge: int, seen: nat, query: Access)
    requires |log| < 0x1_0000_0000 && seen <= query.at <= |log| && CompleteCondition(seen, query.at)
    requires Retained(log, addresses, maxAge, seen, query)
    ensures Completes(log, addresses, maxAge, seen, query)
  {
    DeltaCompletes(log, addresses, maxAge, seen, query);
  }

  // ---- Which pushes are delivered promptly ----

  /** The first `k` iterations go on without delivering anything. */
  predicate Reached(log: Log, addresses: set<Address>, mode: Mode, start: int, polls: seq<Poll>, index: Word32, k: nat)
    requires forall k | 0 <= k < |polls| :: polls[k].query.at <= |log|
    decreases k
  {
    k == 0 ||
    (&& polls != [] && RemainingSec(mode.timeoutSec, start, polls[0].clock) > 0 && Woken(polls[0])
     && Delta(log, addresses, mode.maxAge, polls[0].query, index) == map[]
     && Reached(log, addresses, mode, start, polls[1..], Position(Wrap(polls[0].query.at)), k - 1))
  }

  lemma {:induction false} LoopReaches(log: Log, addresses: set<Address>, mode: Mode, start: int, polls: seq<Poll>,
                                       seen: nat, k: nat)
    requires (forall k | 0 <= k < |polls| :: polls[k].query.at <= |log|) && k < |polls|
    requires Reached(log, addresses, mode, start, polls, Position(Wrap(seen)), k)
    ensures var since := Since(seen, polls, k);
            PollLoop(log, addresses, mode, start, polls, Position(Wrap(seen)), seen) ==
            PollLoop(log, addresses, mode, start, polls[k..], Position(Wrap(since)), since)
    decreases k
  {
    hide Delta, Position, Wrap, Woken;
    if k == 0 {
      assert polls[0..] == polls;
    } else {
      var n := polls[0].query.at;
      LoopReaches(log, addresses, mode, start, polls[1..], n, k - 1);
      assert polls[1..][k - 1..] == polls[k..];
      assert Since(n, polls[1..], k - 1) == Since(seen, polls, k);
    }
  }

  /** The poll loop of a client at raw position `seen` reaches iteration `k` in time, and the
      delta query of that iteration can deliver a push of `a` that the client has not seen. */
  ghost predicate NewAt(log: Log, addresses: set<Address>, mode: Mode, start: int, polls: seq<Poll>, seen: nat, k: nat,
                        a: Address)
  {
    && (forall k | 0 <= k < |polls| :: polls[k].query.at <= |log|) && k < |polls|
    && Reached(log, addresses, mode, start, polls, Position(Wrap(seen)), k)
    && RemainingSec(mode.timeoutSec, start, polls[k].clock) > 0
    && polls[k].entered <= polls[k].left <= polls[k].query.at
    && var since, query := Since(seen, polls, k), polls[k].query;
       && since <= query.at && CompleteCondition(since, query.at)
       && Retained(log, addresses, mode.maxAge, since, query)
       && a in addresses && a in StateAt(log, query.at) && LastPush(log[..query.at], a) > since
  }

  /** A reply carries the value and the index of this delta query. */
  ghost predicate Carries(log: Log, reply: Reply, query: Access, a: Address)
    requires query.at <= |log| && a in StateAt(log, query.at)
  {
    a in reply.values && reply.values[a] == StateAt(log, query.at)[a].value && reply.index == Position(Wrap(query.at))
  }

  /** In an iteration of the poll loop that begins in time, new data for the client is
      delivered exactly when something is pushed between the moment when the wait takes the
      lock and its return. */
  lemma DeliveredPromptlyExactlyWhen(log: Log, addresses: set<Address>, mode: Mode, start: int, polls: seq<Poll>,
                                     seen: nat, k: nat, a: Address)
    requires |log| < 0x1_0000_0000 && NewAt(log, addresses, mode, start, polls, seen, k, a)
    ensures var reply := PollLoop(log, addresses, mode, start, polls, Position(Wrap(seen)), seen);
            && (a in reply.values <==> polls[k].entered < polls[k].left)
            && (a in reply.values ==> Carries(log, reply, polls[k].query, a))
  {
    hide Delta, StateAt, LastPush, Retained, CompleteCondition, Position, Wrap, Reached, Woken, PollLoop;
    var since, query := Since(seen, polls, k), polls[k].query;
    LoopReaches(log, addresses, mode, start, polls, seen, k);
    NewIsInDelta(log, addresses, mode.maxAge, since, query, a);
    WokenIs(polls[k], |log|);
    assert polls[k..][0] == polls[k];
    OneIteration(log, addresses, mode, start, polls[k..], Position(Wrap(since)), since);
  }

  /** Whether a request begins with an initial read. */
  predicate ReadsFirst(mode: Mode, seen: nat) {
    mode.forceInitial || Position(Wrap(seen)) == 0
  }

  /** The same for a whole request, in every mode that polls: one that continues from an
      index, or one whose initial read finds nothing. */
  lemma ServedPromptlyExactlyWhen(log: Log, addresses: set<Address>, mode: Mode, seen: nat, env: Env, k: nat, a: Address)
    requires |log| < 0x1_0000_0000 && Timed(log, addresses, env) && mode.timeoutSec > 0
    requires ReadsFirst(mode, seen) ==> InitialRead(log, addresses, env.gets, mode.maxAge) == map[]
    requires NewAt(log, addresses, mode, env.start, env.polls, if ReadsFirst(mode, seen) then env.positionAt else seen, k, a)
    ensures var reply := Serve(log, addresses, mode, Position(Wrap(seen)), seen, env);
            && (a in reply.values <==> env.polls[k].entered < env.polls[k].left)
            && (a in reply.values ==> Carries(log, reply, env.polls[k].query, a))
  {
    var first := if ReadsFirst(mode, seen) then env.positionAt else seen;
    hide NewAt, Carries, PollLoop, InitialRead, Position, Wrap, StateAt;
    DeliveredPromptlyExactlyWhen(log, addresses, mode, env.start, env.polls, first, k, a);
  }

  lemma WokenIs(p: Poll, n: nat)
    requires p.entered <= p.left <= n < 0x1_0000_0000
    ensures Woken(p) <==> p.entered < p.left
  {}

  lemma OneIteration(log: Log, addresses: set<Address>, mode: Mode, start: int, polls: seq<Poll>, index: Word32,
                     seen: nat)
    requires polls != [] && forall k | 0 <= k < |polls| :: polls[k].query.at <= |log|
    requires RemainingSec(mode.timeoutSec, start, polls[0].clock) > 0
    ensures var reply := PollLoop(log, addresses, mode, start, polls, index, seen);
            var delta := Delta(log, addresses, mode.maxAge, polls[0].query, index);
            && (!Woken(polls[0]) ==> reply.values == map[])
            && (Woken(polls[0]) && delta != map[] ==>
                  reply.values == delta && reply.index == Position(Wrap(polls[0].query.at)))
  {
    hide Delta, Position, Wrap, Woken;
  }

  lemma NewIsInDelta(log: Log, addresses: set<Address>, maxAge: int, since: nat, query: Access, a: Address)
    requires |log| < 0x1_0000_0000 && since <= query.at <= |log| && CompleteCondition(since, query.at)
    requires Retained(log, addresses, maxAge, since, query)
    requires a in addresses && a in StateAt(log, query.at) && LastPush(log[..query.at], a) > since
    ensures var delta := Delta(log, addresses, maxAge, query, Position(Wrap(since)));
            a in delta && delta[a] == StateAt(log, query.at)[a].value
  {
    hide Delta, StateAt, Delivered, CompleteCondition, Position, Wrap, LastPush;
    DeltaOfStored(log, addresses, maxAge, query, Position(Wrap(since)));
    UnselectedIsUnchanged(log, since, query.at, a);
    assert a in Delta(log, addresses, maxAge, query, Position(Wrap(since))) - {0};
  }

  // ---- What `t` means ----

  /** `t` in the words of the protocol: absent, it asks for a long poll; positive, it limits
      both the age of the values and the poll; zero reads afresh, asks the bus and polls for
      a second; negative reads afresh and does nothing else. */
  lemma ModeMeans(t: Option<int>, longpollSec: int)
    ensures var mode := ModeOf(t, longpollSec);
            && (mode.readBus <==> t == Some(0))
            && (mode.forceInitial <==> t.Some? && t.value <= 0)
            && (mode.maxAge >= 0 <==> t.Some? && t.value > 0) && (mode.maxAge >= 0 ==> mode.maxAge == t.value)
            && (t == None ==> mode.timeoutSec == longpollSec) && (t == Some(0) ==> mode.timeoutSec == 1)
            && (t.Some? && t.value > 0 ==> mode.timeoutSec == t.value)
            && (t.Some? && t.value < 0 ==> mode.timeoutSec <= 0)
  {}

  /** A negative `t` reads the cache once, whatever the index, and never waits. */
  lemma NegativeReadsTheCacheOnce(log: Log, addresses: set<Address>, t: int, longpollSec: int, index: Word32, seen: nat,
                                  env: Env)
    requires t < 0 && Timed(log, addresses, env)
    ensures Serve(log, addresses, ModeOf(Some(t), longpollSec), index, seen, env) ==
            Reply(InitialRead(log, addresses, env.gets, -1), Position(Wrap(env.positionAt)), env.positionAt)
  {
    hide InitialRead, Position, Wrap;
  }

  /** Any initial read that finds something is the reply, without a wait. */
  lemma FoundIsReplied(log: Log, addresses: set<Address>, mode: Mode, seen: nat, env: Env)
    requires Timed(log, addresses, env) && ReadsFirst(mode, seen)
    requires InitialRead(log, addresses, env.gets, mode.maxAge) != map[]
    ensures Serve(log, addresses, mode, Position(Wrap(seen)), seen, env) ==
            Reply(InitialRead(log, addresses, env.gets, mode.maxAge), Position(Wrap(env.positionAt)), env.positionAt)
  {
    hide InitialRead, Position, Wrap;
  }

  /** A value is as its last push left it at one of the accesses of the request, and within
      the age limit at that access. */
  ghost predicate Genuine(log: Log, maxAge: int, at: Access, a: Address, value: seq<Byte>) {
    && at.at <= |log| && a in StateAt(log, at.at)
    && (Dated(log[..at.at], a, at.wall) ==>
          Young(Latest(log[..at.at], a), maxAge, at.wall) && value == Cut(Latest(log[..at.at], a).value))
  }

  lemma FreshIsGenuine(log: Log, maxAge: int, at: Access, a: Address)
    requires at.at <= |log| && a in StateAt(log, at.at) && Fresh(StateAt(log, at.at)[a], maxAge, at.wall)
    ensures Genuine(log, maxAge, at, a, StateAt(log, at.at)[a].value)
  {
    hide SharedView, Dated, Young, Latest, Fresh, LastPush;
    if Dated(log[..at.at], a, at.wall) {
      LookupIsLastValue(log[..at.at], a, maxAge, at.wall);
    }
  }

  lemma {:induction false} PolledIsGenuine(log: Log, addresses: set<Address>, mode: Mode, start: int, polls: seq<Poll>,
                                           index: Word32, seen: nat, a: Address) returns (k: nat)
    requires forall k | 0 <= k < |polls| :: polls[k].query.at <= |log|
    requires a != 0 && a in PollLoop(log, addresses, mode, start, polls, index, seen).values
    ensures k < |polls| && a in addresses
    ensures Genuine(log, mode.maxAge, polls[k].query, a, PollLoop(log, addresses, mode, start, polls, index, seen).values[a])
    decreases |polls|
  {
    hide Delta, Position, Wrap, Genuine, Woken;
    var query := polls[0].query;
    var values := Delta(log, addresses, mode.maxAge, query, index);
    if values != map[] {
      k := 0;
      DeltaIsGenuine(log, addresses, mode.maxAge, query, index, a);
    } else {
      k := PolledIsGenuine(log, addresses, mode, start, polls[1..], Position(Wrap(query.at)), query.at, a);
      k := k + 1;
    }
  }

  lemma DeltaIsGenuine(log: Log, addresses: set<Address>, maxAge: int, query: Access, since: Word32, a: Address)
    requires query.at <= |log| && a != 0 && a in Delta(log, addresses, maxAge, query, since)
    ensures a in addresses && Genuine(log, maxAge, query, a, Delta(log, addresses, maxAge, query, since)[a])
  {
    hide Delta, StateAt, Genuine, Fresh, Delivered, Position, Wrap;
    DeltaOfStored(log, addresses, maxAge, query, since);
    assert a in Delta(log, addresses, maxAge, query, since) - {0};
    FreshIsGenuine(log, maxAge, query, a);
  }

  /** Whatever a request delivers was asked for, is genuine, and is not too old. */
  lemma ServedIsGenuine(log: Log, addresses: set<Address>, mode: Mode, index: Word32, seen: nat, env: Env, a: Address)
    returns (at: Access)
    requires Timed(log, addresses, env) && a != 0
    requires a in Serve(log, addresses, mode, index, seen, env).values
    ensures a in addresses && (at == env.gets[a] || exists k :: 0 <= k < |env.polls| && at == env.polls[k].query)
    ensures Genuine(log, mode.maxAge, at, a, Serve(log, addresses, mode, index, seen, env).values[a])
  {
    hide InitialRead, PollLoop, Genuine, StateAt, Fresh, Position, Wrap;
    var values := InitialRead(log, addresses, env.gets, mode.maxAge);
    if (mode.forceInitial || index == 0) && (values != map[] || mode.timeoutSec <= 0) {
      ReadAt(log, addresses, env.gets, mode.maxAge, a);
      at := env.gets[a];
      FreshIsGenuine(log, mode.maxAge, at, a);
    } else {
      var i, n := index, seen;
      if mode.forceInitial || index == 0 {
        i, n := Position(Wrap(env.positionAt)), env.positionAt;
      }
      var k := PolledIsGenuine(log, addresses, mode, env.start, env.polls, i, n, a);
      at := env.polls[k].query;
    }
  }

  // ---- Runs that leave a client behind ----

  /** Two values of address 5 and, ten seconds later, one of address 6. */
  const PUSHES := [Push(5, [1], 0), Push(5, [2], 0), Push(6, [3], 10)]

  lemma States()
    ensures |PUSHES| == 3
    ensures StateAt(PUSHES, 1) == map[5 := Entry(5, [1], 0, 1)]
    ensures StateAt(PUSHES, 2) == map[5 := Entry(5, [2], 0, 2)]
    ensures StateAt(PUSHES, 3) == map[5 := Entry(5, [2], 0, 2), 6 := Entry(6, [3], 10, 3)]
    ensures Position(Wrap(1)) == 1 && Position(Wrap(2)) == 2 && Position(Wrap(3)) == 3
  {
    assert SharedView([]) == map[];
    hide SharedView;
    var p1, p2, p3 := Push(5, [1], 0), Push(5, [2], 0), Push(6, [3], 10);
    ViewAfterPush([], p1);
    ViewAfterPush([p1], p2);
    ViewAfterPush([p1, p2], p3);
    assert [] + [p1] == [p1] && [p1] + [p2] == [p1, p2] && [p1, p2] + [p3] == PUSHES;
    assert PUSHES[..1] == [p1] && PUSHES[..2] == [p1, p2] && PUSHES[..3] == PUSHES;
  }

  /** A client with value 1 is in sync under index 1, and not under index 2 or 3. */
  lemma Behind()
    ensures InSync(PUSHES, {5}, Client(map[5 := [1]], 1, 1))
    ensures !InSync(PUSHES, {5}, Client(map[5 := [1]], 2, 2)) && !InSync(PUSHES, {5}, Client(map[5 := [1]], 3, 3))
  {
    States();
    hide StateAt, Position, Wrap;
    assert map[5 := [1]] - {0} == Values(StateAt(PUSHES, 1), {5});
    assert Values(StateAt(PUSHES, 2), {5})[5] == [2] && Values(StateAt(PUSHES, 3), {5})[5] == [2];
  }

  /** A split read that leaves a client out of sync: value 1, read; value 2, pushed before
      the position load. The client keeps value 1 under index 2. */
  lemma SplitReadLeavesClientBehind()
    ensures var env := Env(map[5 := Access(1, 0)], 2, 0, []);
            && Timed(PUSHES, {5}, env)
            && Updated(Client(map[], 0, 0), Serve(PUSHES, {5}, ModeOf(None, 300), 0, 0, env))
               == Client(map[5 := [1]], 2, 2)
    ensures !InSync(PUSHES, {5}, Client(map[5 := [1]], 2, 2))
  {
    hide InitialRead, StateAt, Position, Wrap;
    States();
    Behind();
    var env := Env(map[5 := Access(1, 0)], 2, 0, []);
    var values := InitialRead(PUSHES, {5}, env.gets, -1);
    ReadAt(PUSHES, {5}, env.gets, -1, 5);
    OnlyAddress(PUSHES, env);
    assert values == map[5 := [1]];
    assert map[] + values == values;
  }

  lemma OnlyAddress(log: Log, env: Env)
    requires Timed(log, {5}, env)
    ensures InitialRead(log, {5}, env.gets, -1).Keys <= {5}
  {
    hide ServedView;
  }

  /** A push before the wait is not prompt: value 2 arrives before the wait takes the lock, and
      nothing arrives during it. The reply is empty, the index stays, nothing is lost. */
  lemma PushBeforeTheWaitIsNotPrompt()
    ensures var env := Env(map[5 := Access(1, 0)], 1, 0, [Poll(0, 1000, 2, 2, Access(2, 1))]);
            var client := Client(map[5 := [1]], 1, 1);
            && Timed(PUSHES, {5}, env)
            && Updated(client, Serve(PUSHES, {5}, ModeOf(None, 1), 1, 1, env)) == client
            && InSync(PUSHES, {5}, client)
            && Values(StateAt(PUSHES, 2), {5}) == map[5 := [2]]
  {
    hide StateAt, InSync, Delta, InitialRead, Position, Wrap, PUSHES;
    States();
    Behind();
    var mode, polls := ModeOf(None, 1), [Poll(0, 1000, 2, 2, Access(2, 1))];
    assert RemainingSec(1, 0, 0) == 1;
    assert PollLoop(PUSHES, {5}, mode, 0, polls, 1, 1) == Reply(map[], 1, 1);
    assert map[5 := [1]] + map[] == map[5 := [1]];
    assert Values(StateAt(PUSHES, 2), {5}).Keys == {5};
  }

  /** A push during the wait is prompt: the same value 2 is in the reply. */
  lemma PushDuringTheWaitIsPrompt()
    ensures |PUSHES| == 3
    ensures var polls := [Poll(0, 1000, 1, 2, Access(2, 1))];
            var reply := PollLoop(PUSHES, {5}, ModeOf(None, 300), 0, polls, 1, 1);
            5 in reply.values && reply.values[5] == [2] && reply.index == 2
  {
    LastPushOfFive();
    hide StateAt, LastPush, PollLoop, Position, Wrap, PUSHES, Fresh;
    States();
    var mode, polls := ModeOf(None, 300), [Poll(0, 1000, 1, 2, Access(2, 1))];
    UnfilteredIsRetained(PUSHES, {5}, -1, 1, Access(2, 1), Env(map[5 := Access(1, 0)], 1, 0, []));
    hide Retained;
    DeliveredPromptlyExactlyWhen(PUSHES, {5}, mode, 0, polls, 1, 0, 5);
    hide NewAt;
  }

  lemma LastPushOfFive()
    ensures |PUSHES| == 3 && LastPush(PUSHES[..2], 5) == 2
  {
    assert PUSHES[..2][1].addr == 5;
  }

  /** The age filter leaves a client out of sync: it has value 1 and asks with `t=1`. Value 2
      arrived before the wait; the value of another address wakes it ten seconds later, and
      value 2 is too old by then. The client keeps value 1 under index 3. */
  lemma AgeFilterLeavesClientBehind()
    ensures var env := Env(map[5 := Access(2, 10)], 2, 0, [Poll(0, 0, 2, 3, Access(3, 10))]);
            && Timed(PUSHES, {5}, env)
            && InSync(PUSHES, {5}, Client(map[5 := [1]], 1, 1))
            && Updated(Client(map[5 := [1]], 1, 1), Serve(PUSHES, {5}, ModeOf(Some(1), 300), 1, 1, env))
               == Client(map[5 := [1]], 3, 3)
    ensures !InSync(PUSHES, {5}, Client(map[5 := [1]], 3, 3))
  {
    States();
    Behind();
    hide StateAt, Position, Delta, InSync;
    var query := Access(3, 10);
    StaleDelta(query);
    assert map[5 := [1]] + map[] == map[5 := [1]];
  }

  lemma StaleDelta(query: Access)
    requires query == Access(3, 10)
    ensures Delta(PUSHES, {5}, 1, query, 1) == map[]
  {
    States();
    hide StateAt, Position, Delivered, ServedView;
    DeltaOfStored(PUSHES, {5}, 1, query, 1);
    assert Delta(PUSHES, {5}, 1, query, 1) - {0} == map[];
    assert Delta(PUSHES, {5}, 1, query, 1).Keys <= {5};
  }

  // ---- The deadline of the poll loop ----

  /** Every wait returns within the limit it was given, and at most `delay` passes between the
      end of one iteration and the clock reading of the next. */
  predicate Prompt(timeoutSec: int, start: int, now: int, delay: nat, polls: seq<Poll>)
    decreases |polls|
  {
    polls != [] ==>
      && now <= polls[0].clock <= now + delay
      && var remaining := RemainingSec(timeoutSec, start, polls[0].clock);
         remaining > 0 ==>
           && polls[0].clock <= polls[0].returned <= polls[0].clock + 1000 * remaining
           && Prompt(timeoutSec, start, polls[0].returned, delay, polls[1..])
  }

  /** An iteration waits exactly when less than the timeout has passed, and it waits at least
      until the timeout and less than a second longer. */
  lemma RemainingExactlyWhen(timeoutSec: int, start: int, clock: int)
    requires start <= clock
    ensures RemainingSec(timeoutSec, start, clock) > 0 <==> clock - start < 1000 * timeoutSec
    ensures var end := clock + 1000 * RemainingSec(timeoutSec, start, clock);
            start + 1000 * timeoutSec <= end < start + 1000 * (timeoutSec + 1)
  {}

  /** Waits that report nothing use up their limit, and the loop comes to its end. */
  predicate Patient(log: Log, addresses: set<Address>, mode: Mode, start: int, polls: seq<Poll>, index: Word32)
    requires forall k | 0 <= k < |polls| :: polls[k].query.at <= |log|
    decreases |polls|
  {
    && polls != [] && start <= polls[0].clock
    && var remaining := RemainingSec(mode.timeoutSec, start, polls[0].clock);
       remaining > 0 ==>
         if !Woken(polls[0]) then polls[0].returned >= polls[0].clock + 1000 * remaining
         else Delta(log, addresses, mode.maxAge, polls[0].query, index) == map[] ==>
                Patient(log, addresses, mode, start, polls[1..], Position(Wrap(polls[0].query.at)))
  }

  /** A loop that delivers nothing does not end before its timeout. */
  lemma {:induction false} EmptyLoopWaitsItsTime(log: Log, addresses: set<Address>, mode: Mode, start: int, now: int,
                                                 polls: seq<Poll>, index: Word32, seen: nat)
    requires forall k | 0 <= k < |polls| :: polls[k].query.at <= |log|
    requires Patient(log, addresses, mode, start, polls, index)
    requires PollLoop(log, addresses, mode, start, polls, index, seen).values == map[]
    ensures LoopEnd(log, addresses, mode, start, now, polls, index) >= start + 1000 * mode.timeoutSec
    decreases |polls|
  {
    hide Delta, Position, Wrap, Woken, RemainingSec;
    RemainingExactlyWhen(mode.timeoutSec, start, polls[0].clock);
    if RemainingSec(mode.timeoutSec, start, polls[0].clock) > 0 && Woken(polls[0]) {
      var n := polls[0].query.at;
      EmptyLoopWaitsItsTime(log, addresses, mode, start, polls[0].returned, polls[1..], Position(Wrap(n)), n);
    }
  }

  /** The limit of every wait, in milliseconds, fits a 32-bit int exactly for timeouts of at
      most 2147483 seconds. */
  lemma WaitLimitFitsExactlyWhen(timeoutSec: int, start: int)
    requires timeoutSec > 0
    ensures (forall clock | start <= clock :: 1000 * RemainingSec(timeoutSec, start, clock) <= 0x7fff_ffff) <==>
            timeoutSec <= 2_147_483
  {
    assert RemainingSec(timeoutSec, start, start) == timeoutSec;
  }

  /** The time at which the loop ends. */
  function LoopEnd(log: Log, addresses: set<Address>, mode: Mode, start: int, now: int, polls: seq<Poll>,
                   index: Word32): int
    requires forall k | 0 <= k < |polls| :: polls[k].query.at <= |log|
    decreases |polls|
  {
    if polls == [] then now
    else if RemainingSec(mode.timeoutSec, start, polls[0].clock) <= 0 then polls[0].clock
    else if !Woken(polls[0]) || Delta(log, addresses, mode.maxAge, polls[0].query, index) != map[] then
      polls[0].returned
    else
      LoopEnd(log, addresses, mode, start, polls[0].returned, polls[1..], Position(Wrap(polls[0].query.at)))
  }

  /** However often it is woken, the loop ends less than a second after its timeout, plus the
      delay of one iteration. */
  lemma {:induction false} LoopEndsInTime(log: Log, addresses: set<Address>, mode: Mode, start: int, now: int,
                                          delay: nat, polls: seq<Poll>, index: Word32)
    requires forall k | 0 <= k < |polls| :: polls[k].query.at <= |log|
    requires mode.timeoutSec > 0 && start <= now < start + 1000 * (mode.timeoutSec + 1)
    requires Prompt(mode.timeoutSec, start, now, delay, polls)
    ensures start <= LoopEnd(log, addresses, mode, start, now, polls, index)
            < start + 1000 * (mode.timeoutSec + 1) + delay
    decreases |polls|
  {
    if polls != [] && RemainingSec(mode.timeoutSec, start, polls[0].clock) > 0 {
      hide Delta;
      LoopEndsInTime(log, addresses, mode, start, polls[0].returned, delay, polls[1..],
                     Position(Wrap(polls[0].query.at)));
    }
  }
}
