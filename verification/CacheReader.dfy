/** The loop that pumps telegrams from knxd into the shared cache and reconnects forever. */
module CacheReader {
  import opened Basics
  import opened TelegramLog
  import opened KnxdProtocol
  import KnxdClient

  function Min(a: int, b: int): int {
    if a <= b then a else b
  }

  function Max(a: int, b: int): int {
    if a >= b then a else b
  }

  // ---- Interruptible sleep ----

  function Total(chunks: seq<int>): int {
    if chunks == [] then 0 else Total(chunks[..|chunks| - 1]) + chunks[|chunks| - 1]
  }

  /** Sleeps in slices and looks at the stop flag before each; `stops[k]` is what the k-th
      look sees, and false behind the end. */
  method SleepInterruptible(durationMs: int, sliceMs: int, stops: seq<bool>)
    returns (chunks: seq<int>, stopped: bool)
    ensures forall k | 0 <= k < |chunks| :: 0 < chunks[k] <= Max(1, sliceMs)
    ensures !stopped ==> Total(chunks) == Max(0, durationMs)
    ensures stopped ==> Total(chunks) < durationMs && |chunks| < |stops| && stops[|chunks|]
    ensures forall k | 0 <= k < |chunks| && k < |stops| :: !stops[k]
  {
    var slice := Max(1, sliceMs);
    var remaining := durationMs;
    chunks, stopped := [], false;
    while remaining > 0
      invariant forall k | 0 <= k < |chunks| :: 0 < chunks[k] <= slice
      invariant Total(chunks) == durationMs - remaining
      invariant remaining <= Max(0, durationMs) && (durationMs <= 0 ==> remaining == durationMs)
      invariant durationMs > 0 ==> remaining >= 0
      invariant forall k | 0 <= k < |chunks| && k < |stops| :: !stops[k]
    {
      if |chunks| < |stops| && stops[|chunks|] {
        stopped := true;
        return;
      }
      var chunk := Min(remaining, slice);
      assert (chunks + [chunk])[..|chunks|] == chunks;
      chunks := chunks + [chunk];
      remaining := remaining - chunk;
    }
    assert durationMs <= 0 ==> chunks == [] by {
      if durationMs <= 0 && chunks != [] {
        TotalIsPositive(chunks);
      }
    }
  }

  lemma {:induction false} TotalIsPositive(chunks: seq<int>)
    requires chunks != [] && forall k | 0 <= k < |chunks| :: chunks[k] > 0
    ensures Total(chunks) > 0
  {
    if |chunks| > 1 {
      TotalIsPositive(chunks[..|chunks| - 1]);
    } else {
      assert chunks[..0] == [];
    }
  }

  // ---- Draining ----

  datatype Timed = Timed(telegram: Telegram, time: int)

  /** The pushes that a run of received telegrams leads to: everything but read requests
      and APDUs too short to parse. */
  function PushesOf(telegrams: seq<Timed>): Log {
    if telegrams == [] then [] else
    var last := telegrams[|telegrams| - 1];
    PushesOf(telegrams[..|telegrams| - 1])
    + match CacheValue(last.telegram.apdu)
      case None => []
      case Some(v) => [Push(last.telegram.addr, v, last.time)]
  }

  /** The telegrams of one drain with the clock readings of their pushes. */
  function Stamped(telegrams: seq<Telegram>, clock: nat -> int): (r: seq<Timed>)
    ensures |r| == |telegrams| && forall i | 0 <= i < |r| :: r[i].telegram == telegrams[i] && r[i].time == clock(i)
  {
    seq(|telegrams|, i requires 0 <= i < |telegrams| => Timed(telegrams[i], clock(i)))
  }

  lemma StampedAppend(telegrams: seq<Telegram>, t: Telegram, clock: nat -> int)
    ensures Stamped(telegrams + [t], clock) == Stamped(telegrams, clock) + [Timed(t, clock(|telegrams|))]
  {}

  lemma PushesStep(telegrams: seq<Timed>, t: Timed)
    ensures PushesOf(telegrams + [t]) ==
            PushesOf(telegrams)
            + match CacheValue(t.telegram.apdu) case None => [] case Some(v) => [Push(t.telegram.addr, v, t.time)]
  {
    assert (telegrams + [t])[..|telegrams|] == telegrams;
  }

  /** Splitting the reads that are still to come. */
  lemma StreamStep(before: Bytes, inputs: seq<KnxdClient.Input>, used: nat, m: Bytes, after: Bytes)
    requires used <= |inputs| && before + KnxdClient.Delivered(inputs[..used]) == m + after
    ensures before + KnxdClient.Delivered(inputs) == m + (after + KnxdClient.Delivered(inputs[used..]))
  {
    hide KnxdClient.Delivered;
    KnxdClient.DeliveredParts(inputs, used);
    KnxdClient.Regroup(before, KnxdClient.Delivered(inputs[..used]), KnxdClient.Delivered(inputs[used..]));
    KnxdClient.Regroup(m, after, KnxdClient.Delivered(inputs[used..]));
  }

  predicate Readable(inputs: seq<KnxdClient.Input>) {
    forall i | 0 <= i < |inputs| :: inputs[i].Data? && KnxdClient.Plausible(inputs[i])
  }

  /** A drain of `bytes` has taken these telegrams and has `rest` still before it. */
  ghost predicate Draining(bytes: Bytes, telegrams: seq<Telegram>, rest: Bytes) {
    telegrams + KnxdClient.Drained(rest) == KnxdClient.Drained(bytes) && KnxdClient.Left(rest) == KnxdClient.Left(bytes)
  }

  lemma DrainBegins(bytes: Bytes)
    ensures Draining(bytes, [], bytes)
  {
    hide KnxdClient.Drained, KnxdClient.Left;
    assert [] + KnxdClient.Drained(bytes) == KnxdClient.Drained(bytes);
  }

  lemma DrainGoesOn(bytes: Bytes, telegrams: seq<Telegram>, m: Bytes, rest: Bytes, t: Telegram)
    requires Framed(m) && TelegramIn(m) == Some(t) && Draining(bytes, telegrams, m + rest)
    ensures Draining(bytes, telegrams + [t], rest)
  {
    hide KnxdClient.Drained, KnxdClient.Left, TelegramIn, Framed;
    KnxdClient.DrainStep(m, rest);
    assert telegrams + ([t] + KnxdClient.Drained(rest)) == telegrams + [t] + KnxdClient.Drained(rest);
  }

  lemma DrainEnds(bytes: Bytes, telegrams: seq<Telegram>, m: Bytes, rest: Bytes)
    requires Draining(bytes, telegrams, m + rest)
    requires if m == [] then !KnxdClient.HasMessage(rest) else Framed(m) && TelegramIn(m) == None
    ensures telegrams == KnxdClient.Drained(bytes) && rest == KnxdClient.Left(bytes)
  {
    hide KnxdClient.Drained, KnxdClient.Left, TelegramIn, Framed, KnxdClient.HasMessage;
    if m == [] {
      assert m + rest == rest;
      KnxdClient.EmptyDrain(rest);
    } else {
      KnxdClient.DrainStep(m, rest);
    }
    assert telegrams + [] == telegrams;
  }

  /** One poll of a drain: `m` is the message it took, if any. */
  method PollOnce(receiver: KnxdClient.Receiver, inputs: seq<KnxdClient.Input>)
    returns (t: Option<Telegram>, used: nat, ghost m: Bytes)
    requires receiver.Valid() && Readable(inputs)
    modifies receiver
    ensures receiver.Valid() && used <= |inputs|
    ensures if m == [] then t == None && used == |inputs| && !KnxdClient.HasMessage(receiver.buffer)
            else Framed(m) && t == TelegramIn(m)
    ensures old(receiver.buffer) + KnxdClient.Delivered(inputs) ==
            m + (receiver.buffer + KnxdClient.Delivered(inputs[used..]))
    ensures m != [] && used == 0 ==> |receiver.buffer| < |old(receiver.buffer)|
  {
    hide KnxdClient.Delivered, KnxdClient.HasMessage, TelegramIn, KnxdClient.Receiver.Valid;
    t, used := receiver.PollGroupTelegram(inputs);
    m := if receiver.returned == old(receiver.returned) then [] else receiver.returned[|receiver.returned| - 1];
    StreamStep(old(receiver.buffer), inputs, used, m, receiver.buffer);
    if m != [] && used == 0 {
      KnxdClient.NothingDelivered(inputs);
      assert |old(receiver.buffer)| == |m + receiver.buffer|;
    }
  }

  /** Pushes one telegram, unless it is a read request or too short. */
  method PushTelegram(t: Telegram, time: int, drained: seq<Timed>, pushed: Log) returns (more: Log)
    requires pushed == PushesOf(drained)
    ensures more == PushesOf(drained + [Timed(t, time)])
  {
    PushesStep(drained, Timed(t, time));
    hide PushesOf;
    more := pushed;
    var parsed := ParseApdu(t.apdu);
    if parsed.None? || parsed.value.0 == READ {
      return;
    }
    more := more + [Push(t.addr, parsed.value.1, time)];
  }

  /** The loop over the pending telegrams. `inputs` are the reads that bring data before the
      socket would block; `pushed` are the calls of `push` in order. The loop ends at the first
      message that carries no telegram, and what follows it is left for later. */
  method DrainTelegrams(receiver: KnxdClient.Receiver, inputs: seq<KnxdClient.Input>, clock: nat -> int)
    returns (pushed: Log, drained: seq<Timed>, used: nat)
    requires receiver.Valid() && Readable(inputs)
    modifies receiver
    ensures receiver.Valid() && used <= |inputs|
    ensures var bytes := old(receiver.buffer) + KnxdClient.Delivered(inputs);
            && drained == Stamped(KnxdClient.Drained(bytes), clock) && pushed == PushesOf(drained)
            && receiver.buffer + KnxdClient.Delivered(inputs[used..]) == KnxdClient.Left(bytes)
  {
    hide Draining, KnxdClient.Drained, KnxdClient.Left, KnxdClient.Delivered, KnxdClient.HasMessage, PushesOf, Stamped,
         TelegramIn, Framed, KnxdClient.Receiver.Valid;
    ghost var bytes := receiver.buffer + KnxdClient.Delivered(inputs);
    var telegrams: seq<Telegram> := [];
    pushed, drained, used := [], [], 0;
    NothingDrained(clock);
    DrainBegins(bytes);
    assert inputs[0..] == inputs;
    while true
      invariant used <= |inputs| && receiver.Valid()
      invariant drained == Stamped(telegrams, clock) && pushed == PushesOf(drained)
      invariant Draining(bytes, telegrams, receiver.buffer + KnxdClient.Delivered(inputs[used..]))
      decreases |inputs| - used, |receiver.buffer|
    {
      ghost var m;
      var t, n;
      t, n, m := PollOnce(receiver, inputs[used..]);
      assert inputs[used..][n..] == inputs[used + n..];
      used := used + n;
      ghost var rest := receiver.buffer + KnxdClient.Delivered(inputs[used..]);
      if t.None? {
        if m == [] {
          assert inputs[used..] == [];
          NothingUnread(receiver.buffer);
        }
        DrainEnds(bytes, telegrams, m, rest);
        return;
      }
      DrainGoesOn(bytes, telegrams, m, rest, t.value);
      StampedAppend(telegrams, t.value, clock);
      pushed := PushTelegram(t.value, clock(|telegrams|), drained, pushed);
      drained := drained + [Timed(t.value, clock(|telegrams|))];
      telegrams := telegrams + [t.value];
    }
  }

  lemma NothingDrained(clock: nat -> int)
    ensures Stamped([], clock) == [] && PushesOf([]) == []
  {}

  lemma {:induction false} PushesAppend(a: seq<Timed>, b: seq<Timed>)
    ensures PushesOf(a + b) == PushesOf(a) + PushesOf(b)
  {
    if b == [] {
      assert a + b == a;
    } else {
      assert (a + b)[..|a + b| - 1] == a + b[..|b| - 1];
      PushesAppend(a, b[..|b| - 1]);
    }
  }

  /** A drain of one delivered telegram pushes exactly what its control byte says. */
  lemma TelegramIsPushed(source: Word16, addr: Address, first: Byte, control: Byte, value: Bytes, clock: nat -> int)
    requires |value| <= 0xfff7
    ensures PushesOf(Stamped(KnxdClient.Drained(ApduPacket(source, addr, [first, control] + value)), clock)) ==
            if control < 0x40 then []
            else [Push(addr, if control >= 0xc0 then [] else if value == [] then [control % 64] else value, clock(0))]
  {
    var apdu := [first, control] + value;
    var m, t := ApduPacket(source, addr, apdu), Telegram(addr, apdu);
    TelegramRoundTrip(source, addr, apdu);
    CacheValueIs(first, control, value);
    hide ApduPacket, TelegramIn, Framed, KnxdClient.Drained, PushesOf, CacheValue;
    KnxdClient.DrainStep(m, []);
    NothingLeft();
    assert m + [] == m && [t] + [] == [t] && [] + [t] == [t];
    StampedAppend([], t, clock);
    NothingDrained(clock);
    PushesStep([], Timed(t, clock(0)));
    assert [] + [Timed(t, clock(0))] == [Timed(t, clock(0))];
  }

  lemma NothingLeft()
    ensures KnxdClient.Drained([]) == []
  {}

  // ---- The reconnect loop ----

  datatype WaitResult = Timeout | GroupData | Lost

  /** What one iteration meets: the stop flag, the results of `connect` and
      `open_group_socket`, the looks at the stop flag during a sleep, the result of
      `wait_for_activity`, the reads that bring data then, and the clock of the pushes.
      `early` is what the handshake has read beyond its own message. */
  datatype Turn = Turn(stop: bool, connects: bool, opens: bool, early: Bytes, sleepStops: seq<bool>,
                       wait: WaitResult, inputs: seq<KnxdClient.Input>, clock: nat -> int)

  /** What an observer sees. A connection attempt is good when the group socket opened too. */
  datatype Event = Connect(good: bool) | Sleep(ms: int, slept: int, interrupted: bool) | Wait(result: WaitResult)

  datatype Options = Options(waitTimeoutMs: int, backoffMs: int, maxBackoffMs: int, sliceMs: int)

  function Initial(o: Options): int {
    Max(1, o.backoffMs)
  }

  function Limit(o: Options): int {
    Max(Initial(o), o.maxBackoffMs)
  }

  function Power2(k: nat): nat {
    if k == 0 then 1 else 2 * Power2(k - 1)
  }

  /** The delay before the k-th reconnect after the connection was last good. */
  function Backoff(o: Options, k: nat): int {
    Min(Initial(o) * Power2(k), Limit(o))
  }

  function SleepsAfter(before: nat, e: Event): nat {
    match e
    case Connect(good) => if good then 0 else before
    case Sleep(_, _, _) => before + 1
    case Wait(_) => before
  }

  /** The sleeps since the last good connection, or since the start. */
  function SleepsSinceGood(trace: seq<Event>): nat {
    if trace == [] then 0 else SleepsAfter(SleepsSinceGood(trace[..|trace| - 1]), trace[|trace| - 1])
  }

  /** Every sleep has exactly the exponential length, and is cut short only by a stop. */
  ghost predicate BacksOff(o: Options, trace: seq<Event>) {
    forall i | 0 <= i < |trace| && trace[i].Sleep? ::
      && trace[i].ms == Backoff(o, SleepsSinceGood(trace[..i]))
      && (trace[i].slept == trace[i].ms || (trace[i].interrupted && trace[i].slept < trace[i].ms))
  }

  ghost predicate SleepBetween(trace: seq<Event>, i: nat, j: nat)
    requires j <= |trace|
  {
    exists k :: i < k < j && trace[k].Sleep?
  }

  /** Between two connection attempts there is a sleep. */
  ghost predicate NeverSpins(trace: seq<Event>) {
    forall i, j | 0 <= i < j < |trace| && trace[i].Connect? && trace[j].Connect? :: SleepBetween(trace, i, j)
  }

  /** No connection attempt since the last sleep. */
  ghost predicate Rested(trace: seq<Event>) {
    forall i | 0 <= i < |trace| && trace[i].Connect? :: SleepBetween(trace, i, |trace|)
  }

  lemma BackoffDoubles(o: Options, k: nat)
    ensures Min(Backoff(o, k) * 2, Limit(o)) == Backoff(o, k + 1)
    ensures Backoff(o, 0) == Initial(o)
    ensures Initial(o) <= Backoff(o, k) <= Limit(o)
  {
    PowerIsPositive(k);
    assert Initial(o) * Power2(k + 1) == 2 * (Initial(o) * Power2(k));
    assert Initial(o) * Power2(k) >= Initial(o);
  }

  lemma {:induction false} PowerIsPositive(k: nat)
    ensures Power2(k) >= 1
  {
    if k > 0 {
      PowerIsPositive(k - 1);
    }
  }

  lemma {:induction false} PowerGrows(k: nat)
    ensures Power2(k) > k
  {
    if k > 0 {
      PowerGrows(k - 1);
    }
  }

  /** The doubling stays within a 32-bit int, however often it happens, exactly when the
      larger of the two configured delays is below 2^30 ms. */
  lemma DoublingFitsExactlyWhen(o: Options)
    ensures (forall k: nat :: Backoff(o, k) * 2 <= 0x7fff_ffff) <==> Limit(o) < 0x4000_0000
  {
    hide Power2;
    if Limit(o) < 0x4000_0000 {
      forall k: nat ensures Backoff(o, k) * 2 <= 0x7fff_ffff {
        BackoffDoubles(o, k);
      }
    } else {
      var k := Limit(o);
      PowerGrows(k);
      assert Initial(o) * Power2(k) >= Power2(k);
      assert Backoff(o, k) == k;
    }
  }

  /** Waits happen only while the connection is good. */
  ghost predicate WaitsConnected(trace: seq<Event>) {
    forall i | 0 <= i < |trace| && trace[i].Wait? :: SleepsSinceGood(trace[..i]) == 0
  }

  /** What a trace promises. */
  ghost predicate Sound(o: Options, trace: seq<Event>) {
    BacksOff(o, trace) && NeverSpins(trace) && WaitsConnected(trace)
  }

  /** The state of the loop after a trace. */
  ghost predicate Consistent(o: Options, trace: seq<Event>, backoffMs: int, connected: bool) {
    && Sound(o, trace)
    && backoffMs == Backoff(o, SleepsSinceGood(trace))
    && if connected then SleepsSinceGood(trace) == 0 && backoffMs == Initial(o) else Rested(trace)
  }

  predicate Proper(o: Options, trace: seq<Event>, e: Event) {
    match e
    case Connect(_) => true
    case Wait(_) => SleepsSinceGood(trace) == 0
    case Sleep(ms, slept, interrupted) =>
      ms == Backoff(o, SleepsSinceGood(trace)) && (slept == ms || (interrupted && slept < ms))
  }

  lemma AppendKeepsSound(o: Options, trace: seq<Event>, e: Event)
    requires Sound(o, trace) && Proper(o, trace, e) && (e.Connect? ==> Rested(trace))
    ensures Sound(o, trace + [e])
    ensures SleepsSinceGood(trace + [e]) == SleepsAfter(SleepsSinceGood(trace), e)
    ensures e.Sleep? ==> Rested(trace + [e])
  {
    hide NeverSpins, SleepBetween;
    AppendKeepsBackoff(o, trace, e);
    AppendKeepsSpacing(trace, e);
    assert (trace + [e])[..|trace|] == trace;
    if e.Sleep? {
      SleepRests(trace, e);
    }
  }

  lemma AppendKeepsBackoff(o: Options, trace: seq<Event>, e: Event)
    requires BacksOff(o, trace) && WaitsConnected(trace) && Proper(o, trace, e)
    ensures BacksOff(o, trace + [e]) && WaitsConnected(trace + [e])
  {
    hide Backoff, SleepsSinceGood;
    var t := trace + [e];
    assert t[..|trace|] == trace;
    forall i | 0 <= i < |trace| ensures t[..i] == trace[..i] && t[i] == trace[i] {}
  }

  lemma SleepRests(trace: seq<Event>, e: Event)
    requires e.Sleep?
    ensures Rested(trace + [e])
  {
    var t := trace + [e];
    forall i | 0 <= i < |t| && t[i].Connect? ensures SleepBetween(t, i, |t|) {
      assert t[|trace|].Sleep?;
    }
  }

  lemma SleepStays(trace: seq<Event>, e: Event, i: nat, j: nat)
    requires j <= |trace| && SleepBetween(trace, i, j)
    ensures SleepBetween(trace + [e], i, j)
  {
    var k :| i < k < j && trace[k].Sleep?;
    assert (trace + [e])[k].Sleep?;
  }

  lemma AppendKeepsSpacing(trace: seq<Event>, e: Event)
    requires NeverSpins(trace) && (e.Connect? ==> Rested(trace))
    ensures NeverSpins(trace + [e])
  {
    hide SleepBetween;
    var t := trace + [e];
    forall i, j | 0 <= i < j < |t| && t[i].Connect? && t[j].Connect? ensures SleepBetween(t, i, j) {
      assert t[i] == trace[i];
      assert j < |trace| ==> t[j] == trace[j];
      SleepStays(trace, e, i, j);
    }
  }

  lemma AfterGoodConnect(o: Options, trace: seq<Event>, backoffMs: int)
    requires Consistent(o, trace, backoffMs, false)
    ensures Consistent(o, trace + [Connect(true)], Initial(o), true)
  {
    hide Sound, Backoff, Rested;
    AppendKeepsSound(o, trace, Connect(true));
    BackoffDoubles(o, 0);
  }

  lemma AfterBadConnect(o: Options, trace: seq<Event>, backoffMs: int, slept: int, interrupted: bool)
    requires Consistent(o, trace, backoffMs, false)
    requires slept == backoffMs || (interrupted && slept < backoffMs)
    ensures Consistent(o, trace + [Connect(false)] + [Sleep(backoffMs, slept, interrupted)],
                       Min(backoffMs * 2, Limit(o)), false)
  {
    hide Sound, Backoff, Rested;
    AppendKeepsSound(o, trace, Connect(false));
    AppendKeepsSound(o, trace + [Connect(false)], Sleep(backoffMs, slept, interrupted));
    BackoffDoubles(o, SleepsSinceGood(trace));
  }

  lemma AfterWait(o: Options, trace: seq<Event>, backoffMs: int, result: WaitResult)
    requires Consistent(o, trace, backoffMs, true)
    ensures Consistent(o, trace + [Wait(result)], backoffMs, true) && backoffMs == Initial(o)
  {
    hide Sound, Backoff, Rested;
    AppendKeepsSound(o, trace, Wait(result));
  }

  lemma AfterLoss(o: Options, trace: seq<Event>, backoffMs: int, slept: int, interrupted: bool)
    requires Consistent(o, trace, backoffMs, true)
    requires slept == backoffMs || (interrupted && slept < backoffMs)
    ensures Consistent(o, trace + [Sleep(backoffMs, slept, interrupted)], Min(backoffMs * 2, Limit(o)), false)
  {
    hide Sound, Backoff, Rested;
    AppendKeepsSound(o, trace, Sleep(backoffMs, slept, interrupted));
    BackoffDoubles(o, 0);
  }

  lemma BackoffIsPositive(o: Options, trace: seq<Event>, backoffMs: int, connected: bool)
    requires Consistent(o, trace, backoffMs, connected)
    ensures 1 <= Initial(o) <= backoffMs <= Limit(o)
  {
    hide Sound, Rested;
    BackoffDoubles(o, SleepsSinceGood(trace));
  }

  lemma Beginning(o: Options)
    ensures Consistent(o, [], Initial(o), false)
  {
    BackoffDoubles(o, 0);
  }

  // ---- What the loop does with what it meets ----

  /** The connection attempts and waits of a trace. */
  function Actions(trace: seq<Event>): seq<Event> {
    if trace == [] then [] else
    var before, e := Actions(trace[..|trace| - 1]), trace[|trace| - 1];
    if e.Sleep? then before else before + [e]
  }

  /** Whether the last action left the reader connected. */
  predicate Up(actions: seq<Event>) {
    actions != [] && match actions[|actions| - 1]
                     case Connect(good) => good
                     case Wait(result) => result != Lost
                     case Sleep(_, _, _) => false
  }

  /** What the next action has to be. */
  function Action(turn: Turn, actions: seq<Event>): Event {
    if Up(actions) then Wait(turn.wait) else Connect(turn.connects && turn.opens)
  }

  /** One action per turn, each with the outcome the environment gave it. */
  ghost predicate Follows(turns: seq<Turn>, actions: seq<Event>) {
    && |actions| <= |turns|
    && forall k | 0 <= k < |actions| :: !turns[k].stop && actions[k] == Action(turns[k], actions[..k])
  }

  /** The telegrams drained so far, and the bytes of the connection behind them, read or not. */
  datatype Stream = Stream(drained: seq<Timed>, left: Bytes)

  /** How an action changes the stream: a connection starts with what the handshake left, and
      ends with what was not drained; a wait that reports data leads to one drain. */
  function Streamed(turn: Turn, e: Event, s: Stream): Stream {
    match e
    case Connect(good) => s.(left := if good then turn.early else [])
    case Wait(Lost) => s.(left := [])
    case Wait(GroupData) =>
      var bytes := s.left + KnxdClient.Delivered(turn.inputs);
      Stream(s.drained + Stamped(KnxdClient.Drained(bytes), turn.clock), KnxdClient.Left(bytes))
    case _ => s
  }

  function StreamAfter(turns: seq<Turn>, actions: seq<Event>): Stream
    requires |actions| <= |turns|
  {
    if actions == [] then Stream([], []) else
    var n := |actions| - 1;
    Streamed(turns[n], actions[n], StreamAfter(turns, actions[..n]))
  }

  /** The part of the loop's state that depends on its surroundings. */
  ghost predicate Tracks(turns: seq<Turn>, actions: seq<Event>, connected: bool, stream: Stream) {
    Follows(turns, actions) && connected == Up(actions) && stream == StreamAfter(turns, actions)
  }

  lemma FollowsOn(turns: seq<Turn>, actions: seq<Event>)
    requires Follows(turns, actions) && |actions| < |turns| && !turns[|actions|].stop
    ensures Follows(turns, actions + [Action(turns[|actions|], actions)])
  {
    hide Action;
    var more := actions + [Action(turns[|actions|], actions)];
    forall k | 0 <= k < |more| ensures !turns[k].stop && more[k] == Action(turns[k], more[..k]) {
      assert more[..k] == actions[..k];
      assert actions[..|actions|] == actions;
    }
  }

  lemma StreamOn(turns: seq<Turn>, actions: seq<Event>, e: Event)
    requires |actions| < |turns|
    ensures StreamAfter(turns, actions + [e]) == Streamed(turns[|actions|], e, StreamAfter(turns, actions))
  {
    hide Streamed;
    assert (actions + [e])[..|actions|] == actions;
  }

  lemma NextAction(turns: seq<Turn>, actions: seq<Event>, connected: bool, stream: Stream)
    requires Tracks(turns, actions, connected, stream) && |actions| < |turns| && !turns[|actions|].stop
    ensures var turn := turns[|actions|];
            var e := if connected then Wait(turn.wait) else Connect(turn.connects && turn.opens);
            Tracks(turns, actions + [e], if e.Wait? then e.result != Lost else e.good, Streamed(turn, e, stream))
  {
    FollowsOn(turns, actions);
    StreamOn(turns, actions, Action(turns[|actions|], actions));
    hide Streamed, StreamAfter, Follows;
  }

  /** What the actions are: the first one connects; a wait comes exactly after a good
      connection and after a wait that did not find it lost; each has the outcome that its
      turn gave it. */
  lemma ActionsAre(turns: seq<Turn>, actions: seq<Event>, k: nat)
    requires Follows(turns, actions) && k < |actions|
    ensures actions[k] == Wait(turns[k].wait) || actions[k] == Connect(turns[k].connects && turns[k].opens)
    ensures k == 0 ==> actions[k].Connect?
    ensures k > 0 ==>
              (actions[k].Wait? <==> actions[k - 1] in {Connect(true), Wait(Timeout), Wait(GroupData)})
  {
    assert actions[k] == Action(turns[k], actions[..k]);
    if k > 0 {
      assert actions[k - 1] == Action(turns[k - 1], actions[..k - 1]);
    }
  }

  // ---- What arrives over one connection ----

  /** The bytes that have arrived over the connection opened by action `c`: what the handshake
      left, and the reads of all waits with data since. */
  function Arrived(turns: seq<Turn>, actions: seq<Event>, c: nat): Bytes
    requires c < |actions| <= |turns|
    decreases |actions|
  {
    var n := |actions| - 1;
    if n == c then turns[c].early
    else Arrived(turns, actions[..n], c) + if actions[n] == Wait(GroupData) then KnxdClient.Delivered(turns[n].inputs) else []
  }

  /** Every whole message at the front of these bytes carries a telegram. */
  ghost predicate Clean(bytes: Bytes) {
    forall sent, rest | KnxdClient.AllFramed(sent) && bytes == KnxdClient.Flatten(sent) + rest ::
      KnxdClient.FirstBare(sent) == |sent|
  }

  lemma CleanPrefix(bytes: Bytes, more: Bytes)
    requires Clean(bytes + more)
    ensures Clean(bytes)
  {
    hide KnxdClient.AllFramed, KnxdClient.FirstBare, KnxdClient.Flatten;
    forall sent, rest | KnxdClient.AllFramed(sent) && bytes == KnxdClient.Flatten(sent) + rest
      ensures KnxdClient.FirstBare(sent) == |sent|
    {
      KnxdClient.Regroup(KnxdClient.Flatten(sent), rest, more);
    }
  }

  function Untimed(drained: seq<Timed>): seq<Telegram> {
    seq(|drained|, i requires 0 <= i < |drained| => drained[i].telegram)
  }

  lemma UntimedAppend(drained: seq<Timed>, telegrams: seq<Telegram>, clock: nat -> int)
    ensures Untimed(drained + Stamped(telegrams, clock)) == Untimed(drained) + telegrams
  {}

  /** `msgs` are the messages drained so far, and `left` is what has arrived behind them. */
  ghost predicate Accounted(arrived: Bytes, base: seq<Telegram>, stream: Stream, msgs: seq<Bytes>) {
    && KnxdClient.AllFramed(msgs) && arrived == KnxdClient.Flatten(msgs) + stream.left
    && Untimed(stream.drained) == base + KnxdClient.TelegramsIn(msgs)
  }

  lemma DrainAccounted(arrived: Bytes, base: seq<Telegram>, stream: Stream, msgs: seq<Bytes>, turn: Turn)
    returns (more: seq<Bytes>)
    requires Accounted(arrived, base, stream, msgs) && Clean(arrived + KnxdClient.Delivered(turn.inputs))
    ensures Accounted(arrived + KnxdClient.Delivered(turn.inputs), base, Streamed(turn, Wait(GroupData), stream), more)
    ensures !KnxdClient.HasMessage(Streamed(turn, Wait(GroupData), stream).left)
  {
    hide KnxdClient.Drained, KnxdClient.Left, KnxdClient.HasMessage, KnxdClient.Flatten, KnxdClient.TelegramsIn,
         KnxdClient.FirstBare, KnxdClient.Delivered, Framed, Untimed, Stamped;
    var x := KnxdClient.Delivered(turn.inputs);
    var sent, rest := KnxdClient.Decompose(stream.left + x);
    more := msgs + sent;
    KnxdClient.FlattenConcat(msgs, sent);
    KnxdClient.Regroup(KnxdClient.Flatten(msgs), stream.left, x);
    KnxdClient.Regroup(KnxdClient.Flatten(msgs), KnxdClient.Flatten(sent), rest);
    assert KnxdClient.FirstBare(more) == |more|;
    KnxdClient.NoBareTail(msgs, sent);
    KnxdClient.DrainTakes(sent, rest);
    assert sent[..|sent|] == sent;
    KnxdClient.TelegramsSplit(more, |msgs|);
    assert more[..|msgs|] == msgs && more[|msgs|..] == sent;
    UntimedAppend(stream.drained, KnxdClient.TelegramsIn(sent), turn.clock);
    assert base + KnxdClient.TelegramsIn(msgs) + KnxdClient.TelegramsIn(sent) ==
           base + (KnxdClient.TelegramsIn(msgs) + KnxdClient.TelegramsIn(sent));
  }

  lemma {:induction false} ConnectionIsAccounted(turns: seq<Turn>, actions: seq<Event>, c: nat) returns (msgs: seq<Bytes>)
    requires c < |actions| <= |turns| && actions[c] == Connect(true)
    requires forall k | c < k < |actions| :: actions[k] in {Wait(Timeout), Wait(GroupData)}
    requires Clean(Arrived(turns, actions, c))
    ensures Accounted(Arrived(turns, actions, c), Untimed(StreamAfter(turns, actions[..c]).drained),
                      StreamAfter(turns, actions), msgs)
    ensures actions[|actions| - 1] == Wait(GroupData) ==> !KnxdClient.HasMessage(StreamAfter(turns, actions).left)
    decreases |actions|
  {
    hide Clean, KnxdClient.HasMessage, KnxdClient.Drained, KnxdClient.Left, KnxdClient.Delivered, Untimed, Stamped;
    var n := |actions| - 1;
    if n == c {
      msgs := [];
      NothingAccounted(turns[c].early, Untimed(StreamAfter(turns, actions[..c]).drained), StreamAfter(turns, actions));
    } else {
      var before := actions[..n];
      assert before[..c] == actions[..c];
      var added := if actions[n] == Wait(GroupData) then KnxdClient.Delivered(turns[n].inputs) else [];
      CleanPrefix(Arrived(turns, before, c), added);
      msgs := ConnectionIsAccounted(turns, before, c);
      hide Accounted;
      if actions[n] == Wait(GroupData) {
        msgs := DrainAccounted(Arrived(turns, before, c), Untimed(StreamAfter(turns, actions[..c]).drained),
                               StreamAfter(turns, before), msgs, turns[n]);
      } else {
        assert Arrived(turns, before, c) + [] == Arrived(turns, before, c);
      }
    }
  }

  lemma NothingAccounted(early: Bytes, base: seq<Telegram>, stream: Stream)
    requires stream.left == early && Untimed(stream.drained) == base
    ensures Accounted(early, base, stream, [])
  {
    hide Untimed;
    assert KnxdClient.Flatten([]) + early == early && base + KnxdClient.TelegramsIn([]) == base;
  }

  /** However the bytes of a connection are spread over its waits: after a wait with data, the
      telegrams drained since it was opened are exactly those of all whole messages that have
      arrived, as long as every message carries one. */
  lemma ConnectionDrains(turns: seq<Turn>, actions: seq<Event>, c: nat)
    requires c < |actions| - 1 < |turns| && actions[c] == Connect(true)
    requires forall k | c < k < |actions| :: actions[k] in {Wait(Timeout), Wait(GroupData)}
    requires actions[|actions| - 1] == Wait(GroupData) && Clean(Arrived(turns, actions, c))
    ensures Untimed(StreamAfter(turns, actions).drained) ==
            Untimed(StreamAfter(turns, actions[..c]).drained) + KnxdClient.Drained(Arrived(turns, actions, c))
    ensures StreamAfter(turns, actions).left == KnxdClient.Left(Arrived(turns, actions, c))
  {
    hide Untimed, StreamAfter, Arrived, KnxdClient.Drained, KnxdClient.Left, KnxdClient.HasMessage, Framed,
         KnxdClient.FirstBare;
    var msgs := ConnectionIsAccounted(turns, actions, c);
    assert KnxdClient.FirstBare(msgs) == |msgs|;
    KnxdClient.DrainTakes(msgs, StreamAfter(turns, actions).left);
    assert msgs[..|msgs|] == msgs;
  }

  lemma ActionsAppend(trace: seq<Event>, e: Event)
    ensures Actions(trace + [e]) == if e.Sleep? then Actions(trace) else Actions(trace) + [e]
  {
    assert (trace + [e])[..|trace|] == trace;
  }

  /** The loop invariant. */
  ghost predicate Looping(o: Options, turns: seq<Turn>, n: nat, trace: seq<Event>, backoffMs: int,
                          connected: bool, stream: Stream)
  {
    && Consistent(o, trace, backoffMs, connected)
    && |Actions(trace)| == n <= |turns|
    && Tracks(turns, Actions(trace), connected, stream)
  }

  lemma Starts(o: Options, turns: seq<Turn>)
    ensures Looping(o, turns, 0, [], Initial(o), false, Stream([], []))
  {
    Beginning(o);
  }

  lemma Connected(o: Options, turns: seq<Turn>, n: nat, trace: seq<Event>, backoffMs: int, stream: Stream)
    requires Looping(o, turns, n, trace, backoffMs, false, stream)
    requires n < |turns| && !turns[n].stop && turns[n].connects && turns[n].opens
    ensures Looping(o, turns, n + 1, trace + [Connect(true)], Initial(o), true, stream.(left := turns[n].early))
  {
    hide Consistent, Tracks, Actions;
    AfterGoodConnect(o, trace, backoffMs);
    NextAction(turns, Actions(trace), false, stream);
    ActionsAppend(trace, Connect(true));
  }

  lemma FailedToConnect(o: Options, turns: seq<Turn>, n: nat, trace: seq<Event>, backoffMs: int,
                        stream: Stream, slept: int, stopped: bool)
    requires Looping(o, turns, n, trace, backoffMs, false, stream)
    requires n < |turns| && !turns[n].stop && !(turns[n].connects && turns[n].opens)
    requires slept == backoffMs || (stopped && slept < backoffMs)
    ensures Looping(o, turns, n + 1, trace + [Connect(false)] + [Sleep(backoffMs, slept, stopped)],
                    Min(backoffMs * 2, Limit(o)), false, stream.(left := []))
  {
    hide Consistent, Tracks, Actions;
    AfterBadConnect(o, trace, backoffMs, slept, stopped);
    NextAction(turns, Actions(trace), false, stream);
    ActionsAppend(trace, Connect(false));
    ActionsAppend(trace + [Connect(false)], Sleep(backoffMs, slept, stopped));
  }

  lemma Waited(o: Options, turns: seq<Turn>, n: nat, trace: seq<Event>, backoffMs: int, stream: Stream)
    requires Looping(o, turns, n, trace, backoffMs, true, stream)
    requires n < |turns| && !turns[n].stop && turns[n].wait != Lost
    ensures backoffMs == Initial(o)
    ensures Looping(o, turns, n + 1, trace + [Wait(turns[n].wait)], backoffMs, true,
                    Streamed(turns[n], Wait(turns[n].wait), stream))
  {
    assert backoffMs == Initial(o);
    hide Consistent, Tracks, Actions, Streamed;
    AfterWait(o, trace, backoffMs, turns[n].wait);
    NextAction(turns, Actions(trace), true, stream);
    ActionsAppend(trace, Wait(turns[n].wait));
  }

  lemma LostConnection(o: Options, turns: seq<Turn>, n: nat, trace: seq<Event>, backoffMs: int,
                       stream: Stream, slept: int, stopped: bool)
    requires Looping(o, turns, n, trace, backoffMs, true, stream)
    requires n < |turns| && !turns[n].stop && turns[n].wait == Lost
    requires slept == backoffMs || (stopped && slept < backoffMs)
    ensures Looping(o, turns, n + 1, trace + [Wait(Lost)] + [Sleep(backoffMs, slept, stopped)],
                    Min(backoffMs * 2, Limit(o)), false, stream.(left := []))
  {
    hide Consistent, Tracks, Actions;
    AfterWait(o, trace, backoffMs, Lost);
    AfterLoss(o, trace + [Wait(Lost)], backoffMs, slept, stopped);
    NextAction(turns, Actions(trace), true, stream);
    ActionsAppend(trace, Wait(Lost));
    ActionsAppend(trace + [Wait(Lost)], Sleep(backoffMs, slept, stopped));
  }

  lemma LoopingIs(o: Options, turns: seq<Turn>, n: nat, trace: seq<Event>, backoffMs: int,
                  connected: bool, stream: Stream)
    requires Looping(o, turns, n, trace, backoffMs, connected, stream)
    ensures Sound(o, trace) && Follows(turns, Actions(trace)) && |Actions(trace)| == n
    ensures stream == StreamAfter(turns, Actions(trace))
    ensures backoffMs > 0
  {
    BackoffIsPositive(o, trace, backoffMs, connected);
  }

  /** What the socket can have done. */
  predicate Possible(turn: Turn) {
    |turn.early| <= KnxdClient.BUFFER_BOUND && Readable(turn.inputs)
  }

  /** The main loop, for as many iterations as `turns` has. It acts once per turn until a turn
      finds the stop flag set, its sleeps keep the backoff rules, and it pushes what its
      drains take off the streams of its connections. Reads that a drain has left for later
      come first in the next one. */
  method RunCacheReader(o: Options, turns: seq<Turn>) returns (trace: seq<Event>, drained: seq<Timed>, pushed: Log)
    requires forall k | 0 <= k < |turns| :: Possible(turns[k])
    ensures Sound(o, trace)
    ensures Follows(turns, Actions(trace))
    ensures |Actions(trace)| < |turns| ==> turns[|Actions(trace)|].stop
    ensures drained == StreamAfter(turns, Actions(trace)).drained && pushed == PushesOf(drained)
  {
    hide Looping, PushesOf, Sound, Follows, Actions, StreamAfter, KnxdClient.Drained, KnxdClient.Left, Stamped,
         KnxdClient.Receiver.Valid, KnxdClient.Delivered;
    Starts(o, turns);
    NothingDrained(_ => 0);
    var backoffMs, connected := Initial(o), false;
    trace, drained, pushed := [], [], [];
    ghost var stream := Stream([], []);
    var receiver := new KnxdClient.Receiver();
    var unread: seq<KnxdClient.Input> := [];
    NothingUnread([]);
    var n := 0;
    while n < |turns|
      invariant 0 <= n <= |turns| && Looping(o, turns, n, trace, backoffMs, connected, stream)
      invariant fresh(receiver) && receiver.Valid() && Readable(unread)
      invariant receiver.buffer + KnxdClient.Delivered(unread) == stream.left
      invariant drained == stream.drained && pushed == PushesOf(drained)
    {
      var turn := turns[n];
      if turn.stop {
        break;
      }
      LoopingIs(o, turns, n, trace, backoffMs, connected, stream);
      n := n + 1;
      if !connected {
        if turn.connects && turn.opens {
          Connected(o, turns, n - 1, trace, backoffMs, stream);
          trace, stream := trace + [Connect(true)], stream.(left := turn.early);
          receiver, unread := Open(turn.early);
          connected := true;
          backoffMs := Initial(o);
          continue;
        }
        var chunks, stopped := SleepInterruptible(backoffMs, o.sliceMs, turn.sleepStops);
        FailedToConnect(o, turns, n - 1, trace, backoffMs, stream, Total(chunks), stopped);
        trace := trace + [Connect(false)] + [Sleep(backoffMs, Total(chunks), stopped)];
        stream := stream.(left := []);
        receiver, unread := Open([]);
        backoffMs := Min(backoffMs * 2, Limit(o));
        continue;
      }
      match turn.wait {
        case GroupData =>
          Waited(o, turns, n - 1, trace, backoffMs, stream);
          DeliveredTogether(receiver.buffer, unread, turn.inputs);
          unread := unread + turn.inputs;
          var calls, telegrams, used := DrainTelegrams(receiver, unread, turn.clock);
          unread := unread[used..];
          PushesAppend(drained, telegrams);
          trace, stream := trace + [Wait(GroupData)], Streamed(turn, Wait(GroupData), stream);
          drained, pushed := drained + telegrams, pushed + calls;
          if |calls| > 0 {
            backoffMs := Initial(o);
          }
        case Timeout =>
          Waited(o, turns, n - 1, trace, backoffMs, stream);
          trace := trace + [Wait(Timeout)];
        case Lost =>
          connected := false;
          var chunks, stopped := SleepInterruptible(backoffMs, o.sliceMs, turn.sleepStops);
          LostConnection(o, turns, n - 1, trace, backoffMs, stream, Total(chunks), stopped);
          trace := trace + [Wait(Lost)] + [Sleep(backoffMs, Total(chunks), stopped)];
          stream := stream.(left := []);
          receiver, unread := Open([]);
          backoffMs := Min(backoffMs * 2, Limit(o));
      }
    }
    LoopingIs(o, turns, n, trace, backoffMs, connected, stream);
  }

  /** The read buffer of a connection, and no reads yet. */
  method Open(early: Bytes) returns (receiver: KnxdClient.Receiver, unread: seq<KnxdClient.Input>)
    requires |early| <= KnxdClient.BUFFER_BOUND
    ensures fresh(receiver) && receiver.Valid() && Readable(unread)
    ensures receiver.buffer + KnxdClient.Delivered(unread) == early
  {
    receiver := new KnxdClient.Receiver.After(early);
    unread := [];
    NothingUnread(early);
  }

  lemma NothingUnread(buffer: Bytes)
    ensures buffer + KnxdClient.Delivered([]) == buffer
  {}

  lemma DeliveredTogether(buffer: Bytes, first: seq<KnxdClient.Input>, more: seq<KnxdClient.Input>)
    ensures buffer + KnxdClient.Delivered(first + more) ==
            buffer + KnxdClient.Delivered(first) + KnxdClient.Delivered(more)
  {
    hide KnxdClient.Delivered;
    var all := first + more;
    KnxdClient.DeliveredParts(all, |first|);
    assert all[..|first|] == first && all[|first|..] == more;
    KnxdClient.Regroup(buffer, KnxdClient.Delivered(first), KnxdClient.Delivered(more));
  }
}
