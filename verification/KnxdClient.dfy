/** Reassembly of messages from the knxd socket. The kernel hands over any number of bytes
    per read; the client keeps what is incomplete in `buffer`. */
module KnxdClient {
  import opened Basics
  import opened KnxdProtocol

  const READ_CHUNK := 4096
  const MAX_BUFFER := 1_048_576

  /** The largest buffer that can build up: one byte short of the longest message, plus a read. */
  const BUFFER_BOUND := 69_632

  /** What one `read` call returns. */
  datatype Input = Data(bytes: Bytes) | Eof | WouldBlock | Error

  /** What the kernel guarantees for a read into the 4096-byte array. */
  predicate Plausible(i: Input) {
    i.Data? ==> 1 <= |i.bytes| <= READ_CHUNK
  }

  function Flatten(messages: seq<Bytes>): Bytes {
    if messages == [] then [] else messages[0] + Flatten(messages[1..])
  }

  /** The bytes that a sequence of reads delivers. */
  function Delivered(inputs: seq<Input>): Bytes {
    if inputs == [] then [] else
    Delivered(inputs[..|inputs| - 1]) + (match inputs[|inputs| - 1] case Data(b) => b case _ => [])
  }

  /** The buffer starts with a whole message. */
  predicate HasMessage(buffer: Bytes) {
    |buffer| >= 2 && |buffer| >= 2 + PayloadLength(buffer)
  }

  lemma {:induction false} FlattenAppend(messages: seq<Bytes>, m: Bytes)
    ensures Flatten(messages + [m]) == Flatten(messages) + m
  {
    if messages == [] {
      assert messages + [m] == [m];
    } else {
      assert (messages + [m])[1..] == messages[1..] + [m];
      FlattenAppend(messages[1..], m);
    }
  }

  lemma Regroup(a: Bytes, b: Bytes, c: Bytes)
    ensures a + (b + c) == (a + b) + c
  {}

  lemma NothingDelivered(inputs: seq<Input>)
    ensures Delivered(inputs[..0]) == []
  {}

  lemma DeliveredAppend(inputs: seq<Input>, k: nat)
    requires k < |inputs|
    ensures Delivered(inputs[..k + 1]) ==
            Delivered(inputs[..k]) + (match inputs[k] case Data(b) => b case _ => [])
  {
    assert inputs[..k + 1][..k] == inputs[..k];
  }

  /** One iteration of the handshake loop: the clock, the result of the poll, the read. */
  datatype PollResult = Ready | TimedOut | Interrupted | Failed
  datatype Turn = Turn(now: int, poll: PollResult, input: Input)

  /** Whether an iteration ends the loop: past the deadline, nothing to poll, or end of file. */
  predicate Ends(t: Turn, deadline: int) {
    || t.now >= deadline
    || t.poll.TimedOut? || t.poll.Failed?
    || (t.poll.Ready? && (t.input.Eof? || t.input.Error?))
  }

  /** Whether the loop goes on after an iteration: before the deadline, interrupted or with a
      read that finds data or would block. */
  predicate Waits(t: Turn, deadline: int) {
    t.now < deadline && (t.poll.Interrupted? || (t.poll.Ready? && (t.input.Data? || t.input.WouldBlock?)))
  }

  lemma WaitsExactlyWhen(t: Turn, deadline: int)
    ensures Waits(t, deadline) <==> !Ends(t, deadline)
  {}

  /** A negative timeout counts as none. */
  function Deadline(start: int, timeoutMs: int): int {
    start + if timeoutMs > 0 then timeoutMs else 0
  }

  /** The bytes that an iteration reads. */
  function Got(t: Turn, deadline: int): Bytes {
    if t.now < deadline && t.poll.Ready? && t.input.Data? then t.input.bytes else []
  }

  /** The bytes that the iterations before the deadline read. */
  function DeliveredBefore(turns: seq<Turn>, deadline: int): Bytes {
    if turns == [] then [] else
    DeliveredBefore(turns[..|turns| - 1], deadline) + Got(turns[|turns| - 1], deadline)
  }

  lemma DeliveredBeforeAppend(turns: seq<Turn>, k: nat, deadline: int)
    requires k < |turns|
    ensures DeliveredBefore(turns[..k + 1], deadline) ==
            DeliveredBefore(turns[..k], deadline) + Got(turns[k], deadline)
  {
    assert turns[..k + 1][..k] == turns[..k];
  }

  class Receiver {
    var buffer: Bytes
    ghost var received: Bytes        // every byte read so far
    ghost var returned: seq<Bytes>   // every message handed out so far

    /** No byte is lost, duplicated or reordered, and the buffer stays small. */
    ghost predicate Valid()
      reads this
    {
      && Flatten(returned) + buffer == received
      && (forall i | 0 <= i < |returned| :: Framed(returned[i]))
      && |buffer| <= BUFFER_BOUND
    }

    constructor ()
      ensures Valid() && buffer == [] && received == [] && returned == []
    {
      buffer, received, returned := [], [], [];
    }

    /** A receiver that takes over what the handshake has read beyond its own message. */
    constructor After(early: Bytes)
      requires |early| <= BUFFER_BOUND
      ensures Valid() && buffer == early && received == early && returned == []
    {
      buffer, received, returned := early, early, [];
      new;
      assert Flatten([]) + early == early;
    }

    method TryExtractMessage() returns (msg: Option<Bytes>)
      modifies this`buffer
      ensures HasMessage(old(buffer)) <==> msg.Some?
      ensures msg.None? ==> buffer == old(buffer)
      ensures msg.Some? ==> Framed(msg.value) && msg.value + buffer == old(buffer)
    {
      if |buffer| < 2 {
        return None;
      }
      var needed := 2 + PayloadLength(buffer);
      if |buffer| < needed {
        return None;
      }
      msg := Some(buffer[..needed]);
      buffer := buffer[needed..];
    }

    /** One read. When the buffer would exceed its maximum, the oldest bytes are dropped. */
    method ReadSome(input: Input)
      modifies this`buffer
      ensures !input.Data? ==> buffer == old(buffer)
      ensures input.Data? ==>
                var all := old(buffer) + input.bytes;
                buffer == if |all| <= MAX_BUFFER then all
                          else if |all| - MAX_BUFFER >= |old(buffer)| then input.bytes
                          else all[|all| - MAX_BUFFER..]
    {
      if input.Data? {
        var newSize := |buffer| + |input.bytes|;
        if newSize > MAX_BUFFER {
          var excess := newSize - MAX_BUFFER;
          if excess >= |buffer| {
            buffer := [];
          } else {
            buffer := buffer[excess..];
          }
        }
        buffer := buffer + input.bytes;
      }
    }

    /** The extraction as the read loops use it. Without a whole message the buffer is so
        short that the next read cannot reach the maximum. */
    method TakeBuffered() returns (msg: Option<Bytes>)
      requires Valid()
      modifies this
      ensures Valid() && received == old(received)
      ensures msg.Some? <==> HasMessage(old(buffer))
      ensures msg.Some? ==> Framed(msg.value) && returned == old(returned) + [msg.value] && |buffer| < |old(buffer)|
      ensures msg.Some? ==> msg.value + buffer == old(buffer)
      ensures msg.None? ==> returned == old(returned) && buffer == old(buffer) && |buffer| <= BUFFER_BOUND - READ_CHUNK
    {
      msg := TryExtractMessage();
      hide Flatten;
      if msg.Some? {
        FlattenAppend(returned, msg.value);
        Regroup(Flatten(returned), msg.value, buffer);
        returned := returned + [msg.value];
      }
    }

    /** The read as the read loops use it: no byte is dropped. */
    method Fill(input: Input)
      requires Valid() && Plausible(input) && |buffer| <= BUFFER_BOUND - READ_CHUNK
      modifies this
      ensures Valid() && returned == old(returned)
      ensures !input.Data? ==> buffer == old(buffer)
      ensures buffer == old(buffer) + match input case Data(b) => b case _ => []
      ensures received == old(received) + match input case Data(b) => b case _ => []
    {
      hide Flatten, Framed;
      ReadSome(input);
      if input.Data? {
        Regroup(Flatten(returned), old(buffer), input.bytes);
        received := received + input.bytes;
      }
    }

    /** Reads until a message is complete or a read brings no data. `inputs` are the results
        of the next reads; behind them the socket would block. */
    method ReadMessage(inputs: seq<Input>) returns (msg: Option<Bytes>, used: nat)
      requires Valid() && forall i | 0 <= i < |inputs| :: Plausible(inputs[i])
      modifies this
      ensures Valid() && used <= |inputs|
      ensures received == old(received) + Delivered(inputs[..used])
      ensures msg.Some? ==> Framed(msg.value) && returned == old(returned) + [msg.value]
      ensures msg.None? ==> returned == old(returned) && !HasMessage(buffer)
      ensures msg.None? ==> used == |inputs| || (used > 0 && !inputs[used - 1].Data?)
      ensures msg.Some? && used == 0 ==> |buffer| < |old(buffer)|
      ensures old(buffer) + Delivered(inputs[..used]) == (if msg.Some? then msg.value else []) + buffer
    {
      hide Valid, Delivered, HasMessage, Framed;
      used := 0;
      NothingDelivered(inputs);
      while true
        invariant used <= |inputs| && Valid() && returned == old(returned)
        invariant received == old(received) + Delivered(inputs[..used])
        invariant used > 0 ==> inputs[used - 1].Data?
        invariant used == 0 ==> buffer == old(buffer)
        invariant buffer == old(buffer) + Delivered(inputs[..used])
        decreases |inputs| - used
      {
        msg := TakeBuffered();
        if msg.Some? {
          return;
        }
        if used == |inputs| {
          return;
        }
        DeliveredAppend(inputs, used);
        Fill(inputs[used]);
        used := used + 1;
        if !inputs[used - 1].Data? {
          return;
        }
      }
    }

    /** Takes the next message off the stream and looks for a telegram in it. */
    method PollGroupTelegram(inputs: seq<Input>) returns (telegram: Option<Telegram>, used: nat)
      requires Valid() && forall i | 0 <= i < |inputs| :: Plausible(inputs[i])
      modifies this
      ensures Valid() && used <= |inputs|
      ensures received == old(received) + Delivered(inputs[..used])
      ensures if returned == old(returned) then
                telegram.None? && !HasMessage(buffer) && (used == |inputs| || (used > 0 && !inputs[used - 1].Data?))
              else
                && |returned| == |old(returned)| + 1 && returned[..|old(returned)|] == old(returned)
                && Framed(returned[|old(returned)|]) && telegram == TelegramIn(returned[|old(returned)|])
      ensures old(buffer) + Delivered(inputs[..used]) ==
              (if returned == old(returned) then [] else returned[|returned| - 1]) + buffer
    {
      hide Valid, Delivered, HasMessage;
      var msg;
      msg, used := ReadMessage(inputs);
      if msg.None? {
        return None, used;
      }
      telegram := TelegramIn(msg.value);
    }

    /** The same with a deadline, for the handshake: before each read the clock is checked
        and the socket is polled. An interrupted poll starts over. */
    method ReadMessageDeadline(timeoutMs: int, start: int, turns: seq<Turn>)
      returns (msg: Option<Bytes>, used: nat)
      requires Valid() && forall i | 0 <= i < |turns| :: Plausible(turns[i].input)
      modifies this
      ensures Valid() && used <= |turns|
      ensures received == old(received)
                          + DeliveredBefore(turns[..used], Deadline(start, timeoutMs))
      ensures msg.Some? ==> Framed(msg.value) && returned == old(returned) + [msg.value]
      ensures msg.None? ==> returned == old(returned) && !HasMessage(buffer)
      ensures msg.None? ==>
                used == |turns| || (used > 0 && Ends(turns[used - 1], Deadline(start, timeoutMs)))
      ensures forall k | 0 <= k < used - 1 :: Waits(turns[k], Deadline(start, timeoutMs))
      ensures var deadline := Deadline(start, timeoutMs);
              HasMessage(old(buffer) + DeliveredBefore(turns, deadline)) ==>
                msg.Some? || exists k :: 0 <= k < |turns| && !Waits(turns[k], deadline)
    {
      used := 0;
      var deadline := Deadline(start, timeoutMs);
      assert DeliveredBefore(turns[..0], deadline) == [] && turns[..|turns|] == turns;
      hide Valid, DeliveredBefore, HasMessage, Framed, Ends, Waits, Got, Deadline;
      while true
        invariant used <= |turns| && Valid() && returned == old(returned)
        invariant received == old(received) + DeliveredBefore(turns[..used], deadline)
        invariant buffer == old(buffer) + DeliveredBefore(turns[..used], deadline)
        invariant forall k | 0 <= k < used :: Waits(turns[k], deadline)
        decreases |turns| - used
      {
        msg := TakeBuffered();
        if msg.Some? {
          return;
        }
        if used == |turns| {
          return;
        }
        DeliveredBeforeAppend(turns, used, deadline);
        Regroup(old(received), DeliveredBefore(turns[..used], deadline), Got(turns[used], deadline));
        Regroup(old(buffer), DeliveredBefore(turns[..used], deadline), Got(turns[used], deadline));
        used := used + 1;
        var ended := Attempt(turns[used - 1], deadline);
        if ended {
          return;
        }
      }
    }

    /** The part of the handshake loop behind the extraction. */
    method Attempt(turn: Turn, deadline: int) returns (ended: bool)
      requires Valid() && Plausible(turn.input) && |buffer| <= BUFFER_BOUND - READ_CHUNK
      modifies this
      ensures Valid() && returned == old(returned) && (ended ==> buffer == old(buffer))
      ensures (ended <==> Ends(turn, deadline)) && (ended <==> !Waits(turn, deadline))
      ensures received == old(received) + Got(turn, deadline) && buffer == old(buffer) + Got(turn, deadline)
    {
      hide Valid;
      if turn.now >= deadline {
        return true;
      }
      match turn.poll {
        case TimedOut =>
          return true;
        case Interrupted =>
          return false;
        case Failed =>
          return true;
        case Ready =>
      }
      Fill(turn.input);
      ended := turn.input.Eof? || turn.input.Error?;
    }
  }

  // ---- Framing is unambiguous ----

  /** Two framed messages at the start of the same bytes are the same message. */
  lemma SameFirstMessage(a: Bytes, b: Bytes, x: Bytes, y: Bytes)
    requires Framed(a) && Framed(b) && a + x == b + y
    ensures a == b && x == y
  {
    assert a[0] == (a + x)[0] == (b + y)[0] == b[0];
    assert a[1] == (a + x)[1] == (b + y)[1] == b[1];
    assert a == (a + x)[..|a|] && b == (b + y)[..|b|];
    assert x == (a + x)[|a|..] && y == (b + y)[|b|..];
  }

  /** Messages extracted from the front of a stream are the first messages of the stream. */
  lemma {:induction false} ExtractedArePrefix(got: seq<Bytes>, rest: Bytes, sent: seq<Bytes>)
    requires forall i | 0 <= i < |got| :: Framed(got[i])
    requires forall i | 0 <= i < |sent| :: Framed(sent[i])
    requires Flatten(got) + rest == Flatten(sent)
    ensures got <= sent && rest == Flatten(sent[|got|..])
    decreases |got|
  {
    if got != [] {
      assert |got[0] + Flatten(got[1..])| >= 2;
      assert sent != [];
      Regroup(got[0], Flatten(got[1..]), rest);
      SameFirstMessage(got[0], sent[0], Flatten(got[1..]) + rest, Flatten(sent[1..]));
      ExtractedArePrefix(got[1..], rest, sent[1..]);
      assert sent[1..][|got| - 1..] == sent[|got|..];
    } else {
      assert sent[0..] == sent;
      assert Flatten(got) + rest == rest;
    }
  }

  /** Stream reassembly: whatever a receiver has handed out is a prefix of the messages that
      were sent, and it is all of them once every byte has arrived and no message is left
      in the buffer. */
  lemma StreamReassembly(got: seq<Bytes>, buffer: Bytes, missing: Bytes, sent: seq<Bytes>)
    requires forall i | 0 <= i < |got| :: Framed(got[i])
    requires forall i | 0 <= i < |sent| :: Framed(sent[i])
    requires Flatten(got) + buffer + missing == Flatten(sent)
    ensures got <= sent
    ensures missing == [] && !HasMessage(buffer) ==> got == sent && buffer == []
  {
    Regroup(Flatten(got), buffer, missing);
    ExtractedArePrefix(got, buffer + missing, sent);
    if missing == [] && !HasMessage(buffer) {
      assert buffer + missing == buffer;
      assert sent[..|got|] == got;
    }
  }

  /** A caller that keeps asking: after every read has been used, it has got exactly the
      messages that were sent, in order, however they were cut into reads. */
  method ReceiveAll(inputs: seq<Input>, ghost sent: seq<Bytes>) returns (got: seq<Bytes>)
    requires forall i | 0 <= i < |inputs| :: Plausible(inputs[i]) && (inputs[i].Data? || inputs[i].WouldBlock?)
    requires forall i | 0 <= i < |sent| :: Framed(sent[i])
    requires Delivered(inputs) == Flatten(sent)
    ensures got == sent
  {
    var receiver := new Receiver();
    var i := 0;
    got := [];
    assert Delivered(inputs[..0]) == [];
    hide Delivered, Flatten, Framed, HasMessage;
    while true
      invariant i <= |inputs| && receiver.Valid() && fresh(receiver)
      invariant got == receiver.returned
      invariant receiver.received == Delivered(inputs[..i])
      decreases |inputs| - i, |receiver.buffer|
    {
      var msg, used := receiver.ReadMessage(inputs[i..]);
      DeliveredSplit(inputs, i, used);
      i := i + used;
      if msg.Some? {
        got := got + [msg.value];
      } else if i == |inputs| {
        break;
      }
    }
    assert inputs[..|inputs|] == inputs;
    assert receiver.received + [] == receiver.received;
    StreamReassembly(got, receiver.buffer, [], sent);
  }

  lemma {:induction false} DeliveredSplit(inputs: seq<Input>, i: nat, used: nat)
    requires i + used <= |inputs|
    ensures Delivered(inputs[..i + used]) == Delivered(inputs[..i]) + Delivered(inputs[i..][..used])
    decreases used
  {
    if used > 0 {
      DeliveredSplit(inputs, i, used - 1);
      DeliveredAppend(inputs, i + used - 1);
      DeliveredAppend(inputs[i..], used - 1);
    }
  }

  lemma DeliveredParts(inputs: seq<Input>, used: nat)
    requires used <= |inputs|
    ensures Delivered(inputs) == Delivered(inputs[..used]) + Delivered(inputs[used..])
  {
    hide Delivered;
    DeliveredSplit(inputs, used, |inputs| - used);
    assert inputs[..used + (|inputs| - used)] == inputs;
    assert inputs[used..][..|inputs| - used] == inputs[used..];
  }

  // ---- What a drain takes off the stream ----

  /** The length of the first message. */
  function FirstSize(bytes: Bytes): (n: nat)
    requires HasMessage(bytes)
    ensures 2 <= n <= |bytes| && Framed(bytes[..n])
  {
    2 + PayloadLength(bytes)
  }

  /** The telegrams at the front of a stream: up to the first message that carries none. */
  function Drained(bytes: Bytes): seq<Telegram>
    decreases |bytes|
  {
    if !HasMessage(bytes) then [] else
    var n := FirstSize(bytes);
    match TelegramIn(bytes[..n]) case None => [] case Some(t) => [t] + Drained(bytes[n..])
  }

  /** What is left of the stream behind them. */
  function Left(bytes: Bytes): Bytes
    decreases |bytes|
  {
    if !HasMessage(bytes) then bytes else
    var n := FirstSize(bytes);
    match TelegramIn(bytes[..n]) case None => bytes[n..] case Some(_) => Left(bytes[n..])
  }

  lemma FirstMessageIs(m: Bytes, rest: Bytes)
    requires Framed(m)
    ensures HasMessage(m + rest)
    ensures FirstSize(m + rest) == |m| && (m + rest)[..|m|] == m && (m + rest)[|m|..] == rest
  {
    assert (m + rest)[0] == m[0] && (m + rest)[1] == m[1];
  }

  /** One step of a drain. */
  lemma DrainStep(m: Bytes, rest: Bytes)
    requires Framed(m)
    ensures Drained(m + rest) ==
            match TelegramIn(m) case None => [] case Some(t) => [t] + Drained(rest)
    ensures Left(m + rest) == match TelegramIn(m) case None => rest case Some(_) => Left(rest)
  {
    FirstMessageIs(m, rest);
    hide TelegramIn, HasMessage, FirstSize, Framed;
  }

  predicate AllFramed(sent: seq<Bytes>) {
    forall i | 0 <= i < |sent| :: Framed(sent[i])
  }

  /** The index of the first message without a telegram; the number of messages if none. */
  function FirstBare(sent: seq<Bytes>): (k: nat)
    requires AllFramed(sent)
    ensures k <= |sent|
    ensures k < |sent| ==> TelegramIn(sent[k]).None?
    ensures forall i | 0 <= i < k :: TelegramIn(sent[i]).Some?
  {
    if sent == [] || TelegramIn(sent[0]).None? then 0 else 1 + FirstBare(sent[1..])
  }

  function TelegramsIn(sent: seq<Bytes>): seq<Telegram>
    requires AllFramed(sent)
  {
    if sent == [] then [] else
    (match TelegramIn(sent[0]) case None => [] case Some(t) => [t]) + TelegramsIn(sent[1..])
  }

  /** For every list of messages and every incomplete rest, a drain yields the telegrams of
      the messages before the first one without a telegram, and leaves what follows it. */
  lemma {:induction false} DrainTakes(sent: seq<Bytes>, rest: Bytes)
    requires AllFramed(sent) && !HasMessage(rest)
    ensures var k := FirstBare(sent);
            && Drained(Flatten(sent) + rest) == TelegramsIn(sent[..k])
            && Left(Flatten(sent) + rest) == if k == |sent| then rest else Flatten(sent[k + 1..]) + rest
  {
    hide TelegramIn, Framed, HasMessage, Drained, Left;
    if sent == [] {
      EmptyDrain(rest);
      assert Flatten(sent) + rest == rest;
    } else {
      var more := Flatten(sent[1..]) + rest;
      Regroup(sent[0], Flatten(sent[1..]), rest);
      DrainStep(sent[0], more);
      DrainTakes(sent[1..], rest);
      var k := FirstBare(sent);
      if k > 0 {
        assert sent[..k][1..] == sent[1..][..k - 1];
        if k < |sent| {
          assert sent[1..][k..] == sent[k + 1..];
        }
      }
    }
  }

  lemma EmptyDrain(rest: Bytes)
    requires !HasMessage(rest)
    ensures Drained(rest) == [] && Left(rest) == rest
  {}

  /** Any bytes are whole messages and an incomplete rest. */
  lemma {:induction false} Decompose(bytes: Bytes) returns (sent: seq<Bytes>, rest: Bytes)
    ensures AllFramed(sent) && bytes == Flatten(sent) + rest && !HasMessage(rest)
    decreases |bytes|
  {
    if !HasMessage(bytes) {
      sent, rest := [], bytes;
      assert Flatten(sent) + rest == rest;
    } else {
      var n := FirstSize(bytes);
      var first, more := bytes[..n], bytes[n..];
      hide HasMessage, FirstSize, Framed;
      sent, rest := Decompose(more);
      Regroup(first, Flatten(sent), rest);
      sent := [first] + sent;
    }
  }

  lemma {:induction false} FlattenConcat(a: seq<Bytes>, b: seq<Bytes>)
    ensures Flatten(a + b) == Flatten(a) + Flatten(b)
  {
    if a == [] {
      assert a + b == b;
    } else {
      assert (a + b)[1..] == a[1..] + b;
      FlattenConcat(a[1..], b);
      Regroup(a[0], Flatten(a[1..]), Flatten(b));
    }
  }

  lemma NoBareTail(a: seq<Bytes>, b: seq<Bytes>)
    requires AllFramed(a) && AllFramed(b) && AllFramed(a + b) && FirstBare(a + b) == |a + b|
    ensures FirstBare(b) == |b|
  {
    hide TelegramIn, Framed;
    assert forall i | 0 <= i < |b| :: b[i] == (a + b)[|a| + i];
  }

  lemma {:induction false} TelegramsSplit(sent: seq<Bytes>, k: nat)
    requires AllFramed(sent) && k <= |sent|
    ensures TelegramsIn(sent) == TelegramsIn(sent[..k]) + TelegramsIn(sent[k..])
    decreases k
  {
    hide TelegramIn, Framed;
    if k == 0 {
      assert sent[0..] == sent;
    } else {
      TelegramsSplit(sent[1..], k - 1);
      assert sent[1..][..k - 1] == sent[..k][1..] && sent[1..][k - 1..] == sent[k..];
    }
  }

  lemma {:induction false} NoTelegramsExactlyWhen(sent: seq<Bytes>)
    requires AllFramed(sent)
    ensures TelegramsIn(sent) == [] <==> forall i | 0 <= i < |sent| :: TelegramIn(sent[i]).None?
  {
    hide TelegramIn, Framed;
    if sent != [] {
      NoTelegramsExactlyWhen(sent[1..]);
      assert forall i | 0 < i < |sent| :: sent[i] == sent[1..][i - 1];
    }
  }

  /** A drain takes every pending telegram exactly when none follows a message without one,
      and it leaves a whole message behind exactly when any message follows such a one. */
  lemma DrainsEverythingExactlyWhen(sent: seq<Bytes>, rest: Bytes)
    requires AllFramed(sent) && !HasMessage(rest)
    ensures var k, bytes := FirstBare(sent), Flatten(sent) + rest;
            && (Drained(bytes) == TelegramsIn(sent) <==> forall j | k < j < |sent| :: TelegramIn(sent[j]).None?)
            && (HasMessage(Left(bytes)) <==> k + 1 < |sent|)
  {
    hide TelegramIn, Framed, HasMessage, Drained, Left, TelegramsIn, FirstBare, Flatten;
    var k := FirstBare(sent);
    DrainTakes(sent, rest);
    TelegramsSplit(sent, k);
    NothingMore(TelegramsIn(sent[..k]), TelegramsIn(sent[k..]));
    NoTelegramsFrom(sent, k);
    LeftHasMessageExactlyWhen(sent, rest, k);
  }

  lemma NothingMore(a: seq<Telegram>, b: seq<Telegram>)
    ensures a == a + b <==> b == []
  {}

  lemma NoTelegramsFrom(sent: seq<Bytes>, k: nat)
    requires AllFramed(sent) && k <= |sent| && (k < |sent| ==> TelegramIn(sent[k]).None?)
    ensures TelegramsIn(sent[k..]) == [] <==> forall j | k < j < |sent| :: TelegramIn(sent[j]).None?
  {
    hide TelegramIn, Framed, TelegramsIn;
    var tail := sent[k..];
    NoTelegramsExactlyWhen(tail);
    assert forall j | k <= j < |sent| :: sent[j] == tail[j - k];
    assert forall i | 0 <= i < |tail| :: tail[i] == sent[i + k];
  }

  lemma LeftHasMessageExactlyWhen(sent: seq<Bytes>, rest: Bytes, k: nat)
    requires AllFramed(sent) && !HasMessage(rest) && k <= |sent|
    ensures HasMessage(if k == |sent| then rest else Flatten(sent[k + 1..]) + rest) <==> k + 1 < |sent|
  {
    hide Framed, HasMessage;
    if k + 1 < |sent| {
      Regroup(sent[k + 1], Flatten(sent[k + 2..]), rest);
      assert sent[k + 1..][1..] == sent[k + 2..];
      FirstMessageIs(sent[k + 1], Flatten(sent[k + 2..]) + rest);
    } else if k + 1 == |sent| {
      assert Flatten(sent[k + 1..]) + rest == rest;
    }
  }

  /** A short message in front of a telegram keeps that telegram in the buffer. */
  lemma TelegramIsLeftBehind(source: Word16, addr: Address, apdu: Bytes)
    requires 2 <= |apdu| <= 0xfff9
    ensures var bytes := [0, 2, 0, 1] + ApduPacket(source, addr, apdu);
            && Drained(bytes) == [] && Left(bytes) == ApduPacket(source, addr, apdu)
            && HasMessage(Left(bytes)) && Drained(Left(bytes)) == [Telegram(addr, apdu)]
  {
    var short: Bytes, m := [0, 2, 0, 1], ApduPacket(source, addr, apdu);
    TelegramRoundTrip(source, addr, apdu);
    DrainStep(short, m);
    hide ApduPacket;
    DrainStep(m, []);
    FirstMessageIs(m, []);
    assert m + [] == m;
    EmptyDrain([]);
  }
}
