/** Results that cross the whole program: a value written through `/w` and read through
    `/r`, and whole sessions of a client that exchanges query strings and bodies. */
module EndToEnd {
  import opened Basics
  import opened Positions
  import opened TelegramLog
  import opened ReadProtocol
  import opened KnxAddress
  import opened KnxdProtocol
  import opened Multimap
  import opened QueryString
  import CacheReader
  import Decimal
  import Hex
  import Json
  import ReadHandler
  import WriteHandler

  /** Whether the texts of this namespace survive query strings, addresses and JSON. */
  predicate Readable(ns: string) {
    Octets(ns) && Json.Clean(ns) && ':' !in ns
  }

  // ---- From the request for /w to the bus ----

  /** The session parameter, if there is one. */
  function SessionPairs(session: Option<string>): seq<StringPair> {
    if session.None? then [] else [Pair("s", session.value)]
  }

  predicate IsOctets(session: Option<string>) {
    session.Some? ==> Octets(session.value)
  }

  function WritePairs(ns: string, a: Address, value: string, session: Option<string>): seq<StringPair> {
    [Pair("a", Key(ns, a))] + [Pair("v", value)] + SessionPairs(session)
  }

  /** What appending the session parameter changes. */
  lemma SessionPairsAre(pairs: seq<StringPair>, session: Option<string>)
    requires Encodable(pairs) && IsOctets(session) && "s" !in Multimap.Keys(pairs)
    ensures var all := pairs + SessionPairs(session);
            && Encodable(all) && |all| <= |pairs| + 1
            && Multimap.Keys(all) == Multimap.Keys(pairs) + (if session.Some? then ["s"] else [])
            && (forall k | k != "s" :: ValuesOf(all, k) == ValuesOf(pairs, k))
            && ValuesOf(all, "s") == if session.Some? then [session.value] else []
  {
    hide Octets, Multimap.Keys, ValuesOf;
    NamesAreOctets();
    KeysAreKeys(pairs, "s");
    if session.Some? {
      AppendPair(pairs, Pair("s", session.value));
    } else {
      assert pairs + [] == pairs;
    }
  }

  lemma {:induction false} DigitsAreOctets(n: nat)
    ensures Octets(Decimal.Digits(n))
  {
    if n >= 10 {
      DigitsAreOctets(n / 10);
    }
  }

  lemma KeyIsOctets(ns: string, a: Address)
    requires Octets(ns)
    ensures Octets(Key(ns, a))
  {
    hide Decimal.Digits;
    var g := FromEib(a);
    DigitsAreOctets(g.main);
    DigitsAreOctets(g.middle);
    DigitsAreOctets(g.sub);
  }

  lemma NamesAreOctets()
    ensures Octets("a") && Octets("i") && Octets("s") && Octets("t") && Octets("v")
  {}

  lemma HexIsOctets(value: string)
    requires Hex.WellFormed(value)
    ensures Octets(value)
  {}

  lemma NoPairs()
    ensures Multimap.Keys<string, string>([]) == []
    ensures ValuesOf<string, string>([], "a") == [] && ValuesOf<string, string>([], "v") == []
  {}

  lemma WritePairsAre(ns: string, a: Address, value: string, session: Option<string>)
    requires Octets(ns) && Octets(value) && IsOctets(session)
    ensures var pairs := WritePairs(ns, a, value, session);
            && Encodable(pairs) && |pairs| <= 3
            && Multimap.Keys(pairs) == ["a", "v"] + (if session.Some? then ["s"] else [])
            && ValuesOf(pairs, "a") == [Key(ns, a)] && ValuesOf(pairs, "v") == [value]
            && ValuesOf(pairs, "s") == if session.Some? then [session.value] else []
  {
    hide Octets, Key, Multimap.Keys, ValuesOf, SessionPairs, IsOctets;
    KeyIsOctets(ns, a);
    NamesAreOctets();
    NoPairs();
    AppendPair([], Pair("a", Key(ns, a)));
    assert [] + [Pair("a", Key(ns, a))] == [Pair("a", Key(ns, a))];
    AppendPair([Pair("a", Key(ns, a))], Pair("v", value));
    SessionPairsAre([Pair("a", Key(ns, a))] + [Pair("v", value)], session);
  }

  lemma WriteIsParsed(ns: string, a: Address, value: string, session: Option<string>)
    requires Octets(ns) && Octets(value) && IsOctets(session)
    ensures var pairs := WritePairs(ns, a, value, session);
            && Encodable(pairs)
            && var params := Parsed(EncodeQuery(pairs));
            GetAll(params, "a") == [Key(ns, a)] && Get(params, "v") == Some(value) && Get(params, "s") == session
  {
    hide Octets, Parsed, EncodeQuery, Encodable, WritePairs, Multimap.Keys, ValuesOf, Key, IsOctets, GetAll, Get;
    var pairs := WritePairs(ns, a, value, session);
    WritePairsAre(ns, a, value, session);
    LookupsAre(pairs, "a");
    LookupsAre(pairs, "v");
    LookupsAre(pairs, "s");
  }

  /** The encoded request for `/w` sends the APDU of its value to its address, unless it names
      an invalid session. */
  lemma WriteIsUnderstood(ns: string, a: Address, value: string, session: Option<string>, sessionValid: bool)
    requires Readable(ns) && WriteHandler.Apdu(value).Some? && IsOctets(session)
    ensures var pairs := WritePairs(ns, a, value, session);
            && Encodable(pairs)
            && var params := Parsed(EncodeQuery(pairs));
            && WriteHandler.Interpret(params, sessionValid) ==
               (if session.Some? && !sessionValid then WriteHandler.Unauthorized
                else WriteHandler.Send(WriteHandler.Apdu(value).value))
            && WriteHandler.Targets(GetAll(params, "a"), ns) == [a]
  {
    hide Octets, Parsed, EncodeQuery, Encodable, WritePairs, WriteHandler.Apdu, WriteHandler.Targets, Key,
         Hex.WellFormed, Get, GetAll, Json.Clean, IsOctets;
    WriteHandler.ApduExactlyWhen(value);
    HexIsOctets(value);
    WriteIsParsed(ns, a, value, session);
    OneTarget(ns, a);
  }

  /** A client writes, with or without a session: an invalid session is refused and sends
      nothing; without one, or with a valid one, the APDU goes to the address. */
  method WriteAs(ns: string, a: Address, value: string, session: Option<string>, sessionValid: bool,
                 delivered: nat -> bool)
    returns (status: int, sent: seq<Address>, apdu: seq<Byte>)
    requires Readable(ns) && WriteHandler.Apdu(value).Some? && IsOctets(session)
    ensures session.Some? && !sessionValid ==> status == 401 && sent == []
    ensures session.None? || sessionValid ==>
              sent == [a] && apdu == WriteHandler.Apdu(value).value && status == if delivered(0) then 200 else 503
  {
    hide Parsed, EncodeQuery, Encodable, WritePairs, WriteHandler.Apdu, WriteHandler.Targets, WriteHandler.Interpret,
         GetAll, Get, Readable, IsOctets;
    WriteIsUnderstood(ns, a, value, session, sessionValid);
    var raw := EncodeQuery(WritePairs(ns, a, value, session));
    var body;
    status, body, sent, apdu := WriteHandler.Handle(raw, ns, sessionValid, delivered);
  }

  lemma OneTarget(ns: string, a: Address)
    requires ':' !in ns
    ensures WriteHandler.Targets([Key(ns, a)], ns) == [a]
  {
    hide FromCometVisu, Key, ToEib;
    ReadHandler.KeyIsUnderstood(ns, a);
    assert [Key(ns, a)][..0] == [];
    assert WriteHandler.Targets([], ns) == [];
  }

  /** What knxd is taken to do with a group packet: it delivers the APDU to every client of
      the group socket, under the address of the packet and its own source address. */
  function Relay(source: Word16, packet: Bytes): Option<Bytes>
    requires Framed(packet)
  {
    if |packet| < 4 then None else
    match ParseMessage(packet)
    case None => None
    case Some(Message(kind, data)) =>
      if kind == GROUP_PACKET && |data| >= 2 then Some(ApduPacket(source, Word(data[0], data[1]), data[2..]))
      else None
  }

  lemma PacketIsRelayed(source: Word16, a: Address, apdu: Bytes)
    requires |apdu| <= 0xfff9
    ensures Framed(BuildGroupPacket(a, apdu))
    ensures Relay(source, BuildGroupPacket(a, apdu)) == Some(ApduPacket(source, a, apdu))
  {
    var data := [a / 256, a % 256] + apdu;
    MessageRoundTripExactlyWhen(GROUP_PACKET, data);
    assert data[2..] == apdu && Word(data[0], data[1]) == a;
  }

  // ---- From the bus into the cache ----

  /** The history after the reader has drained one more message. */
  function Received(log: Log, message: Bytes, time: int): Log
    requires Framed(message)
  {
    match TelegramIn(message)
    case None => log
    case Some(telegram) => log + CacheReader.PushesOf([CacheReader.Timed(telegram, time)])
  }

  /** The value behind the control byte of a written APDU, as the cache will store it. */
  function Stored(data: seq<Byte>): (v: seq<Byte>)
    requires data != []
    ensures |v| <= MAX_VALUE
  {
    if data[0] >= 0xc0 then [] else if |data| == 1 then [data[0] % 64] else Cut(data[1..])
  }

  lemma WrittenApdu(data: seq<Byte>)
    requires data != [] && data[0] >= 0x80
    ensures CacheValue([0] + data).Some? && Cut(CacheValue([0] + data).value) == Stored(data)
  {
    var apdu := [0] + data;
    assert apdu[2..] == data[1..];
  }

  lemma OneTelegram(telegram: Telegram, time: int)
    ensures CacheReader.PushesOf([CacheReader.Timed(telegram, time)]) ==
            match CacheValue(telegram.apdu) case None => [] case Some(v) => [Push(telegram.addr, v, time)]
  {
    hide CacheValue;
    var t := [CacheReader.Timed(telegram, time)];
    assert t[..0] == [];
    assert CacheReader.PushesOf(t[..0]) == [];
  }

  /** A delivered write becomes the entry of its address and touches no other. */
  lemma WriteIsStored(log: Log, value: string, a: Address, source: Word16, time: int)
    requires WriteHandler.Apdu(value).Some? && |value| <= 0x1fff0
    requires a != 0 && (a in SharedView(log) || |SharedView(log)| < CAPACITY)
    ensures var message := ApduPacket(source, a, WriteHandler.Apdu(value).value);
            && Framed(message)
            && var after := Received(log, message, time);
            && |after| == |log| + 1
            && SharedView(after).Keys == SharedView(log).Keys + {a}
            && SharedView(after)[a].value == Stored(Hex.Decoded(value))
            && forall b | b in SharedView(log) && b != a :: SharedView(after)[b] == SharedView(log)[b]
  {
    hide TelegramIn, ApduPacket, Framed, Stored, Cut, CacheValue, CacheReader.PushesOf;
    var data := Hex.Decoded(value);
    var telegram := Telegram(a, [0] + data);
    TelegramRoundTrip(source, a, [0] + data);
    OneTelegram(telegram, time);
    WrittenApdu(data);
    ViewAfterPush(log, Push(a, CacheValue([0] + data).value, time));
  }

  // ---- From the cache to the body of /r ----

  /** As long as nothing else is pushed to it, a stored address is in every unfiltered
      initial read. */
  lemma StoredIsServed(log: Log, m: nat, a: Address, addresses: set<Address>, mode: Mode, seen: nat, env: Env)
    requires m <= |log| && a in StateAt(log, m) && forall i | m <= i < |log| :: log[i].addr != a
    requires Timed(log, addresses, env) && a in addresses && m <= env.gets[a].at && mode.maxAge < 0
    ensures var values := ReadProtocol.Serve(log, addresses, mode, 0, seen, env).values;
            a in values && values[a] == StateAt(log, m)[a].value
  {
    hide InitialRead, PollLoop, StateAt, LastPush, Position, Wrap;
    var n := env.gets[a].at;
    NoLaterPush(log, m, n, a);
    StateGrows(log, m, n, a);
    ReadAt(log, addresses, env.gets, mode.maxAge, a);
  }

  lemma NoLaterPush(log: Log, m: nat, n: nat, a: Address)
    requires m <= n <= |log| && forall i | m <= i < |log| :: log[i].addr != a
    ensures LastPush(log[..n], a) <= m
  {}

  /** From `/w` to `/r`. A client writes the value text `value` to the address `a`; the server
      sends one packet, which knxd relays and the reader drains. Until the next telegram for
      `a`, every unfiltered initial read that contains `a` reports the value: its body has
      exactly one member for `a`, with the text that `ReportedTextExactlyWhen` describes. */
  lemma WrittenValueIsRead(log: Log, ns: string, a: Address, value: string, sessionValid: bool, source: Word16,
                           time: int, later: Log, addresses: set<Address>, mode: Mode, seen: nat, env: Env)
    requires Readable(ns) && WriteHandler.Apdu(value).Some? && |value| <= 0x1fff0
    requires a != 0 && (a in SharedView(log) || |SharedView(log)| < CAPACITY)
    requires |log| < |later| && later[..|log| + 1] == log + [WrittenPush(value, a, time)]
    requires forall i | |log| < i < |later| :: later[i].addr != a
    requires Timed(later, addresses, env) && a in addresses && |log| < env.gets[a].at && mode.maxAge < 0
    ensures var pairs := WritePairs(ns, a, value, None);
            && Encodable(pairs)
            && var params := Parsed(EncodeQuery(pairs));
            && var command := WriteHandler.Interpret(params, sessionValid);
            && command.Send? && WriteHandler.Targets(GetAll(params, "a"), ns) == [a]
            && var packet := BuildGroupPacket(a, command.apdu);
            && Framed(packet) && Relay(source, packet).Some?
            && var message := Relay(source, packet).value;
            && Framed(message) && Received(log, message, time) == later[..|log| + 1]
    ensures forall items, text |
              && ReadHandler.Distinct(items)
              && ReadHandler.MapOf(items) == ReadProtocol.Serve(later, addresses, mode, 0, seen, env).values ::
              ReadHandler.HasMember(ReadHandler.MembersOf(ns, items), Key(ns, a), Json.Str(text)) <==>
              text == Hex.Encoded(Stored(Hex.Decoded(value)))
  {
    var apdu := WriteHandler.Apdu(value).value;
    WriteIsUnderstood(ns, a, value, None, sessionValid);
    PacketIsRelayed(source, a, apdu);
    WriteIsStored(log, value, a, source, time);
    WriteIsPushed(log, value, a, source, time);
    hide Parsed, EncodeQuery, Encodable, WritePairs, WriteHandler.Interpret, WriteHandler.Targets, WriteHandler.Apdu,
         BuildGroupPacket, Framed, Relay, Received, ReadProtocol.Serve, SharedView, Key, Stored, ReadHandler.MembersOf,
         ReadHandler.HasMember, Hex.Encoded, Hex.Decoded, ReadHandler.MapOf, ReadHandler.Distinct;
    StoredIsServed(later, |log| + 1, a, addresses, mode, seen, env);
    forall items, text |
        && ReadHandler.Distinct(items)
        && ReadHandler.MapOf(items) == ReadProtocol.Serve(later, addresses, mode, 0, seen, env).values
      ensures ReadHandler.HasMember(ReadHandler.MembersOf(ns, items), Key(ns, a), Json.Str(text)) <==>
              text == Hex.Encoded(Stored(Hex.Decoded(value)))
    {
      ReadHandler.MemberIs(ns, items, a, text);
    }
  }

  /** The push that a delivered write leads to. */
  function WrittenPush(value: string, a: Address, time: int): Push
    requires WriteHandler.Apdu(value).Some?
  {
    var apdu := WriteHandler.Apdu(value).value;
    Push(a, match CacheValue(apdu) case None => [] case Some(v) => v, time)
  }

  lemma WriteIsPushed(log: Log, value: string, a: Address, source: Word16, time: int)
    requires WriteHandler.Apdu(value).Some? && |value| <= 0x1fff0
    ensures var message := ApduPacket(source, a, WriteHandler.Apdu(value).value);
            Framed(message) && Received(log, message, time) == log + [WrittenPush(value, a, time)]
  {
    hide TelegramIn, ApduPacket, Framed, CacheValue, CacheReader.PushesOf;
    var data := Hex.Decoded(value);
    TelegramRoundTrip(source, a, [0] + data);
    OneTelegram(Telegram(a, [0] + data), time);
    WrittenApdu(data);
  }

  /** The text reported for a written value is the value text without its control byte, in
      lower case, exactly when the control byte is not of the form 11xxxxxx and the value
      has at most 14 bytes. A control byte alone is reported as its low six bits. */
  lemma ReportedTextExactlyWhen(value: string)
    requires WriteHandler.Apdu(value).Some?
    ensures |value| > 2 ==>
              (Hex.Encoded(Stored(Hex.Decoded(value))) == Hex.LowerCase(value[2..]) <==>
               value[0] in "89abAB" && |value| <= 30)
    ensures |value| == 2 ==>
              Hex.Encoded(Stored(Hex.Decoded(value))) ==
              if value[0] in "89abAB" then Hex.ByteText(Hex.Decoded(value)[0] % 64) else ""
  {
    WriteHandler.FirstByte(value);
    if |value| > 2 {
      ReportedText(value);
    } else {
      OneByteText(Hex.Decoded(value)[0] % 64);
    }
  }

  lemma OneByteText(b: Byte)
    ensures Hex.Encoded([b]) == Hex.ByteText(b) && Hex.Encoded([]) == ""
  {
    assert [b][1..] == [];
    assert Hex.Encoded([b][1..]) == "";
  }

  lemma ReportedText(value: string)
    requires WriteHandler.Apdu(value).Some? && |value| > 2
    ensures Hex.Encoded(Stored(Hex.Decoded(value))) == Hex.LowerCase(value[2..]) <==>
            value[0] in "89abAB" && |value| <= 30
  {
    var data := Hex.Decoded(value);
    WriteHandler.FirstByte(value);
    EncodedSize(Stored(data));
    assert |Hex.LowerCase(value[2..])| == |value| - 2;
    if value[0] in "89abAB" && |value| <= 30 {
      assert Hex.WellFormed(value[2..]) && Hex.Decoded(value[2..]) == data[1..];
      Hex.EncodeUndoesDecode(value[2..]);
    }
  }

  lemma {:induction false} EncodedSize(data: seq<Byte>)
    ensures |Hex.Encoded(data)| == 2 * |data|
  {
    if data != [] {
      EncodedSize(data[1..]);
    }
  }

  // ---- A request for /r as a query string ----

  function AddressPairs(ns: string, addresses: seq<Address>): seq<StringPair> {
    if addresses == [] then []
    else AddressPairs(ns, addresses[..|addresses| - 1]) + [Pair("a", Key(ns, addresses[|addresses| - 1]))]
  }

  function SetOf(addresses: seq<Address>): set<Address> {
    set a | a in addresses
  }

  /** The parameters of a request. */
  function RequestPairs(ns: string, addresses: seq<Address>, index: Word32, t: Option<int>, session: Option<string>)
    : seq<StringPair>
  {
    AddressPairs(ns, addresses) + [Pair("i", Decimal.ToString(index))]
    + (if t.Some? then [Pair("t", Decimal.ToString(t.value))] else []) + SessionPairs(session)
  }

  predicate IsInt(t: Option<int>) {
    t.Some? ==> -Decimal.INT_MAX - 1 <= t.value <= Decimal.INT_MAX
  }

  lemma {:induction false} AddressPairsAreEncodable(ns: string, addresses: seq<Address>)
    requires Readable(ns)
    ensures Encodable(AddressPairs(ns, addresses)) && |AddressPairs(ns, addresses)| == |addresses|
  {
    hide Octets, Key, Json.Clean;
    if addresses != [] {
      AddressPairsAreEncodable(ns, addresses[..|addresses| - 1]);
      KeyIsOctets(ns, addresses[|addresses| - 1]);
      NamesAreOctets();
    }
  }

  /** The address texts of a request. */
  function Texts(ns: string, addresses: seq<Address>): seq<string> {
    if addresses == [] then [] else Texts(ns, addresses[..|addresses| - 1]) + [Key(ns, addresses[|addresses| - 1])]
  }

  lemma {:induction false} AddressPairsAre(ns: string, addresses: seq<Address>)
    ensures Multimap.Keys(AddressPairs(ns, addresses)) == if addresses == [] then [] else ["a"]
    ensures ValuesOf(AddressPairs(ns, addresses), "a") == Texts(ns, addresses)
    ensures ValuesOf(AddressPairs(ns, addresses), "i") == [] && ValuesOf(AddressPairs(ns, addresses), "t") == []
  {
    hide Key;
    if addresses != [] {
      var front, a := addresses[..|addresses| - 1], addresses[|addresses| - 1];
      AddressPairsAre(ns, front);
      AppendPair(AddressPairs(ns, front), Pair("a", Key(ns, a)));
      hide Multimap.Keys, ValuesOf;
    }
  }

  /** The texts name all the addresses and nothing else. */
  lemma {:induction false} TextsAreUnderstood(ns: string, addresses: seq<Address>)
    requires Readable(ns)
    ensures ReadHandler.Subscribed(Texts(ns, addresses), ns) == SetOf(addresses)
    ensures |Texts(ns, addresses)| == |addresses|
  {
    hide Key, FromCometVisu, ToEib, Octets, Json.Clean;
    if addresses != [] {
      var front, a := addresses[..|addresses| - 1], addresses[|addresses| - 1];
      TextsAreUnderstood(ns, front);
      ReadHandler.KeyIsUnderstood(ns, a);
      var before := Texts(ns, front);
      assert (before + [Key(ns, a)])[..|before|] == before;
      assert SetOf(addresses) == SetOf(front) + {a};
    }
  }

  lemma NumberIsOctets(n: int)
    ensures Octets(Decimal.ToString(n))
  {
    hide Decimal.Digits;
    DigitsAreOctets(if n < 0 then -n else n);
  }

  lemma RequestPairsAre(ns: string, addresses: seq<Address>, index: Word32, t: Option<int>, session: Option<string>)
    requires Readable(ns) && 0 < |addresses| && IsOctets(session)
    ensures var pairs := RequestPairs(ns, addresses, index, t, session);
            && Encodable(pairs) && |pairs| <= |addresses| + 3
            && Multimap.Keys(pairs) == ["a", "i"] + (if t.Some? then ["t"] else []) + (if session.Some? then ["s"] else [])
            && ValuesOf(pairs, "a") == Texts(ns, addresses)
            && ValuesOf(pairs, "i") == [Decimal.ToString(index)]
            && ValuesOf(pairs, "t") == (if t.Some? then [Decimal.ToString(t.value)] else [])
            && ValuesOf(pairs, "s") == (if session.Some? then [session.value] else [])
  {
    hide Multimap.Keys, ValuesOf, AddressPairs, Decimal.ToString, Octets, Texts, Readable, SessionPairs, IsOctets;
    var first, i := AddressPairs(ns, addresses), Pair("i", Decimal.ToString(index));
    AddressPairsAreEncodable(ns, addresses);
    AddressPairsAre(ns, addresses);
    NumberIsOctets(index);
    NamesAreOctets();
    AppendPair(first, i);
    if t.Some? {
      NumberIsOctets(t.value);
      AppendPair(first + [i], Pair("t", Decimal.ToString(t.value)));
      SessionPairsAre(first + [i] + [Pair("t", Decimal.ToString(t.value))], session);
    } else {
      assert first + [i] + [] == first + [i];
      SessionPairsAre(first + [i], session);
    }
  }

  lemma RequestIsParsed(ns: string, addresses: seq<Address>, index: Word32, t: Option<int>, session: Option<string>)
    requires Readable(ns) && 0 < |addresses| <= MAX_VALUES && IsOctets(session)
    ensures var pairs := RequestPairs(ns, addresses, index, t, session);
            && Encodable(pairs)
            && var params := Parsed(EncodeQuery(pairs));
            && GetAll(params, "a") == Texts(ns, addresses)
            && Get(params, "i") == Some(Decimal.ToString(index))
            && Get(params, "t") == (if t.Some? then Some(Decimal.ToString(t.value)) else None)
            && Get(params, "s") == session
  {
    hide Multimap.Keys, ValuesOf, Parsed, EncodeQuery, Encodable, RequestPairs, Texts, Decimal.ToString, Readable,
         IsOctets, Get, GetAll;
    var pairs := RequestPairs(ns, addresses, index, t, session);
    RequestPairsAre(ns, addresses, index, t, session);
    TextsAreUnderstood(ns, addresses);
    LookupsAre(pairs, "a");
    LookupsAre(pairs, "i");
    LookupsAre(pairs, "t");
    LookupsAre(pairs, "s");
  }

  /** The server understands the request of a client at raw position `seen` as the client
      means it, unless it names an invalid session: the same addresses, the mode of `t`, and
      the index it had sent. */
  lemma RequestIsUnderstood(ns: string, addresses: seq<Address>, seen: nat, t: Option<int>, session: Option<string>,
                            sessionValid: bool, longpollSec: int)
    requires Readable(ns) && 0 < |addresses| <= MAX_VALUES && IsInt(t) && IsOctets(session)
    ensures var pairs := RequestPairs(ns, addresses, Position(Wrap(seen)), t, session);
            && Encodable(pairs)
            && var request := ReadHandler.Interpret(Parsed(EncodeQuery(pairs)), ns, sessionValid, longpollSec);
            if session.Some? && !sessionValid then request.Rejected? && request.status == 401
            else request == ReadHandler.Accepted(SetOf(addresses), ModeOf(t, longpollSec), Position(Wrap(seen)))
  {
    hide Parsed, EncodeQuery, Encodable, RequestPairs, Texts, ReadHandler.Subscribed, ReadHandler.IndexOf,
         Position, Wrap, Decimal.ToString, Decimal.ParseInt, Get, GetAll, Readable, IsOctets;
    RequestIsParsed(ns, addresses, Position(Wrap(seen)), t, session);
    TextsAreUnderstood(ns, addresses);
    ReadHandler.IndexComesBack(seen);
    if t.Some? {
      Decimal.ParseUndoesPrint(t.value);
    }
    assert addresses[0] in SetOf(addresses);
  }

  /** A client reads, with or without a session: an invalid session is refused and asks the
      bus for nothing; otherwise the request is answered. */
  method ReadAs(ns: string, addresses: seq<Address>, request: Request, session: Option<string>, sessionValid: bool,
                longpollSec: int, log: Log, seen: nat)
    returns (status: int, items: seq<ReadHandler.Item>, index: Word32, requested: set<Address>)
    requires Readable(ns) && 0 < |addresses| <= MAX_VALUES && IsInt(request.t) && IsOctets(session)
    requires Timed(log, SetOf(addresses), request.env)
    ensures session.Some? && !sessionValid ==> status == 401 && requested == {}
    ensures session.None? || sessionValid ==>
              var mode, since := ModeOf(request.t, longpollSec), Position(Wrap(seen));
              var reply := ReadProtocol.Serve(log, SetOf(addresses), mode, since, seen, request.env);
              && status == 200 && ReadHandler.Distinct(items)
              && ReadHandler.MapOf(items) == reply.values && index == reply.index
              && (requested != {} ==> request.t == Some(0))
              && (request.t == Some(0) ==>
                    requested == SetOf(addresses) - InitialRead(log, SetOf(addresses), request.env.gets, -1).Keys)
  {
    hide RequestPairs, Encodable, EncodeQuery, Parsed, ReadHandler.Interpret, ReadProtocol.Serve, ReadHandler.Answered,
         ReadHandler.MapOf, ReadHandler.Distinct, ReadHandler.Tree, Json.Print, Position, Wrap, InitialRead, Readable,
         IsOctets;
    var t := request.t;
    RequestIsUnderstood(ns, addresses, seen, t, session, sessionValid, longpollSec);
    var raw := EncodeQuery(RequestPairs(ns, addresses, Position(Wrap(seen)), t, session));
    var body;
    status, body, items, index, requested :=
      ReadHandler.Handle(raw, ns, sessionValid, longpollSec, log, seen, request.env);
  }

  /** A long poll over its body: new data for the client is a member of the body exactly when
      something is pushed during the wait. */
  lemma BodyIsPromptExactlyWhen(log: Log, ns: string, addresses: set<Address>, mode: Mode, seen: nat, env: Env, k: nat,
                                a: Address, items: seq<ReadHandler.Item>)
    requires |log| < 0x1_0000_0000 && Timed(log, addresses, env) && mode.timeoutSec > 0
    requires ReadsFirst(mode, seen) ==> InitialRead(log, addresses, env.gets, mode.maxAge) == map[]
    requires NewAt(log, addresses, mode, env.start, env.polls, if ReadsFirst(mode, seen) then env.positionAt else seen, k, a)
    requires ReadHandler.Distinct(items)
    requires ReadHandler.MapOf(items) == ReadProtocol.Serve(log, addresses, mode, Position(Wrap(seen)), seen, env).values
    ensures var text := Hex.Encoded(StateAt(log, env.polls[k].query.at)[a].value);
            ReadHandler.HasMember(ReadHandler.MembersOf(ns, items), Key(ns, a), Json.Str(text)) <==>
            env.polls[k].entered < env.polls[k].left
  {
    hide ReadProtocol.Serve, InitialRead, StateAt, Hex.Encoded, Key, ReadHandler.MapOf, ReadHandler.MembersOf,
         ReadHandler.HasMember, ReadHandler.Distinct, Position, Wrap, LastPush, Retained, Reached, CompleteCondition;
    ServedPromptlyExactlyWhen(log, addresses, mode, seen, env, k, a);
    var text := Hex.Encoded(StateAt(log, env.polls[k].query.at)[a].value);
    ReadHandler.MemberIs(ns, items, a, text);
  }

  // ---- Sessions of query strings and bodies ----

  /** One exchange of a client: it writes out its request, and takes values and index from the
      body it gets. `seen` is the raw position behind its index, which it does not know. */
  method Exchange(ns: string, addresses: seq<Address>, request: Request, longpollSec: int, log: Log,
                  view: map<Address, seq<Byte>>, index: Word32, ghost seen: nat)
    returns (view': map<Address, seq<Byte>>, index': Word32, ghost seen': nat)
    requires Readable(ns) && 0 < |addresses| <= MAX_VALUES && IsInt(request.t)
    requires index == Position(Wrap(seen)) && Timed(log, SetOf(addresses), request.env)
    ensures var reply := ReadProtocol.Serve(log, SetOf(addresses), ModeOf(request.t, longpollSec), index, seen,
                                            request.env);
            view' == view + reply.values && index' == reply.index
    ensures seen' == ReadProtocol.Serve(log, SetOf(addresses), ModeOf(request.t, longpollSec), index, seen,
                                        request.env).seen
  {
    hide RequestPairs, Encodable, EncodeQuery, Parsed, ReadHandler.Interpret, ReadHandler.TakenFrom, ReadProtocol.Serve,
         ReadHandler.MapOf, ReadHandler.Distinct, ReadHandler.Tree, Json.Print, Position, Wrap, Json.Clean, InitialRead,
         ReadHandler.Answered;
    RequestIsUnderstood(ns, addresses, seen, request.t, None, true, longpollSec);
    var raw := EncodeQuery(RequestPairs(ns, addresses, index, request.t, None));
    var status, body, items, i, requested := ReadHandler.Handle(raw, ns, true, longpollSec, log, seen, request.env);
    ReadHandler.BodyIsUnderstood(ns, items, i);
    var taken := ReadHandler.TakenFrom(ns, body).value;
    view', index' := view + taken.0, taken.1;
    seen' := ReadProtocol.Serve(log, SetOf(addresses), ModeOf(request.t, longpollSec), index, seen, request.env).seen;
  }

  /** A whole session over query strings and bodies: whatever is pushed meanwhile, the client
      ends as in the protocol, with exactly the cached values of its addresses at the
      position of its index. */
  method RunSession(ns: string, addresses: seq<Address>, requests: seq<Request>, longpollSec: int, log: Log)
    returns (view: map<Address, seq<Byte>>, index: Word32)
    requires Readable(ns) && 0 < |addresses| <= MAX_VALUES && |log| < 0x1_0000_0000
    requires forall k | 0 <= k < |requests| :: IsInt(requests[k].t) && Timed(log, SetOf(addresses), requests[k].env)
    requires AdmissibleSession(log, SetOf(addresses), longpollSec, Client(map[], 0, 0), requests)
    ensures var client := Session(log, SetOf(addresses), longpollSec, Client(map[], 0, 0), requests);
            view == client.view && index == client.index && InSync(log, SetOf(addresses), client)
  {
    hide InSync, ReadProtocol.Serve, Admissible, Position, Wrap, SetOf, Readable, Timed, IsInt;
    SessionIsInSync(log, SetOf(addresses), longpollSec, requests);
    NewClientIsInSync(log, SetOf(addresses));
    view, index := map[], 0;
    ghost var seen, goal := 0, Session(log, SetOf(addresses), longpollSec, Client(map[], 0, 0), requests);
    var k := 0;
    assert requests[0..] == requests;
    while k < |requests|
      invariant 0 <= k <= |requests| && InSync(log, SetOf(addresses), Client(view, index, seen))
      invariant AdmissibleSession(log, SetOf(addresses), longpollSec, Client(view, index, seen), requests[k..])
      invariant Session(log, SetOf(addresses), longpollSec, Client(view, index, seen), requests[k..]) == goal
    {
      assert requests[k..][0] == requests[k] && requests[k..][1..] == requests[k + 1..];
      RequestKeepsSync(log, SetOf(addresses), ModeOf(requests[k].t, longpollSec), Client(view, index, seen),
                       requests[k].env);
      IndexInSync(log, SetOf(addresses), Client(view, index, seen));
      view, index, seen := Exchange(ns, addresses, requests[k], longpollSec, log, view, index, seen);
      k := k + 1;
    }
  }

  lemma IndexInSync(log: Log, addresses: set<Address>, client: Client)
    requires InSync(log, addresses, client)
    ensures client.index == Position(Wrap(client.seen))
  {}
}
