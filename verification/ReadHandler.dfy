/** `GET /r`: from the parameters to the JSON body. */
module ReadHandler {
  import opened Basics
  import opened Positions
  import opened TelegramLog
  import opened CacheQueries
  import opened ReadProtocol
  import opened Decimal
  import opened KnxAddress
  import QueryString
  import Hex
  import Json

  type Item = (Address, seq<Byte>)

  // ---- The request ----

  datatype Request = Rejected(status: int, body: string) | Accepted(addresses: set<Address>, mode: Mode, index: Word32)

  function Subscribed(texts: seq<string>, ns: string): set<Address> {
    if texts == [] then {} else
    Subscribed(texts[..|texts| - 1], ns)
    + match FromCometVisu(texts[|texts| - 1], ns) case None => {} case Some(full) => {ToEib(full.group)}
  }

  /** An index that is missing, malformed or negative counts as 0. */
  function IndexOf(i: Option<string>): Word32 {
    match i
    case None => 0
    case Some(s) => match ParseInt(s) case None => 0 case Some(v) => if v >= 0 then v else 0
  }

  /** The checks of the handler in their order. */
  function Interpret(params: QueryString.Params, ns: string, sessionValid: bool, longpollSec: int): Request {
    var texts, t := QueryString.GetAll(params, "a"), QueryString.Get(params, "t");
    if texts == [] then Rejected(400, "{\"error\":\"missing address\"}")
    else if QueryString.Get(params, "s").Some? && !sessionValid then Rejected(401, "{\"error\":\"invalid session\"}")
    else if t.Some? && ParseInt(t.value).None? then Rejected(400, "{\"error\":\"invalid timeout\"}")
    else if Subscribed(texts, ns) == {} then Rejected(404, "{\"error\":\"no valid addresses\"}")
    else
      Accepted(Subscribed(texts, ns), ModeOf(if t.Some? then ParseInt(t.value) else None, longpollSec),
               IndexOf(QueryString.Get(params, "i")))
  }

  /** Which status a request is answered with. A session is looked at only when one is given,
      a malformed address is ignored as long as another one is well-formed. */
  ghost predicate Answered(params: QueryString.Params, ns: string, sessionValid: bool, status: int) {
    var texts, session, t :=
      QueryString.GetAll(params, "a"), QueryString.Get(params, "s"), QueryString.Get(params, "t");
    var refused, badTime := session.Some? && !sessionValid, t.Some? && ParseInt(t.value).None?;
    var named := exists a: Address :: Named(texts, ns, a);
    && (status == 200 <==> texts != [] && !refused && !badTime && named)
    && (status == 401 <==> texts != [] && refused)
    && (status == 404 <==> texts != [] && !refused && !badTime && !named)
    && (status == 400 <==> texts == [] || (!refused && badTime))
  }

  lemma AnswersAre(params: QueryString.Params, ns: string, sessionValid: bool, longpollSec: int)
    ensures match Interpret(params, ns, sessionValid, longpollSec)
            case Rejected(status, _) => Answered(params, ns, sessionValid, status)
            case Accepted(_, _, _) => Answered(params, ns, sessionValid, 200)
  {
    hide ParseInt, Named, Subscribed;
    var texts := QueryString.GetAll(params, "a");
    forall a: Address ensures a in Subscribed(texts, ns) <==> Named(texts, ns, a) {
      SubscribedAreNamed(texts, ns, a);
    }
  }

  /** A missing, malformed or negative index is 0. */
  lemma IndexOfIs(i: Option<string>)
    ensures i == None ==> IndexOf(i) == 0
    ensures i.Some? && (ParseInt(i.value) == None || ParseInt(i.value).value < 0) ==> IndexOf(i) == 0
    ensures i.Some? && ParseInt(i.value).Some? && ParseInt(i.value).value >= 0 ==>
              IndexOf(i) == ParseInt(i.value).value
  {
    hide ParseInt;
  }

  // ---- The body ----

  function MembersOf(ns: string, items: seq<Item>): Json.Members {
    if items == [] then Json.Nil
    else Json.Cons(Key(ns, items[0].0), Json.Str(Hex.Encoded(items[0].1)), MembersOf(ns, items[1..]))
  }

  function Tree(ns: string, items: seq<Item>, index: Word32): Json.Value {
    Json.Obj(Json.Cons("d", Json.Obj(MembersOf(ns, items)), Json.Cons("i", Json.Num(index), Json.Nil)))
  }

  function MapOf(items: seq<Item>): map<Address, seq<Byte>> {
    if items == [] then map[] else MapOf(items[..|items| - 1])[items[|items| - 1].0 := items[|items| - 1].1]
  }

  ghost predicate Distinct(items: seq<Item>) {
    forall i, j | 0 <= i < j < |items| :: items[i].0 != items[j].0
  }

  /** The text the builder holds while it adds the members of `d`. */
  function Opened(ns: string, items: seq<Item>): string {
    "{" + Json.Quoted("d") + ":" + "{" + Json.PrintMembers(MembersOf(ns, items))
  }

  lemma {:induction false} MembersAppend(ns: string, items: seq<Item>, item: Item)
    ensures Json.PrintMembers(MembersOf(ns, items + [item])) ==
            Json.PrintMembers(MembersOf(ns, items)) + (if items == [] then "" else ",")
            + Json.Quoted(Key(ns, item.0)) + ":" + Json.Quoted(Hex.Encoded(item.1))
  {
    hide Json.Quoted, Key, Hex.Encoded;
    var all := items + [item];
    if items == [] {
      assert all[1..] == [];
      assert MembersOf(ns, all[1..]) == Json.Nil;
    } else {
      assert all[1..] == items[1..] + [item];
      MembersAppend(ns, items[1..], item);
      if |items| == 1 {
        assert MembersOf(ns, items[1..]) == Json.Nil;
      }
    }
  }

  lemma OpenedAppend(ns: string, items: seq<Item>, item: Item)
    ensures Opened(ns, items + [item]) ==
            Opened(ns, items) + (if items == [] then "" else ",")
            + Json.Quoted(Key(ns, item.0)) + ":" + Json.Quoted(Hex.Encoded(item.1))
  {
    hide Json.Quoted, Json.PrintMembers, Key, Hex.Encoded;
    MembersAppend(ns, items, item);
  }

  lemma ClosedIsTree(ns: string, items: seq<Item>, index: Word32)
    ensures Opened(ns, items) + "}" + "," + Json.Quoted("i") + ":" + ToString(index) + "}" ==
            Json.Print(Tree(ns, items, index))
  {
    hide Json.Quoted, Json.Print, Json.PrintMembers, MembersOf, ToString;
    PrintOfTree(MembersOf(ns, items), index);
    Concatenated(Json.Quoted("d"), Json.PrintMembers(MembersOf(ns, items)), Json.Quoted("i"), ToString(index));
  }

  lemma PrintOfTree(m: Json.Members, index: int)
    ensures Json.Print(Json.Obj(Json.Cons("d", Json.Obj(m), Json.Cons("i", Json.Num(index), Json.Nil)))) ==
            "{" + (Json.Quoted("d") + ":" + ("{" + Json.PrintMembers(m) + "}")
                   + ("," + (Json.Quoted("i") + ":" + ToString(index) + ""))) + "}"
  {
    hide Json.Quoted, ToString;
    assert Json.Print(Json.Obj(m)) == "{" + Json.PrintMembers(m) + "}";
    assert Json.PrintMembers(Json.Cons("i", Json.Num(index), Json.Nil)) ==
           Json.Quoted("i") + ":" + ToString(index) + "";
  }

  lemma Concatenated(d: string, members: string, i: string, index: string)
    ensures "{" + d + ":" + "{" + members + "}" + "," + i + ":" + index + "}" ==
            "{" + (d + ":" + ("{" + members + "}") + ("," + (i + ":" + index + ""))) + "}"
  {}

  lemma AppendItem(items: seq<Item>, item: Item)
    requires Distinct(items) && item.0 !in MapOf(items)
    ensures Distinct(items + [item]) && MapOf(items + [item]) == MapOf(items)[item.0 := item.1]
  {
    assert (items + [item])[..|items|] == items;
    forall i | 0 <= i < |items| ensures items[i].0 != item.0 {
      ItemIsMapped(items, i);
    }
  }

  lemma {:induction false} ItemIsMapped(items: seq<Item>, i: nat)
    requires i < |items|
    ensures items[i].0 in MapOf(items)
  {
    if i < |items| - 1 {
      ItemIsMapped(items[..|items| - 1], i);
    }
  }

  /** The builder has written exactly the items so far. */
  ghost predicate Writing(json: Json.JsonBuilder, ns: string, items: seq<Item>)
    reads json
  {
    json.buffer == Opened(ns, items) && json.first == (items == []) && Distinct(items)
  }

  method Write(json: Json.JsonBuilder, ns: string, items: seq<Item>, item: Item) returns (more: seq<Item>)
    requires Writing(json, ns, items) && item.0 !in MapOf(items)
    modifies json
    ensures more == items + [item] && Writing(json, ns, more)
    ensures MapOf(more) == MapOf(items)[item.0 := item.1]
  {
    hide Json.Quoted, Opened, Key, Hex.Encoded;
    OpenedAppend(ns, items, item);
    AppendItem(items, item);
    var hex := Hex.HexEncode(item.1);
    json.AddString(Key(ns, item.0), hex);
    more := items + [item];
  }

  // ---- The handler ----

  /** The loop over the subscribed addresses, in any order. */
  method ReadInitial(json: Json.JsonBuilder, ns: string, log: Log, addresses: set<Address>, mode: Mode, env: Env)
    returns (items: seq<Item>)
    requires Timed(log, addresses, env) && Writing(json, ns, [])
    modifies json
    ensures Writing(json, ns, items) && MapOf(items) == InitialRead(log, addresses, env.gets, mode.maxAge)
  {
    hide Writing, Lookup, ServedAt;
    items := [];
    var rest := addresses;
    while rest != {}
      invariant rest <= addresses && Writing(json, ns, items)
      invariant MapOf(items) == InitialRead(log, addresses - rest, env.gets, mode.maxAge)
      decreases rest
    {
      var a :| a in rest;
      assert addresses - (rest - {a}) == addresses - rest + {a};
      rest := rest - {a};
      var cached := Lookup(ServedAt(log, env.gets[a].at), a, mode.maxAge, env.gets[a].wall);
      if cached.Some? {
        items := Write(json, ns, items, (a, cached.value));
      }
    }
    assert addresses - rest == addresses;
  }

  /** The loop over the entries of a delta, in any order. */
  method WriteDelta(json: Json.JsonBuilder, ns: string, values: map<Address, seq<Byte>>) returns (items: seq<Item>)
    requires Writing(json, ns, [])
    modifies json
    ensures Writing(json, ns, items) && MapOf(items) == values
  {
    hide Writing;
    items := [];
    var rest := values.Keys;
    while rest != {}
      invariant rest <= values.Keys && Writing(json, ns, items)
      invariant MapOf(items) == values - rest
      decreases rest
    {
      var a :| a in rest;
      rest := rest - {a};
      items := Write(json, ns, items, (a, values[a]));
    }
  }

  /** The poll loop; it runs only while nothing has been written. */
  method PollForData(json: Json.JsonBuilder, ns: string, log: Log, addresses: set<Address>, mode: Mode,
                     start: int, polls: seq<Poll>, since: Word32, ghost seen: nat)
    returns (items: seq<Item>, index: Word32)
    requires forall k | 0 <= k < |polls| :: polls[k].query.at <= |log|
    requires Writing(json, ns, [])
    modifies json
    ensures Writing(json, ns, items)
    ensures var reply := PollLoop(log, addresses, mode, start, polls, since, seen);
            MapOf(items) == reply.values && index == reply.index
  {
    hide Writing, Delta, Position, Wrap;
    items, index := [], since;
    var k := 0;
    ghost var goal := PollLoop(log, addresses, mode, start, polls, since, seen);
    ghost var at := seen;
    assert polls[0..] == polls;
    while k < |polls|
      invariant 0 <= k <= |polls| && items == [] && Writing(json, ns, [])
      invariant PollLoop(log, addresses, mode, start, polls[k..], index, at) == goal
    {
      var poll := polls[k];
      assert polls[k..][0] == poll && polls[k..][1..] == polls[k + 1..];
      if RemainingSec(mode.timeoutSec, start, poll.clock) <= 0 {
        return;
      }
      if !Woken(poll) {
        return;
      }
      var values := Delta(log, addresses, mode.maxAge, poll.query, index);
      items := WriteDelta(json, ns, values);
      index, at := Position(Wrap(poll.query.at)), poll.query.at;
      if items != [] {
        SomeItems(items);
        return;
      }
      k := k + 1;
    }
  }

  lemma SomeItems(items: seq<Item>)
    ensures items == [] <==> MapOf(items) == map[]
  {
    if items != [] {
      ItemIsMapped(items, 0);
    }
  }

  /** A request that passed the checks. `requested` are the addresses for which a read
      request is sent to the bus. */
  method Serve(ns: string, log: Log, addresses: set<Address>, mode: Mode, since: Word32, ghost seen: nat, env: Env)
    returns (body: string, items: seq<Item>, index: Word32, requested: set<Address>)
    requires Timed(log, addresses, env) && (mode.readBus ==> mode.forceInitial)
    ensures var reply := ReadProtocol.Serve(log, addresses, mode, since, seen, env);
            MapOf(items) == reply.values && index == reply.index
    ensures Distinct(items) && body == Json.Print(Tree(ns, items, index))
    ensures requested == if mode.readBus then addresses - InitialRead(log, addresses, env.gets, mode.maxAge).Keys else {}
  {
    hide Json.Quoted, Json.Print, Json.PrintMembers, Key, InitialRead, PollLoop, Tree, Opened, ToString, Position, Wrap;
    var json := Begin(ns);
    items, index, requested := [], since, {};
    if mode.forceInitial || since == 0 {
      items := ReadInitial(json, ns, log, addresses, mode, env);
      index := Position(Wrap(env.positionAt));
    }
    SomeItems(items);
    if mode.readBus {
      requested := addresses - MapOf(items).Keys;
    }
    if mode.timeoutSec > 0 && items == [] {
      ghost var at := if mode.forceInitial || since == 0 then env.positionAt else seen;
      items, index := PollForData(json, ns, log, addresses, mode, env.start, env.polls, index, at);
    }
    body := End(json, ns, items, index);
  }

  method Begin(ns: string) returns (json: Json.JsonBuilder)
    ensures fresh(json) && Writing(json, ns, [])
  {
    json := new Json.JsonBuilder();
    json.StartObject();
    json.AddKey("d");
    json.StartObject();
  }

  method End(json: Json.JsonBuilder, ns: string, items: seq<Item>, index: Word32) returns (body: string)
    requires Writing(json, ns, items)
    modifies json
    ensures body == Json.Print(Tree(ns, items, index))
  {
    hide Json.Quoted, Json.Print, Tree, Opened, ToString;
    ClosedIsTree(ns, items, index);
    json.EndObject();
    json.AddNumber("i", index);
    json.EndObject();
    body := json.buffer;
  }

  /** `GET /r` with a raw query string. The session store and everything that happens at
      the cache during the request are parameters. */
  method Handle(raw: string, ns: string, sessionValid: bool, longpollSec: int, log: Log, ghost seen: nat, env: Env)
    returns (status: int, body: string, items: seq<Item>, index: Word32, requested: set<Address>)
    requires var request := Interpret(QueryString.Parsed(raw), ns, sessionValid, longpollSec);
             request.Accepted? ==> Timed(log, request.addresses, env)
    ensures match Interpret(QueryString.Parsed(raw), ns, sessionValid, longpollSec)
            case Rejected(s, b) => status == s && body == b && requested == {}
            case Accepted(addresses, mode, since) =>
              var reply := ReadProtocol.Serve(log, addresses, mode, since, seen, env);
              && status == 200
              && MapOf(items) == reply.values && index == reply.index
              && Distinct(items) && body == Json.Print(Tree(ns, items, index))
              && requested == if mode.readBus then addresses - InitialRead(log, addresses, env.gets, mode.maxAge).Keys else {}
    ensures Answered(QueryString.Parsed(raw), ns, sessionValid, status)
    ensures status != 200 ==> requested == {}
    ensures status == 401 ==> body == "{\"error\":\"invalid session\"}"
    ensures status == 404 ==> body == "{\"error\":\"no valid addresses\"}"
    ensures status == 400 ==>
              body == if QueryString.GetAll(QueryString.Parsed(raw), "a") == [] then "{\"error\":\"missing address\"}"
                      else "{\"error\":\"invalid timeout\"}"
  {
    AnswersAre(QueryString.Parsed(raw), ns, sessionValid, longpollSec);
    hide Answered;
    hide QueryString.Parsed, ParseInt, ReadProtocol.Serve, InitialRead, Tree, Json.Print, FromCometVisu, Subscribed;
    status, body, items, index, requested := 200, "", [], 0, {};
    var params := QueryString.ParseQuery(raw);
    var texts := QueryString.GetAll(params, "a");
    if texts == [] {
      status, body := 400, "{\"error\":\"missing address\"}";
      return;
    }
    if QueryString.Get(params, "s").Some? && !sessionValid {
      status, body := 401, "{\"error\":\"invalid session\"}";
      return;
    }
    var t := None;
    if QueryString.Get(params, "t").Some? {
      t := ParseInt(QueryString.Get(params, "t").value);
      if t.None? {
        status, body := 400, "{\"error\":\"invalid timeout\"}";
        return;
      }
    }
    var since := IndexOf(QueryString.Get(params, "i"));
    var addresses := AddressSet(texts, ns);
    if addresses == {} {
      status, body := 404, "{\"error\":\"no valid addresses\"}";
      return;
    }
    body, items, index, requested := Serve(ns, log, addresses, ModeOf(t, longpollSec), since, seen, env);
  }

  lemma {:induction false} SubscribedAreNamed(texts: seq<string>, ns: string, a: Address)
    ensures a in Subscribed(texts, ns) <==> Named(texts, ns, a)
  {
    hide FromCometVisu, ToEib;
    if texts != [] {
      var front := texts[..|texts| - 1];
      SubscribedAreNamed(front, ns, a);
      assert forall i | 0 <= i < |front| :: front[i] == texts[i];
    }
  }

  /** Collects the addresses that some text names. */
  method AddressSet(texts: seq<string>, ns: string) returns (addresses: set<Address>)
    ensures addresses == Subscribed(texts, ns)
    ensures forall a: Address :: a in addresses <==> Named(texts, ns, a)
  {
    hide FromCometVisu, ToEib, Named;
    forall a: Address ensures a in Subscribed(texts, ns) <==> Named(texts, ns, a) {
      SubscribedAreNamed(texts, ns, a);
    }
    addresses := {};
    for k := 0 to |texts|
      invariant addresses == Subscribed(texts[..k], ns)
    {
      assert texts[..k + 1][..k] == texts[..k];
      var parsed := ParseCometVisu(texts[k], ns);
      if parsed.Some? {
        addresses := addresses + {ToEib(parsed.value.group)};
      }
    }
    assert texts[..|texts|] == texts;
  }

  // ---- What the client can tell from the body ----

  lemma {:induction false} DigitsAreClean(n: nat)
    ensures Json.Clean(Digits(n))
  {
    if n >= 10 {
      DigitsAreClean(n / 10);
    }
  }

  lemma KeyIsClean(ns: string, a: Address)
    requires Json.Clean(ns)
    ensures Json.Clean(Key(ns, a))
  {
    hide Digits;
    var g := FromEib(a);
    DigitsAreClean(g.main);
    DigitsAreClean(g.middle);
    DigitsAreClean(g.sub);
  }

  lemma {:induction false} HexIsClean(data: seq<Byte>)
    ensures Json.Clean(Hex.Encoded(data))
  {
    if data != [] {
      HexIsClean(data[1..]);
    }
  }

  lemma {:induction false} MembersAreClean(ns: string, items: seq<Item>)
    requires Json.Clean(ns)
    ensures Json.CleanMembers(MembersOf(ns, items))
  {
    if items != [] {
      hide Json.Clean, Key, Hex.Encoded;
      KeyIsClean(ns, items[0].0);
      HexIsClean(items[0].1);
      MembersAreClean(ns, items[1..]);
    }
  }

  /** The body is JSON for the values and the index. */
  lemma BodyReadsBack(ns: string, items: seq<Item>, index: Word32)
    requires Json.Clean(ns)
    ensures Json.ReadValue(Json.Print(Tree(ns, items, index))) == Some((Tree(ns, items, index), ""))
  {
    hide MembersOf;
    var tree := Tree(ns, items, index);
    MembersAreClean(ns, items);
    assert Json.CleanValue(Json.Num(index));
    assert Json.CleanMembers(Json.Cons("i", Json.Num(index), Json.Nil));
    assert Json.CleanValue(Json.Obj(MembersOf(ns, items)));
    Json.ReadUndoesPrint(tree, "");
    assert Json.Print(tree) + "" == Json.Print(tree);
  }

  lemma {:induction false} MembersDetermineItems(ns: string, x: seq<Item>, y: seq<Item>)
    requires MembersOf(ns, x) == MembersOf(ns, y)
    ensures x == y
  {
    if x != [] && y != [] {
      hide Key, Hex.Encoded;
      KeysAreDistinct(ns, x[0].0, y[0].0);
      Hex.EncodedIsInjective(x[0].1, y[0].1);
      MembersDetermineItems(ns, x[1..], y[1..]);
      assert x[0] == y[0];
      assert x == [x[0]] + x[1..] && y == [y[0]] + y[1..];
    }
  }

  /** Different replies have different bodies. */
  lemma BodyDeterminesReply(ns: string, x: seq<Item>, i: Word32, y: seq<Item>, j: Word32)
    requires Json.Clean(ns) && Json.Print(Tree(ns, x, i)) == Json.Print(Tree(ns, y, j))
    ensures x == y && i == j
  {
    hide Json.Print, MembersOf, Json.ReadValue, Json.Clean;
    BodyReadsBack(ns, x, i);
    BodyReadsBack(ns, y, j);
    MembersDetermineItems(ns, x, y);
  }

  /** An index the server has sent comes back unchanged in the next request. */
  lemma IndexComesBack(n: nat)
    ensures var index := Position(Wrap(n)); IndexOf(Some(ToString(index))) == index
  {
    hide ToString, ParseInt, Wrap;
    ParseUndoesPrint(Position(Wrap(n)));
  }

  predicate HasMember(m: Json.Members, key: string, value: Json.Value) {
    m.Cons? && ((m.key == key && m.value == value) || HasMember(m.rest, key, value))
  }

  lemma {:induction false} MapOfFront(items: seq<Item>)
    requires items != [] && Distinct(items)
    ensures MapOf(items) == MapOf(items[1..])[items[0].0 := items[0].1]
    ensures items[0].0 !in MapOf(items[1..])
  {
    var n := |items| - 1;
    if n == 0 {
      assert items[..0] == [] && items[1..] == [];
    } else {
      MapOfFront(items[..n]);
      assert items[..n][1..] == items[1..][..n - 1];
      assert items[..n][0] == items[0] && items[1..][n - 1] == items[n];
    }
  }

  /** The body has a member for an address exactly with the hex text of its value. */
  lemma {:induction false} MemberIs(ns: string, items: seq<Item>, a: Address, text: string)
    requires Distinct(items)
    ensures HasMember(MembersOf(ns, items), Key(ns, a), Json.Str(text)) <==>
            a in MapOf(items) && Hex.Encoded(MapOf(items)[a]) == text
  {
    if items != [] {
      hide Key, Hex.Encoded, MapOf;
      MapOfFront(items);
      MemberIs(ns, items[1..], a, text);
      if Key(ns, items[0].0) == Key(ns, a) {
        KeysAreDistinct(ns, items[0].0, a);
      }
    }
  }

  // ---- A client that reads the body ----

  /** The values in the members of `d`; nothing when a key or a value is malformed. */
  function ValuesIn(ns: string, m: Json.Members): Option<map<Address, seq<Byte>>> {
    match m
    case Nil => Some(map[])
    case Cons(key, value, rest) =>
      var address, others := FromCometVisu(key, ns), ValuesIn(ns, rest);
      if address.Some? && others.Some? && value.Str? && Hex.WellFormed(value.text) then
        Some(others.value[ToEib(address.value.group) := Hex.Decoded(value.text)])
      else None
  }

  /** What a client takes from a body: the values and the index. */
  function TakenFrom(ns: string, body: string): Option<(map<Address, seq<Byte>>, int)> {
    match Json.ReadValue(body)
    case Some((Obj(Cons(d, Obj(members), Cons(i, Num(index), Nil))), "")) =>
      if d != "d" || i != "i" then None else
      (match ValuesIn(ns, members) case None => None case Some(values) => Some((values, index)))
    case _ => None
  }

  lemma KeyIsUnderstood(ns: string, a: Address)
    requires ':' !in ns
    ensures FromCometVisu(Key(ns, a), ns).Some? && ToEib(FromCometVisu(Key(ns, a), ns).value.group) == a
  {
    hide FromCometVisu, ToCometVisu, ToEib, FromEib;
    CometVisuRoundTripExactlyWhen(Full(ns, FromEib(a)), ns);
    EibRoundTrip(FromEib(a), a);
  }

  lemma {:induction false} ValuesInMembers(ns: string, items: seq<Item>)
    requires ':' !in ns && Distinct(items)
    ensures ValuesIn(ns, MembersOf(ns, items)) == Some(MapOf(items))
  {
    hide Key, Hex.Encoded, Hex.Decoded, Hex.WellFormed, MapOf, FromCometVisu, ToEib;
    if items == [] {
      NoItemsNoValues();
    } else {
      MapOfFront(items);
      ValuesInMembers(ns, items[1..]);
      KeyIsUnderstood(ns, items[0].0);
      Hex.DecodeUndoesEncode(items[0].1);
    }
  }

  lemma NoItemsNoValues()
    ensures MapOf([]) == map[]
  {}

  /** A client takes from the body exactly the values and the index that were put into it. */
  lemma BodyIsUnderstood(ns: string, items: seq<Item>, index: Word32)
    requires Json.Clean(ns) && ':' !in ns && Distinct(items)
    ensures TakenFrom(ns, Json.Print(Tree(ns, items, index))) == Some((MapOf(items), index as int))
  {
    hide Json.ReadValue, Json.Print, ValuesIn, MembersOf, MapOf, Json.Clean;
    BodyReadsBack(ns, items, index);
    ValuesInMembers(ns, items);
  }
}
