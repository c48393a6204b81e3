/** `GET /w`: from the parameters to the group packets handed to knxd. */
module WriteHandler {
  import opened Basics
  import opened KnxAddress
  import QueryString
  import Hex

  /** What a request asks for, before any address is looked at. */
  datatype Command = Ignored | Unauthorized | Send(apdu: seq<Byte>)

  /** The APDU a value parameter stands for: a zero byte and the decoded bytes, whose first
      one has to have the write bit. */
  function Apdu(value: string): Option<seq<Byte>> {
    var data := Hex.Decoded(value);
    if data == [] || data[0] < 0x80 then None else Some([0] + data)
  }

  /** A value that stands for no APDU is ignored, but only after the session check. */
  function Interpret(params: QueryString.Params, sessionValid: bool): Command {
    var value := QueryString.Get(params, "v");
    if QueryString.GetAll(params, "a") == [] || value.None? then Ignored
    else if QueryString.Get(params, "s").Some? && !sessionValid then Unauthorized
    else match Apdu(value.value) case None => Ignored case Some(apdu) => Send(apdu)
  }

  /** The well-formed addresses in request order, repetitions included. */
  function Targets(texts: seq<string>, ns: string): seq<Address> {
    if texts == [] then [] else
    Targets(texts[..|texts| - 1], ns)
    + match FromCometVisu(texts[|texts| - 1], ns) case None => [] case Some(full) => [ToEib(full.group)]
  }

  lemma NoTargets(ns: string)
    ensures Targets([], ns) == []
  {}

  /** Sends one packet per well-formed address; `delivered(k)` is whether the k-th send
      succeeds. One failed send does not stop the others. */
  method SendAll(texts: seq<string>, ns: string, delivered: nat -> bool)
    returns (sent: seq<Address>, anyValid: bool, anyFailed: bool)
    ensures sent == Targets(texts, ns)
    ensures anyValid <==> sent != []
    ensures anyFailed <==> exists k | 0 <= k < |sent| :: !delivered(k)
  {
    hide FromCometVisu, ToEib;
    sent, anyValid, anyFailed := [], false, false;
    for i := 0 to |texts|
      invariant sent == Targets(texts[..i], ns)
      invariant anyValid <==> sent != []
      invariant anyFailed <==> exists k | 0 <= k < |sent| :: !delivered(k)
    {
      assert texts[..i + 1][..i] == texts[..i];
      var parsed := ParseCometVisu(texts[i], ns);
      if parsed.None? {
        continue;
      }
      anyValid := true;
      if !delivered(|sent|) {
        anyFailed := true;
      }
      sent := sent + [ToEib(parsed.value.group)];
    }
    assert texts[..|texts|] == texts;
  }

  /** `GET /w` with a raw query string. Every well-formed address is sent the same APDU.
      The status tells the cases apart: 404 when no address was well-formed, 503 when any
      send failed, 200 when there was nothing to do or all sends succeeded. */
  method Handle(raw: string, ns: string, sessionValid: bool, delivered: nat -> bool)
    returns (status: int, body: string, sent: seq<Address>, apdu: seq<Byte>)
    ensures var params := QueryString.Parsed(raw);
            match Interpret(params, sessionValid)
            case Ignored => status == 200 && body == "" && sent == []
            case Unauthorized => status == 401 && body == "{\"error\":\"invalid session\"}" && sent == []
            case Send(wanted) =>
              && apdu == wanted && sent == Targets(QueryString.GetAll(params, "a"), ns)
              && (status == 404 <==> sent == [])
              && (status == 503 <==> exists k | 0 <= k < |sent| :: !delivered(k))
              && (status == 200 <==> sent != [] && forall k | 0 <= k < |sent| :: delivered(k))
              && (status in {200, 404, 503})
              && body == if status == 404 then "{\"error\":\"invalid address format\"}"
                         else if status == 503 then "{\"error\":\"write failed\"}" else ""
    ensures var params := QueryString.Parsed(raw);
            status == 401 <==>
            && QueryString.GetAll(params, "a") != [] && QueryString.Get(params, "v").Some?
            && QueryString.Get(params, "s").Some? && !sessionValid
    ensures var params := QueryString.Parsed(raw);
            var value := QueryString.Get(params, "v");
            if value.Some? && Apdu(value.value).Some? && (QueryString.Get(params, "s").None? || sessionValid) then
              sent == Targets(QueryString.GetAll(params, "a"), ns) && (sent != [] ==> apdu == Apdu(value.value).value)
            else sent == []
  {
    NoTargets(ns);
    hide QueryString.Parsed, Targets, Hex.Decoded;
    status, body, sent, apdu := 200, "", [], [];
    var params := QueryString.ParseQuery(raw);
    var texts, value := QueryString.GetAll(params, "a"), QueryString.Get(params, "v");
    if texts == [] || value.None? {
      return;
    }
    if QueryString.Get(params, "s").Some? && !sessionValid {
      status, body := 401, "{\"error\":\"invalid session\"}";
      return;
    }
    var data := Hex.HexDecode(value.value);
    if data == [] && value.value != "" {
      return;
    }
    if data == [] || data[0] / 128 % 2 != 1 {
      return;
    }
    apdu := [0] + data;
    var anyValid, anyFailed;
    sent, anyValid, anyFailed := SendAll(texts, ns, delivered);
    if !anyValid && texts != [] {
      status, body := 404, "{\"error\":\"invalid address format\"}";
    }
    if anyValid && anyFailed {
      status, body := 503, "{\"error\":\"write failed\"}";
    }
  }

  /** A target is the group address of some well-formed address text, and of every one. */
  lemma {:induction false} TargetsAreTheValidAddresses(texts: seq<string>, ns: string, a: Address)
    ensures a in Targets(texts, ns) <==> Named(texts, ns, a)
  {
    hide FromCometVisu, ToEib;
    if texts != [] {
      var front := texts[..|texts| - 1];
      TargetsAreTheValidAddresses(front, ns, a);
      assert forall i | 0 <= i < |front| :: front[i] == texts[i];
    }
  }

  /** A value is sent exactly when it is well-formed hex for at least one byte and the
      first byte has the write bit; the value text can then be recovered from the APDU up
      to the case of its digits. */
  lemma ApduExactlyWhen(value: string)
    ensures Apdu(value).Some? <==> Hex.WellFormed(value) && value != "" && value[0] in "89abcdefABCDEF"
    ensures Apdu(value).Some? ==> Hex.Encoded(Apdu(value).value[1..]) == Hex.LowerCase(value)
  {
    if Hex.WellFormed(value) && value != "" {
      Hex.EncodeUndoesDecode(value);
      assert ([0] + Hex.Decoded(value))[1..] == Hex.Decoded(value);
      hide Hex.Encoded, Hex.LowerCase;
      FirstByte(value);
    }
  }

  lemma FirstByte(value: string)
    requires Hex.WellFormed(value) && value != ""
    ensures Hex.Decoded(value) != [] && |value| >= 2
    ensures Hex.Decoded(value)[0] >= 0x80 <==> value[0] in "89abcdefABCDEF"
    ensures 0x80 <= Hex.Decoded(value)[0] < 0xc0 <==> value[0] in "89abAB"
  {
    assert Hex.IsHexDigit(value[0]) && Hex.IsHexDigit(value[1]);
    assert Hex.Decoded(value)[0] == Hex.Nibble(value[0]) * 16 + Hex.Nibble(value[1]);
    HighDigit(value[0]);
    hide Hex.Nibble, Hex.Decoded, Hex.IsHexDigit, Hex.WellFormed;
  }

  lemma HighDigit(c: char)
    requires Hex.IsHexDigit(c)
    ensures Hex.Nibble(c) >= 8 <==> c in "89abcdefABCDEF"
    ensures 8 <= Hex.Nibble(c) < 12 <==> c in "89abAB"
  {}
}
