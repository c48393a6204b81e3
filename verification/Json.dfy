/** The JSON builder, the trees it prints, and a reader for them.

    The reader accepts the part of RFC 8259 that the builder can produce: objects, strings
    with the two-character escapes of section 7, and integers, without white space. */
module Json {
  import opened Basics
  import opened Decimal

  datatype Value = Str(text: string) | Num(n: int) | Obj(members: Members)
  datatype Members = Nil | Cons(key: string, value: Value, rest: Members)

  // ---- Printing ----

  function Escaped(c: char): string {
    match c
    case '"' => "\\\""
    case '\\' => "\\\\"
    case '\n' => "\\n"
    case '\r' => "\\r"
    case '\t' => "\\t"
    case _ => [c]
  }

  function Escape(s: string): string {
    if s == [] then "" else Escaped(s[0]) + Escape(s[1..])
  }

  function Quoted(s: string): string {
    "\"" + Escape(s) + "\""
  }

  function Print(v: Value): string
    decreases v
  {
    match v
    case Str(t) => Quoted(t)
    case Num(n) => ToString(n)
    case Obj(m) => "{" + PrintMembers(m) + "}"
  }

  function PrintMembers(m: Members): string
    decreases m
  {
    match m
    case Nil => ""
    case Cons(k, v, rest) =>
      Quoted(k) + ":" + Print(v) + if rest.Nil? then "" else "," + PrintMembers(rest)
  }

  // ---- The builder ----

  class JsonBuilder {
    var buffer: string
    var first: bool
    var openObjects: int

    constructor ()
      ensures buffer == "" && first && openObjects == 0
    {
      buffer, first, openObjects := "", true, 0;
    }

    method StartObject()
      modifies this
      ensures buffer == old(buffer) + "{" && first && openObjects == old(openObjects) + 1
    {
      buffer, first, openObjects := buffer + "{", true, openObjects + 1;
    }

    method EndObject()
      modifies this
      ensures buffer == old(buffer) + "}" && !first && openObjects == old(openObjects) - 1
    {
      buffer, openObjects, first := buffer + "}", openObjects - 1, false;
    }

    method AddComma()
      modifies this`buffer
      ensures buffer == old(buffer) + if first then "" else ","
    {
      if !first {
        buffer := buffer + ",";
      }
    }

    method AddQuoted(s: string)
      modifies this`buffer
      ensures buffer == old(buffer) + Quoted(s)
    {
      hide Escaped;
      ghost var before := buffer;
      buffer := buffer + "\"";
      for i := 0 to |s|
        invariant buffer == before + "\"" + Escape(s[..i])
      {
        EscapeAppend(s[..i], s[i]);
        assert s[..i] + [s[i]] == s[..i + 1];
        buffer := buffer + Escaped(s[i]);
      }
      assert s[..|s|] == s;
      buffer := buffer + "\"";
    }

    method AddString(key: string, value: string)
      modifies this
      ensures buffer == old(buffer) + (if old(first) then "" else ",") + Quoted(key) + ":" + Quoted(value)
      ensures !first && openObjects == old(openObjects)
    {
      hide Quoted;
      AddComma();
      AddQuoted(key);
      buffer := buffer + ":";
      AddQuoted(value);
      first := false;
    }

    method AddNumber(key: string, value: int)
      modifies this
      ensures buffer == old(buffer) + (if old(first) then "" else ",") + Quoted(key) + ":" + ToString(value)
      ensures !first && openObjects == old(openObjects)
    {
      hide Quoted, ToString;
      AddComma();
      AddQuoted(key);
      buffer := buffer + ":";
      buffer := buffer + ToString(value);
      first := false;
    }

    method AddKey(key: string)
      modifies this
      ensures buffer == old(buffer) + (if old(first) then "" else ",") + Quoted(key) + ":"
      ensures first && openObjects == old(openObjects)
    {
      hide Quoted;
      AddComma();
      AddQuoted(key);
      buffer := buffer + ":";
      first := true;
    }
  }

  lemma {:induction false} EscapeAppend(s: string, c: char)
    ensures Escape(s + [c]) == Escape(s) + Escaped(c)
  {
    hide Escaped;
    if s == [] {
      assert s + [c] == [c];
    } else {
      assert (s + [c])[1..] == s[1..] + [c];
      EscapeAppend(s[1..], c);
    }
  }

  // ---- Reading ----

  function Unescaped(c: char): Option<char> {
    match c
    case '"' => Some('"')
    case '\\' => Some('\\')
    case '/' => Some('/')
    case 'b' => Some(8 as char)
    case 'f' => Some(12 as char)
    case 'n' => Some('\n')
    case 'r' => Some('\r')
    case 't' => Some('\t')
    case _ => None
  }

  /** A string behind its opening quote, and what follows its closing quote. Control
      characters have to be escaped. */
  function ReadString(s: string): (r: Option<(string, string)>)
    ensures r.Some? ==> |r.value.1| < |s|
  {
    if s == [] then None
    else if s[0] == '"' then Some(("", s[1..]))
    else if s[0] == '\\' then
      if |s| < 2 || Unescaped(s[1]).None? then None else
      match ReadString(s[2..])
      case None => None
      case Some((t, rest)) => Some(([Unescaped(s[1]).value] + t, rest))
    else if s[0] < ' ' then None
    else
      match ReadString(s[1..])
      case None => None
      case Some((t, rest)) => Some(([s[0]] + t, rest))
  }

  function ReadNumber(s: string): (r: Option<(int, string)>)
    ensures r.Some? ==> |r.value.1| < |s|
  {
    var start := if s != [] && s[0] == '-' then 1 else 0;
    var end := RunEnd(s, start);
    if start == end then None
    else Some((if start == 1 then 0 - ValueOf(s[1..end]) as int else ValueOf(s[0..end]), s[end..]))
  }

  function ReadValue(s: string): (r: Option<(Value, string)>)
    ensures r.Some? ==> |r.value.1| < |s|
    decreases |s|, 1
  {
    if s == [] then None
    else if s[0] == '"' then
      match ReadString(s[1..]) case None => None case Some((t, rest)) => Some((Str(t), rest))
    else if s[0] == '{' then
      if |s| > 1 && s[1] == '}' then Some((Obj(Nil), s[2..])) else
      match ReadMembers(s[1..]) case None => None case Some((m, rest)) => Some((Obj(m), rest))
    else
      match ReadNumber(s) case None => None case Some((n, rest)) => Some((Num(n), rest))
  }

  /** Members up to and including the closing brace. */
  function ReadMembers(s: string): (r: Option<(Members, string)>)
    ensures r.Some? ==> |r.value.1| < |s|
    decreases |s|, 0
  {
    if s == [] || s[0] != '"' then None else
    match ReadString(s[1..])
    case None => None
    case Some((k, afterKey)) =>
      if afterKey == [] || afterKey[0] != ':' then None else
      match ReadValue(afterKey[1..])
      case None => None
      case Some((v, afterValue)) =>
        if afterValue == [] then None
        else if afterValue[0] == '}' then Some((Cons(k, v, Nil), afterValue[1..]))
        else if afterValue[0] != ',' then None
        else
          match ReadMembers(afterValue[1..])
          case None => None
          case Some((rest, end)) => Some((Cons(k, v, rest), end))
  }

  // ---- Round trip ----

  /** A character that the builder leaves raw although RFC 8259 forbids it. */
  predicate Unprintable(c: char) {
    c < ' ' && c != '\n' && c != '\r' && c != '\t'
  }

  predicate Clean(s: string) {
    forall i | 0 <= i < |s| :: !Unprintable(s[i])
  }

  lemma ReadEscaped(c: char, rest: string)
    ensures Unprintable(c) ==> ReadString(Escaped(c) + rest) == None
    ensures !Unprintable(c) ==>
              ReadString(Escaped(c) + rest) ==
              match ReadString(rest) case None => None case Some((t, end)) => Some(([c] + t, end))
  {
    var s := Escaped(c) + rest;
    if |Escaped(c)| == 2 {
      assert s[2..] == rest;
    } else {
      assert s[1..] == rest;
    }
  }

  lemma ReadQuote(rest: string)
    ensures ReadString("\"" + rest) == Some(("", rest))
  {
    assert ("\"" + rest)[1..] == rest;
  }

  /** A quoted string is read back exactly when it has no control characters other than
      line feed, carriage return and tab. */
  lemma {:induction false} StringRoundTripExactlyWhen(t: string, rest: string)
    ensures ReadString(Escape(t) + ("\"" + rest)) == if Clean(t) then Some((t, rest)) else None
  {
    hide Escaped, ReadString, Unprintable;
    if t == [] {
      assert Escape(t) + ("\"" + rest) == "\"" + rest;
      ReadQuote(rest);
    } else {
      StringRoundTripExactlyWhen(t[1..], rest);
      ReadEscaped(t[0], Escape(t[1..]) + ("\"" + rest));
      assert Escape(t) + ("\"" + rest) == Escaped(t[0]) + (Escape(t[1..]) + ("\"" + rest));
      assert [t[0]] + t[1..] == t;
      assert Clean(t) <==> !Unprintable(t[0]) && Clean(t[1..]);
    }
  }

  lemma NumberRoundTrip(n: int, rest: string)
    requires rest != [] && !IsDigit(rest[0])
    ensures ReadNumber(ToString(n) + rest) == Some((n, rest))
    ensures (ToString(n) + rest)[0] != '"' && (ToString(n) + rest)[0] != '{'
  {
    var d, s := Digits(if n < 0 then -n else n), ToString(n) + rest;
    var start := if n < 0 then 1 else 0;
    ValueOfDigits(if n < 0 then -n else n);
    hide Digits, ValueOf;
    var end := start + |d|;
    assert s[start..end] == d && s[end..] == rest;
    RunEndIs(s, start, end);
    assert n >= 0 ==> IsDigit(s[0]);
  }

  predicate CleanValue(v: Value)
    decreases v
  {
    match v
    case Str(t) => Clean(t)
    case Num(_) => true
    case Obj(m) => CleanMembers(m)
  }

  predicate CleanMembers(m: Members)
    decreases m
  {
    match m
    case Nil => true
    case Cons(k, v, rest) => Clean(k) && CleanValue(v) && CleanMembers(rest)
  }

  /** Reading undoes printing, for every tree whose strings are clean. */
  lemma {:induction false} ReadUndoesPrint(v: Value, rest: string)
    requires CleanValue(v) && (v.Num? ==> rest != [] && !IsDigit(rest[0]))
    ensures ReadValue(Print(v) + rest) == Some((v, rest))
    decreases v, 1
  {
    hide Quoted, ReadString, ReadNumber, Clean;
    var s := Print(v) + rest;
    match v
    case Str(t) =>
      QuotedText(t, rest);
      assert s == Quoted(t) + rest;
    case Num(n) =>
      NumberRoundTrip(n, rest);
    case Obj(m) =>
      if m.Nil? {
        assert PrintMembers(m) == "";
        assert s == "{}" + rest && s[2..] == rest;
      } else {
        MembersRoundTrip(m, rest);
        var body := PrintMembers(m) + ("}" + rest);
        assert s == "{" + body && s[1..] == body;
        assert body[0] == '"';
      }
  }

  lemma QuotedText(t: string, rest: string)
    requires Clean(t)
    ensures var s := Quoted(t) + rest;
            |s| > 0 && s[0] == '"' && ReadString(s[1..]) == Some((t, rest))
  {
    StringRoundTripExactlyWhen(t, rest);
    var s := Quoted(t) + rest;
    assert s[1..] == Escape(t) + ("\"" + rest);
  }

  lemma {:induction false} MembersRoundTrip(m: Members, rest: string)
    requires m.Cons? && CleanMembers(m)
    ensures ReadMembers(PrintMembers(m) + ("}" + rest)) == Some((m, rest))
    ensures (PrintMembers(m) + ("}" + rest))[0] == '"'
    decreases m, 0
  {
    hide Quoted, ReadString, Clean, Print, ReadValue;
    var Cons(k, v, more) := m;
    var tail := (if more.Nil? then "" else "," + PrintMembers(more)) + ("}" + rest);
    var afterKey := ":" + (Print(v) + tail);
    assert PrintMembers(m) + ("}" + rest) == Quoted(k) + afterKey;
    QuotedText(k, afterKey);
    assert afterKey[1..] == Print(v) + tail;
    assert tail[0] == if more.Nil? then '}' else ',';
    ReadUndoesPrint(v, tail);
    if more.Nil? {
      assert tail[1..] == rest;
    } else {
      MembersRoundTrip(more, rest);
      assert tail[1..] == PrintMembers(more) + ("}" + rest);
    }
  }
}
