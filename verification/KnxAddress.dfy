/** Group addresses: three-level text, 16-bit form, and the CometVisu form with a namespace. */
module KnxAddress {
  import opened Basics
  import opened Decimal

  datatype RawGroup = Group(main: nat, middle: nat, sub: nat)

  /** The three components in their ranges, as every parser of the program delivers them. */
  type Group = g: RawGroup | g.main <= 31 && g.middle <= 7 && g.sub <= 255 witness Group(0, 0, 0)

  function ToEib(g: Group): Address {
    g.main * 2048 + g.middle * 256 + g.sub
  }

  function FromEib(a: Address): Group {
    Group(a / 2048, a / 256 % 8, a % 256)
  }

  /** Five bits, three bits and eight bits. */
  lemma EibIs(g: Group)
    ensures ToEib(g) == 0x800 * g.main + 0x100 * g.middle + g.sub
    ensures ToEib(g) % 0x100 == g.sub && ToEib(g) / 0x100 == 8 * g.main + g.middle
  {
    var high := 8 * g.main + g.middle;
    assert ToEib(g) == 0x100 * high + g.sub;
  }

  /** The 16-bit form and the three components determine each other. */
  lemma EibRoundTrip(g: Group, a: Address)
    ensures FromEib(ToEib(g)) == g && ToEib(FromEib(a)) == a
  {
    var x := ToEib(g);
    assert x / 256 == g.main * 8 + g.middle;
    assert a == a / 256 * 256 + a % 256 && a / 256 == a / 2048 * 8 + a / 256 % 8;
  }

  function Text(g: Group): string {
    Digits(g.main) + "/" + Digits(g.middle) + "/" + Digits(g.sub)
  }

  // ---- Parsing ----

  /** A number at `p`: its value and the position behind it. Leading zeros are accepted. */
  function Part(s: string, p: nat, max: nat): Option<(nat, nat)>
    requires p <= |s|
  {
    var e := RunEnd(s, p);
    if p < e && ValueOf(s[p..e]) <= max then Some((ValueOf(s[p..e]), e)) else None
  }

  function FromText(s: string): Option<Group> {
    match Part(s, 0, 31)
    case None => None
    case Some((main, p)) =>
      if p >= |s| || s[p] != '/' then None else
      match Part(s, p + 1, 7)
      case None => None
      case Some((middle, q)) =>
        if q >= |s| || s[q] != '/' then None else
        match Part(s, q + 1, 255)
        case None => None
        case Some((sub, r)) => if r != |s| then None else Some(Group(main, middle, sub))
  }

  /** The digit loop: it gives up as soon as the value exceeds the limit, which decides the
      same as looking at the whole number. */
  method ParsePart(s: string, start: nat, max: nat) returns (ok: bool, out: nat, p: nat)
    requires start <= |s|
    ensures ok <==> Part(s, start, max).Some?
    ensures ok ==> Part(s, start, max) == Some((out, p)) && start < p <= |s| && out <= max
  {
    assert s[start..start] == [] && ValueOf([]) == 0;
    hide ValueOf, AllDigits;
    p, out := start, 0;
    ghost var e := RunEnd(s, start);
    if p >= |s| || !IsDigit(s[p]) {
      return false, 0, p;
    }
    while p < |s| && IsDigit(s[p])
      invariant start <= p <= e
      invariant p > start || p < e
      invariant AllDigits(s[start..p]) && out == ValueOf(s[start..p])
      invariant out <= max
    {
      assert p < e;
      OneMoreDigit(s, start, p);
      out := out * 10 + DigitValue(s[p]);
      if out > max {
        assert s[start..e][..p + 1 - start] == s[start..p + 1];
        ValueGrows(s[start..e], p + 1 - start);
        return false, out, p;
      }
      p := p + 1;
    }
    RunEndIs(s, start, p);
    ok := true;
  }

  lemma OneMoreDigit(s: string, start: nat, p: nat)
    requires start <= p < |s| && AllDigits(s[start..p]) && IsDigit(s[p])
    ensures AllDigits(s[start..p + 1]) && ValueOf(s[start..p + 1]) == ValueOf(s[start..p]) * 10 + DigitValue(s[p])
  {
    var t := s[start..p + 1];
    assert t[..p - start] == s[start..p] && t[p - start] == s[p];
    forall i | 0 <= i < |t| ensures IsDigit(t[i]) {
      if i < p - start {
        assert t[i] == s[start..p][i];
      }
    }
  }

  method FromString(s: string) returns (r: Option<Group>)
    ensures r == FromText(s)
  {
    hide Part;
    var ok, main, p := ParsePart(s, 0, 31);
    if !ok {
      return None;
    }
    if p >= |s| || s[p] != '/' {
      return None;
    }
    p := p + 1;
    var middle, sub;
    ok, middle, p := ParsePart(s, p, 7);
    if !ok {
      return None;
    }
    if p >= |s| || s[p] != '/' {
      return None;
    }
    p := p + 1;
    ok, sub, p := ParsePart(s, p, 255);
    if !ok {
      return None;
    }
    if p != |s| {
      return None;
    }
    r := Some(Group(main, middle, sub));
  }

  /** A numeral for `n`: one or more digits, leading zeros allowed. */
  predicate Numeral(s: string, n: nat) {
    s != [] && AllDigits(s) && ValueOf(s) == n
  }

  lemma PartIs(s: string, p: nat, max: nat, t: string, n: nat, rest: string)
    requires p <= |s| && s[p..] == t + rest && Numeral(t, n) && n <= max
    requires rest == [] || !IsDigit(rest[0])
    ensures Part(s, p, max) == Some((n, p + |t|))
  {
    assert s[p..][..|t|] == t && s[p..p + |t|] == t;
    assert rest != [] ==> s[p + |t|] == s[p..][|t|] == rest[0];
    assert rest == [] ==> p + |t| == |s|;
    RunEndIs(s, p, p + |t|);
  }

  /** Every text of the form numeral/numeral/numeral within range is accepted. */
  lemma AcceptsNumerals(a: string, b: string, c: string, g: Group)
    requires Numeral(a, g.main) && Numeral(b, g.middle) && Numeral(c, g.sub)
    ensures FromText(a + "/" + b + "/" + c) == Some(g)
  {
    hide Part, ValueOf;
    var s := a + "/" + b + "/" + c;
    var p, q := |a|, |a| + 1 + |b|;
    assert s[0..] == a + ("/" + b + "/" + c);
    PartIs(s, 0, 31, a, g.main, "/" + b + "/" + c);
    assert s[p] == '/';
    assert s[p + 1..] == b + ("/" + c);
    PartIs(s, p + 1, 7, b, g.middle, "/" + c);
    assert s[q] == '/';
    assert s[q + 1..] == c + "";
    PartIs(s, q + 1, 255, c, g.sub, "");
  }

  /** Exactly the texts of that form are accepted, with the values they spell. */
  lemma AcceptsExactly(s: string, g: Group)
    ensures FromText(s) == Some(g) <==>
            exists a, b, c :: Numeral(a, g.main) && Numeral(b, g.middle) && Numeral(c, g.sub) && s == a + "/" + b + "/" + c
  {
    if FromText(s) == Some(g) {
      var p := RunEnd(s, 0);
      var q := RunEnd(s, p + 1);
      var a, b, c := s[0..p], s[p + 1..q], s[q + 1..|s|];
      assert s == a + "/" + b + "/" + c;
      assert Numeral(a, g.main) && Numeral(b, g.middle) && Numeral(c, g.sub);
    }
    if a, b, c :| Numeral(a, g.main) && Numeral(b, g.middle) && Numeral(c, g.sub) && s == a + "/" + b + "/" + c {
      AcceptsNumerals(a, b, c, g);
    }
  }

  /** Parsing undoes printing. */
  lemma ParseUndoesText(g: Group)
    ensures FromText(Text(g)) == Some(g)
  {
    ValueOfDigits(g.main);
    ValueOfDigits(g.middle);
    ValueOfDigits(g.sub);
    AcceptsNumerals(Digits(g.main), Digits(g.middle), Digits(g.sub), g);
  }

  // ---- Namespaces ----

  datatype Full = Full(ns: string, group: Group)

  /** The index of the first colon; the length when there is none. */
  function Colon(s: string): (i: nat)
    ensures i <= |s| && (i < |s| ==> s[i] == ':')
    ensures forall j | 0 <= j < i :: s[j] != ':'
  {
    if s == [] || s[0] == ':' then 0 else 1 + Colon(s[1..])
  }

  function FromCometVisu(s: string, defaultNs: string): Option<Full> {
    var colon := Colon(s);
    if colon == |s| then
      match FromText(s) case None => None case Some(g) => Some(Full(defaultNs, g))
    else
      match FromText(s[colon + 1..]) case None => None case Some(g) => Some(Full(s[..colon], g))
  }

  function ToCometVisu(a: Full): string {
    if a.ns == "" then Text(a.group) else a.ns + ":" + Text(a.group)
  }

  /** Looks for the first colon and parses what follows it. */
  method ParseCometVisu(s: string, defaultNs: string) returns (r: Option<Full>)
    ensures r == FromCometVisu(s, defaultNs)
  {
    hide FromText;
    var colon := 0;
    while colon < |s| && s[colon] != ':'
      invariant 0 <= colon <= |s| && forall j | 0 <= j < colon :: s[j] != ':'
    {
      colon := colon + 1;
    }
    ColonIs(s, colon);
    var group;
    if colon == |s| {
      group := FromString(s);
      r := if group.None? then None else Some(Full(defaultNs, group.value));
    } else {
      group := FromString(s[colon + 1..]);
      r := if group.None? then None else Some(Full(s[..colon], group.value));
    }
  }

  /** Whether some text is well-formed and stands for an address. */
  ghost predicate Named(texts: seq<string>, defaultNs: string, a: Address) {
    exists i :: 0 <= i < |texts| && FromCometVisu(texts[i], defaultNs).Some?
                && ToEib(FromCometVisu(texts[i], defaultNs).value.group) == a
  }

  /** Printed group addresses contain no colon, and texts with one are rejected. */
  lemma NoColonInGroups(s: string)
    requires FromText(s).Some?
    ensures ':' !in s
  {
    AcceptsExactly(s, FromText(s).value);
    var g := FromText(s).value;
    var a, b, c :| Numeral(a, g.main) && Numeral(b, g.middle) && Numeral(c, g.sub) && s == a + "/" + b + "/" + c;
    assert forall i | 0 <= i < |a| :: IsDigit(a[i]);
    assert forall i | 0 <= i < |b| :: IsDigit(b[i]);
    assert forall i | 0 <= i < |c| :: IsDigit(c[i]);
  }

  lemma ColonIs(s: string, i: nat)
    requires i <= |s| && (i < |s| ==> s[i] == ':') && forall j | 0 <= j < i :: s[j] != ':'
    ensures Colon(s) == i
  {}

  /** The CometVisu form is read back exactly when the namespace contains no colon and an
      empty namespace is also the default one. */
  lemma CometVisuRoundTripExactlyWhen(a: Full, defaultNs: string)
    ensures FromCometVisu(ToCometVisu(a), defaultNs) == Some(a) <==>
            if a.ns == "" then defaultNs == "" else ':' !in a.ns
  {
    hide FromText, Text;
    var t, s := Text(a.group), ToCometVisu(a);
    ParseUndoesText(a.group);
    NoColonInGroups(t);
    if a.ns == "" {
      ColonIs(t, |t|);
    } else if ':' !in a.ns {
      ColonIs(s, |a.ns|);
      assert s[|a.ns| + 1..] == t && s[..|a.ns|] == a.ns;
    } else {
      var k := Colon(a.ns);
      assert k < |a.ns|;
      ColonIs(s, k);
      assert |s[..k]| < |a.ns|;
    }
  }

  /** The JSON key of an address. */
  function Key(ns: string, a: Address): string {
    ToCometVisu(Full(ns, FromEib(a)))
  }

  /** Different addresses have different keys. */
  lemma KeysAreDistinct(ns: string, a: Address, b: Address)
    requires Key(ns, a) == Key(ns, b)
    ensures a == b
  {
    hide FromText, Text, FromEib;
    var s, t := Text(FromEib(a)), Text(FromEib(b));
    if ns != "" {
      assert (ns + ":" + s)[|ns| + 1..] == s;
      assert (ns + ":" + t)[|ns| + 1..] == t;
    }
    assert s == t;
    ParseUndoesText(FromEib(a));
    ParseUndoesText(FromEib(b));
    EibRoundTrip(FromEib(a), a);
    EibRoundTrip(FromEib(b), b);
  }
}
