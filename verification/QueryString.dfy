/** Query strings: percent-decoding, the pair loop with its three limits, and lookups. */
module QueryString {
  import opened Basics
  import opened Hex
  import opened Multimap

  const MAX_KEYS := 100
  const MAX_VALUES := 250
  const MAX_PAIRS := 256

  type Params = map<string, seq<string>>

  type StringPair = Pair<string, string>

  // ---- Percent-decoding ----

  predicate Triplet(s: string) {
    |s| >= 3 && s[0] == '%' && IsHexDigit(s[1]) && IsHexDigit(s[2])
  }

  function CharOf(hi: char, lo: char): char {
    (Nibble(hi) * 16 + Nibble(lo)) as char
  }

  /** A triplet stands for one octet, a plus sign for a space, anything else for itself. */
  function Decode(s: string): string {
    if s == [] then ""
    else if Triplet(s) then [CharOf(s[1], s[2])] + Decode(s[3..])
    else [if s[0] == '+' then ' ' else s[0]] + Decode(s[1..])
  }

  lemma DecodeStep(s: string, i: nat)
    requires i < |s|
    ensures Decode(s[i..]) ==
            if i + 2 < |s| && s[i] == '%' && IsHexDigit(s[i + 1]) && IsHexDigit(s[i + 2]) then
              [CharOf(s[i + 1], s[i + 2])] + Decode(s[i + 3..])
            else [if s[i] == '+' then ' ' else s[i]] + Decode(s[i + 1..])
  {
    hide CharOf, IsHexDigit;
    if i + 2 < |s| {
      assert s[i..][3..] == s[i + 3..];
    }
    assert s[i..][1..] == s[i + 1..];
  }

  lemma DecodeEnds(s: string)
    ensures s[0..] == s && Decode(s[|s|..]) == ""
  {}

  /** A plus sign is a space, any other character but the percent sign is itself. */
  lemma PlainIs(c: char, s: string)
    requires c != '%'
    ensures Decode([c] + s) == [if c == '+' then ' ' else c] + Decode(s)
  {
    assert ([c] + s)[1..] == s;
  }

  /** A percent sign and two hex digits of any case are one octet, the high digit first. */
  lemma TripletIs(hi: char, lo: char, s: string)
    requires IsHexDigit(hi) && IsHexDigit(lo)
    ensures Decode(['%', hi, lo] + s) == [(Nibble(hi) * 16 + Nibble(lo)) as char] + Decode(s)
  {
    hide IsHexDigit, Nibble;
    assert (['%', hi, lo] + s)[3..] == s;
  }

  /** A percent sign without two hex digits behind it is itself. */
  lemma BarePercentIs(s: string)
    requires |s| < 2 || !IsHexDigit(s[0]) || !IsHexDigit(s[1])
    ensures Decode(['%'] + s) == ['%'] + Decode(s)
  {
    hide IsHexDigit, CharOf;
    var t := ['%'] + s;
    assert t[1..] == s;
    assert !Triplet(t) by {
      if |t| >= 3 {
        assert t[1] == s[0] && t[2] == s[1];
      }
    }
  }

  method UrlDecode(s: string) returns (result: string)
    ensures result == Decode(s)
  {
    hide CharOf, IsHexDigit, Decode;
    result := "";
    var i := 0;
    DecodeEnds(s);
    while i < |s|
      invariant 0 <= i <= |s|
      invariant Decode(s) == result + Decode(s[i..])
    {
      DecodeStep(s, i);
      if s[i] == '%' && i + 2 < |s| {
        if IsHexDigit(s[i + 1]) && IsHexDigit(s[i + 2]) {
          result := result + [CharOf(s[i + 1], s[i + 2])];
          i := i + 3;
          continue;
        }
      }
      if s[i] == '+' {
        result := result + [' '];
      } else {
        result := result + [s[i]];
      }
      i := i + 1;
    }
  }

  /** The unreserved characters of section 2.3 of RFC 3986. */
  predicate Unreserved(c: char) {
    'a' <= c <= 'z' || 'A' <= c <= 'Z' || '0' <= c <= '9' || c == '-' || c == '.' || c == '_' || c == '~'
  }

  predicate Octets(s: string) {
    forall i | 0 <= i < |s| :: s[i] as int < 256
  }

  /** Percent-encoding as section 2.1 of RFC 3986 defines it. */
  function Encode(s: string): string
    requires Octets(s)
  {
    if s == [] then ""
    else (if Unreserved(s[0]) then [s[0]] else "%" + ByteText(s[0] as int)) + Encode(s[1..])
  }

  /** Decoding undoes percent-encoding of any octets. */
  lemma {:induction false} DecodeUndoesEncode(s: string)
    requires Octets(s)
    ensures Decode(Encode(s)) == s
  {
    if s != [] {
      DecodeUndoesEncode(s[1..]);
      var rest, t := Encode(s[1..]), Encode(s);
      hide ByteText, Nibble, IsHexDigit;
      if Unreserved(s[0]) {
        assert t[1..] == rest && !Triplet(t);
      } else {
        var b := ByteText(s[0] as int);
        assert t == ("%" + b) + rest;
        assert t[0] == '%' && t[1] == b[0] && t[2] == b[1] && t[3..] == rest;
      }
    }
  }

  /** Encoded text contains none of the separators. */
  lemma {:induction false} EncodedHasNoSeparator(s: string)
    requires Octets(s)
    ensures '&' !in Encode(s) && '=' !in Encode(s)
  {
    if s != [] {
      EncodedHasNoSeparator(s[1..]);
    }
  }

  // ---- Segments and pairs ----

  /** The first index of `c` at or behind `from`; the length when there is none. */
  function Find(s: string, c: char, from: nat): (i: nat)
    requires from <= |s|
    ensures from <= i <= |s| && (i < |s| ==> s[i] == c)
    ensures forall j | from <= j < i :: s[j] != c
    decreases |s| - from
  {
    if from == |s| || s[from] == c then from else Find(s, c, from + 1)
  }

  /** The text between ampersands; nothing follows a final ampersand. */
  function Segments(s: string): seq<string> {
    if s == [] then [] else
    var e := Find(s, '&', 0);
    [s[..e]] + if e < |s| then Segments(s[e + 1..]) else []
  }

  /** The pair in a segment; a segment without an equals sign has none. */
  function PairIn(segment: string): Option<StringPair> {
    var e := Find(segment, '=', 0);
    if e == |segment| then None else Some(Pair(Decode(segment[..e]), Decode(segment[e + 1..])))
  }

  /** A segment is a pair exactly when it has an equals sign; the first one separates. */
  lemma PairInExactlyWhen(segment: string)
    ensures PairIn(segment).Some? <==> '=' in segment
    ensures forall e | 0 <= e < |segment| && segment[e] == '=' && '=' !in segment[..e] ::
              PairIn(segment) == Some(Pair(Decode(segment[..e]), Decode(segment[e + 1..])))
  {
    hide Decode;
    forall e | 0 <= e < |segment| && segment[e] == '=' && '=' !in segment[..e]
      ensures PairIn(segment) == Some(Pair(Decode(segment[..e]), Decode(segment[e + 1..])))
    {
      assert forall j | 0 <= j < e :: segment[j] == segment[..e][j];
      PairInAt(segment, e);
    }
  }

  lemma PairInAt(segment: string, e: nat)
    requires e < |segment| && segment[e] == '=' && forall j | 0 <= j < e :: segment[j] != '='
    ensures PairIn(segment) == Some(Pair(Decode(segment[..e]), Decode(segment[e + 1..])))
  {
    hide Decode;
    FindIs(segment, '=', e);
  }

  function PairsIn(segments: seq<string>): seq<StringPair> {
    if segments == [] then [] else
    PairsIn(segments[..|segments| - 1])
    + match PairIn(segments[|segments| - 1]) case None => [] case Some(p) => [p]
  }

  /** What a query string means. */
  function Parsed(raw: string): Params {
    Kept(PairsIn(First(Segments(raw), MAX_PAIRS)), MAX_KEYS, MAX_VALUES)
  }

  lemma AppendSegment(segments: seq<string>, segment: string)
    ensures PairsIn(segments + [segment]) ==
            PairsIn(segments) + match PairIn(segment) case None => [] case Some(p) => [p]
  {
    assert (segments + [segment])[..|segments|] == segments;
  }

  /** The two limits on keys and values. */
  method AddPair(before: Params, key: string, value: string) returns (params: Params)
    ensures params == Add(before, Pair(key, value), MAX_KEYS, MAX_VALUES)
  {
    params := before;
    if key in params {
      if |params[key]| >= MAX_VALUES {
        return;  // the key is full
      }
      params := params[key := params[key] + [value]];
    } else {
      if |params| >= MAX_KEYS {
        return;  // the map is full
      }
      params := params[key := [value]];
    }
  }

  /** The segments before `pos` are done, and `params` is what the limits keep of them. */
  ghost predicate Progress(raw: string, pos: nat, done: seq<string>, params: Params) {
    && pos <= |raw|
    && Segments(raw) == done + Segments(raw[pos..])
    && params == Kept(PairsIn(done), MAX_KEYS, MAX_VALUES)
  }

  function NextPos(raw: string, pos: nat): (next: nat)
    requires pos < |raw|
    ensures pos < next <= |raw|
  {
    var amp := Find(raw, '&', pos);
    if amp == |raw| then |raw| else amp + 1
  }

  lemma StepDone(raw: string, pos: nat, done: seq<string>, params: Params)
    requires pos < |raw| && Progress(raw, pos, done, params)
    ensures var segment := raw[pos..Find(raw, '&', pos)];
            && Segments(raw) == (done + [segment]) + Segments(raw[NextPos(raw, pos)..])
            && PairsIn(done + [segment]) ==
               PairsIn(done) + match PairIn(segment) case None => [] case Some(p) => [p]
  {
    hide Segments, PairIn, PairsIn, Find, Kept;
    NextSegment(raw, pos);
    var segment := raw[pos..Find(raw, '&', pos)];
    AppendSegment(done, segment);
    Regroup(done, segment, Segments(raw[NextPos(raw, pos)..]));
  }

  lemma StepSkip(raw: string, pos: nat, done: seq<string>, params: Params)
    requires pos < |raw| && Progress(raw, pos, done, params)
    requires var eq, amp := Find(raw, '=', pos), Find(raw, '&', pos); eq == |raw| || (amp != |raw| && eq > amp)
    ensures Progress(raw, NextPos(raw, pos), done + [raw[pos..Find(raw, '&', pos)]], params)
  {
    hide Segments, PairIn, PairsIn, Find, Kept;
    NoPair(raw, pos);
    StepDone(raw, pos, done, params);
    assert PairsIn(done) + [] == PairsIn(done);
  }

  lemma StepAdd(raw: string, pos: nat, done: seq<string>, params: Params)
    requires pos < |raw| && Progress(raw, pos, done, params)
    requires var eq, amp := Find(raw, '=', pos), Find(raw, '&', pos); eq < |raw| && (amp == |raw| || eq <= amp)
    ensures var eq, amp := Find(raw, '=', pos), Find(raw, '&', pos);
            && eq < amp
            && Progress(raw, NextPos(raw, pos), done + [raw[pos..amp]],
                        Add(params, Pair(Decode(raw[pos..eq]), Decode(raw[eq + 1..amp])), MAX_KEYS, MAX_VALUES))
  {
    hide Segments, PairIn, PairsIn, Find, Kept, Add, Decode;
    SplitPair(raw, pos);
    StepDone(raw, pos, done, params);
    var eq, amp := Find(raw, '=', pos), Find(raw, '&', pos);
    AddKeeps(PairsIn(done), Pair(Decode(raw[pos..eq]), Decode(raw[eq + 1..amp])), MAX_KEYS, MAX_VALUES);
  }

  lemma ProgressAtStart(raw: string)
    ensures Progress(raw, 0, [], map[])
  {
    assert raw[0..] == raw;
  }

  lemma ProgressAtEnd(raw: string, pos: nat, done: seq<string>, params: Params)
    requires Progress(raw, pos, done, params) && |done| <= MAX_PAIRS && (pos == |raw| || |done| == MAX_PAIRS)
    ensures params == Parsed(raw)
  {
    assert pos == |raw| ==> Segments(raw[pos..]) == [];
    hide Segments, Kept, PairsIn;
    FirstOf(done, Segments(raw[pos..]), MAX_PAIRS);
  }

  /** The constructor. */
  method ParseQuery(raw: string) returns (params: Params)
    ensures params == Parsed(raw)
  {
    hide Progress, Parsed, Decode, Find, Add;
    params := map[];
    var pos, totalPairs := 0, 0;
    ghost var done: seq<string> := [];
    ProgressAtStart(raw);
    while pos < |raw|
      invariant 0 <= pos <= |raw|
      invariant totalPairs == |done| <= MAX_PAIRS
      invariant Progress(raw, pos, done, params)
    {
      if totalPairs >= MAX_PAIRS {
        break;
      }
      totalPairs := totalPairs + 1;
      var eq := Find(raw, '=', pos);
      var amp := Find(raw, '&', pos);
      if eq == |raw| || (amp != |raw| && eq > amp) {
        StepSkip(raw, pos, done, params);
      } else {
        StepAdd(raw, pos, done, params);
        var key := UrlDecode(raw[pos..eq]);
        var value := UrlDecode(raw[eq + 1..amp]);
        params := AddPair(params, key, value);
      }
      done := done + [raw[pos..amp]];
      pos := if amp == |raw| then |raw| else amp + 1;
    }
    ProgressAtEnd(raw, pos, done, params);
  }

  lemma {:induction false} FindInSlice(s: string, c: char, p: nat, q: nat)
    requires p <= q <= |s|
    ensures Find(s[p..], c, q - p) == Find(s, c, q) - p
    decreases |s| - q
  {
    if q < |s| && s[q] != c {
      FindInSlice(s, c, p, q + 1);
    }
  }

  /** The loop's view of the next segment. */
  lemma {:induction false} SegmentsStep(s: string)
    requires s != []
    ensures var e := Find(s, '&', 0);
            Segments(s) == [s[..e]] + if e < |s| then Segments(s[e + 1..]) else []
  {
    hide Find;
  }

  lemma NoSegments(s: string)
    requires s == []
    ensures Segments(s) == []
  {
    hide Find;
  }

  lemma NextSegment(raw: string, pos: nat)
    requires pos < |raw|
    ensures var amp := Find(raw, '&', pos);
            Segments(raw[pos..]) ==
            [raw[pos..amp]] + Segments(raw[if amp == |raw| then amp else amp + 1..])
  {
    hide Find, Segments;
    var amp, tail := Find(raw, '&', pos), raw[pos..];
    FindInSlice(raw, '&', pos, pos);
    SegmentsStep(tail);
    assert tail[..amp - pos] == raw[pos..amp];
    if amp < |raw| {
      assert tail[amp - pos + 1..] == raw[amp + 1..];
    } else {
      NoSegments(raw[amp..]);
    }
  }

  lemma NoPair(raw: string, pos: nat)
    requires pos < |raw|
    requires var eq, amp := Find(raw, '=', pos), Find(raw, '&', pos); eq == |raw| || (amp != |raw| && eq > amp)
    ensures PairIn(raw[pos..Find(raw, '&', pos)]) == None
  {
    var segment := raw[pos..Find(raw, '&', pos)];
    forall j | 0 <= j < |segment| ensures segment[j] != '=' {
      assert segment[j] == raw[pos + j];
    }
  }

  lemma SplitPair(raw: string, pos: nat)
    requires pos < |raw|
    requires var eq, amp := Find(raw, '=', pos), Find(raw, '&', pos); eq < |raw| && (amp == |raw| || eq <= amp)
    ensures var eq, amp := Find(raw, '=', pos), Find(raw, '&', pos);
            eq < amp && PairIn(raw[pos..amp]) == Some(Pair(Decode(raw[pos..eq]), Decode(raw[eq + 1..amp])))
  {
    hide Decode, Find, PairIn;
    var eq, amp := Find(raw, '=', pos), Find(raw, '&', pos);
    assert eq != amp;
    var segment, e := raw[pos..amp], eq - pos;
    assert forall j | 0 <= j < |segment| :: segment[j] == raw[pos + j];
    PairInAt(segment, e);
    assert segment[..e] == raw[pos..eq];
    assert segment[e + 1..] == raw[eq + 1..amp];
  }

  lemma FindIs(s: string, c: char, i: nat)
    requires i <= |s| && (i < |s| ==> s[i] == c) && forall j | 0 <= j < i :: s[j] != c
    ensures Find(s, c, 0) == i
  {}

  // ---- Lookups ----

  function Get(params: Params, key: string): Option<string> {
    if key in params && params[key] != [] then Some(params[key][0]) else None
  }

  function GetAll(params: Params, key: string): seq<string> {
    if key in params then params[key] else []
  }

  // ---- Round trip ----

  predicate Encodable(pairs: seq<StringPair>) {
    forall i | 0 <= i < |pairs| :: Octets(pairs[i].key) && Octets(pairs[i].value)
  }

  function EncodePair(p: StringPair): string
    requires Octets(p.key) && Octets(p.value)
  {
    Encode(p.key) + "=" + Encode(p.value)
  }

  function EncodeQuery(pairs: seq<StringPair>): string
    requires Encodable(pairs)
  {
    if pairs == [] then ""
    else EncodePair(pairs[0]) + if |pairs| == 1 then "" else "&" + EncodeQuery(pairs[1..])
  }

  function Encodings(pairs: seq<StringPair>): seq<string>
    requires Encodable(pairs)
  {
    if pairs == [] then [] else [EncodePair(pairs[0])] + Encodings(pairs[1..])
  }

  lemma PairInEncoded(p: StringPair)
    requires Octets(p.key) && Octets(p.value)
    ensures PairIn(EncodePair(p)) == Some(p) && '&' !in EncodePair(p) && EncodePair(p) != ""
  {
    hide Encode, Decode;
    EncodedHasNoSeparator(p.key);
    EncodedHasNoSeparator(p.value);
    DecodeUndoesEncode(p.key);
    DecodeUndoesEncode(p.value);
    var s, k := EncodePair(p), Encode(p.key);
    assert s[|k|] == '=' && s[..|k|] == k && s[|k| + 1..] == Encode(p.value);
    FindIs(s, '=', |k|);
  }

  lemma LastSegment(e: string)
    requires e != "" && '&' !in e
    ensures Segments(e) == [e]
  {
    hide Find, Segments;
    FindIs(e, '&', |e|);
    SegmentsStep(e);
    assert e[..|e|] == e;
  }

  lemma FirstSegment(e: string, rest: string)
    requires '&' !in e
    ensures Segments(e + ("&" + rest)) == [e] + Segments(rest)
  {
    hide Find, Segments;
    var s := e + ("&" + rest);
    FindIs(s, '&', |e|);
    SegmentsStep(s);
    assert s[..|e|] == e && s[|e| + 1..] == rest;
  }

  lemma {:induction false} SegmentsOfEncoded(pairs: seq<StringPair>)
    requires Encodable(pairs)
    ensures Segments(EncodeQuery(pairs)) == Encodings(pairs)
  {
    hide EncodePair, PairIn, Segments;
    if pairs == [] {
      NoSegments("");
    } else {
      var e := EncodePair(pairs[0]);
      PairInEncoded(pairs[0]);
      if |pairs| == 1 {
        LastSegment(e);
        assert e + "" == e && Encodings(pairs[1..]) == [];
      } else {
        SegmentsOfEncoded(pairs[1..]);
        FirstSegment(e, EncodeQuery(pairs[1..]));
      }
    }
  }

  lemma {:induction false} PairsInPrepend(segment: string, segments: seq<string>)
    requires PairIn(segment).Some?
    ensures PairsIn([segment] + segments) == [PairIn(segment).value] + PairsIn(segments)
  {
    hide PairIn;
    if segments == [] {
      AppendSegment([], segment);
      assert [] + [segment] == [segment] + segments;
    } else {
      var front, last := segments[..|segments| - 1], segments[|segments| - 1];
      PairsInPrepend(segment, front);
      AppendSegment([segment] + front, last);
      assert [segment] + front + [last] == [segment] + segments;
    }
  }

  lemma {:induction false} PairsOfEncodings(pairs: seq<StringPair>)
    requires Encodable(pairs)
    ensures PairsIn(Encodings(pairs)) == pairs && |Encodings(pairs)| == |pairs|
  {
    hide EncodePair, PairIn;
    if pairs != [] {
      PairsOfEncodings(pairs[1..]);
      PairInEncoded(pairs[0]);
      PairsInPrepend(EncodePair(pairs[0]), Encodings(pairs[1..]));
    }
  }

  /** Any list of pairs within the limits survives encoding and parsing: every key is there
      with all its values in order. */
  lemma ParseUndoesEncode(pairs: seq<StringPair>)
    requires Encodable(pairs)
    requires |pairs| <= MAX_PAIRS && |Keys(pairs)| <= MAX_KEYS
    requires forall k | k in Keys(pairs) :: |ValuesOf(pairs, k)| <= MAX_VALUES
    ensures Parsed(EncodeQuery(pairs)) == map k | k in Keys(pairs) :: ValuesOf(pairs, k)
  {
    hide EncodeQuery, Encodings, Segments, PairsIn, Keys, ValuesOf;
    SegmentsOfEncoded(pairs);
    PairsOfEncodings(pairs);
  }

  /** `get` finds the first value of a key, `get_all` all of them in order. */
  lemma LookupsAre(pairs: seq<StringPair>, key: string)
    requires Encodable(pairs)
    requires |pairs| <= MAX_PAIRS && |Keys(pairs)| <= MAX_KEYS
    requires forall k | k in Keys(pairs) :: |ValuesOf(pairs, k)| <= MAX_VALUES
    ensures var params := Parsed(EncodeQuery(pairs));
            && GetAll(params, key) == ValuesOf(pairs, key)
            && Get(params, key) == if ValuesOf(pairs, key) == [] then None else Some(ValuesOf(pairs, key)[0])
  {
    hide Parsed, EncodeQuery, Keys, ValuesOf;
    ParseUndoesEncode(pairs);
    KeysAreKeys(pairs, key);
  }
}
