/** Hexadecimal text of byte strings. */
module Hex {
  import opened Basics

  predicate IsHexDigit(c: char) {
    '0' <= c <= '9' || 'a' <= c <= 'f' || 'A' <= c <= 'F'
  }

  /** The hex digits of both cases, and no other characters. */
  lemma HexDigitsAre(c: char)
    ensures IsHexDigit(c) <==> c in "0123456789abcdefABCDEF"
  {}

  function Nibble(c: char): (n: int)
    ensures 0 <= n < 16
  {
    if '0' <= c <= '9' then c as int - '0' as int
    else if 'a' <= c <= 'f' then c as int - 'a' as int + 10
    else if 'A' <= c <= 'F' then c as int - 'A' as int + 10
    else 0
  }

  /** The n-th of 0123456789abcdef. */
  function HexChar(n: int): (c: char)
    requires 0 <= n < 16
    ensures IsHexDigit(c) && Nibble(c) == n
  {
    if n < 10 then ('0' as int + n) as char else ('a' as int + (n - 10)) as char
  }

  /** Two lower-case digits, high nibble first. */
  function ByteText(b: Byte): (t: string)
    ensures |t| == 2 && IsHexDigit(t[0]) && IsHexDigit(t[1])
    ensures Nibble(t[0]) * 16 + Nibble(t[1]) == b
  {
    [HexChar(b / 16), HexChar(b % 16)]
  }

  function Encoded(data: seq<Byte>): string {
    if data == [] then "" else ByteText(data[0]) + Encoded(data[1..])
  }

  predicate WellFormed(hex: string) {
    |hex| % 2 == 0 && forall i | 0 <= i < |hex| :: IsHexDigit(hex[i])
  }

  /** The byte string a well-formed text stands for. */
  function Bytes(hex: string): (data: seq<Byte>)
    requires |hex| % 2 == 0
    ensures |data| == |hex| / 2
  {
    if hex == [] then [] else
    [Nibble(hex[0]) * 16 + Nibble(hex[1])] + Bytes(hex[2..])
  }

  /** The result for any text; malformed text gives no bytes. */
  function Decoded(hex: string): seq<Byte> {
    if WellFormed(hex) then Bytes(hex) else []
  }

  function Lower(c: char): char {
    if 'A' <= c <= 'F' then ((c as int - 'A' as int) + 'a' as int) as char else c
  }

  function LowerCase(s: string): string {
    seq(|s|, i requires 0 <= i < |s| => Lower(s[i]))
  }

  lemma {:induction false} BytesAppend(hex: string, hi: char, lo: char)
    requires |hex| % 2 == 0
    ensures Bytes(hex + [hi, lo]) == Bytes(hex) + [Nibble(hi) * 16 + Nibble(lo)]
  {
    if hex == [] {
      assert hex + [hi, lo] == [hi, lo];
    } else {
      BytesAppend(hex[2..], hi, lo);
      assert (hex + [hi, lo])[2..] == hex[2..] + [hi, lo];
    }
  }

  lemma {:induction false} EncodedAppend(data: seq<Byte>, b: Byte)
    ensures Encoded(data + [b]) == Encoded(data) + ByteText(b)
  {
    hide ByteText;
    if data == [] {
      assert data + [b] == [b];
    } else {
      EncodedAppend(data[1..], b);
      assert (data + [b])[1..] == data[1..] + [b];
    }
  }

  method HexDecode(hex: string) returns (result: seq<Byte>)
    ensures result == Decoded(hex)
  {
    if |hex| % 2 != 0 {
      return [];
    }
    result := [];
    var i := 0;
    while i < |hex|
      invariant 0 <= i <= |hex| && i % 2 == 0
      invariant forall j | 0 <= j < i :: IsHexDigit(hex[j])
      invariant result == Bytes(hex[..i])
    {
      var hi, lo := hex[i], hex[i + 1];
      if !IsHexDigit(hi) || !IsHexDigit(lo) {
        return [];
      }
      BytesAppend(hex[..i], hi, lo);
      assert hex[..i] + [hi, lo] == hex[..i + 2];
      result := result + [Nibble(hi) * 16 + Nibble(lo)];
      i := i + 2;
    }
    assert hex[..i] == hex;
  }

  method HexEncode(data: seq<Byte>) returns (result: string)
    ensures result == Encoded(data)
  {
    result := "";
    for i := 0 to |data|
      invariant result == Encoded(data[..i])
    {
      EncodedAppend(data[..i], data[i]);
      assert data[..i] + [data[i]] == data[..i + 1];
      var before := result;
      result := result + [HexChar(data[i] / 16)];
      result := result + [HexChar(data[i] % 16)];
      assert result == before + ByteText(data[i]);
    }
    assert data[..|data|] == data;
  }

  lemma LowerIsCanonical(c: char)
    requires IsHexDigit(c)
    ensures HexChar(Nibble(c)) == Lower(c)
  {
    if '0' <= c <= '9' {
      assert Nibble(c) < 10;
    }
  }

  /** Decoding undoes encoding. */
  lemma {:induction false} DecodeUndoesEncode(data: seq<Byte>)
    ensures WellFormed(Encoded(data)) && Decoded(Encoded(data)) == data
  {
    hide ByteText, Nibble, IsHexDigit;
    if data != [] {
      var first, rest := ByteText(data[0]), Encoded(data[1..]);
      var hex := Encoded(data);
      DecodeUndoesEncode(data[1..]);
      assert hex == first + rest && hex[2..] == rest;
      forall i | 0 <= i < |hex| ensures IsHexDigit(hex[i]) {
        if i >= 2 {
          assert hex[i] == rest[i - 2];
        }
      }
    }
  }

  /** Encoding a decoded text gives the text back in lower case. */
  lemma {:induction false} EncodeUndoesDecode(hex: string)
    requires WellFormed(hex)
    ensures Encoded(Decoded(hex)) == LowerCase(hex)
  {
    if hex != [] {
      hide Nibble, Lower, IsHexDigit, ByteText, LowerCase;
      var rest, b := hex[2..], Nibble(hex[0]) * 16 + Nibble(hex[1]);
      EncodeUndoesDecode(rest);
      PairText(hex[0], hex[1]);
      LowerCasePair(hex);
      assert Bytes(hex)[0] == b && Bytes(hex)[1..] == Bytes(rest);
    }
  }

  lemma LowerCasePair(s: string)
    requires |s| >= 2
    ensures LowerCase(s) == [Lower(s[0]), Lower(s[1])] + LowerCase(s[2..])
  {
    hide Lower;
  }

  lemma PairText(hi: char, lo: char)
    requires IsHexDigit(hi) && IsHexDigit(lo)
    ensures ByteText(Nibble(hi) * 16 + Nibble(lo)) == [Lower(hi), Lower(lo)]
  {
    LowerIsCanonical(hi);
    LowerIsCanonical(lo);
    var x, y := Nibble(hi), Nibble(lo);
    hide Nibble, Lower, IsHexDigit;
    assert (x * 16 + y) / 16 == x && (x * 16 + y) % 16 == y;
  }

  /** An empty result means an empty or a malformed text. */
  lemma EmptyExactlyWhen(hex: string)
    ensures Decoded(hex) == [] <==> hex == "" || !WellFormed(hex)
  {}

  /** The high digit comes first, in lower case. */
  lemma KnownBytes()
    ensures Encoded([0x0c, 0xa5]) == "0ca5" && Decoded("0Ca5") == [0x0c, 0xa5]
  {
    var s := "0Ca5";
    assert [0x0c, 0xa5][1..] == [0xa5] && [0xa5][1..] == [] && s[2..] == "a5" && "a5"[2..] == "";
    assert Encoded([0xa5]) == "a5" && Bytes("a5") == [0xa5];
  }

  /** Different byte strings have different texts. */
  lemma EncodedIsInjective(x: seq<Byte>, y: seq<Byte>)
    requires Encoded(x) == Encoded(y)
    ensures x == y
  {
    DecodeUndoesEncode(x);
    DecodeUndoesEncode(y);
  }
}
