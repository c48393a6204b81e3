/** Decimal numerals as `std::to_string` prints them and as the parsers of the program read
    them. */
module Decimal {
  import opened Basics

  predicate IsDigit(c: char) {
    '0' <= c <= '9'
  }

  function DigitValue(c: char): (n: nat)
    requires IsDigit(c)
    ensures n < 10
  {
    c as int - '0' as int
  }

  function DigitChar(n: nat): (c: char)
    requires n < 10
    ensures IsDigit(c) && DigitValue(c) == n
  {
    ('0' as int + n) as char
  }

  predicate AllDigits(s: string) {
    forall i | 0 <= i < |s| :: IsDigit(s[i])
  }

  function ValueOf(s: string): nat
    requires AllDigits(s)
  {
    if s == [] then 0 else ValueOf(s[..|s| - 1]) * 10 + DigitValue(s[|s| - 1])
  }

  function Digits(n: nat): (s: string)
    ensures s != [] && AllDigits(s)
  {
    if n < 10 then [DigitChar(n)] else Digits(n / 10) + [DigitChar(n % 10)]
  }

  function ToString(n: int): string {
    if n < 0 then "-" + Digits(-n) else Digits(n)
  }

  /** Reading a printed number gives the number back. */
  lemma {:induction false} ValueOfDigits(n: nat)
    ensures ValueOf(Digits(n)) == n
  {
    if n >= 10 {
      ValueOfDigits(n / 10);
      assert Digits(n)[..|Digits(n)| - 1] == Digits(n / 10);
    }
  }

  /** More digits never make a number smaller. */
  lemma {:induction false} ValueGrows(s: string, k: nat)
    requires AllDigits(s) && k <= |s|
    ensures ValueOf(s[..k]) <= ValueOf(s)
  {
    if k < |s| {
      var short := s[..|s| - 1];
      assert short[..k] == s[..k];
      ValueGrows(short, k);
    } else {
      assert s[..k] == s;
    }
  }

  /** The end of the run of digits that starts at `p`. */
  function RunEnd(s: string, p: nat): (e: nat)
    requires p <= |s|
    ensures p <= e <= |s| && AllDigits(s[p..e])
    ensures e < |s| ==> !IsDigit(s[e])
    decreases |s| - p
  {
    if p < |s| && IsDigit(s[p]) then RunEnd(s, p + 1) else p
  }

  lemma {:induction false} RunEndIs(s: string, p: nat, e: nat)
    requires p <= e <= |s| && AllDigits(s[p..e]) && (e < |s| ==> !IsDigit(s[e]))
    ensures RunEnd(s, p) == e
    decreases e - p
  {
    if p < e {
      assert s[p] == s[p..e][0];
      assert s[p + 1..e] == s[p..e][1..];
      RunEndIs(s, p + 1, e);
    }
  }

  const INT_MAX := 0x7fff_ffff

  /** `std::from_chars` on the whole text for a 32-bit `int`: an optional minus sign and at
      least one digit, nothing else, within range. */
  function ParseInt(s: string): Option<int> {
    if |s| > 0 && s[0] == '-' then
      if |s| > 1 && AllDigits(s[1..]) && ValueOf(s[1..]) <= INT_MAX + 1 then Some(0 - ValueOf(s[1..]) as int) else None
    else if |s| > 0 && AllDigits(s) && ValueOf(s) <= INT_MAX then Some(ValueOf(s))
    else None
  }

  lemma LeadingZeros()
    ensures AllDigits("0042") && ValueOf("0042") == 42
  {
    assert "0042"[..3] == "004" && "004"[..2] == "00" && "00"[..1] == "0" && "0"[..0] == "";
    assert ValueOf("") == 0;
    assert ValueOf("0") == 0;
    assert ValueOf("00") == 0;
    assert ValueOf("004") == 4;
  }

  /** The most significant digit comes first, a minus sign before it. */
  lemma KnownNumbers()
    ensures ToString(120) == "120" && ToString(-7) == "-7" && ToString(0) == "0"
    ensures ParseInt("0042") == Some(42) && ParseInt("") == ParseInt("-") == ParseInt("+1") == ParseInt("1 ") == None
  {
    assert Digits(1) == "1" && Digits(12) == "12" && Digits(120) == "120";
    LeadingZeros();
    assert "-"[1..] == "" && !IsDigit("+1"[0]) && !IsDigit("1 "[1]);
  }

  /** A printed number is read back, exactly when it fits. */
  lemma ParseUndoesPrint(n: int)
    ensures ParseInt(ToString(n)) == if -INT_MAX - 1 <= n <= INT_MAX then Some(n) else None
  {
    hide ValueOf, Digits;
    if n < 0 {
      ValueOfDigits(-n);
      assert ToString(n)[1..] == Digits(-n);
    } else {
      ValueOfDigits(n);
      assert IsDigit(Digits(n)[0]);
    }
  }
}
