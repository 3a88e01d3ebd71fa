/** Decimal printing of integers and the two ways the harness reads them back. */
module Decimal {
  import opened Text

  /** A number as the judge sees it: an integer, any other finite number (kept as its text), or NaN. */
  datatype Number = Int(n: int) | Other(text: string) | NaN

  predicate IsDigit(c: char) {
    '0' <= c <= '9'
  }

  function DigitChar(d: nat): char
    requires d < 10
  {
    '0' + d as char
  }

  function DigitOf(c: char): nat {
    if IsDigit(c) then c as int - '0' as int else 0
  }

  ghost predicate AllDigits(s: string) {
    forall i :: 0 <= i < |s| ==> IsDigit(s[i])
  }

  function NatText(n: nat): string {
    if n < 10 then [DigitChar(n)] else NatText(n / 10) + [DigitChar(n % 10)]
  }

  /** The text of an integer. */
  function IntText(n: int): string {
    if n < 0 then "-" + NatText(-n) else NatText(n)
  }

  /** The length of the leading run of digits. */
  function DigitCount(s: string): (k: nat)
    ensures k <= |s|
  {
    if s != "" && IsDigit(s[0]) then 1 + DigitCount(s[1..]) else 0
  }

  function DigitsValue(s: string): nat {
    if s == "" then 0 else 10 * DigitsValue(s[..|s| - 1]) + DigitOf(s[|s| - 1])
  }

  predicate Signed(s: string) {
    s != "" && (s[0] == '-' || s[0] == '+')
  }

  /** parseInt with radix 10: an optional sign, then the longest run of digits; NaN without a digit. */
  function ParseInt(s: string): Number {
    var t := TrimStart(s);
    var d := if Signed(t) then t[1..] else t;
    var k := DigitCount(d);
    if k == 0 then NaN
    else if Signed(t) && t[0] == '-' then Int(0 - DigitsValue(d[..k])) else Int(DigitsValue(d[..k]))
  }

  /** An optionally signed run of digits and nothing else. */
  predicate IsIntText(s: string) {
    var d := if Signed(s) then s[1..] else s;
    d != "" && DigitCount(d) == |d|
  }

  /** Number(token), on a token without white space: whole decimal numerals are exact integers, every
      other text keeps its own identity. */
  function ParseNumber(s: string): Number {
    if IsIntText(s) then ParseInt(s) else Other(s)
  }

  lemma {:induction false} DigitCountAll(s: string)
    requires AllDigits(s)
    ensures DigitCount(s) == |s|
  {
    if s != "" {
      DigitCountAll(s[1..]);
    }
  }

  lemma {:induction false} NatTextDigits(n: nat)
    ensures NatText(n) != "" && AllDigits(NatText(n)) && DigitsValue(NatText(n)) == n
  {
    if n >= 10 {
      NatTextDigits(n / 10);
      assert NatText(n)[..|NatText(n)| - 1] == NatText(n / 10);
    } else {
      assert [DigitChar(n)][..0] == "";
    }
  }

  lemma DigitsAreWord(s: string)
    requires s != "" && AllDigits(s)
    ensures IsWord(s) && TrimStart(s) == s
    ensures IsWord("-" + s) && TrimStart("-" + s) == "-" + s
  {
    assert IsDigit(s[0]);
  }

  /** Reading back a printed integer gives the integer, by either parser. */
  lemma ParsePrinted(n: int)
    ensures IsWord(IntText(n))
    ensures ParseInt(IntText(n)) == Int(n)
    ensures ParseNumber(IntText(n)) == Int(n)
  {
    var m := if n < 0 then -n else n;
    var s := NatText(m);
    NatTextDigits(m);
    DigitsAreWord(s);
    DigitCountAll(s);
    assert s[..|s|] == s;
    assert IsDigit(s[0]);
    assert ("-" + s)[1..] == s;
  }

  lemma IntTextInjective(m: int, n: int)
    ensures IntText(m) == IntText(n) <==> m == n
  {
    ParsePrinted(m);
    ParsePrinted(n);
  }

  lemma IntTextIsNotNull(n: int)
    ensures IntText(n) != "null"
  {
    var s := NatText(if n < 0 then -n else n);
    NatTextDigits(if n < 0 then -n else n);
    assert IsDigit(s[0]) && "null"[0] == 'n';
  }

  /** A printed integer has no sign unless it is negative, and no leading zero. */
  lemma {:induction false} NatTextShape(n: nat)
    ensures NatText(n) != "" && (|NatText(n)| > 1 ==> NatText(n)[0] != '0')
  {
    if n >= 10 {
      NatTextShape(n / 10);
      NatTextDigits(n / 10);
      if |NatText(n / 10)| == 1 {
        SmallDigit(n / 10);
      }
    }
  }

  lemma SmallDigit(n: nat)
    requires n > 0 && |NatText(n)| == 1
    ensures NatText(n)[0] != '0'
  {
    if n >= 10 { NatTextDigits(n / 10); }
  }

  lemma IntTextShape(n: int)
    ensures n >= 0 ==> IsDigit(IntText(n)[0]) && AllDigits(IntText(n)) && (|IntText(n)| > 1 ==> IntText(n)[0] != '0')
    ensures n < 0 ==> IntText(n) == "-" + IntText(-n)
  {
    NatTextShape(if n < 0 then -n else n);
    NatTextDigits(if n < 0 then -n else n);
  }

  lemma {:induction false} DigitCountSome(s: string)
    ensures AllDigits(s[..DigitCount(s)]) && (DigitCount(s) < |s| ==> !IsDigit(s[DigitCount(s)]))
  {
    if s != "" && IsDigit(s[0]) {
      DigitCountSome(s[1..]);
      assert s[..DigitCount(s)] == [s[0]] + s[1..][..DigitCount(s[1..])];
    }
  }

  /** Whole numerals: digits behind at most one sign. */
  lemma IntTextExactly(s: string)
    ensures IsIntText(s) <==>
      (s != "" && AllDigits(s)) || (|s| > 1 && (s[0] == '-' || s[0] == '+') && AllDigits(s[1..]))
  {
    var d := if Signed(s) then s[1..] else s;
    DigitCountSome(d);
    if AllDigits(d) { DigitCountAll(d); }
    if DigitCount(d) == |d| { assert d[..|d|] == d; }
    if s != "" && AllDigits(s) { assert IsDigit(s[0]); }
  }

  lemma {:induction false} DigitCountPrefix(s: string, rest: string)
    requires AllDigits(s) && (rest != "" ==> !IsDigit(rest[0]))
    ensures DigitCount(s + rest) == |s|
  {
    if s == "" {
      assert s + rest == rest;
    } else {
      assert (s + rest)[1..] == s[1..] + rest;
      DigitCountPrefix(s[1..], rest);
    }
  }

  lemma {:induction false} TrimStartOver(pad: string, s: string)
    requires (forall k :: 0 <= k < |pad| ==> IsSpace(pad[k])) && (s != "" ==> !IsSpace(s[0]))
    ensures TrimStart(pad + s) == s
  {
    if pad == "" {
      assert pad + s == s;
    } else {
      assert (pad + s)[1..] == pad[1..] + s;
      TrimStartOver(pad[1..], s);
    }
  }

  lemma ParseDigits(d: string, rest: string, s: string)
    requires d != "" && AllDigits(d) && (rest != "" ==> !IsDigit(rest[0])) && s == d + rest
    ensures ParseInt(s) == Int(DigitsValue(d)) && ParseInt("-" + s) == Int(0 - DigitsValue(d)) && !IsSpace(s[0])
  {
    DigitCountPrefix(d, rest);
    assert IsDigit(d[0]) && s[0] == d[0] && s[..|d|] == d;
    assert ("-" + s)[1..] == s;
  }

  lemma ParseSkips(pad: string, s: string)
    requires (forall k :: 0 <= k < |pad| ==> IsSpace(pad[k])) && (s != "" ==> !IsSpace(s[0]))
    ensures ParseInt(pad + s) == ParseInt(s)
  {
    TrimStartOver(pad, s);
  }

  /** parseInt skips white space, takes an integer, and ignores what follows. */
  lemma ParseIntPrefix(pad: string, n: int, rest: string)
    requires (forall k :: 0 <= k < |pad| ==> IsSpace(pad[k])) && (rest != "" ==> !IsDigit(rest[0]))
    ensures ParseInt(pad + (IntText(n) + rest)) == Int(n)
  {
    var m := if n < 0 then -n else n;
    NatTextDigits(m);
    ParseDigits(NatText(m), rest, NatText(m) + rest);
    assert "-" + NatText(m) + rest == "-" + (NatText(m) + rest);
    ParseSkips(pad, IntText(n) + rest);
  }

  /** Where no digit follows white space and at most one sign, there is no number. */
  lemma ParseIntNaN(pad: string, s: string)
    requires (forall k :: 0 <= k < |pad| ==> IsSpace(pad[k])) && (s != "" ==> !IsSpace(s[0]))
    requires var d := if s != "" && (s[0] == '-' || s[0] == '+') then s[1..] else s; d == "" || !IsDigit(d[0])
    ensures ParseInt(pad + s) == NaN
  {
    TrimStartOver(pad, s);
  }

  /** An explicit plus sign changes nothing. */
  lemma ParseIntPlus(n: nat)
    ensures ParseInt("+" + IntText(n)) == Int(n) && ParseNumber("+" + IntText(n)) == Int(n)
  {
    var d := NatText(n);
    NatTextDigits(n);
    DigitCountAll(d);
    assert ("+" + d)[1..] == d && d[..|d|] == d;
    assert TrimStart("+" + d) == "+" + d;
  }
}
