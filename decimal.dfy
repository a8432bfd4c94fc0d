/**
 * Decimal text as Python's `str(int)` writes it and `int(str)` reads it.
 * `int` reads text the way CPython does for base 10: every non-ASCII
 * whitespace character counts as a blank and every non-ASCII decimal digit
 * as its ASCII digit (Unicode 15.0 tables, those of Python 3.12), then ASCII
 * whitespace is stripped from both ends, an optional sign is read, and the
 * digits may be split by single underscores.
 */
module Decimal {
  import opened Wrappers

  predicate IsDigit(c: char) {
    '0' <= c <= '9'
  }

  predicate AllDigits(s: string) {
    forall i :: 0 <= i < |s| ==> IsDigit(s[i])
  }

  function DigitChar(d: nat): (c: char)
    requires d < 10
    ensures IsDigit(c) && c as int - '0' as int == d
  {
    ('0' as int + d) as char
  }

  /** `str(n)` for n >= 0: no leading zeros, "0" for zero. */
  function NatToString(n: nat): (s: string)
    ensures 1 <= |s| && AllDigits(s)
    decreases n
  {
    if n < 10 then [DigitChar(n)] else NatToString(n / 10) + [DigitChar(n % 10)]
  }

  /** `str(n)`: a minus sign in front of the digits of a negative number. */
  function IntToString(n: int): (s: string)
    ensures 1 <= |s|
    ensures n >= 0 ==> s == NatToString(n)
    ensures n < 0 ==> s == "-" + NatToString(-n)
  {
    if n >= 0 then NatToString(n) else "-" + NatToString(-n)
  }

  /** The value of a string of digits; leading zeros are allowed. */
  function DigitsValue(s: string): nat
    requires AllDigits(s)
    decreases |s|
  {
    if s == [] then 0
    else 10 * DigitsValue(s[..|s| - 1]) + (s[|s| - 1] as int - '0' as int)
  }

  /** The whitespace `int` skips at either end: blank, tab, newline, vertical tab, form feed, carriage return. */
  predicate IsAsciiSpace(c: char) {
    c == ' ' || '\t' <= c <= '\r'
  }

  /** The characters from U+007F on that `str.isspace` accepts. */
  predicate IsWideSpace(c: char) {
    var n := c as int;
    n == 0x85 || n == 0xA0 || n == 0x1680 || 0x2000 <= n <= 0x200A || n == 0x2028 || n == 0x2029
    || n == 0x202F || n == 0x205F || n == 0x3000
  }

  /** The code points of the non-ASCII decimal digits zero; digits one to nine follow each of them. */
  predicate IsWideZero(n: int) {
    n == 0x660 || n == 0x6F0 || n == 0x7C0 || n == 0x966 || n == 0x9E6 || n == 0xA66 || n == 0xAE6
    || n == 0xB66 || n == 0xBE6 || n == 0xC66 || n == 0xCE6 || n == 0xD66 || n == 0xDE6 || n == 0xE50
    || n == 0xED0 || n == 0xF20 || n == 0x1040 || n == 0x1090 || n == 0x17E0 || n == 0x1810
    || n == 0x1946 || n == 0x19D0 || n == 0x1A80 || n == 0x1A90 || n == 0x1B50 || n == 0x1BB0
    || n == 0x1C40 || n == 0x1C50 || n == 0xA620 || n == 0xA8D0 || n == 0xA900 || n == 0xA9D0
    || n == 0xA9F0 || n == 0xAA50 || n == 0xABF0 || n == 0xFF10 || n == 0x104A0 || n == 0x10D30
    || n == 0x11066 || n == 0x110F0 || n == 0x11136 || n == 0x111D0 || n == 0x112F0 || n == 0x11450
    || n == 0x114D0 || n == 0x11650 || n == 0x116C0 || n == 0x11730 || n == 0x118E0 || n == 0x11950
    || n == 0x11C50 || n == 0x11D50 || n == 0x11DA0 || n == 0x11F50 || n == 0x16A60 || n == 0x16AC0
    || n == 0x16B50 || n == 0x1D7CE || n == 0x1D7D8 || n == 0x1D7E2 || n == 0x1D7EC || n == 0x1D7F6
    || n == 0x1E140 || n == 0x1E2F0 || n == 0x1E4F0 || n == 0x1E950 || n == 0x1FBF0
  }

  /** The digit that code point n stands for, if it is zero to nine past a wide zero. */
  function WideDigit(n: int): (d: Option<nat>)
    ensures d.Some? ==> d.value < 10
  {
    if IsWideZero(n) then Some(0)
    else if IsWideZero(n - 1) then Some(1)
    else if IsWideZero(n - 2) then Some(2)
    else if IsWideZero(n - 3) then Some(3)
    else if IsWideZero(n - 4) then Some(4)
    else if IsWideZero(n - 5) then Some(5)
    else if IsWideZero(n - 6) then Some(6)
    else if IsWideZero(n - 7) then Some(7)
    else if IsWideZero(n - 8) then Some(8)
    else if IsWideZero(n - 9) then Some(9)
    else None
  }

  /** What one character becomes before `int` reads the text; None where it makes `int` fail. */
  function ToAsciiChar(c: char): (r: Option<char>)
    ensures r.Some? ==> r.value as int < 127
  {
    if c as int < 127 then Some(c)
    else if IsWideSpace(c) then Some(' ')
    else match WideDigit(c as int)
      case None => None
      case Some(d) => Some(DigitChar(d))
  }

  /** The whole text made ASCII, or None if some character has no ASCII stand-in. */
  function ToAscii(s: string): (r: Option<string>)
    ensures r.Some? ==> |r.value| == |s|
    decreases |s|
  {
    if s == [] then Some([])
    else match ToAsciiChar(s[0])
      case None => None
      case Some(c) =>
        match ToAscii(s[1..])
        case None => None
        case Some(t) => Some([c] + t)
  }

  /** The text is made ASCII exactly when every character is, each one by itself. */
  lemma {:induction false} AsciiPointwise(s: string)
    ensures ToAscii(s).Some? <==> forall i :: 0 <= i < |s| ==> ToAsciiChar(s[i]).Some?
    ensures ToAscii(s).Some? ==> forall i :: 0 <= i < |s| ==> ToAscii(s).value[i] == ToAsciiChar(s[i]).value
    decreases |s|
  {
    if s != [] {
      AsciiPointwise(s[1..]);
      assert forall i :: 1 <= i < |s| ==> s[1..][i - 1] == s[i];
      if ToAscii(s).Some? {
        var c := ToAsciiChar(s[0]).value;
        assert ToAscii(s).value == [c] + ToAscii(s[1..]).value;
      }
    }
  }

  /** ASCII text is left as it is. */
  lemma {:induction false} AsciiUnchanged(s: string)
    requires forall i :: 0 <= i < |s| ==> s[i] as int < 127
    ensures ToAscii(s) == Some(s)
    decreases |s|
  {
    if s != [] {
      assert forall i :: 0 <= i < |s[1..]| ==> s[1..][i] == s[i + 1];
      AsciiUnchanged(s[1..]);
      assert [s[0]] + s[1..] == s;
    }
  }

  /** The text with its leading ASCII whitespace removed. */
  function TrimStart(s: string): (r: string)
    ensures |r| <= |s|
    ensures r == [] || !IsAsciiSpace(r[0])
    decreases |s|
  {
    if s != [] && IsAsciiSpace(s[0]) then TrimStart(s[1..]) else s
  }

  /** The text with its trailing ASCII whitespace removed. */
  function TrimEnd(s: string): (r: string)
    ensures |r| <= |s|
    ensures r == [] || !IsAsciiSpace(r[|r| - 1])
    decreases |s|
  {
    if s != [] && IsAsciiSpace(s[|s| - 1]) then TrimEnd(s[..|s| - 1]) else s
  }

  function Strip(s: string): (r: string)
    ensures |r| <= |s|
  {
    TrimEnd(TrimStart(s))
  }

  /**
   * Digits where single underscores may separate two digits: a digit, then
   * either the end, or an underscore or nothing before more such digits.
   */
  predicate Grouped(s: string)
    decreases |s|
  {
    s != [] && IsDigit(s[0]) && (|s| == 1 || if s[1] == '_' then Grouped(s[2..]) else Grouped(s[1..]))
  }

  /** The text without its underscores. */
  function Unscore(s: string): (r: string)
    ensures AllDigits(s) ==> r == s
    decreases |s|
  {
    if s == [] then [] else (if s[0] == '_' then [] else [s[0]]) + Unscore(s[1..])
  }

  /** Grouped digits lose their underscores and keep at least one digit. */
  lemma {:induction false} GroupedDigits(s: string)
    requires Grouped(s)
    ensures AllDigits(Unscore(s)) && Unscore(s) != []
    decreases |s|
  {
    var rest := s[1..];
    assert Unscore(s) == [s[0]] + Unscore(rest);
    if |s| == 1 {
      assert rest == [] && Unscore(rest) == [];
      assert Unscore(s) == [s[0]];
    } else if s[1] == '_' {
      GroupedDigits(s[2..]);
      assert rest[0] == '_' && rest[1..] == s[2..];
      assert Unscore(rest) == Unscore(s[2..]);
      DigitsCons(s[0], Unscore(rest));
    } else {
      GroupedDigits(rest);
      DigitsCons(s[0], Unscore(rest));
    }
  }

  lemma DigitsCons(c: char, s: string)
    requires IsDigit(c) && AllDigits(s)
    ensures AllDigits([c] + s)
  {
    var t := [c] + s;
    forall i | 0 <= i < |t|
      ensures IsDigit(t[i])
    {
      if i > 0 {
        assert t[i] == s[i - 1];
      }
    }
  }

  /** A non-empty string of digits is grouped digits without underscores. */
  lemma {:induction false} DigitsGrouped(s: string)
    requires AllDigits(s) && s != []
    ensures Grouped(s)
    decreases |s|
  {
    if |s| > 1 {
      assert IsDigit(s[1]);
      DigitsGrouped(s[1..]);
    }
  }

  /** Text that neither starts nor ends with ASCII whitespace is not stripped. */
  lemma StripUnchanged(s: string)
    requires s != [] && !IsAsciiSpace(s[0]) && !IsAsciiSpace(s[|s| - 1])
    ensures Strip(s) == s
  {
    assert TrimStart(s) == s;
  }

  /** A non-empty string of digits goes through the steps before the reading unchanged. */
  lemma DigitsUnchanged(s: string)
    requires AllDigits(s) && s != []
    ensures ToAscii(s) == Some(s) && Strip(s) == s && Grouped(s) && Unscore(s) == s
  {
    AsciiUnchanged(s);
    assert IsDigit(s[0]) && IsDigit(s[|s| - 1]);
    StripUnchanged(s);
    DigitsGrouped(s);
  }

  lemma DigitsRead(s: string)
    ensures AllDigits(s) && s != [] ==> ToAscii(s) == Some(s) && Strip(s) == s && Grouped(s) && Unscore(s) == s && IsDigit(s[0])
  {
    if AllDigits(s) && s != [] {
      DigitsUnchanged(s);
    }
  }

  /**
   * `int(s)`: the ASCII stand-ins put in, the ends stripped, then an
   * optional sign followed by underscore-grouped digits; None where Python
   * raises ValueError.
   */
  function ParseInt(s: string): (r: Option<int>)
    ensures r.Some? ==> 1 <= |s|
    ensures AllDigits(s) && s != [] ==> r == Some(DigitsValue(s))
  {
    DigitsRead(s);
    match ToAscii(s)
    case None => None
    case Some(t) => ReadStripped(Strip(t))
  }

  /** Stripped ASCII text read as an optional sign followed by underscore-grouped digits. */
  function ReadStripped(u: string): (r: Option<int>)
    ensures r.Some? ==> 1 <= |u|
    ensures AllDigits(u) && u != [] ==> r == Some(DigitsValue(u))
  {
    DigitsRead(u);
    if |u| >= 1 && (u[0] == '-' || u[0] == '+') then
      var body := u[1..];
      if Grouped(body) then
        GroupedDigits(body);
        var v: int := if u[0] == '-' then 0 - DigitsValue(Unscore(body)) as int else DigitsValue(Unscore(body));
        Some(v)
      else None
    else if Grouped(u) then GroupedDigits(u); Some(DigitsValue(Unscore(u)))
    else None
  }

  /** Reading back what `str` wrote gives the number. */
  lemma {:induction false} NatRoundTrip(n: nat)
    ensures DigitsValue(NatToString(n)) == n
    decreases n
  {
    var s := NatToString(n);
    if n >= 10 {
      NatRoundTrip(n / 10);
      assert s[..|s| - 1] == NatToString(n / 10);
    }
  }

  /** ASCII text that neither starts nor ends with whitespace is read as it stands. */
  lemma ReadAsIs(s: string)
    requires forall i :: 0 <= i < |s| ==> s[i] as int < 127
    requires s != [] && !IsAsciiSpace(s[0]) && !IsAsciiSpace(s[|s| - 1])
    ensures ParseInt(s) == ReadStripped(s)
  {
    AsciiUnchanged(s);
    StripUnchanged(s);
  }

  /** A minus sign before plain digits reads as the negated value. */
  lemma NegativeRead(d: string)
    requires AllDigits(d) && d != []
    ensures ParseInt("-" + d) == Some(0 - DigitsValue(d) as int)
  {
    var s := "-" + d;
    assert forall i :: 0 <= i < |s| ==> s[i] as int < 127 by {
      forall i | 0 <= i < |s|
        ensures s[i] as int < 127
      {
        if i > 0 {
          assert s[i] == d[i - 1];
        }
      }
    }
    assert s[|s| - 1] == d[|d| - 1];
    ReadAsIs(s);
    NegativeReadStripped(d);
  }

  lemma NegativeReadStripped(d: string)
    requires AllDigits(d) && d != []
    ensures ReadStripped("-" + d) == Some(0 - DigitsValue(d) as int)
  {
    var s := "-" + d;
    assert s[0] == '-' && s[1..] == d;
    DigitsGrouped(d);
  }

  /** `int(str(n)) == n` for every integer n. */
  lemma IntRoundTrip(n: int)
    ensures ParseInt(IntToString(n)) == Some(n)
  {
    if n >= 0 {
      NatRoundTrip(n);
      assert IntToString(n) == NatToString(n);
    } else {
      NegativeRoundTrip(n);
    }
  }

  lemma NegativeRoundTrip(n: int)
    requires n < 0
    ensures ParseInt(IntToString(n)) == Some(n)
  {
    var s := IntToString(n);
    var d := NatToString(-n);
    NatRoundTrip(-n);
    assert s == "-" + d;
    NegativeRead(d);
    assert ParseInt(s) == Some(0 - DigitsValue(d) as int);
    assert 0 - DigitsValue(d) as int == n;
  }

  predicate AllSpaces(s: string) {
    forall i :: 0 <= i < |s| ==> IsAsciiSpace(s[i])
  }

  /** Leading whitespace goes whatever follows it. */
  lemma {:induction false} TrimStartSpaces(pre: string, s: string)
    requires AllSpaces(pre)
    ensures TrimStart(pre + s) == TrimStart(s)
    decreases |pre|
  {
    if pre == [] {
      assert pre + s == s;
    } else {
      assert (pre + s)[0] == pre[0] && (pre + s)[1..] == pre[1..] + s;
      TrimStartSpaces(pre[1..], s);
    }
  }

  /** Trailing whitespace goes whatever comes before it. */
  lemma {:induction false} TrimEndSpaces(s: string, post: string)
    requires AllSpaces(post)
    ensures TrimEnd(s + post) == TrimEnd(s)
    decreases |post|
  {
    if post == [] {
      assert s + post == s;
    } else {
      var last := post[..|post| - 1];
      assert (s + post)[|s + post| - 1] == post[|post| - 1];
      assert (s + post)[..|s + post| - 1] == s + last;
      TrimEndSpaces(s, last);
    }
  }

  /** Text followed by whitespace loses its leading whitespace as before, unless it was all whitespace. */
  lemma {:induction false} TrimStartBefore(s: string, post: string)
    requires AllSpaces(post)
    ensures TrimStart(s) == [] ==> TrimStart(s + post) == []
    ensures TrimStart(s) != [] ==> TrimStart(s + post) == TrimStart(s) + post
    decreases |s|
  {
    if s == [] {
      assert AllSpaces([] + post) && [] + post == post;
      TrimStartSpaces(post, []);
      assert post + [] == post;
    } else if IsAsciiSpace(s[0]) {
      assert (s + post)[1..] == s[1..] + post;
      TrimStartBefore(s[1..], post);
    }
  }

  /** Stripping ignores whitespace added at either end. */
  lemma StripSpaces(pre: string, s: string, post: string)
    requires AllSpaces(pre) && AllSpaces(post)
    ensures Strip(pre + s + post) == Strip(s)
  {
    assert pre + s + post == pre + (s + post);
    TrimStartSpaces(pre, s + post);
    TrimStartBefore(s, post);
    if TrimStart(s) != [] {
      TrimEndSpaces(TrimStart(s), post);
    }
  }

  /** Making text ASCII works character by character, so it distributes over concatenation. */
  lemma {:induction false} AsciiAppend(a: string, b: string)
    ensures ToAscii(a + b) ==
              if ToAscii(a).Some? && ToAscii(b).Some? then Some(ToAscii(a).value + ToAscii(b).value) else None
    decreases |a|
  {
    if a == [] {
      assert a + b == b && ToAscii(a) == Some([]);
      if ToAscii(b).Some? {
        assert [] + ToAscii(b).value == ToAscii(b).value;
      }
    } else {
      assert (a + b)[0] == a[0] && (a + b)[1..] == a[1..] + b;
      AsciiAppend(a[1..], b);
      if ToAscii(a).Some? && ToAscii(b).Some? {
        var c := ToAsciiChar(a[0]).value;
        assert ToAscii(a).value == [c] + ToAscii(a[1..]).value;
        assert [c] + (ToAscii(a[1..]).value + ToAscii(b).value) == ([c] + ToAscii(a[1..]).value) + ToAscii(b).value;
      }
    }
  }

  lemma SpacesAscii(s: string)
    requires AllSpaces(s)
    ensures ToAscii(s) == Some(s)
  {
    assert forall i :: 0 <= i < |s| ==> s[i] as int < 127 by {
      forall i | 0 <= i < |s|
        ensures s[i] as int < 127
      {
        assert IsAsciiSpace(s[i]);
      }
    }
    AsciiUnchanged(s);
  }

  /** `int` ignores ASCII whitespace around the text: `int(" 0\n") == 0`. */
  lemma SpacesIgnored(pre: string, s: string, post: string)
    requires AllSpaces(pre) && AllSpaces(post)
    ensures ParseInt(pre + s + post) == ParseInt(s)
  {
    SpacesAscii(pre);
    SpacesAscii(post);
    AsciiAppend(pre, s);
    AsciiAppend(pre + s, post);
    if ToAscii(s).Some? {
      var t := ToAscii(s).value;
      assert ToAscii(pre + s + post) == Some(pre + t + post);
      StripSpaces(pre, t, post);
    }
  }

  /** Single underscores between digits are ignored: `int("1_000") == int("1000")`. */
  lemma UnderscoreIgnored(a: string, b: string)
    requires AllDigits(a) && a != [] && AllDigits(b) && b != []
    ensures ParseInt(a + "_" + b) == ParseInt(a + b) == Some(DigitsValue(a + b))
  {
    var s := a + "_" + b;
    assert AllDigits(a + b);
    assert forall i :: 0 <= i < |s| ==> s[i] as int < 127 by {
      forall i | 0 <= i < |s|
        ensures s[i] as int < 127
      {
        if i < |a| {
          assert s[i] == a[i];
        } else if i > |a| {
          assert s[i] == b[i - |a| - 1];
        }
      }
    }
    assert s[0] == a[0] && s[|s| - 1] == b[|b| - 1];
    ReadAsIs(s);
    UnderscoreReadStripped(a, b);
  }

  lemma UnderscoreReadStripped(a: string, b: string)
    requires AllDigits(a) && a != [] && AllDigits(b) && b != []
    ensures ReadStripped(a + "_" + b) == Some(DigitsValue(a + b))
  {
    var s := a + "_" + b;
    assert s[0] == a[0];
    UnderscoreGrouped(a, b);
    UnderscoreDropped(a, b);
    assert AllDigits(a + b);
  }

  lemma UnderscoreGrouped(a: string, b: string)
    requires AllDigits(a) && a != [] && AllDigits(b) && b != []
    ensures Grouped(a + "_" + b)
  {
    var rest := "_" + b;
    assert rest[0] == '_' && rest[1..] == b;
    DigitsGrouped(b);
    GroupedAfter(a, rest);
    assert a + "_" + b == a + rest;
  }

  lemma UnderscoreDropped(a: string, b: string)
    requires AllDigits(a) && AllDigits(b)
    ensures Unscore(a + "_" + b) == a + b
  {
    var rest := "_" + b;
    assert rest[1..] == b;
    assert a + "_" + b == a + rest;
    UnscoreAppend(a, rest);
    assert Unscore(rest) == Unscore(b);
  }

  lemma {:induction false} UnscoreAppend(a: string, b: string)
    ensures Unscore(a + b) == Unscore(a) + Unscore(b)
    decreases |a|
  {
    if a == [] {
      assert a + b == b;
    } else {
      assert (a + b)[0] == a[0] && (a + b)[1..] == a[1..] + b;
      UnscoreAppend(a[1..], b);
    }
  }

  /** Digits put before an underscore and grouped digits are still grouped. */
  lemma {:induction false} GroupedAfter(a: string, rest: string)
    requires AllDigits(a) && a != [] && |rest| >= 2 && rest[0] == '_' && Grouped(rest[1..])
    ensures Grouped(a + rest)
    decreases |a|
  {
    var s := a + rest;
    if |a| == 1 {
      assert s[1] == '_' && s[2..] == rest[1..];
    } else {
      assert s[1] == a[1] && s[1..] == a[1..] + rest;
      GroupedAfter(a[1..], rest);
    }
  }

  /** `int` reads only the ASCII stand-ins of the text: Arabic-Indic, Devanagari or full-width digits read as 0 to 9. */
  lemma WideDigitsRead(s: string)
    requires ToAscii(s).Some?
    ensures ParseInt(s) == ParseInt(ToAscii(s).value)
  {
    var t := ToAscii(s).value;
    AsciiPointwise(s);
    assert forall i :: 0 <= i < |t| ==> t[i] as int < 127 by {
      forall i | 0 <= i < |t|
        ensures t[i] as int < 127
      {
        assert t[i] == ToAsciiChar(s[i]).value;
      }
    }
    AsciiUnchanged(t);
  }

  /** The Arabic-Indic digits three and zero read as the ASCII text "30". */
  lemma ArabicIndicThirty(s: string, t: string)
    requires s == [0x663 as char, 0x660 as char] && t == ['3', '0']
    ensures ToAscii(s) == Some(t) && ParseInt(s) == ParseInt(t)
  {
    assert ToAscii(s) == Some(t) by {
      assert ToAsciiChar(s[0]) == Some('3') && ToAsciiChar(s[1]) == Some('0');
      AsciiPointwise(s);
      var u := ToAscii(s).value;
      assert |u| == 2 && u[0] == '3' && u[1] == '0';
      assert u == t;
    }
    WideDigitsRead(s);
  }
}
