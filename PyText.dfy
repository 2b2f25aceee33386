/** The parts of Python's `str` and `int` that the HTTP client relies on:
    `int(s)` on a header value, `s.lower()` and `repr(s)`, for ASCII text. */
module PyText {
  import opened Wrappers

  /** The whitespace `str.strip()` removes, restricted to ASCII. */
  predicate IsSpace(c: char) {
    c == ' ' || c == '\t' || c == '\n' || c == '\r' || c == '\U{000B}' || c == '\U{000C}'
  }

  predicate IsDigit(c: char) {
    '0' <= c <= '9'
  }

  function StripLeft(s: string): string {
    if s != [] && IsSpace(s[0]) then StripLeft(s[1..]) else s
  }

  function StripRight(s: string): string {
    if s != [] && IsSpace(s[|s| - 1]) then StripRight(s[..|s| - 1]) else s
  }

  /** `s.strip()`. */
  function Strip(s: string): string {
    StripRight(StripLeft(s))
  }

  /** Digits with single underscores between them, as `int()` accepts. */
  predicate WellGrouped(s: string) {
    s != [] && IsDigit(s[0]) && IsDigit(s[|s| - 1])
    && (forall i :: 0 <= i < |s| ==> IsDigit(s[i]) || s[i] == '_')
    && (forall i :: 0 <= i < |s| - 1 ==> !(s[i] == '_' && s[i + 1] == '_'))
  }

  predicate AllDigits(s: string) {
    forall i :: 0 <= i < |s| ==> IsDigit(s[i])
  }

  function DropUnderscores(s: string): (r: string)
    ensures (forall i :: 0 <= i < |s| ==> IsDigit(s[i]) || s[i] == '_') ==> AllDigits(r)
  {
    if s == [] then []
    else (if s[0] == '_' then [] else [s[0]]) + DropUnderscores(s[1..])
  }

  /** The value of a string of decimal digits. */
  function DigitsValue(s: string): nat
    requires AllDigits(s)
  {
    if s == [] then 0 else DigitsValue(s[..|s| - 1]) * 10 + (s[|s| - 1] as int - '0' as int)
  }

  function ParseDigits(s: string): Option<nat> {
    if WellGrouped(s) then Some(DigitsValue(DropUnderscores(s))) else None
  }

  /** `int(s)` in base 10: surrounding whitespace is ignored, an optional sign
      is followed by digits grouped by single underscores; anything else is a
      `ValueError`, here `None`. */
  function ParseInt(s: string): Option<int> {
    var t := Strip(s);
    if t != [] && t[0] == '-' then
      match ParseDigits(t[1..])
      case None => None
      case Some(n) => Some(-(n as int))
    else if t != [] && t[0] == '+' then
      match ParseDigits(t[1..])
      case None => None
      case Some(n) => Some(n)
    else
      match ParseDigits(t)
      case None => None
      case Some(n) => Some(n)
  }

  /** `str(n)` for a natural number. */
  function NatToString(n: nat): (r: string)
    ensures r != [] && AllDigits(r)
  {
    var d := ['0' + (n % 10) as char];
    if n < 10 then d else NatToString(n / 10) + d
  }

  lemma {:induction false} DigitsValueOfNat(n: nat)
    ensures DigitsValue(NatToString(n)) == n
  {
    var s := NatToString(n);
    if n >= 10 {
      DigitsValueOfNat(n / 10);
      assert s[..|s| - 1] == NatToString(n / 10);
    }
  }

  lemma {:induction false} DropNoUnderscores(s: string)
    requires AllDigits(s)
    ensures DropUnderscores(s) == s
  {
    if s != [] {
      DropNoUnderscores(s[1..]);
      assert [s[0]] + s[1..] == s;
    }
  }

  lemma StripPlain(s: string)
    requires s != [] && !IsSpace(s[0]) && !IsSpace(s[|s| - 1])
    ensures Strip(s) == s
  {
  }

  /** `int(str(n)) == n`: a Content-Length written by the server is read back. */
  lemma ParseIntOfNat(n: nat)
    ensures ParseInt(NatToString(n)) == Some(n)
  {
    var s := NatToString(n);
    StripPlain(s);
    DropNoUnderscores(s);
    DigitsValueOfNat(n);
  }

  /** `int("-" + str(n)) == -n`: a negative value is accepted as well. */
  lemma ParseIntOfNegative(n: nat)
    ensures ParseInt("-" + NatToString(n)) == Some(-(n as int))
  {
    var s := "-" + NatToString(n);
    StripPlain(s);
    assert s[1..] == NatToString(n);
    DropNoUnderscores(NatToString(n));
    DigitsValueOfNat(n);
  }

  lemma {:induction false} StripLeftSpaces(pre: string, s: string)
    requires forall i :: 0 <= i < |pre| ==> IsSpace(pre[i])
    requires s == [] || !IsSpace(s[0])
    ensures StripLeft(pre + s) == s
  {
    if pre != [] {
      assert (pre + s)[1..] == pre[1..] + s;
      StripLeftSpaces(pre[1..], s);
    }
  }

  lemma {:induction false} StripRightSpaces(s: string, post: string)
    requires forall i :: 0 <= i < |post| ==> IsSpace(post[i])
    requires s == [] || !IsSpace(s[|s| - 1])
    ensures StripRight(s + post) == s
  {
    if post != [] {
      assert (s + post)[..|s + post| - 1] == s + post[..|post| - 1];
      StripRightSpaces(s, post[..|post| - 1]);
    } else {
      assert s + post == s;
    }
  }

  /** Whitespace around the digits is ignored. */
  lemma ParseIntPadded(pre: string, n: nat, post: string)
    requires forall i :: 0 <= i < |pre| ==> IsSpace(pre[i])
    requires forall i :: 0 <= i < |post| ==> IsSpace(post[i])
    ensures ParseInt(pre + NatToString(n) + post) == Some(n)
  {
    var s := NatToString(n);
    StripRightSpaces(s, post);
    StripLeftSpaces(pre, s + post);
    assert pre + s + post == pre + (s + post);
    ParseIntOfNat(n);
    StripPlain(s);
  }

  /** Underscores group digits: `int("1_000") == 1000`. */
  lemma ParseIntGrouped()
    ensures ParseInt("1_000") == Some(1000)
  {
    assert StripLeft("1_000") == "1_000";
    assert Strip("1_000") == "1_000";
    assert DropUnderscores("1_000") == "1000" by {
      assert "1_000"[1..] == "_000";
      assert "_000"[1..] == "000";
      DropNoUnderscores("000");
    }
    assert DigitsValue("1000") == 1000 by {
      assert "1000"[..3] == "100";
      assert "100"[..2] == "10";
      assert "10"[..1] == "1";
      assert "1"[..0] == "";
    }
  }

  /** Leading zeros are accepted: `int("007") == 7`. */
  lemma ParseIntLeadingZeros()
    ensures ParseInt("007") == Some(7)
  {
    assert Strip("007") == "007";
    DropNoUnderscores("007");
    assert DigitsValue("007") == 7 by {
      assert "007"[..2] == "00";
      assert "00"[..1] == "0";
      assert "0"[..0] == "";
    }
  }

  /** A doubled underscore is refused. */
  lemma ParseIntDoubleUnderscore()
    ensures ParseInt("1__0") == None
  {
    assert Strip("1__0") == "1__0";
    assert !WellGrouped("1__0") by {
      assert "1__0"[1] == '_' && "1__0"[2] == '_';
    }
  }

  /** Blank text and a lone sign are refused. */
  lemma ParseIntEmpty()
    ensures ParseInt("") == None
    ensures ParseInt(" ") == None
    ensures ParseInt("+") == None
  {
    assert StripLeft(" ") == "" by {
      assert " "[1..] == "";
    }
    assert Strip("+") == "+";
    assert "+"[1..] == "";
  }

  /** A letter among the digits is refused. */
  lemma ParseIntLetters()
    ensures ParseInt("12a") == None
  {
    assert Strip("12a") == "12a";
    assert !IsDigit("12a"[2]);
  }

  // ---------------------------------------------------------------------------
  // `str.lower()`

  function LowerChar(c: char): char {
    if 'A' <= c <= 'Z' then (c as int - 'A' as int + 'a' as int) as char else c
  }

  /** `s.lower()` on ASCII letters; every other character is kept. */
  function Lower(s: string): (r: string)
    ensures |r| == |s| && forall i :: 0 <= i < |s| ==> r[i] == LowerChar(s[i])
  {
    if s == [] then [] else [LowerChar(s[0])] + Lower(s[1..])
  }

  /** A string lower-cases to a lower-case word exactly when it is that word
      with any of its letters in upper case. */
  lemma LowerMatches(s: string, word: string)
    requires forall i :: 0 <= i < |word| ==> 'a' <= word[i] <= 'z'
    ensures Lower(s) == word <==>
      |s| == |word| && forall i :: 0 <= i < |s| ==> s[i] == word[i] || s[i] == Upper(word[i])
  {
    if |s| == |word| {
      forall i | 0 <= i < |s|
        ensures LowerChar(s[i]) == word[i] <==> s[i] == word[i] || s[i] == Upper(word[i])
      {
        LowerCharMatches(s[i], word[i]);
      }
      if forall i :: 0 <= i < |s| ==> LowerChar(s[i]) == word[i] {
        assert Lower(s) == word;
      }
    }
  }

  lemma LowerCharMatches(c: char, w: char)
    requires 'a' <= w <= 'z'
    ensures LowerChar(c) == w <==> c == w || c == Upper(w)
  {
  }

  function Upper(c: char): char
    requires 'a' <= c <= 'z'
  {
    (c as int - 'a' as int + 'A' as int) as char
  }

  // ---------------------------------------------------------------------------
  // `repr(s)`

  /** The quote `repr` chooses: double quotes when the text holds a single
      quote and no double quote, single quotes otherwise. */
  function QuoteFor(s: string): char {
    if '\'' in s && '"' !in s then '"' else '\''
  }

  function EscapeChar(c: char, q: char): string {
    if c == '\\' then "\\\\"
    else if c == q then ['\\', q]
    else if c == '\t' then "\\t"
    else if c == '\n' then "\\n"
    else if c == '\r' then "\\r"
    else [c]
  }

  function Escape(s: string, q: char): string {
    if s == [] then [] else EscapeChar(s[0], q) + Escape(s[1..], q)
  }

  /** `repr(s)`: the text between quotes with backslash, the quote and the
      usual control characters escaped. */
  function Repr(s: string): (r: string)
    ensures |r| >= 2 && r[0] == QuoteFor(s) && r[|r| - 1] == QuoteFor(s)
  {
    [QuoteFor(s)] + Escape(s, QuoteFor(s)) + [QuoteFor(s)]
  }

  /** Reads an escaped text back. */
  function Unescape(e: string): string {
    if e == [] then []
    else if e[0] == '\\' && |e| >= 2 then
      [if e[1] == 't' then '\t' else if e[1] == 'n' then '\n' else if e[1] == 'r' then '\r' else e[1]]
        + Unescape(e[2..])
    else [e[0]] + Unescape(e[1..])
  }

  lemma UnescapeChar(c: char, q: char, rest: string)
    requires q == '\'' || q == '"'
    ensures Unescape(EscapeChar(c, q) + rest) == [c] + Unescape(rest)
  {
    var e := EscapeChar(c, q) + rest;
    if |EscapeChar(c, q)| == 2 {
      assert e[2..] == rest;
    } else {
      assert e[1..] == rest;
    }
  }

  lemma {:induction false} UnescapeEscape(s: string, q: char)
    requires q == '\'' || q == '"'
    ensures Unescape(Escape(s, q)) == s
  {
    if s != [] {
      UnescapeEscape(s[1..], q);
      UnescapeChar(s[0], q, Escape(s[1..], q));
      assert [s[0]] + s[1..] == s;
    }
  }

  /** Different strings have different representations. */
  lemma ReprInjective(a: string, b: string)
    requires Repr(a) == Repr(b)
    ensures a == b
  {
    var qa, qb := QuoteFor(a), QuoteFor(b);
    assert qa == Repr(a)[0] == qb;
    var ra, rb := Repr(a), Repr(b);
    assert ra[1..|ra| - 1] == Escape(a, qa);
    assert rb[1..|rb| - 1] == Escape(b, qb);
    UnescapeEscape(a, qa);
    UnescapeEscape(b, qb);
  }
}
