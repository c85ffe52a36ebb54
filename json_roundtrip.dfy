/** What `json.loads` makes of the text `json.dumps` writes: every well-formed value
    comes back unchanged. The proof follows the encoder's structure, one lemma per
    kind of token, with the decoder reading a token followed by whatever text comes
    after it. */
module JsonRoundTrip {
  import opened Wrappers
  import opened Decimal
  import opened Json
  import opened JsonEncoder
  import opened JsonDecoder

  /** What may follow a value in the encoder's output: the end of the text, a
      separator, or a closing bracket. None of these continues a number literal. */
  predicate Follows(rest: string) {
    rest == [] || rest[0] == ',' || rest[0] == ']' || rest[0] == '}'
  }

  lemma HexDigitRoundTrip(d: nat)
    requires d < 0x10
    ensures IsHexDigit(HexDigit(d)) && HexDigitValue(HexDigit(d)) == d
  {
  }

  /** The hexadecimal digits written for a code unit read back as that code unit. */
  lemma Hex4RoundTrip(n: nat)
    requires n < 0x1_0000
    ensures IsHex4(Hex4(n)) && Hex4Value(Hex4(n)) == n
  {
    var q1 := n / 0x10;
    var q2 := q1 / 0x10;
    var q3 := q2 / 0x10;
    assert n == q1 * 0x10 + n % 0x10;
    assert q1 == q2 * 0x10 + q1 % 0x10;
    assert q2 == q3 * 0x10 + q2 % 0x10;
    assert n / 0x100 == q2;
    assert n / 0x1000 == q3;
    HexDigitRoundTrip(q3);
    HexDigitRoundTrip(q2 % 0x10);
    HexDigitRoundTrip(q1 % 0x10);
    HexDigitRoundTrip(n % 0x10);
  }

  /** A `\uXXXX` escape of a character outside the surrogate range reads back as it. */
  lemma ParseEscapeBmp(c: char, t: string)
    requires 0x7F <= c as int < 0x1_0000 || c as int < 0x20
    ensures ParseEscape("u" + Hex4(c as int) + t) == Some(Parsed(c, t))
  {
    var s := "u" + Hex4(c as int) + t;
    Hex4RoundTrip(c as int);
    assert s[1..5] == Hex4(c as int);
    assert s[5..] == t;
  }

  /** The surrogate pair written for a character above U+FFFF reads back as it. */
  lemma ParseEscapePair(c: char, t: string)
    requires c as int >= 0x1_0000
    ensures var n := c as int - 0x1_0000;
      ParseEscape("u" + Hex4(0xD800 + n / 0x400) + "\\u" + Hex4(0xDC00 + n % 0x400) + t) == Some(Parsed(c, t))
  {
    var n := c as int - 0x1_0000;
    var hi, lo := 0xD800 + n / 0x400, 0xDC00 + n % 0x400;
    var s := "u" + Hex4(hi) + "\\u" + Hex4(lo) + t;
    Hex4RoundTrip(hi);
    Hex4RoundTrip(lo);
    assert s[1..5] == Hex4(hi);
    assert s[5] == '\\' && s[6] == 'u';
    assert s[7..11] == Hex4(lo);
    assert s[11..] == t;
    assert 0x1_0000 + (hi - 0xD800) * 0x400 + (lo - 0xDC00) == c as int;
  }

  /** The escape of one character, without the backslash, reads back as it. */
  lemma ParseEscapeOf(c: char, t: string)
    requires !(' ' <= c <= '~') || c == '"' || c == '\\'
    ensures EscapeChar(c)[0] == '\\'
    ensures ParseEscape(EscapeChar(c)[1..] + t) == Some(Parsed(c, t))
  {
    var e := EscapeChar(c)[1..] + t;
    if c == '"' || c == '\\' || c == '\n' || c == '\r' || c == '\t' || c == '\U{8}' || c == '\U{C}' {
      assert e[0] == EscapeChar(c)[1] && e[1..] == t;
    } else if (c as int) < 0x1_0000 {
      assert e == "u" + Hex4(c as int) + t;
      ParseEscapeBmp(c, t);
    } else {
      var n := c as int - 0x1_0000;
      assert e == "u" + Hex4(0xD800 + n / 0x400) + "\\u" + Hex4(0xDC00 + n % 0x400) + t;
      ParseEscapePair(c, t);
    }
  }

  /** The escape of one character, followed by more of a string literal, reads back as
      that character in front of what the rest reads as. */
  lemma ParseEscapedChar(c: char, t: string)
    ensures ParseStringBody(EscapeChar(c) + t) ==
      match ParseStringBody(t)
      case None => None
      case Some(p) => Some(Parsed([c] + p.value, p.rest))
  {
    var s := EscapeChar(c) + t;
    if ' ' <= c <= '~' && c != '"' && c != '\\' {
      assert s[0] == c && s[1..] == t;
    } else {
      ParseEscapeOf(c, t);
      assert s[0] == '\\' && s[1..] == EscapeChar(c)[1..] + t;
    }
  }

  /** The escaped text of a string, closed by a quote, reads back as the string, and
      scanning stops right after the closing quote. */
  lemma {:induction false} ParseEscapedText(s: string, rest: string)
    ensures ParseStringBody(EscapeText(s) + "\"" + rest) == Some(Parsed(s, rest))
    decreases |s|
  {
    if s == [] {
      assert EscapeText(s) + "\"" + rest == "\"" + rest;
    } else {
      assert EscapeText(s) + "\"" + rest == EscapeChar(s[0]) + (EscapeText(s[1..]) + "\"" + rest);
      ParseEscapedText(s[1..], rest);
      ParseEscapedChar(s[0], EscapeText(s[1..]) + "\"" + rest);
      assert [s[0]] + s[1..] == s;
    }
  }

  lemma Assoc(a: string, b: string, c: string)
    ensures a + b + c == a + (b + c)
  {
  }

  lemma Regroup(a: string, sep: string, b: string, close: string, rest: string)
    ensures a + sep + b + close + rest == a + (sep + (b + close + rest))
  {
    Assoc(a + sep + b, close, rest);
    Assoc(a + sep, b, close + rest);
    Assoc(a, sep, b + (close + rest));
    Assoc(b, close, rest);
  }

  /** Past the first character of a two-character separator (`": "` or `", "`). */
  lemma AfterSeparator(c: char, x: string)
    ensures ([c, ' '] + x)[0] == c && ([c, ' '] + x)[1..] == " " + x
  {
  }

  lemma SkipNoWhitespace(s: string)
    requires s == [] || !IsWhitespace(s[0])
    ensures SkipWhitespace(s) == s
  {
  }

  lemma SkipOneSpace(s: string)
    requires s == [] || !IsWhitespace(s[0])
    ensures SkipWhitespace(" " + s) == s
  {
    assert (" " + s)[1..] == s;
  }

  /** The encoder's text of a well-formed value is never empty and does not start with
      whitespace, so the decoder's whitespace skipping leaves it alone. */
  lemma DumpsStart(v: Json)
    requires WellFormed(v)
    ensures Dumps(v) != [] && !IsWhitespace(Dumps(v)[0]) && Dumps(v)[0] != ']'
  {
    match v
    case JFloat(t) =>
      if !IsSpecialFloat(t) {
        assert LexNumber(t).intLen > 0;
      }
    case _ =>
  }

  /** A run of digits is counted in full. */
  lemma {:induction false} DigitsFromAll(s: string, j: nat)
    requires j <= |s|
    requires forall m :: j <= m < |s| ==> IsDigit(s[m])
    ensures DigitsFrom(s, j) == |s| - j
    decreases |s| - j
  {
    if j < |s| {
      DigitsFromAll(s, j + 1);
    }
  }

  /** The integer-part pattern matches the whole text of an int. */
  lemma IntPartOfRepr(i: int)
    ensures IntPartLength(IntRepr(i)) == |IntRepr(i)|
  {
    var r := IntRepr(i);
    var sign := if i < 0 then 1 else 0;
    var d := NatRepr(if i < 0 then -i else i);
    assert r[sign..] == d;
    if d[0] != '0' {
      forall m | sign + 1 <= m < |r| ensures IsDigit(r[m]) {
        assert r[m] == d[m - sign];
      }
      DigitsFromAll(r, sign + 1);
    }
  }

  /** The text of an int is lexed as an integer part alone, spanning the whole text. */
  lemma LexIntRepr(i: int)
    ensures var r := IntRepr(i); LexNumber(r) == NumberLex(|r|, 0, 0)
  {
    var r := IntRepr(i);
    IntPartOfRepr(i);
  }

  /** `int()` of the text of an int is that int. */
  lemma IntValueOfRepr(i: int)
    ensures var r := IntRepr(i); IntPartLength(r) == |r| && IntValue(r) == i
  {
    LexIntRepr(i);
    var r := IntRepr(i);
    if i < 0 {
      assert r[1..] == NatRepr(-i);
      DigitsValueOfNatRepr(-i);
    } else {
      DigitsValueOfNatRepr(i);
    }
  }

  /** A number literal starts with a digit, or with a minus sign and a digit. */
  lemma NumberStart(s: string)
    requires LexNumber(s).intLen > 0
    ensures IsDigit(s[0]) || (s[0] == '-' && |s| > 1 && IsDigit(s[1]))
  {
  }

  /** A text that starts with a number literal is read by the number scanner. */
  lemma ParseValueAtDigit(s: string)
    requires s != [] && IsDigit(s[0])
    ensures ParseValue(s) == ScanNumber(s)
  {
    var c := s[0];
    assert c != '"' && c != '{' && c != '[' && c != 'n' && c != 't';
    assert c != 'f' && c != 'N' && c != 'I' && c != '-';
  }

  lemma ParseValueAtMinus(s: string)
    requires |s| > 1 && s[0] == '-' && IsDigit(s[1])
    ensures ParseValue(s) == ScanNumber(s)
  {
    assert !StartsWith(s, "-Infinity") by {
      assert "-Infinity"[1] == 'I';
    }
    var c := s[0];
    assert c != '"' && c != '{' && c != '[' && c != 'n' && c != 't';
    assert c != 'f' && c != 'N' && c != 'I' && c == '-';
  }

  /** A number literal followed by text that cannot continue it is read in full. */
  lemma ScanLiteral(t: string, rest: string)
    requires LexNumber(t).intLen > 0 && LexNumber(t).Length() == |t| && NumberStop(rest)
    ensures LexNumber(t + rest) == LexNumber(t)
    ensures ParseValue(t + rest) == ScanNumber(t + rest)
  {
    if rest != [] {
      assert (t + rest)[|t|] == rest[0];
    }
    LexNumberAgree(t, t + rest, |t|);
    NumberStart(t + rest);
    if IsDigit(t[0]) {
      ParseValueAtDigit(t + rest);
    } else {
      ParseValueAtMinus(t + rest);
    }
  }

  lemma ParseIntDumps(i: int, rest: string)
    requires NumberStop(rest)
    ensures ParseValue(IntRepr(i) + rest) == Some(Parsed(JInt(i), rest))
  {
    var r := IntRepr(i);
    var s := r + rest;
    LexIntRepr(i);
    IntValueOfRepr(i);
    ScanLiteral(r, rest);
    assert s[..|r|] == r;
    assert s[|r|..] == rest;
  }

  lemma ParseNaN(rest: string)
    ensures ParseValue("NaN" + rest) == Some(Parsed(JFloat("NaN"), rest))
  {
    var s := "NaN" + rest;
    assert s[0] == 'N' && s[..3] == "NaN" && s[3..] == rest;
  }

  lemma ParseInfinity(rest: string)
    ensures ParseValue("Infinity" + rest) == Some(Parsed(JFloat("Infinity"), rest))
  {
    var s := "Infinity" + rest;
    assert s[0] == 'I' && s[..8] == "Infinity" && s[8..] == rest;
  }

  lemma ParseMinusInfinity(rest: string)
    ensures ParseValue("-Infinity" + rest) == Some(Parsed(JFloat("-Infinity"), rest))
  {
    var s := "-Infinity" + rest;
    assert s[0] == '-' && s[..9] == "-Infinity" && s[9..] == rest;
  }

  lemma ParseFloatDumps(t: string, rest: string)
    requires IsFloatLiteral(t) && NumberStop(rest)
    ensures ParseValue(t + rest) == Some(Parsed(JFloat(t), rest))
  {
    if t == "NaN" {
      ParseNaN(rest);
    } else if t == "Infinity" {
      ParseInfinity(rest);
    } else if t == "-Infinity" {
      ParseMinusInfinity(rest);
    } else {
      var s := t + rest;
      ScanLiteral(t, rest);
      assert s[..|t|] == t;
      assert s[|t|..] == rest;
    }
  }

  lemma ParseValueAtQuote(s: string)
    requires s != [] && s[0] == '"'
    ensures ParseValue(s) ==
      match ParseStringBody(s[1..])
      case None => None
      case Some(p) => Some(Parsed(JString(p.value), p.rest))
  {
  }

  lemma ParseValueAtBracket(s: string)
    requires s != [] && s[0] == '['
    ensures ParseValue(s) == ParseArray(s[1..])
  {
  }

  lemma ParseValueAtBrace(s: string)
    requires s != [] && s[0] == '{'
    ensures ParseValue(s) == ParseObject(s[1..])
  {
  }

  lemma ParseKeywordDumps(word: string, v: Json, rest: string)
    requires word == "null" || word == "true" || word == "false"
    requires v == (if word == "null" then JNull else JBool(word == "true"))
    ensures ParseValue(word + rest) == Some(Parsed(v, rest))
  {
    var s := word + rest;
    assert s[0] == word[0] && s[..|word|] == word && s[|word|..] == rest;
  }

  lemma ParseStringDumps(str: string, rest: string)
    ensures ParseValue(Quote(str) + rest) == Some(Parsed(JString(str), rest))
  {
    var s := Quote(str) + rest;
    ParseValueAtQuote(s);
    assert s[1..] == EscapeText(str) + "\"" + rest;
    ParseEscapedText(str, rest);
  }

  /** Reading the text of a well-formed value, followed by whatever the encoder may
      write after it, gives back the value and stops right after its text. */
  lemma {:induction false} ParseValueDumps(v: Json, rest: string)
    requires WellFormed(v) && Follows(rest)
    ensures ParseValue(Dumps(v) + rest) == Some(Parsed(v, rest))
    decreases v, 2
  {
    match v
    case JNull => ParseKeywordDumps("null", v, rest);
    case JBool(b) => ParseKeywordDumps(if b then "true" else "false", v, rest);
    case JInt(i) => ParseIntDumps(i, rest);
    case JFloat(t) => ParseFloatDumps(t, rest);
    case JString(str) => ParseStringDumps(str, rest);
    case JArray(items) =>
      assert Dumps(v) + rest == "[" + DumpsItems(items) + "]" + rest;
      ParseArrayDumps(items, rest);
    case JObject(ms) =>
      assert Dumps(v) + rest == "{" + DumpsMembers(ms) + "}" + rest;
      ParseObjectDumps(ms, rest);
  }

  /** Dropping the opening bracket of a bracketed text. */
  lemma AfterOpen(c: char, d: string, close: string, rest: string)
    ensures ([c] + d + close + rest)[0] == c
    ensures ([c] + d + close + rest)[1..] == d + close + rest
  {
    assert [c] + d + close + rest == [c] + (d + close + rest);
  }

  lemma ParseArrayDumps(items: seq<Json>, rest: string)
    requires ItemsWellFormed(items)
    ensures ParseValue("[" + DumpsItems(items) + "]" + rest) == Some(Parsed(JArray(items), rest))
    decreases items, 2
  {
    AfterOpen('[', DumpsItems(items), "]", rest);
    ParseValueAtBracket("[" + DumpsItems(items) + "]" + rest);
    ParseArrayBody(items, rest);
  }

  lemma {:induction false} ParseArrayBody(items: seq<Json>, rest: string)
    requires ItemsWellFormed(items)
    ensures ParseArray(DumpsItems(items) + "]" + rest) == Some(Parsed(JArray(items), rest))
    decreases items, 1
  {
    var t := DumpsItems(items) + "]" + rest;
    if items == [] {
      assert t == "]" + rest && t[1..] == rest;
    } else {
      DumpsItemsStart(items, "]" + rest);
      SkipNoWhitespace(t);
      ParseElementsDumps(items, rest);
    }
  }

  lemma ParseObjectDumps(ms: seq<Member>, rest: string)
    requires DistinctKeys(ms) && ValuesWellFormed(ms)
    ensures ParseValue("{" + DumpsMembers(ms) + "}" + rest) == Some(Parsed(JObject(ms), rest))
    decreases ms, 3
  {
    AfterOpen('{', DumpsMembers(ms), "}", rest);
    ParseValueAtBrace("{" + DumpsMembers(ms) + "}" + rest);
    ParseObjectBody(ms, rest);
  }

  lemma {:induction false} ParseObjectBody(ms: seq<Member>, rest: string)
    requires DistinctKeys(ms) && ValuesWellFormed(ms)
    ensures ParseObject(DumpsMembers(ms) + "}" + rest) == Some(Parsed(JObject(ms), rest))
    decreases ms, 2
  {
    var t := DumpsMembers(ms) + "}" + rest;
    if ms == [] {
      assert t == "}" + rest && t[1..] == rest;
    } else {
      DumpsMembersStart(ms, "}" + rest);
      SkipNoWhitespace(t);
      ParseMembersDumps(ms, rest);
      FromPairsOfDistinct(ms);
    }
  }

  /** The text of a non-empty list's elements starts with the text of its first element. */
  lemma DumpsItemsStart(items: seq<Json>, rest: string)
    requires items != [] && ItemsWellFormed(items)
    ensures var s := DumpsItems(items) + rest; s != [] && !IsWhitespace(s[0]) && s[0] != ']'
  {
    DumpsStart(items[0]);
    assert DumpsItems(items)[0] == Dumps(items[0])[0];
  }

  /** The text of a non-empty dict's pairs starts with a quote. */
  lemma DumpsMembersStart(ms: seq<Member>, rest: string)
    requires ms != []
    ensures var s := DumpsMembers(ms) + rest; s != [] && s[0] == '"'
  {
    assert DumpsMembers(ms)[0] == DumpsMember(ms[0])[0];
  }

  lemma ElementsAfterClose(x: Json, rest: string)
    requires WellFormed(x)
    ensures ElementsAfter(x, SkipWhitespace("]" + rest)) == Some(Parsed([x], rest))
  {
    SkipNoWhitespace("]" + rest);
    assert ("]" + rest)[1..] == rest;
  }

  lemma ElementsAfterComma(x: Json, more: string)
    requires WellFormed(x) && (more == [] || !IsWhitespace(more[0]))
    ensures ElementsAfter(x, SkipWhitespace(", " + more)) ==
      match ParseElements(more)
      case None => None
      case Some(p) => Some(Parsed([x] + p.value, p.rest))
  {
    SkipNoWhitespace(", " + more);
    AfterSeparator(',', more);
    SkipOneSpace(more);
  }

  lemma DumpsItemsSplit(items: seq<Json>, rest: string)
    requires items != []
    ensures |items| == 1 ==> DumpsItems(items) + "]" + rest == Dumps(items[0]) + ("]" + rest)
    ensures |items| > 1 ==>
      DumpsItems(items) + "]" + rest == Dumps(items[0]) + (", " + (DumpsItems(items[1..]) + "]" + rest))
  {
    if |items| == 1 {
      Assoc(Dumps(items[0]), "]", rest);
    } else {
      Regroup(Dumps(items[0]), ", ", DumpsItems(items[1..]), "]", rest);
    }
  }

  /** A value followed by `", "` and further values. */
  lemma ParseElementsCons(x: Json, more: string, tail: seq<Json>, rest: string)
    requires WellFormed(x) && (more == [] || !IsWhitespace(more[0]))
    requires ParseValue(Dumps(x) + (", " + more)) == Some(Parsed(x, ", " + more))
    requires ParseElements(more) == Some(Parsed(tail, rest))
    ensures ParseElements(Dumps(x) + (", " + more)) == Some(Parsed([x] + tail, rest))
  {
    ElementsAfterComma(x, more);
  }

  /** The elements of a non-empty list, followed by its closing bracket, read back as
      the list. */
  lemma {:induction false} ParseElementsDumps(items: seq<Json>, rest: string)
    requires items != [] && ItemsWellFormed(items)
    ensures ParseElements(DumpsItems(items) + "]" + rest) == Some(Parsed(items, rest))
    decreases items, 0
  {
    DumpsItemsSplit(items, rest);
    if |items| == 1 {
      ParseValueDumps(items[0], "]" + rest);
      ElementsAfterClose(items[0], rest);
      assert [items[0]] == items;
    } else {
      var more := DumpsItems(items[1..]) + "]" + rest;
      ParseValueDumps(items[0], ", " + more);
      DumpsItemsStart(items[1..], "]" + rest);
      ParseElementsDumps(items[1..], rest);
      ParseElementsCons(items[0], more, items[1..], rest);
      assert [items[0]] + items[1..] == items;
    }
  }

  /** A quoted key reads back as the key, up to its closing quote. */
  lemma ParseQuoted(key: string, after: string)
    ensures var s := Quote(key) + after;
      s[0] == '"' && ParseStringBody(s[1..]) == Some(Parsed(key, after))
  {
    var s := Quote(key) + after;
    var u := EscapeText(key) + "\"" + after;
    assert s == "\"" + u;
    assert s[1..] == u;
    ParseEscapedText(key, after);
  }

  /** The scanning steps over a quoted key and the key separator `": "`. */
  lemma KeyAndSeparator(key: string, x: string)
    requires x == [] || !IsWhitespace(x[0])
    ensures var s := Quote(key) + ": " + x;
      s[0] == '"' && ParseStringBody(s[1..]) == Some(Parsed(key, ": " + x)) &&
      SkipWhitespace(": " + x) == ": " + x && SkipWhitespace((": " + x)[1..]) == x
  {
    var q, y := Quote(key), ": " + x;
    assert q + ": " + x == q + y;
    ParseQuoted(key, y);
    SkipNoWhitespace(": " + x);
    AfterSeparator(':', x);
    SkipOneSpace(x);
  }

  /** A quoted key, the key separator, and text that starts with a value. */
  lemma ParseMemberAt(key: string, v: Json, x: string, rest: string)
    requires x == [] || !IsWhitespace(x[0])
    requires ParseValue(x) == Some(Parsed(v, rest))
    ensures ParseMember(Quote(key) + ": " + x) == Some(Parsed(Member(key, v), rest))
  {
    KeyAndSeparator(key, x);
  }

  /** One `"key": value` pair reads back as the member. */
  lemma {:induction false} ParseMemberDumps(m: Member, rest: string)
    requires WellFormed(m.value) && Follows(rest)
    ensures ParseMember(DumpsMember(m) + rest) == Some(Parsed(m, rest))
    decreases m, 0
  {
    var x := Dumps(m.value) + rest;
    assert DumpsMember(m) + rest == Quote(m.key) + ": " + x;
    DumpsStart(m.value);
    ParseValueDumps(m.value, rest);
    ParseMemberAt(m.key, m.value, x, rest);
  }

  lemma MembersAfterClose(m: Member, rest: string)
    requires WellFormed(m.value)
    ensures MembersAfter(m, SkipWhitespace("}" + rest)) == Some(Parsed([m], rest))
  {
    SkipNoWhitespace("}" + rest);
    assert ("}" + rest)[1..] == rest;
  }

  lemma MembersAfterComma(m: Member, more: string)
    requires WellFormed(m.value) && (more == [] || !IsWhitespace(more[0]))
    ensures MembersAfter(m, SkipWhitespace(", " + more)) ==
      match ParseMembers(more)
      case None => None
      case Some(p) => Some(Parsed([m] + p.value, p.rest))
  {
    SkipNoWhitespace(", " + more);
    AfterSeparator(',', more);
    SkipOneSpace(more);
  }

  lemma DumpsMembersSplit(ms: seq<Member>, rest: string)
    requires ms != []
    ensures |ms| == 1 ==> DumpsMembers(ms) + "}" + rest == DumpsMember(ms[0]) + ("}" + rest)
    ensures |ms| > 1 ==>
      DumpsMembers(ms) + "}" + rest == DumpsMember(ms[0]) + (", " + (DumpsMembers(ms[1..]) + "}" + rest))
  {
    if |ms| == 1 {
      Assoc(DumpsMember(ms[0]), "}", rest);
    } else {
      Regroup(DumpsMember(ms[0]), ", ", DumpsMembers(ms[1..]), "}", rest);
    }
  }

  /** A pair followed by `", "` and further pairs. */
  lemma ParseMembersCons(m: Member, more: string, tail: seq<Member>, rest: string)
    requires WellFormed(m.value) && (more == [] || !IsWhitespace(more[0]))
    requires ParseMember(DumpsMember(m) + (", " + more)) == Some(Parsed(m, ", " + more))
    requires ParseMembers(more) == Some(Parsed(tail, rest))
    ensures ParseMembers(DumpsMember(m) + (", " + more)) == Some(Parsed([m] + tail, rest))
  {
    MembersAfterComma(m, more);
  }

  /** The pairs of a non-empty dict, followed by its closing brace, read back as its
      members. */
  lemma {:induction false} ParseMembersDumps(ms: seq<Member>, rest: string)
    requires ms != [] && ValuesWellFormed(ms)
    ensures ParseMembers(DumpsMembers(ms) + "}" + rest) == Some(Parsed(ms, rest))
    decreases ms, 1
  {
    if |ms| == 1 {
      DumpsMembersSplit(ms, rest);
      ParseMemberDumps(ms[0], "}" + rest);
      MembersAfterClose(ms[0], rest);
      assert [ms[0]] == ms;
    } else {
      assert ValuesWellFormed(ms[1..]) by {
        forall i | 0 <= i < |ms[1..]| ensures WellFormed(ms[1..][i].value) {
          assert ms[1..][i] == ms[i + 1];
        }
      }
      ParseMembersDumps(ms[1..], rest);
      ParseMembersDumpsCons(ms, rest);
    }
  }

  /** The step of `ParseMembersDumps`: the first pair, then the pairs already read back. */
  lemma ParseMembersDumpsCons(ms: seq<Member>, rest: string)
    requires |ms| > 1 && ValuesWellFormed(ms)
    requires ParseMembers(DumpsMembers(ms[1..]) + "}" + rest) == Some(Parsed(ms[1..], rest))
    decreases ms, 0
    ensures ParseMembers(DumpsMembers(ms) + "}" + rest) == Some(Parsed(ms, rest))
  {
    DumpsMembersSplit(ms, rest);
    var more := DumpsMembers(ms[1..]) + "}" + rest;
    assert WellFormed(ms[0].value);
    ParseMemberDumps(ms[0], ", " + more);
    DumpsMembersStart(ms[1..], "}" + rest);
    ParseMembersCons(ms[0], more, ms[1..], rest);
    assert [ms[0]] + ms[1..] == ms;
  }

  /** Adding a pair whose key is new appends it. */
  lemma {:induction false} InsertNewKey(ms: seq<Member>, m: Member)
    requires m.key !in KeysOf(ms)
    ensures Insert(ms, m) == ms + [m]
    decreases |ms|
  {
    if ms != [] {
      KeysOfCons(ms[0], ms[1..]);
      assert [ms[0]] + ms[1..] == ms;
      InsertNewKey(ms[1..], m);
      assert [ms[0]] + (ms[1..] + [m]) == ms + [m];
    }
  }

  /** Building a dict from pairs whose keys are already distinct keeps the pairs as
      they are. */
  lemma {:induction false} FromPairsOfDistinct(pairs: seq<Member>)
    requires DistinctKeys(pairs)
    ensures FromPairs(pairs) == pairs
    decreases |pairs|
  {
    if pairs != [] {
      var init := pairs[..|pairs| - 1];
      var last := pairs[|pairs| - 1];
      FromPairsOfDistinct(init);
      assert last.key !in KeysOf(init);
      InsertNewKey(init, last);
      assert init + [last] == pairs;
    }
  }

  /** `json.loads(json.dumps(v)) == v` for every well-formed value. */
  lemma LoadsDumps(v: Json)
    requires WellFormed(v)
    ensures Loads(Dumps(v)) == Some(v)
  {
    DumpsStart(v);
    SkipNoWhitespace(Dumps(v));
    ParseValueDumps(v, []);
    assert Dumps(v) + [] == Dumps(v);
  }
}
