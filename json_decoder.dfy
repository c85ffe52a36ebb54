/** `json.loads(text)` as CPython's scanner runs it with `strict=True`: leading and
    trailing JSON whitespace, the value grammar, and a `JSONDecodeError` (here `None`)
    for anything else, including extra data after the value. */
module JsonDecoder {
  import opened Wrappers
  import opened Decimal
  import opened Json

  /** What a scanning step produced and the text left after it. */
  datatype Parsed<T> = Parsed(value: T, rest: string)

  predicate IsWhitespace(c: char) {
    c == ' ' || c == '\t' || c == '\n' || c == '\r'
  }

  function SkipWhitespace(s: string): (r: string)
    ensures |r| <= |s|
    ensures r == [] || !IsWhitespace(r[0])
    decreases |s|
  {
    if s != [] && IsWhitespace(s[0]) then SkipWhitespace(s[1..]) else s
  }

  predicate IsHexDigit(c: char) {
    '0' <= c <= '9' || 'a' <= c <= 'f' || 'A' <= c <= 'F'
  }

  function HexDigitValue(c: char): (d: nat)
    requires IsHexDigit(c)
    ensures d < 0x10
  {
    if '0' <= c <= '9' then c as int - '0' as int
    else if 'a' <= c <= 'f' then c as int - 'a' as int + 10
    else c as int - 'A' as int + 10
  }

  predicate IsHex4(s: string) {
    |s| == 4 && IsHexDigit(s[0]) && IsHexDigit(s[1]) && IsHexDigit(s[2]) && IsHexDigit(s[3])
  }

  function Hex4Value(s: string): (n: nat)
    requires IsHex4(s)
    ensures n < 0x1_0000
  {
    HexDigitValue(s[0]) * 0x1000 + HexDigitValue(s[1]) * 0x100 + HexDigitValue(s[2]) * 0x10 + HexDigitValue(s[3])
  }

  /** The escape after a backslash inside a string literal. A `\u` escape of a high
      surrogate must be followed by a `\u` escape of a low surrogate; the pair stands
      for one character above U+FFFF. */
  function ParseEscape(s: string): (r: Option<Parsed<char>>)
    ensures r.Some? ==> |r.value.rest| < |s|
  {
    if s == [] then None
    else if s[0] == '"' || s[0] == '\\' || s[0] == '/' then Some(Parsed(s[0], s[1..]))
    else if s[0] == 'b' then Some(Parsed('\U{8}', s[1..]))
    else if s[0] == 'f' then Some(Parsed('\U{C}', s[1..]))
    else if s[0] == 'n' then Some(Parsed('\n', s[1..]))
    else if s[0] == 'r' then Some(Parsed('\r', s[1..]))
    else if s[0] == 't' then Some(Parsed('\t', s[1..]))
    else if s[0] == 'u' && |s| >= 5 && IsHex4(s[1..5]) then
      var hi := Hex4Value(s[1..5]);
      if 0xD800 <= hi < 0xDC00 then
        if |s| >= 11 && s[5] == '\\' && s[6] == 'u' && IsHex4(s[7..11]) && 0xDC00 <= Hex4Value(s[7..11]) < 0xE000 then
          var lo := Hex4Value(s[7..11]);
          Some(Parsed((0x1_0000 + (hi - 0xD800) * 0x400 + (lo - 0xDC00)) as char, s[11..]))
        else None
      else if 0xDC00 <= hi < 0xE000 then None
      else Some(Parsed(hi as char, s[5..]))
    else None
  }

  /** The characters of a string literal after its opening quote, up to and including
      the closing quote. A raw control character (below U+0020) is an error. */
  function ParseStringBody(s: string): (r: Option<Parsed<string>>)
    ensures r.Some? ==> |r.value.rest| < |s|
    decreases |s|
  {
    if s == [] then None
    else if s[0] == '"' then Some(Parsed([], s[1..]))
    else if s[0] == '\\' then
      match ParseEscape(s[1..])
      case None => None
      case Some(e) =>
        match ParseStringBody(e.rest)
        case None => None
        case Some(p) => Some(Parsed([e.value] + p.value, p.rest))
    else if (s[0] as int) < 0x20 then None
    else
      match ParseStringBody(s[1..])
      case None => None
      case Some(p) => Some(Parsed([s[0]] + p.value, p.rest))
  }

  /** `int(text)` for the integer part of a number literal. */
  function IntValue(t: string): int
    requires |t| > 0 && IntPartLength(t) == |t|
  {
    var sign := if t[0] == '-' then 1 else 0;
    assert AllDigits(t[sign..]) by {
      if t[sign] != '0' {
        DigitsFromDigits(t, sign + 1);
      }
    }
    if sign == 1 then 0 - DigitsValue(t[1..]) else DigitsValue(t)
  }

  /** A number literal: an int when it has neither fraction nor exponent, a float
      otherwise. */
  function ScanNumber(s: string): (r: Option<Parsed<Json>>)
    ensures r.Some? ==> |r.value.rest| < |s| && WellFormed(r.value.value)
  {
    var n := LexNumber(s);
    if n.intLen == 0 then None
    else
      var text := s[..n.Length()];
      LexNumberAgree(s, text, n.Length());
      if n.fracLen == 0 && n.expLen == 0 then Some(Parsed(JInt(IntValue(text)), s[n.Length()..]))
      else Some(Parsed(JFloat(text), s[n.Length()..]))
  }

  /** `dict(pairs)` one pair at a time: a key already present keeps its position and
      takes the new value; a new key goes at the end. */
  function Insert(ms: seq<Member>, m: Member): (r: seq<Member>)
    ensures KeysOf(r) == KeysOf(ms) + {m.key}
    decreases |ms|
  {
    KeysOfCons(m, []);
    if ms == [] then [m]
    else
      KeysOfCons(ms[0], ms[1..]);
      assert [ms[0]] + ms[1..] == ms;
      if ms[0].key == m.key then KeysOfCons(m, ms[1..]); [m] + ms[1..]
      else KeysOfCons(ms[0], Insert(ms[1..], m)); [ms[0]] + Insert(ms[1..], m)
  }

  lemma DistinctTail(ms: seq<Member>)
    requires ms != [] && DistinctKeys(ms)
    ensures DistinctKeys(ms[1..]) && ms[0].key !in KeysOf(ms[1..])
  {
    var tail := ms[1..];
    forall i, j | 0 <= i < j < |tail| ensures tail[i].key != tail[j].key {
      assert tail[i] == ms[i + 1] && tail[j] == ms[j + 1];
    }
    forall i | 0 <= i < |tail| ensures tail[i].key != ms[0].key {
      assert tail[i] == ms[i + 1];
    }
  }

  lemma DistinctCons(m: Member, ms: seq<Member>)
    requires DistinctKeys(ms) && m.key !in KeysOf(ms)
    ensures DistinctKeys([m] + ms)
  {
    var l := [m] + ms;
    forall i, j | 0 <= i < j < |l| ensures l[i].key != l[j].key {
      assert l[j] == ms[j - 1];
      if i > 0 {
        assert l[i] == ms[i - 1];
      }
    }
  }

  /** A dict built by `Insert` has distinct keys when it started with them. */
  lemma {:induction false} InsertDistinct(ms: seq<Member>, m: Member)
    requires DistinctKeys(ms)
    ensures DistinctKeys(Insert(ms, m))
    decreases |ms|
  {
    if ms != [] {
      DistinctTail(ms);
      if ms[0].key == m.key {
        DistinctCons(m, ms[1..]);
      } else {
        InsertDistinct(ms[1..], m);
        DistinctCons(ms[0], Insert(ms[1..], m));
      }
    }
  }

  lemma {:induction false} InsertValues(ms: seq<Member>, m: Member)
    ensures ValuesWellFormed(ms) && WellFormed(m.value) ==> ValuesWellFormed(Insert(ms, m))
    decreases |ms|
  {
    if ValuesWellFormed(ms) && WellFormed(m.value) {
      if ms == [] {
        ValuesWellFormedCons(m, []);
        assert [m] + [] == [m];
      } else {
        var tail := ms[1..];
        assert ValuesWellFormed(tail) by {
          forall i | 0 <= i < |tail| ensures WellFormed(tail[i].value) {
            assert tail[i] == ms[i + 1];
          }
        }
        if ms[0].key == m.key {
          ValuesWellFormedCons(m, tail);
        } else {
          InsertValues(tail, m);
          ValuesWellFormedCons(ms[0], Insert(tail, m));
        }
      }
    }
  }

  function KeysOf(ms: seq<Member>): set<string> {
    set i | 0 <= i < |ms| :: ms[i].key
  }

  lemma KeysOfCons(m: Member, ms: seq<Member>)
    ensures KeysOf([m] + ms) == {m.key} + KeysOf(ms)
  {
    var l := [m] + ms;
    forall k | k in KeysOf(ms) ensures k in KeysOf(l) {
      var i :| 0 <= i < |ms| && ms[i].key == k;
      assert l[i + 1] == ms[i];
    }
    assert l[0] == m;
  }

  /** The dict built from the key/value pairs of an object literal, in order. */
  function FromPairs(pairs: seq<Member>): (r: seq<Member>)
    ensures DistinctKeys(r)
    ensures KeysOf(r) == KeysOf(pairs)
    ensures ValuesWellFormed(pairs) ==> ValuesWellFormed(r)
    decreases |pairs|
  {
    if pairs == [] then []
    else
      var init := pairs[..|pairs| - 1];
      assert KeysOf(pairs) == KeysOf(init) + {pairs[|pairs| - 1].key} by {
        assert forall i :: 0 <= i < |init| ==> init[i] == pairs[i];
      }
      InsertDistinct(FromPairs(init), pairs[|pairs| - 1]);
      InsertValues(FromPairs(init), pairs[|pairs| - 1]);
      Insert(FromPairs(init), pairs[|pairs| - 1])
  }

  predicate StartsWith(s: string, word: string) {
    |word| <= |s| && s[..|word|] == word
  }

  /** The literal `word` at the start of `s`, read as `v`. */
  function Keyword(s: string, word: string, v: Json): (r: Option<Parsed<Json>>)
    requires |word| > 0
    ensures r.Some? <==> StartsWith(s, word)
    ensures r.Some? ==> r.value == Parsed(v, s[|word|..])
  {
    if StartsWith(s, word) then Some(Parsed(v, s[|word|..])) else None
  }

  /** One JSON value at the very start of `s` (no leading whitespace is skipped here),
      chosen by its first character; whatever no other case takes is read as a number. */
  function ParseValue(s: string): (r: Option<Parsed<Json>>)
    ensures r.Some? ==> |r.value.rest| < |s| && WellFormed(r.value.value)
    decreases |s|, 1
  {
    if s == [] then None
    else
      match s[0]
      case '"' =>
        (match ParseStringBody(s[1..])
         case None => None
         case Some(p) => Some(Parsed(JString(p.value), p.rest)))
      case '{' => ParseObject(s[1..])
      case '[' => ParseArray(s[1..])
      case 'n' => Keyword(s, "null", JNull)
      case 't' => Keyword(s, "true", JBool(true))
      case 'f' => Keyword(s, "false", JBool(false))
      case 'N' => Keyword(s, "NaN", JFloat("NaN"))
      case 'I' => Keyword(s, "Infinity", JFloat("Infinity"))
      case '-' =>
        if StartsWith(s, "-Infinity") then Keyword(s, "-Infinity", JFloat("-Infinity"))
        else ScanNumber(s)
      case _ => ScanNumber(s)
  }

  /** A list after its `[`: `]` at once, or values separated by commas. */
  function ParseArray(s: string): (r: Option<Parsed<Json>>)
    ensures r.Some? ==> |r.value.rest| < |s| && WellFormed(r.value.value)
    decreases |s|, 3
  {
    var t := SkipWhitespace(s);
    if t != [] && t[0] == ']' then Some(Parsed(JArray([]), t[1..]))
    else
      match ParseElements(t)
      case None => None
      case Some(p) => Some(Parsed(JArray(p.value), p.rest))
  }

  /** Values separated by `,` up to the closing `]`, with whitespace allowed around
      each value. */
  function ParseElements(s: string): (r: Option<Parsed<seq<Json>>>)
    ensures r.Some? ==> |r.value.rest| < |s|
    ensures r.Some? ==> ItemsWellFormed(r.value.value)
    decreases |s|, 2
  {
    match ParseValue(s)
    case None => None
    case Some(first) => ElementsAfter(first.value, SkipWhitespace(first.rest))
  }

  /** What may follow a value in a list (whitespace already skipped): `]` ends the
      list, `,` introduces the next value, anything else is an error. */
  function ElementsAfter(first: Json, t: string): (r: Option<Parsed<seq<Json>>>)
    requires WellFormed(first)
    ensures r.Some? ==> |r.value.rest| < |t|
    ensures r.Some? ==> ItemsWellFormed(r.value.value)
    decreases |t|, 3
  {
    if t == [] then None
    else if t[0] == ']' then
      ItemsWellFormedCons(first, []);
      assert [first] + [] == [first];
      Some(Parsed([first], t[1..]))
    else if t[0] == ',' then
      match ParseElements(SkipWhitespace(t[1..]))
      case None => None
      case Some(more) =>
        ItemsWellFormedCons(first, more.value);
        Some(Parsed([first] + more.value, more.rest))
    else None
  }

  /** A dict after its `{`: `}` at once, or members separated by commas. */
  function ParseObject(s: string): (r: Option<Parsed<Json>>)
    ensures r.Some? ==> |r.value.rest| < |s| && WellFormed(r.value.value)
    decreases |s|, 3
  {
    var t := SkipWhitespace(s);
    if t != [] && t[0] == '}' then Some(Parsed(JObject([]), t[1..]))
    else
      match ParseMembers(t)
      case None => None
      case Some(p) => Some(Parsed(JObject(FromPairs(p.value)), p.rest))
  }

  /** One `"key": value` pair, with whitespace allowed around the colon. */
  function ParseMember(s: string): (r: Option<Parsed<Member>>)
    ensures r.Some? ==> |r.value.rest| < |s| && WellFormed(r.value.value.value)
    decreases |s|, 1
  {
    if s == [] || s[0] != '"' then None
    else
      match ParseStringBody(s[1..])
      case None => None
      case Some(key) =>
        var a := SkipWhitespace(key.rest);
        if a == [] || a[0] != ':' then None
        else
          match ParseValue(SkipWhitespace(a[1..]))
          case None => None
          case Some(value) => Some(Parsed(Member(key.value, value.value), value.rest))
  }

  /** Pairs separated by `,` up to the closing `}`, with whitespace allowed around
      each pair. */
  function ParseMembers(s: string): (r: Option<Parsed<seq<Member>>>)
    ensures r.Some? ==> |r.value.rest| < |s|
    ensures r.Some? ==> ValuesWellFormed(r.value.value)
    decreases |s|, 2
  {
    match ParseMember(s)
    case None => None
    case Some(first) => MembersAfter(first.value, SkipWhitespace(first.rest))
  }

  /** What may follow a pair (whitespace already skipped): `}` ends the dict, `,`
      introduces the next pair, anything else is an error. */
  function MembersAfter(first: Member, t: string): (r: Option<Parsed<seq<Member>>>)
    requires WellFormed(first.value)
    ensures r.Some? ==> |r.value.rest| < |t|
    ensures r.Some? ==> ValuesWellFormed(r.value.value)
    decreases |t|, 3
  {
    if t == [] then None
    else if t[0] == '}' then
      ValuesWellFormedCons(first, []);
      assert [first] + [] == [first];
      Some(Parsed([first], t[1..]))
    else if t[0] == ',' then
      match ParseMembers(SkipWhitespace(t[1..]))
      case None => None
      case Some(more) =>
        ValuesWellFormedCons(first, more.value);
        Some(Parsed([first] + more.value, more.rest))
    else None
  }

  /** `json.loads(text)`: one value, optionally surrounded by whitespace, and nothing
      else. Every value it returns is well formed. */
  function Loads(text: string): (r: Option<Json>)
    ensures r.Some? ==> WellFormed(r.value)
  {
    match ParseValue(SkipWhitespace(text))
    case None => None
    case Some(p) => if SkipWhitespace(p.rest) == [] then Some(p.value) else None
  }
}
