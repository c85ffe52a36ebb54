/** `json.dumps(obj)` with its default arguments: `ensure_ascii=True`, item separator
    `", "`, key separator `": "`, keys in insertion order, no indentation. */
module JsonEncoder {
  import opened Decimal
  import opened Json

  /** A lower-case hexadecimal digit. */
  function HexDigit(d: nat): (c: char)
    requires d < 0x10
    ensures '0' <= c <= '9' || 'a' <= c <= 'f'
  {
    if d < 10 then (('0' as int) + d) as char else (('a' as int) + d - 10) as char
  }

  /** Four lower-case hexadecimal digits, as in the `\uXXXX` escapes the encoder writes. */
  function Hex4(n: nat): (h: string)
    requires n < 0x1_0000
    ensures |h| == 4
  {
    [HexDigit(n / 0x1000), HexDigit((n / 0x100) % 0x10), HexDigit((n / 0x10) % 0x10), HexDigit(n % 0x10)]
  }

  /** A character inside a string literal: printable ASCII other than `"` and `\` is
      copied; the five short escapes are used where they exist; anything else is
      written as `\uXXXX`, or as a UTF-16 surrogate pair above U+FFFF. */
  function EscapeChar(c: char): (e: string)
    ensures |e| >= 1 && IsAscii(e)
  {
    if c == '"' then "\\\""
    else if c == '\\' then "\\\\"
    else if c == '\n' then "\\n"
    else if c == '\r' then "\\r"
    else if c == '\t' then "\\t"
    else if c == '\U{8}' then "\\b"
    else if c == '\U{C}' then "\\f"
    else if ' ' <= c <= '~' then [c]
    else if (c as int) < 0x1_0000 then "\\u" + Hex4(c as int)
    else
      var n := c as int - 0x1_0000;
      "\\u" + Hex4(0xD800 + n / 0x400) + "\\u" + Hex4(0xDC00 + n % 0x400)
  }

  function EscapeText(s: string): (e: string)
    ensures IsAscii(e)
    decreases |s|
  {
    if s == [] then []
    else
      AsciiConcat(EscapeChar(s[0]), EscapeText(s[1..]));
      EscapeChar(s[0]) + EscapeText(s[1..])
  }

  /** A JSON string literal. */
  function Quote(s: string): (q: string)
    ensures |q| >= 2 && q[0] == '"' && q[|q| - 1] == '"' && IsAscii(q)
  {
    AsciiConcat("\"", EscapeText(s));
    AsciiConcat("\"" + EscapeText(s), "\"");
    "\"" + EscapeText(s) + "\""
  }

  /** The serialised text of a value. With `ensure_ascii`, the text of a well-formed
      value is pure ASCII: every other character has been escaped. */
  function Dumps(v: Json): (r: string)
    ensures WellFormed(v) ==> IsAscii(r)
    decreases v
  {
    match v
    case JNull => "null"
    case JBool(b) => if b then "true" else "false"
    case JInt(i) => IntReprAscii(i); IntRepr(i)
    case JFloat(t) => FloatLiteralAscii(t); t
    case JString(s) => Quote(s)
    case JArray(items) =>
      AsciiConcat("[", DumpsItems(items));
      AsciiConcat("[" + DumpsItems(items), "]");
      "[" + DumpsItems(items) + "]"
    case JObject(ms) =>
      AsciiConcat("{", DumpsMembers(ms));
      AsciiConcat("{" + DumpsMembers(ms), "}");
      "{" + DumpsMembers(ms) + "}"
  }

  /** The elements of a list, separated by `", "`. */
  function DumpsItems(items: seq<Json>): (r: string)
    ensures ItemsWellFormed(items) ==> IsAscii(r)
    decreases items
  {
    if items == [] then ""
    else if |items| == 1 then Dumps(items[0])
    else
      var head, tail := Dumps(items[0]), DumpsItems(items[1..]);
      assert ItemsWellFormed(items) ==> ItemsWellFormed(items[1..]) by {
        if ItemsWellFormed(items) {
          forall i | 0 <= i < |items[1..]| ensures WellFormed(items[1..][i]) {
            assert items[1..][i] == items[i + 1];
          }
        }
      }
      AsciiConcat(head, ", ");
      AsciiConcat(head + ", ", tail);
      head + ", " + tail
  }

  /** The `"key": value` pairs of a dict, separated by `", "`. */
  function DumpsMember(m: Member): (r: string)
    ensures WellFormed(m.value) ==> IsAscii(r)
    decreases m, 0
  {
    AsciiConcat(Quote(m.key), ": ");
    AsciiConcat(Quote(m.key) + ": ", Dumps(m.value));
    Quote(m.key) + ": " + Dumps(m.value)
  }

  function DumpsMembers(ms: seq<Member>): (r: string)
    ensures ValuesWellFormed(ms) ==> IsAscii(r)
    decreases ms
  {
    if ms == [] then ""
    else if |ms| == 1 then DumpsMember(ms[0])
    else
      var head, tail := DumpsMember(ms[0]), DumpsMembers(ms[1..]);
      assert ValuesWellFormed(ms) ==> ValuesWellFormed(ms[1..]) by {
        if ValuesWellFormed(ms) {
          forall i | 0 <= i < |ms[1..]| ensures WellFormed(ms[1..][i].value) {
            assert ms[1..][i] == ms[i + 1];
          }
        }
      }
      AsciiConcat(head, ", ");
      AsciiConcat(head + ", ", tail);
      head + ", " + tail
  }
}
