/** JSON values as Python's `json` module produces and consumes them (None, bool, int,
    float, str, list, dict), and the lexical grammar of JSON number literals that the
    encoder and the decoder share. */
module Json {
  import opened Wrappers
  import opened Decimal

  /** A decoded JSON document. A float is kept as the literal text that denotes it;
      an object keeps its members in insertion order, as a Python dict does. */
  datatype Json =
    | JNull
    | JBool(b: bool)
    | JInt(i: int)
    | JFloat(literal: string)
    | JString(s: string)
    | JArray(items: seq<Json>)
    | JObject(members: seq<Member>)

  datatype Member = Member(key: string, value: Json)

  /** Length of the run of decimal digits starting at position `j` of `s`. */
  function DigitsFrom(s: string, j: nat): (n: nat)
    requires j <= |s|
    ensures j + n <= |s|
    ensures j + n < |s| ==> !IsDigit(s[j + n])
    decreases |s| - j
  {
    if j < |s| && IsDigit(s[j]) then 1 + DigitsFrom(s, j + 1) else 0
  }

  /** The run counted by `DigitsFrom` consists of digits. */
  lemma {:induction false} DigitsFromDigits(s: string, j: nat)
    requires j <= |s|
    ensures forall m :: j <= m < j + DigitsFrom(s, j) ==> IsDigit(s[m])
    decreases |s| - j
  {
    if j < |s| && IsDigit(s[j]) {
      DigitsFromDigits(s, j + 1);
    }
  }

  /** Length of the match of `-?(0|[1-9][0-9]*)` at the start of `s`, 0 if none. */
  function IntPartLength(s: string): (n: nat)
    ensures n <= |s|
    ensures n > 0 ==> s[0] == '-' || IsDigit(s[0])
  {
    var sign := if s != [] && s[0] == '-' then 1 else 0;
    if sign < |s| && s[sign] == '0' then sign + 1
    else if sign < |s| && '1' <= s[sign] <= '9' then sign + 1 + DigitsFrom(s, sign + 1)
    else 0
  }

  /** Where the match of `\.[0-9]+` at position `j` ends; `j` itself if there is none. */
  function FracEnd(s: string, j: nat): (r: nat)
    requires j <= |s|
    ensures j <= r <= |s| && r != j + 1
  {
    if j + 1 < |s| && s[j] == '.' && IsDigit(s[j + 1]) then j + 1 + DigitsFrom(s, j + 1) else j
  }

  /** Where the match of `[eE][-+]?[0-9]+` at position `j` ends; `j` itself if there
      is none. */
  function ExpEnd(s: string, j: nat): (r: nat)
    requires j <= |s|
    ensures j <= r <= |s|
    ensures r > j ==> s[j] == 'e' || s[j] == 'E'
  {
    if j < |s| && (s[j] == 'e' || s[j] == 'E') then
      var sign := if j + 1 < |s| && (s[j + 1] == '+' || s[j + 1] == '-') then 1 else 0;
      var digits := DigitsFrom(s, j + 1 + sign);
      if digits > 0 then j + 1 + sign + digits else j
    else j
  }

  /** The lengths of the three groups of `-?(0|[1-9]\d*)(\.\d+)?([eE][-+]?\d+)?`
      matched at the start of a text; `intLen == 0` means no number starts there. */
  datatype NumberLex = NumberLex(intLen: nat, fracLen: nat, expLen: nat) {
    function Length(): nat {
      intLen + fracLen + expLen
    }
  }

  function LexNumber(s: string): (n: NumberLex)
    ensures n.Length() <= |s|
    ensures n.intLen == 0 ==> n.Length() == 0
  {
    var i := IntPartLength(s);
    if i == 0 then NumberLex(0, 0, 0)
    else
      var f := FracEnd(s, i);
      NumberLex(i, f - i, ExpEnd(s, f) - f)
  }

  /** The non-finite floats Python's decoder and encoder both spell out. */
  predicate IsSpecialFloat(t: string) {
    t == "NaN" || t == "Infinity" || t == "-Infinity"
  }

  /** A text that reads, in full, as a float: a number with a fraction or an exponent,
      or one of the non-finite spellings. */
  predicate IsFloatLiteral(t: string) {
    IsSpecialFloat(t) ||
    (var n := LexNumber(t); n.intLen > 0 && (n.fracLen > 0 || n.expLen > 0) && n.Length() == |t|)
  }

  /** `d[key]` on a dict: the value of the first member with that key, `None` for the
      `KeyError`. */
  function Lookup(ms: seq<Member>, key: string): Option<Json>
    decreases |ms|
  {
    if ms == [] then None else if ms[0].key == key then Some(ms[0].value) else Lookup(ms[1..], key)
  }

  predicate DistinctKeys(ms: seq<Member>) {
    forall i, j :: 0 <= i < j < |ms| ==> ms[i].key != ms[j].key
  }

  /** The values a dict/list structure can hold after a decode: every object has
      distinct keys and every float is spelled by a float literal. */
  predicate WellFormed(v: Json)
    decreases v, 1
  {
    match v
    case JFloat(t) => IsFloatLiteral(t)
    case JArray(items) => ItemsWellFormed(items)
    case JObject(ms) => DistinctKeys(ms) && ValuesWellFormed(ms)
    case _ => true
  }

  predicate ItemsWellFormed(items: seq<Json>)
    decreases items, 0
  {
    forall i :: 0 <= i < |items| ==> WellFormed(items[i])
  }

  predicate ValuesWellFormed(ms: seq<Member>)
    decreases ms, 0
  {
    forall i :: 0 <= i < |ms| ==> WellFormed(ms[i].value)
  }

  lemma ValuesWellFormedCons(m: Member, ms: seq<Member>)
    requires WellFormed(m.value) && ValuesWellFormed(ms)
    ensures ValuesWellFormed([m] + ms)
  {
    var l := [m] + ms;
    forall i | 0 <= i < |l| ensures WellFormed(l[i].value) {
      if i > 0 { assert l[i] == ms[i - 1]; }
    }
  }

  lemma ItemsWellFormedCons(v: Json, items: seq<Json>)
    requires WellFormed(v) && ItemsWellFormed(items)
    ensures ItemsWellFormed([v] + items)
  {
    var l := [v] + items;
    forall i | 0 <= i < |l| ensures WellFormed(l[i]) {
      if i > 0 { assert l[i] == items[i - 1]; }
    }
  }

  /** Text made of 7-bit characters only, as `json.dumps` writes with `ensure_ascii`. */
  predicate IsAscii(s: string) {
    forall i :: 0 <= i < |s| ==> s[i] as int < 0x80
  }

  lemma AsciiConcat(a: string, b: string)
    ensures IsAscii(a) && IsAscii(b) ==> IsAscii(a + b)
  {
    if IsAscii(a) && IsAscii(b) {
      forall i | 0 <= i < |a + b| ensures (a + b)[i] as int < 0x80 {
        if i >= |a| {
          assert (a + b)[i] == b[i - |a|];
        }
      }
    }
  }

  /** The text of an int is ASCII. */
  lemma IntReprAscii(i: int)
    ensures IsAscii(IntRepr(i))
  {
    var d := NatRepr(if i < 0 then -i else i);
    assert IsAscii(d);
    if i < 0 {
      AsciiConcat("-", d);
    }
  }

  /** Every character of a float literal is ASCII: a sign, digits, `.`, `e`/`E`, or one
      of the letters of the non-finite spellings. */
  lemma FloatLiteralAscii(t: string)
    ensures IsFloatLiteral(t) ==> IsAscii(t)
  {
    if IsFloatLiteral(t) && !IsSpecialFloat(t) {
      var i := IntPartLength(t);
      var sign := if t[0] == '-' then 1 else 0;
      var f := FracEnd(t, i);
      var e := ExpEnd(t, f);
      assert e == |t|;
      DigitsFromDigits(t, sign + 1);
      if f > i {
        DigitsFromDigits(t, i + 1);
      }
      var es := if e > f && t[f + 1] in "+-" then 1 else 0;
      if e > f {
        DigitsFromDigits(t, f + 1 + es);
      }
      forall m | 0 <= m < |t| ensures t[m] as int < 0x80 {
        if m < i {
          assert m == 0 || IsDigit(t[m]);
        } else if m < f {
          assert m == i || IsDigit(t[m]);
        } else {
          assert m == f || m == f + es || IsDigit(t[m]);
        }
      }
    }
  }

  /** A character that cannot continue a number literal. */
  predicate NumberStop(rest: string) {
    rest == [] || (!IsDigit(rest[0]) && rest[0] != '.' && rest[0] != 'e' && rest[0] != 'E')
  }

  /** `s` and `u` have the same first `k` characters. */
  predicate AgreeBelow(s: string, u: string, k: nat) {
    k <= |s| && k <= |u| && forall m :: 0 <= m < k ==> s[m] == u[m]
  }

  /** Nothing at position `k` of `u` can continue a number literal. */
  predicate EndsAt(u: string, k: nat) {
    k <= |u| && (k < |u| ==> !IsDigit(u[k]) && u[k] != '.' && u[k] != 'e' && u[k] != 'E')
  }

  lemma {:induction false} DigitsAgree(s: string, u: string, j: nat, k: nat)
    requires j <= k && AgreeBelow(s, u, k) && EndsAt(u, k)
    requires j + DigitsFrom(s, j) <= k
    ensures DigitsFrom(u, j) == DigitsFrom(s, j)
    decreases k - j
  {
    if j < k {
      assert u[j] == s[j];
      if IsDigit(s[j]) {
        DigitsAgree(s, u, j + 1, k);
      }
    }
  }

  lemma IntPartAgree(s: string, u: string, k: nat)
    requires 0 < IntPartLength(s) <= k && AgreeBelow(s, u, k) && EndsAt(u, k)
    ensures IntPartLength(u) == IntPartLength(s)
  {
    var sign := if s[0] == '-' then 1 else 0;
    assert u[0] == s[0] && u[sign] == s[sign];
    if s[sign] != '0' {
      DigitsAgree(s, u, sign + 1, k);
    }
  }

  lemma FracAgree(s: string, u: string, j: nat, k: nat)
    requires j <= k && AgreeBelow(s, u, k) && EndsAt(u, k) && FracEnd(s, j) <= k
    ensures FracEnd(u, j) == FracEnd(s, j)
  {
    if j < k {
      assert u[j] == s[j];
      if j + 1 < k {
        assert u[j + 1] == s[j + 1];
      }
      if FracEnd(s, j) > j {
        DigitsAgree(s, u, j + 1, k);
      }
    }
  }

  lemma ExpAgree(s: string, u: string, j: nat, k: nat)
    requires j <= k && AgreeBelow(s, u, k) && EndsAt(u, k) && ExpEnd(s, j) == k
    ensures ExpEnd(u, j) == k
  {
    if j < k {
      var sign := if s[j + 1] == '+' || s[j + 1] == '-' then 1 else 0;
      assert u[j] == s[j] && u[j + 1] == s[j + 1];
      DigitsAgree(s, u, j + 1 + sign, k);
    }
  }

  /** A number literal ends where its lexical match ends: any text that agrees with it
      up to that point and has nothing there that could continue a number is lexed the
      same way. */
  lemma LexNumberAgree(s: string, u: string, k: nat)
    requires LexNumber(s).intLen > 0 && LexNumber(s).Length() == k
    requires AgreeBelow(s, u, k) && EndsAt(u, k)
    ensures LexNumber(u) == LexNumber(s)
  {
    var i := IntPartLength(s);
    var f := FracEnd(s, i);
    IntPartAgree(s, u, k);
    FracAgree(s, u, i, k);
    ExpAgree(s, u, f, k);
  }
}
