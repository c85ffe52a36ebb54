/** UTF-8 as Python's strict `'utf-8'` codec applies it: `bytes.decode('utf-8')` on the
    bridge's inbound payload, and `str.encode` when a text body is put on the wire.
    The decoder accepts exactly the well-formed byte sequences of Table 3-7 of the
    Unicode Standard (no overlong forms, no surrogates, nothing above U+10FFFF). */
module Utf8 {
  import opened Wrappers

  type byte = x: int | 0 <= x < 256

  predicate IsContinuation(b: byte) {
    0x80 <= b < 0xC0
  }

  predicate IsScalarValue(n: int) {
    0 <= n < 0xD800 || 0xE000 <= n < 0x11_0000
  }

  /** The one to four bytes that encode one character. */
  function EncodeChar(c: char): (bs: seq<byte>)
    ensures 1 <= |bs| <= 4
    ensures |bs| == 1 <==> c as int < 0x80
  {
    var n := c as int;
    if n < 0x80 then [n]
    else if n < 0x800 then [0xC0 + n / 0x40, 0x80 + n % 0x40]
    else if n < 0x1_0000 then [0xE0 + n / 0x1000, 0x80 + (n / 0x40) % 0x40, 0x80 + n % 0x40]
    else [0xF0 + n / 0x4_0000, 0x80 + (n / 0x1000) % 0x40, 0x80 + (n / 0x40) % 0x40, 0x80 + n % 0x40]
  }

  /** `s.encode('utf-8')`. */
  function Encode(s: string): (bs: seq<byte>)
    ensures |bs| >= |s|
  {
    if s == [] then [] else EncodeChar(s[0]) + Encode(s[1..])
  }

  /** The length of the well-formed sequence that starts `bs`, or 0 when `bs` does not
      start with one (a stray continuation byte, an overlong form, a surrogate, a value
      above U+10FFFF, or a truncated sequence). */
  function SequenceLength(bs: seq<byte>): (k: nat)
    ensures k <= |bs| && k <= 4
    ensures bs != [] && bs[0] < 0x80 ==> k == 1
  {
    if bs == [] then 0
    else if bs[0] < 0x80 then 1
    else if 0xC2 <= bs[0] <= 0xDF then
      if |bs| >= 2 && IsContinuation(bs[1]) then 2 else 0
    else if 0xE0 <= bs[0] <= 0xEF then
      var lo := if bs[0] == 0xE0 then 0xA0 else 0x80;
      var hi := if bs[0] == 0xED then 0x9F else 0xBF;
      if |bs| >= 3 && lo <= bs[1] <= hi && IsContinuation(bs[2]) then 3 else 0
    else if 0xF0 <= bs[0] <= 0xF4 then
      var lo := if bs[0] == 0xF0 then 0x90 else 0x80;
      var hi := if bs[0] == 0xF4 then 0x8F else 0xBF;
      if |bs| >= 4 && lo <= bs[1] <= hi && IsContinuation(bs[2]) && IsContinuation(bs[3]) then 4 else 0
    else 0
  }

  /** The code point of the well-formed sequence of length `k` at the start of `bs`. */
  function ScalarOf(bs: seq<byte>, k: nat): (n: int)
    requires 1 <= k && k == SequenceLength(bs)
    ensures IsScalarValue(n)
  {
    if k == 1 then bs[0]
    else if k == 2 then (bs[0] as int - 0xC0) * 0x40 + (bs[1] as int - 0x80)
    else if k == 3 then (bs[0] as int - 0xE0) * 0x1000 + (bs[1] as int - 0x80) * 0x40 + (bs[2] as int - 0x80)
    else (bs[0] as int - 0xF0) * 0x4_0000 + (bs[1] as int - 0x80) * 0x1000 + (bs[2] as int - 0x80) * 0x40 + (bs[3] as int - 0x80)
  }

  /** `b.decode('utf-8')`: `None` stands for the `UnicodeDecodeError` Python raises. */
  function Decode(bs: seq<byte>): (r: Option<string>)
    ensures r.Some? ==> |r.value| <= |bs|
    decreases |bs|
  {
    if bs == [] then Some([])
    else
      var k := SequenceLength(bs);
      if k == 0 then None
      else match Decode(bs[k..])
        case None => None
        case Some(tail) => Some([ScalarOf(bs, k) as char] + tail)
  }

  /** Two-, three- and four-byte sequences built from the six-bit groups of `n` are
      well formed and carry `n`. */
  lemma TwoBytes(n: int, q: int, r: int, bs: seq<byte>)
    requires 0x80 <= n < 0x800 && 0 <= r < 0x40 && n == q * 0x40 + r
    requires |bs| >= 2 && bs[0] == 0xC0 + q && bs[1] == 0x80 + r
    ensures SequenceLength(bs) == 2 && ScalarOf(bs, 2) == n
  {
  }

  lemma ThreeBytes(n: int, q: int, m: int, r: int, bs: seq<byte>)
    requires 0x800 <= n < 0x1_0000 && IsScalarValue(n)
    requires 0 <= m < 0x40 && 0 <= r < 0x40 && n == q * 0x1000 + m * 0x40 + r
    requires |bs| >= 3 && bs[0] == 0xE0 + q && bs[1] == 0x80 + m && bs[2] == 0x80 + r
    ensures SequenceLength(bs) == 3 && ScalarOf(bs, 3) == n
  {
  }

  lemma FourBytes(n: int, q: int, h: int, m: int, r: int, bs: seq<byte>)
    requires 0x1_0000 <= n < 0x11_0000
    requires 0 <= h < 0x40 && 0 <= m < 0x40 && 0 <= r < 0x40
    requires n == q * 0x4_0000 + h * 0x1000 + m * 0x40 + r
    requires |bs| >= 4 && bs[0] == 0xF0 + q && bs[1] == 0x80 + h && bs[2] == 0x80 + m && bs[3] == 0x80 + r
    ensures SequenceLength(bs) == 4 && ScalarOf(bs, 4) == n
  {
  }

  lemma EncodeCharTwo(c: char, rest: seq<byte>)
    requires 0x80 <= c as int < 0x800
    ensures SequenceLength(EncodeChar(c) + rest) == 2
    ensures ScalarOf(EncodeChar(c) + rest, 2) == c as int
  {
    var n := c as int;
    var bs := EncodeChar(c) + rest;
    assert EncodeChar(c) == [0xC0 + n / 0x40, 0x80 + n % 0x40];
    TwoBytes(n, n / 0x40, n % 0x40, bs);
  }

  lemma EncodeCharThree(c: char, rest: seq<byte>)
    requires 0x800 <= c as int < 0x1_0000
    ensures SequenceLength(EncodeChar(c) + rest) == 3
    ensures ScalarOf(EncodeChar(c) + rest, 3) == c as int
  {
    var n := c as int;
    var bs := EncodeChar(c) + rest;
    var q, m, r := n / 0x1000, (n / 0x40) % 0x40, n % 0x40;
    assert n / 0x40 == q * 0x40 + m;
    assert EncodeChar(c) == [0xE0 + q, 0x80 + m, 0x80 + r];
    ThreeBytes(n, q, m, r, bs);
  }

  lemma EncodeCharFour(c: char, rest: seq<byte>)
    requires 0x1_0000 <= c as int
    ensures SequenceLength(EncodeChar(c) + rest) == 4
    ensures ScalarOf(EncodeChar(c) + rest, 4) == c as int
  {
    var n := c as int;
    var bs := EncodeChar(c) + rest;
    var q, h, m, r := n / 0x4_0000, (n / 0x1000) % 0x40, (n / 0x40) % 0x40, n % 0x40;
    assert n / 0x1000 == q * 0x40 + h;
    assert n / 0x40 == (n / 0x1000) * 0x40 + m;
    assert EncodeChar(c) == [0xF0 + q, 0x80 + h, 0x80 + m, 0x80 + r];
    FourBytes(n, q, h, m, r, bs);
  }

  /** Encoding one character yields a well-formed sequence that decodes back to it,
      whatever follows it. */
  lemma EncodeCharWellFormed(c: char, rest: seq<byte>)
    ensures SequenceLength(EncodeChar(c) + rest) == |EncodeChar(c)|
    ensures ScalarOf(EncodeChar(c) + rest, |EncodeChar(c)|) == c as int
  {
    var n := c as int;
    if n < 0x80 {
    } else if n < 0x800 {
      EncodeCharTwo(c, rest);
    } else if n < 0x1_0000 {
      EncodeCharThree(c, rest);
    } else {
      EncodeCharFour(c, rest);
    }
  }

  /** Quotient and remainder by 0x40, 0x1000 and 0x4_0000 (six, twelve and eighteen bits). */
  lemma DivMod6(n: int, q: int, r: int)
    requires 0 <= r < 0x40 && n == q * 0x40 + r
    ensures n / 0x40 == q && n % 0x40 == r
  {
  }

  lemma DivMod12(n: int, q: int, r: int)
    requires 0 <= r < 0x1000 && n == q * 0x1000 + r
    ensures n / 0x1000 == q
  {
  }

  lemma DivMod18(n: int, q: int, r: int)
    requires 0 <= r < 0x4_0000 && n == q * 0x4_0000 + r
    ensures n / 0x4_0000 == q
  {
  }

  lemma WellFormedTwo(bs: seq<byte>)
    requires SequenceLength(bs) == 2
    ensures EncodeChar(ScalarOf(bs, 2) as char) == bs[..2]
  {
    var n := ScalarOf(bs, 2);
    var b0, b1 := bs[0] as int - 0xC0, bs[1] as int - 0x80;
    DivMod6(n, b0, b1);
  }

  lemma WellFormedThree(bs: seq<byte>)
    requires SequenceLength(bs) == 3
    ensures EncodeChar(ScalarOf(bs, 3) as char) == bs[..3]
  {
    var n := ScalarOf(bs, 3);
    var b0, b1, b2 := bs[0] as int - 0xE0, bs[1] as int - 0x80, bs[2] as int - 0x80;
    DivMod6(n, b0 * 0x40 + b1, b2);
    DivMod6(n / 0x40, b0, b1);
    DivMod12(n, b0, b1 * 0x40 + b2);
  }

  lemma WellFormedFour(bs: seq<byte>)
    requires SequenceLength(bs) == 4
    ensures EncodeChar(ScalarOf(bs, 4) as char) == bs[..4]
  {
    var n := ScalarOf(bs, 4);
    var b0, b1, b2, b3 := bs[0] as int - 0xF0, bs[1] as int - 0x80, bs[2] as int - 0x80, bs[3] as int - 0x80;
    DivMod6(n, b0 * 0x1000 + b1 * 0x40 + b2, b3);
    DivMod6(n / 0x40, b0 * 0x40 + b1, b2);
    DivMod12(n, b0 * 0x40 + b1, b2 * 0x40 + b3);
    DivMod6(n / 0x1000, b0, b1);
    DivMod18(n, b0, b1 * 0x1000 + b2 * 0x40 + b3);
  }

  /** A well-formed sequence is the encoding of the character it decodes to. */
  lemma WellFormedIsEncoding(bs: seq<byte>, k: nat)
    requires 1 <= k && k == SequenceLength(bs)
    ensures EncodeChar(ScalarOf(bs, k) as char) == bs[..k]
  {
    if k == 2 {
      WellFormedTwo(bs);
    } else if k == 3 {
      WellFormedThree(bs);
    } else if k == 4 {
      WellFormedFour(bs);
    }
  }

  /** Decoding the encoding of a text gives the text back. */
  lemma {:induction false} DecodeEncode(s: string)
    ensures Decode(Encode(s)) == Some(s)
    decreases |s|
  {
    if s != [] {
      var bs := Encode(s);
      var head := EncodeChar(s[0]);
      assert bs == head + Encode(s[1..]);
      EncodeCharWellFormed(s[0], Encode(s[1..]));
      assert bs[|head|..] == Encode(s[1..]);
      DecodeEncode(s[1..]);
      assert [ScalarOf(bs, |head|) as char] + s[1..] == s;
    }
  }

  /** Decoding succeeds only on the exact encoding of its result: together with
      `DecodeEncode`, `Decode(bs) == Some(s)` holds exactly when `bs == Encode(s)`. */
  lemma EncodeCons(c: char, tail: string, head: seq<byte>, rest: seq<byte>)
    requires EncodeChar(c) == head && Encode(tail) == rest
    ensures Encode([c] + tail) == head + rest
  {
    assert ([c] + tail)[1..] == tail;
  }

  /** The first step of a successful decode. */
  lemma DecodeHead(bs: seq<byte>, s: string) returns (k: nat, tail: string)
    requires bs != [] && Decode(bs) == Some(s)
    ensures 1 <= k == SequenceLength(bs) && Decode(bs[k..]) == Some(tail)
    ensures s == [ScalarOf(bs, k) as char] + tail
  {
    k := SequenceLength(bs);
    tail := Decode(bs[k..]).value;
  }

  lemma SplitAt(bs: seq<byte>, k: nat)
    requires k <= |bs|
    ensures bs[..k] + bs[k..] == bs
  {
  }

  lemma {:induction false} DecodeIsCanonical(bs: seq<byte>, s: string)
    requires Decode(bs) == Some(s)
    ensures Encode(s) == bs
    decreases |bs|
  {
    if bs != [] {
      var k, tail := DecodeHead(bs, s);
      WellFormedIsEncoding(bs, k);
      DecodeIsCanonical(bs[k..], tail);
      EncodeCons(ScalarOf(bs, k) as char, tail, bs[..k], bs[k..]);
      SplitAt(bs, k);
    }
  }
}
