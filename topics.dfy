/** MQTT topic handling on the bridge side: Python's `str.split("/")` and the
    device-id rule of `ptm_logic`, which takes the segment at index 1. */
module Topics {
  import opened Wrappers

  const Separator: char := '/'

  /** `s.split(sep)`: the pieces between separators, always at least one, none of
      them containing the separator. */
  function Split(s: string, sep: char): (parts: seq<string>)
    ensures |parts| >= 1
    ensures forall i :: 0 <= i < |parts| ==> sep !in parts[i]
    decreases |s|
  {
    if s == [] then [""]
    else if s[0] == sep then [""] + Split(s[1..], sep)
    else
      var tail := Split(s[1..], sep);
      [[s[0]] + tail[0]] + tail[1..]
  }

  /** `sep.join(parts)`: the reference that `Split` inverts. */
  function Join(parts: seq<string>, sep: char): string
    requires |parts| >= 1
    decreases |parts|
  {
    if |parts| == 1 then parts[0] else parts[0] + [sep] + Join(parts[1..], sep)
  }

  /** Number of occurrences of `c` in `s`. */
  function Count(s: string, c: char): nat
    decreases |s|
  {
    if s == [] then 0 else (if s[0] == c then 1 else 0) + Count(s[1..], c)
  }

  /** Joining the pieces with the separator gives back the original text, and there is
      one more piece than there are separators. */
  lemma {:induction false} SplitJoin(s: string, sep: char)
    ensures Join(Split(s, sep), sep) == s
    ensures |Split(s, sep)| == Count(s, sep) + 1
    decreases |s|
  {
    if s != [] {
      SplitJoin(s[1..], sep);
      var tail := Split(s[1..], sep);
      if s[0] == sep {
        assert Split(s, sep)[1..] == tail;
      } else {
        var parts := Split(s, sep);
        assert parts[1..] == tail[1..];
        if |tail| > 1 {
          assert Join(tail, sep) == tail[0] + [sep] + Join(tail[1..], sep);
        }
      }
    }
  }

  lemma {:induction false} CountZero(s: string, c: char)
    ensures Count(s, c) == 0 <==> c !in s
    decreases |s|
  {
    if s != [] {
      CountZero(s[1..], c);
      assert s == [s[0]] + s[1..];
    }
  }

  /** A piece with no separator splits to itself, and a separator right after it
      starts the next piece. */
  lemma {:induction false} SplitAfterSegment(a: string, sep: char, b: string)
    requires sep !in a
    ensures Split(a + [sep] + b, sep) == [a] + Split(b, sep)
    decreases |a|
  {
    if a == [] {
      assert a + [sep] + b == [sep] + b;
      assert ([sep] + b)[1..] == b;
    } else {
      var s := a + [sep] + b;
      assert s[0] == a[0] && s[1..] == a[1..] + [sep] + b;
      SplitAfterSegment(a[1..], sep, b);
      assert [a[0]] + a[1..] == a;
    }
  }

  lemma {:induction false} SplitNoSeparator(a: string, sep: char)
    requires sep !in a
    ensures Split(a, sep) == [a]
    decreases |a|
  {
    if a != [] {
      SplitNoSeparator(a[1..], sep);
      assert [a[0]] + a[1..] == a;
    }
  }

  /** `msg.topic.split("/")[1]`: `None` stands for the `IndexError` raised when the
      topic has no second segment. */
  function DeviceIdOf(topic: string): (r: Option<string>)
    ensures r.Some? ==> Separator !in r.value
  {
    var parts := Split(topic, Separator);
    if |parts| >= 2 then Some(parts[1]) else None
  }

  /** The device id exists exactly when the topic contains a separator. */
  lemma DeviceIdExistsIffSeparator(topic: string)
    ensures DeviceIdOf(topic).Some? <==> Separator in topic
  {
    SplitJoin(topic, Separator);
    CountZero(topic, Separator);
  }

  /** The device id is the text between the first separator and the next one (or the
      end of the topic): the topic is `first + "/" + id + tail` with no separator in
      `first` or `id`, and `tail` empty or starting with a separator. */
  lemma DeviceIdBetweenSeparators(topic: string) returns (first: string, tail: string)
    requires DeviceIdOf(topic).Some?
    ensures var id := DeviceIdOf(topic).value;
      Separator !in first && Separator !in id && topic == first + [Separator] + id + tail &&
      (tail == [] || tail[0] == Separator)
  {
    var parts := Split(topic, Separator);
    var id := parts[1];
    SplitJoin(topic, Separator);
    first := parts[0];
    var after := Join(parts[1..], Separator);
    assert Join(parts, Separator) == first + [Separator] + after;
    if |parts| == 2 {
      tail := [];
      assert after == id;
    } else {
      tail := [Separator] + Join(parts[2..], Separator);
      assert parts[1..][1..] == parts[2..];
      assert after == id + tail;
    }
  }

  /** For a topic `<first>/<id>/<rest>` whose first two segments contain no separator,
      the device id is `<id>`. */
  lemma DeviceIdOfThreeSegments(first: string, id: string, rest: string)
    requires Separator !in first && Separator !in id
    ensures DeviceIdOf(first + [Separator] + id + [Separator] + rest) == Some(id)
  {
    var topic := first + [Separator] + id + [Separator] + rest;
    assert topic == first + [Separator] + (id + [Separator] + rest);
    SplitAfterSegment(first, Separator, id + [Separator] + rest);
    SplitAfterSegment(id, Separator, rest);
  }
}
