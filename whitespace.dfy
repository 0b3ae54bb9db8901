/** `str::split_whitespace`: the non-empty runs of non-whitespace characters
    of a string, in order, where whitespace is Rust's `char::is_whitespace`
    (the Unicode White_Space property). */
module Whitespace {

  /** `char::is_whitespace`: the 25 code points with Unicode's White_Space
      property. */
  predicate IsWhitespace(c: char) {
    var x := c as int;
    || 0x09 <= x <= 0x0D
    || x == 0x20
    || x == 0x85
    || x == 0xA0
    || x == 0x1680
    || 0x2000 <= x <= 0x200A
    || x == 0x2028
    || x == 0x2029
    || x == 0x202F
    || x == 0x205F
    || x == 0x3000
  }

  predicate AllWhitespace(s: string) {
    forall i :: 0 <= i < |s| ==> IsWhitespace(s[i])
  }

  /** What `split_whitespace` can yield: non-empty, no whitespace inside. */
  predicate IsField(w: string) {
    w != [] && forall i :: 0 <= i < |w| ==> !IsWhitespace(w[i])
  }

  /** `s` without its leading whitespace. */
  function TrimStart(s: string): (t: string)
    ensures |t| <= |s|
    ensures t == [] || !IsWhitespace(t[0])
  {
    if s != [] && IsWhitespace(s[0]) then TrimStart(s[1..]) else s
  }

  /** The length of the longest whitespace-free prefix of `s`. */
  function FieldLength(s: string): (n: nat)
    ensures n <= |s| && (n < |s| ==> IsWhitespace(s[n]))
    ensures forall i :: 0 <= i < n ==> !IsWhitespace(s[i])
    ensures s != [] && !IsWhitespace(s[0]) ==> n >= 1
  {
    if s != [] && !IsWhitespace(s[0]) then 1 + FieldLength(s[1..]) else 0
  }

  /** `s.split_whitespace().collect::<Vec<&str>>()` */
  function Fields(s: string): (r: seq<string>)
    ensures forall k :: 0 <= k < |r| ==> IsField(r[k])
    decreases |s|
  {
    var t := TrimStart(s);
    if t == [] then []
    else
      var n := FieldLength(t);
      assert IsField(t[..n]) by {
        assert forall i :: 0 <= i < n ==> t[..n][i] == t[i];
      }
      [t[..n]] + Fields(t[n..])
  }

  /** The fields separated by one space each: how `/proc/<pid>/stat` is laid out. */
  function JoinSpaced(ws: seq<string>): string {
    if ws == [] then "" else if |ws| == 1 then ws[0] else ws[0] + " " + JoinSpaced(ws[1..])
  }

  /** Splitting a space-joined line, with any trailing whitespace such as the
      final newline, gives back exactly the fields it was made of. */
  lemma {:induction false} FieldsOfJoinSpaced(ws: seq<string>, trail: string)
    requires forall k :: 0 <= k < |ws| ==> IsField(ws[k])
    requires AllWhitespace(trail)
    ensures Fields(JoinSpaced(ws) + trail) == ws
  {
    if ws == [] {
      assert JoinSpaced(ws) + trail == trail;
      FieldsOfWhitespace(trail);
    } else if |ws| == 1 {
      assert JoinSpaced(ws) + trail == ws[0] + trail;
      FieldsOfFieldThen(ws[0], trail);
      FieldsOfWhitespace(trail);
    } else {
      var tail := JoinSpaced(ws[1..]) + trail;
      assert JoinSpaced(ws) + trail == ws[0] + (" " + tail);
      FieldsOfFieldThen(ws[0], " " + tail);
      FieldsSkipsLeadingSpace(tail);
      FieldsOfJoinSpaced(ws[1..], trail);
    }
  }

  /** A field followed by whitespace (or nothing) is split off whole. */
  lemma FieldsOfFieldThen(w: string, rest: string)
    requires IsField(w)
    requires rest == [] || IsWhitespace(rest[0])
    ensures Fields(w + rest) == [w] + Fields(rest)
  {
    var s := w + rest;
    assert s[0] == w[0];
    assert TrimStart(s) == s;
    FieldLengthOfField(w, rest);
    assert s[..|w|] == w && s[|w|..] == rest;
  }

  /** A whitespace-only string has no fields. */
  lemma FieldsOfWhitespace(s: string)
    requires AllWhitespace(s)
    ensures Fields(s) == []
  {
    TrimStartOfWhitespace(s);
  }

  lemma {:induction false} TrimStartOfWhitespace(s: string)
    requires AllWhitespace(s)
    ensures TrimStart(s) == []
  {
    if s != [] {
      TrimStartOfWhitespace(s[1..]);
    }
  }

  /** One leading space does not change the fields. */
  lemma FieldsSkipsLeadingSpace(s: string)
    ensures Fields(" " + s) == Fields(s)
  {
    assert (" " + s)[1..] == s;
  }

  /** A field followed by whitespace (or nothing) is read whole. */
  lemma {:induction false} FieldLengthOfField(w: string, rest: string)
    requires forall i :: 0 <= i < |w| ==> !IsWhitespace(w[i])
    requires rest == [] || IsWhitespace(rest[0])
    ensures FieldLength(w + rest) == |w|
  {
    if w != [] {
      assert (w + rest)[1..] == w[1..] + rest;
      FieldLengthOfField(w[1..], rest);
    } else {
      assert w + rest == rest;
    }
  }
}
