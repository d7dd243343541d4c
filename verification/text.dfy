/** The few string operations of Python's `str` that the service relies on:
    `split(sep)`, `strip()` and ASCII `upper()`, with `find` and `join` as
    the helpers that define and invert them. */
module Text {
  import opened Wrappers

  /** Index of the first occurrence of `c` in `s`, if there is one. */
  function IndexOf(s: string, c: char): (r: Option<nat>)
    ensures r.None? <==> c !in s
    ensures r.Some? ==> r.value < |s| && s[r.value] == c && c !in s[..r.value]
  {
    if |s| == 0 then None
    else if s[0] == c then Some(0)
    else
      match IndexOf(s[1..], c)
      case None => None
      case Some(i) =>
        assert s[..i + 1] == [s[0]] + s[1..][..i];
        Some(i + 1)
  }

  /** The inverse of `Split`: the fields glued together with `sep` between them. */
  function Join(fields: seq<string>, sep: char): (s: string)
  {
    if |fields| == 0 then ""
    else if |fields| == 1 then fields[0]
    else fields[0] + [sep] + Join(fields[1..], sep)
  }

  /** Python's `s.split(sep)` for a one-character separator: always at least
      one field, no field holds the separator, and joining the fields back
      gives `s`. */
  function Split(s: string, sep: char): (fields: seq<string>)
    ensures |fields| >= 1
    ensures forall i :: 0 <= i < |fields| ==> sep !in fields[i]
    ensures Join(fields, sep) == s
    decreases |s|
  {
    match IndexOf(s, sep)
    case None => [s]
    case Some(i) =>
      var rest := Split(s[i + 1..], sep);
      assert s == s[..i] + [sep] + s[i + 1..];
      [s[..i]] + rest
  }

  /** The first field of `s.split(sep)`: everything before the first `sep`. */
  function FirstField(s: string, sep: char): (field: string)
  {
    Split(s, sep)[0]
  }

  /** Where a separator first occurs after a separator-free prefix. */
  lemma IndexOfAfterPrefix(a: string, sep: char, b: string)
    requires sep !in a
    ensures IndexOf(a + [sep] + b, sep) == Some(|a|)
  {
    var s := a + [sep] + b;
    assert s[|a|] == sep;
  }

  /** Splitting joined separator-free fields gives the fields back. */
  lemma {:induction false} SplitJoin(fields: seq<string>, sep: char)
    requires |fields| >= 1
    requires forall i :: 0 <= i < |fields| ==> sep !in fields[i]
    ensures Split(Join(fields, sep), sep) == fields
    decreases |fields|
  {
    if |fields| == 1 {
      assert IndexOf(fields[0], sep).None?;
    } else {
      var head := fields[0];
      var tail := Join(fields[1..], sep);
      var s := head + [sep] + tail;
      assert Join(fields, sep) == s;
      IndexOfAfterPrefix(head, sep, tail);
      assert s[..|head|] == head;
      assert s[|head| + 1..] == tail;
      assert Split(s, sep) == [head] + Split(tail, sep);
      SplitJoin(fields[1..], sep);
      assert fields == [head] + fields[1..];
    }
  }

  /** Only the text before the first separator decides the first field. */
  lemma FirstFieldIgnoresLaterFields(a: string, sep: char, b: string)
    requires sep !in a
    ensures FirstField(a + [sep] + b, sep) == a
    ensures FirstField(a, sep) == a
  {
    var s := a + [sep] + b;
    IndexOfAfterPrefix(a, sep, b);
    assert s[..|a|] == a;
    assert IndexOf(a, sep).None?;
  }

  /** The code points Python's `str.isspace()` accepts, as inclusive blocks. */
  const SpaceBlocks: seq<(int, int)> := [
    (0x09, 0x0D), (0x1C, 0x20), (0x85, 0x85), (0xA0, 0xA0), (0x1680, 0x1680),
    (0x2000, 0x200A), (0x2028, 0x2029), (0x202F, 0x202F), (0x205F, 0x205F),
    (0x3000, 0x3000)
  ]

  /** Python's `str.isspace()` for one character. */
  predicate IsSpace(c: char)
  {
    exists i :: 0 <= i < |SpaceBlocks| && SpaceBlocks[i].0 <= c as int <= SpaceBlocks[i].1
  }

  /** `r` is `s` with the first `i` characters and everything after
      `i + |r|` cut off, and only whitespace was cut. */
  predicate StripsTo(s: string, r: string, i: nat)
  {
    && i + |r| <= |s|
    && r == s[i..i + |r|]
    && (forall k :: 0 <= k < i ==> IsSpace(s[k]))
    && (forall k :: i + |r| <= k < |s| ==> IsSpace(s[k]))
  }

  /** Python's `s.strip()`: the result is a stretch of `s` obtained by
      cutting only whitespace from its two ends, and it has no whitespace
      left at either end. */
  function Strip(s: string): (r: string)
    ensures r == [] || (!IsSpace(r[0]) && !IsSpace(r[|r| - 1]))
    ensures exists i: nat :: StripsTo(s, r, i)
    decreases |s|
  {
    if |s| > 0 && IsSpace(s[0]) then
      var r := Strip(s[1..]);
      CutFront(s, r);
      r
    else if |s| > 0 && IsSpace(s[|s| - 1]) then
      var t := s[..|s| - 1];
      var r := Strip(t);
      CutBack(s, t, r);
      r
    else
      assert StripsTo(s, s, 0);
      s
  }

  /** Cutting a leading space before a strip is still a strip. */
  lemma CutFront(s: string, r: string)
    requires |s| > 0 && IsSpace(s[0])
    requires exists i: nat :: StripsTo(s[1..], r, i)
    ensures exists i: nat :: StripsTo(s, r, i)
  {
    var i: nat :| StripsTo(s[1..], r, i);
    assert s[1..][i..i + |r|] == s[i + 1..i + 1 + |r|];
    forall k | 0 <= k < i + 1 ensures IsSpace(s[k]) {
      if k > 0 {
        assert s[k] == s[1..][k - 1];
      }
    }
    forall k | i + 1 + |r| <= k < |s| ensures IsSpace(s[k]) {
      assert s[k] == s[1..][k - 1];
    }
    assert StripsTo(s, r, i + 1);
  }

  /** Cutting a trailing space before a strip is still a strip. */
  lemma CutBack(s: string, t: string, r: string)
    requires |s| > 0 && IsSpace(s[|s| - 1]) && t == s[..|s| - 1]
    requires exists i: nat :: StripsTo(t, r, i)
    ensures exists i: nat :: StripsTo(s, r, i)
  {
    var i: nat :| StripsTo(t, r, i);
    assert t[i..i + |r|] == s[i..i + |r|];
    forall k | 0 <= k < i ensures IsSpace(s[k]) {
      assert s[k] == t[k];
    }
    forall k | i + |r| <= k < |s| ensures IsSpace(s[k]) {
      if k < |s| - 1 {
        assert s[k] == t[k];
      }
    }
    assert StripsTo(s, r, i);
  }

  /** Stripping twice is stripping once. */
  lemma StripIdempotent(s: string)
    ensures Strip(Strip(s)) == Strip(s)
  {
    var r := Strip(s);
    assert r == [] || (!IsSpace(r[0]) && !IsSpace(r[|r| - 1]));
  }

  /** ASCII upper case of one character; everything else is left alone. */
  function UpperChar(c: char): (u: char)
  {
    if 'a' <= c <= 'z' then (c as int - 32) as char else c
  }

  /** Python's `s.upper()` restricted to ASCII letters: same length, no
      lower-case ASCII letter left, and every character either kept or
      replaced by the upper-case form of the lower-case letter it was. */
  function Upper(s: string): (r: string)
    ensures |r| == |s|
    ensures forall i :: 0 <= i < |r| ==> !('a' <= r[i] <= 'z')
    ensures forall i :: 0 <= i < |s| ==>
      r[i] == s[i] || ('a' <= s[i] <= 'z' && r[i] as int == s[i] as int - 32)
  {
    seq(|s|, i requires 0 <= i < |s| => UpperChar(s[i]))
  }

  /** A country code as the dataset and the page write it: two upper-case
      ASCII letters. */
  predicate IsCountryCode(s: string)
  {
    |s| == 2 && 'A' <= s[0] <= 'Z' && 'A' <= s[1] <= 'Z'
  }

  /** Upper-casing is idempotent. */
  lemma UpperIdempotent(s: string)
    ensures Upper(Upper(s)) == Upper(s)
  {
  }
}
