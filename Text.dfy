/**
  The string operations of Python that the settings code and the message pipeline rely on:
  `str.strip()`, `sub in s`, `s.split(c)` with a one-character separator, `c.join(xs)`,
  and `s.split(sep)[0]` with a longer separator.
 */
module Text {

  /** Python's `str.isspace()` for a single character: the characters `str.strip()` removes. */
  predicate IsSpace(c: char) {
    || ('\t' <= c <= '\r')
    || ('\U{1c}' <= c <= '\U{1f}')
    || c == ' '
    || c == '\U{85}'
    || c == '\U{a0}'
    || c == '\U{1680}'
    || ('\U{2000}' <= c <= '\U{200a}')
    || c == '\U{2028}'
    || c == '\U{2029}'
    || c == '\U{202f}'
    || c == '\U{205f}'
    || c == '\U{3000}'
  }

  /** A string with no white space at either end (what `strip()` returns). */
  predicate Stripped(s: string) {
    s == [] || (!IsSpace(s[0]) && !IsSpace(s[|s| - 1]))
  }

  function TrimStart(s: string): (r: string)
    ensures |r| <= |s| && r == s[|s| - |r|..]
    ensures r == [] || !IsSpace(r[0])
    ensures forall i :: 0 <= i < |s| - |r| ==> IsSpace(s[i])
  {
    if s != [] && IsSpace(s[0]) then TrimStart(s[1..]) else s
  }

  function TrimEnd(s: string): (r: string)
    ensures |r| <= |s| && r == s[..|r|]
    ensures r == [] || !IsSpace(r[|r| - 1])
    ensures forall i :: |r| <= i < |s| ==> IsSpace(s[i])
  {
    if s != [] && IsSpace(s[|s| - 1]) then TrimEnd(s[..|s| - 1]) else s
  }

  /**
    Python's `s.strip()`: the longest slice of `s` that neither starts nor ends with white space,
    obtained by removing white space only at the two ends.
   */
  function Strip(s: string): (r: string)
    ensures Stripped(r)
    ensures exists lo, hi :: 0 <= lo <= hi <= |s| && r == s[lo..hi]
                             && (forall i :: 0 <= i < lo ==> IsSpace(s[i]))
                             && (forall i :: hi <= i < |s| ==> IsSpace(s[i]))
  {
    var t := TrimStart(s);
    var r := TrimEnd(t);
    var lo := |s| - |t|;
    assert r == s[lo..lo + |r|];
    r
  }

  /** Stripping changes exactly the strings that have white space at an end. */
  lemma StripFixesStripped(s: string)
    ensures Strip(s) == s <==> Stripped(s)
  {
    if Stripped(s) && s != [] {
      assert TrimStart(s) == s;
      assert TrimEnd(s) == s;
    }
  }

  lemma StripIdempotent(s: string)
    ensures Strip(Strip(s)) == Strip(s)
  {
    StripFixesStripped(Strip(s));
  }

  /** Python's `t in s` for strings: `t` occurs in `s` as a contiguous substring. */
  predicate Contains(s: string, t: string) {
    t <= s || (s != [] && Contains(s[1..], t))
  }

  /** `Contains` holds exactly when `t` starts at some position of `s`. */
  lemma {:induction false} ContainsAt(s: string, t: string, i: nat)
    requires i <= |s| && t <= s[i..]
    ensures Contains(s, t)
  {
    if i > 0 {
      assert s[1..][i - 1..] == s[i..];
      ContainsAt(s[1..], t, i - 1);
    }
  }

  /** A position where `t` starts, for a string that contains `t`. */
  lemma {:induction false} ContainsWitness(s: string, t: string) returns (i: nat)
    requires Contains(s, t)
    ensures i <= |s| && t <= s[i..]
  {
    if t <= s {
      i := 0;
    } else {
      var j := ContainsWitness(s[1..], t);
      assert s[1..][j..] == s[j + 1..];
      i := j + 1;
    }
  }

  /** A string that contains a non-empty string contains that string's first character. */
  lemma {:induction false} ContainsFirstChar(s: string, t: string)
    requires t != [] && Contains(s, t)
    ensures t[0] in s
  {
    if t <= s {
      assert s[0] == t[0];
    } else {
      ContainsFirstChar(s[1..], t);
      assert t[0] in s[1..];
    }
  }

  /**
    Python's `sep.join(xs)` for a one-character separator: the items in order, with the
    separator between every two neighbours and nowhere else.
   */
  function Join(xs: seq<string>, sep: char): (r: string)
    ensures |xs| == 1 ==> r == xs[0]
    ensures |xs| == 0 ==> r == []
  {
    if |xs| == 0 then []
    else if |xs| == 1 then xs[0]
    else xs[0] + [sep] + Join(xs[1..], sep)
  }

  /**
    Python's `s.split(sep)` for a one-character separator: the pieces between separators, always at
    least one (the empty string gives `[""]`), none containing the separator.
   */
  function Split(s: string, sep: char): (r: seq<string>)
    ensures |r| >= 1
    ensures forall piece :: piece in r ==> sep !in piece
    ensures Join(r, sep) == s
  {
    if s == [] then [[]]
    else
      var rest := Split(s[1..], sep);
      if s[0] == sep then
        [[]] + rest
      else
        var first := [s[0]] + rest[0];
        assert forall piece :: piece in rest[1..] ==> piece in rest;
        assert s == first + s[1 + |rest[0]|..];
        [first] + rest[1..]
  }

  /** Splitting a string whose first part has no separator puts that part in front of the first piece. */
  lemma {:induction false} SplitPrefix(a: string, b: string, sep: char)
    requires sep !in a
    ensures Split(a + b, sep) == [a + Split(b, sep)[0]] + Split(b, sep)[1..]
  {
    if a == [] {
      assert a + b == b;
      var r := Split(b, sep);
      assert a + r[0] == r[0];
      assert r == [r[0]] + r[1..];
    } else {
      assert (a + b)[0] == a[0];
      assert (a + b)[1..] == a[1..] + b;
      SplitPrefix(a[1..], b, sep);
      assert [a[0]] + (a[1..] + Split(b, sep)[0]) == a + Split(b, sep)[0];
    }
  }

  /** `split` undoes `join` whenever there is at least one item and no item holds the separator. */
  lemma {:induction false} SplitJoin(xs: seq<string>, sep: char)
    requires |xs| >= 1
    requires forall x :: x in xs ==> sep !in x
    ensures Split(Join(xs, sep), sep) == xs
  {
    var x := xs[0];
    assert sep !in x by { assert x in xs; }
    if |xs| == 1 {
      SplitPrefix(x, [], sep);
      assert Split([], sep) == [[]];
      assert x + [] == x;
      assert Split(x, sep) == [x];
      assert xs == [x];
    } else {
      var rest := xs[1..];
      assert forall y :: y in rest ==> y in xs;
      SplitJoin(rest, sep);
      var tail := [sep] + Join(rest, sep);
      assert Join(xs, sep) == x + tail;
      SplitAfterSeparator(Join(rest, sep), sep);
      SplitPrefix(x, tail, sep);
      var pieces := Split(tail, sep);
      assert pieces[0] == [] && pieces[1..] == rest;
      assert x + pieces[0] == x;
      assert xs == [x] + rest;
    }
  }

  lemma SplitAfterSeparator(b: string, sep: char)
    ensures Split([sep] + b, sep) == [[]] + Split(b, sep)
  {
    assert ([sep] + b)[1..] == b;
  }

  /**
    Python's `s.split(sep)[0]` for a non-empty separator: everything before the first occurrence
    of `sep`, or all of `s` when `sep` does not occur.
   */
  function FieldBefore(s: string, sep: string): (r: string)
    requires sep != []
    ensures r <= s
    ensures forall i :: 0 <= i < |r| ==> !(sep <= s[i..])
    ensures |r| < |s| ==> sep <= s[|r|..]
    ensures |r| == |s| <==> !Contains(s, sep)
  {
    if sep <= s then []
    else if s == [] then []
    else
      var r := [s[0]] + FieldBefore(s[1..], sep);
      assert forall i :: 1 <= i <= |s| ==> s[i..] == s[1..][i - 1..];
      r
  }
}
