/** Character and string helpers: ASCII case folding as a non-Unicode
    JavaScript regular expression with the `i` flag performs it, prefix
    tests, and `Array.prototype.join` with its inverse, splitting. */
module Text {

  /** Lower-cases an ASCII letter and leaves every other character alone.
      A JavaScript regular expression without the `u` flag never folds a
      non-ASCII character onto an ASCII one, so for the all-ASCII patterns
      of this model ASCII folding is exactly what the `i` flag does. */
  function Lower(c: char): char
  {
    if 'A' <= c <= 'Z' then ((c as int) + 32) as char else c
  }

  /** Two characters are equal up to ASCII case. */
  predicate CiEq(c: char, d: char)
  {
    Lower(c) == Lower(d)
  }

  /** `p` is a (case-sensitive) prefix of `s`. */
  predicate StartsWith(s: string, p: string)
  {
    |p| <= |s| && s[..|p|] == p
  }

  /** `p` is a (case-sensitive) suffix of `s`. */
  predicate EndsWith(s: string, p: string)
  {
    |p| <= |s| && s[|s| - |p|..] == p
  }

  /** `pat` occurs in `s` at index `i`, letters compared without regard to case. */
  predicate CiMatchAt(s: string, i: nat, pat: string)
  {
    i + |pat| <= |s| && forall j :: 0 <= j < |pat| ==> CiEq(s[i + j], pat[j])
  }

  /** `pat` occurs (case-sensitively) somewhere in `s`. */
  predicate Contains(s: string, pat: string)
  {
    exists k :: 0 <= k <= |s| && OccursAt(s, k, pat)
  }

  /** `pat` occurs (case-sensitively) in `s` at index `k`. */
  predicate OccursAt(s: string, k: int, pat: string)
  {
    0 <= k && k + |pat| <= |s| && s[k..k + |pat|] == pat
  }

  /** No case-sensitive occurrence of `sep` starts before index `n` of `s`. */
  predicate NoStartBefore(s: string, sep: string, n: nat)
    requires n <= |s|
  {
    forall k :: 0 <= k < n ==> !StartsWith(s[k..], sep)
  }

  /** `parts.join(sep)`. */
  function Join(parts: seq<string>, sep: string): string
  {
    if |parts| == 0 then ""
    else if |parts| == 1 then parts[0]
    else parts[0] + sep + Join(parts[1..], sep)
  }

  /** `s.split(sep)` for a non-empty separator: the pieces between the
      occurrences of `sep` found scanning left to right. */
  function SplitOn(s: string, sep: string): (parts: seq<string>)
    requires |sep| > 0
    ensures |parts| > 0
    decreases |s|
  {
    if |s| == 0 then [""]
    else if StartsWith(s, sep) then [""] + SplitOn(s[|sep|..], sep)
    else
      var rest := SplitOn(s[1..], sep);
      [[s[0]] + rest[0]] + rest[1..]
  }

  /** Joining the pieces of a split restores the text, whatever it is. */
  lemma {:induction false} JoinSplitOn(s: string, sep: string)
    requires |sep| > 0
    ensures Join(SplitOn(s, sep), sep) == s
    decreases |s|
  {
    if |s| == 0 {
    } else if StartsWith(s, sep) {
      var rest := SplitOn(s[|sep|..], sep);
      JoinSplitOn(s[|sep|..], sep);
      JoinAfterEmpty(rest, sep);
      assert s == sep + s[|sep|..];
    } else {
      var rest := SplitOn(s[1..], sep);
      JoinSplitOn(s[1..], sep);
      JoinExtendsHead([s[0]], rest, sep);
      assert s == [s[0]] + s[1..];
    }
  }

  /** Joining after an empty first piece starts with the separator. */
  lemma JoinAfterEmpty(parts: seq<string>, sep: string)
    requires |parts| > 0
    ensures Join([""] + parts, sep) == sep + Join(parts, sep)
  {
    assert ([""] + parts)[1..] == parts;
  }

  /** Extending the first piece extends the join at its start. */
  lemma JoinExtendsHead(c: string, parts: seq<string>, sep: string)
    requires |parts| > 0
    ensures Join([c + parts[0]] + parts[1..], sep) == c + Join(parts, sep)
  {
    var q := [c + parts[0]] + parts[1..];
    if |parts| > 1 {
      assert q[1..] == parts[1..];
    }
  }

  /** Splitting text whose first `|x|` characters start no separator keeps
      those characters together at the head of the first piece. */
  lemma {:induction false} SplitOnPrefix(x: string, tail: string, sep: string)
    requires |sep| > 0
    requires NoStartBefore(x + tail, sep, |x|)
    ensures SplitOn(x + tail, sep) == [x + SplitOn(tail, sep)[0]] + SplitOn(tail, sep)[1..]
    decreases |x|
  {
    if |x| > 0 {
      var s := x + tail;
      assert !StartsWith(s[0..], sep);
      assert s[0..] == s;
      assert s[1..] == x[1..] + tail;
      forall k | 0 <= k < |x[1..]|
        ensures !StartsWith((x[1..] + tail)[k..], sep)
      {
        assert (x[1..] + tail)[k..] == s[k + 1..];
      }
      SplitOnPrefix(x[1..], tail, sep);
      var t := SplitOn(tail, sep);
      var r := SplitOn(s[1..], sep);
      assert r == [x[1..] + t[0]] + t[1..];
      assert SplitOn(s, sep) == [[s[0]] + r[0]] + r[1..];
      assert [s[0]] + r[0] == x + t[0];
    } else {
      var t := SplitOn(tail, sep);
      assert x + tail == tail;
      assert x + t[0] == t[0];
      assert [t[0]] + t[1..] == t;
    }
  }

  /** A piece that starts no separator, followed by the separator, is
      split off as one piece. */
  lemma SplitOnHead(x: string, rest: string, sep: string)
    requires |sep| > 0
    requires NoStartBefore(x + sep + rest, sep, |x|)
    ensures SplitOn(x + sep + rest, sep) == [x] + SplitOn(rest, sep)
  {
    var tail := sep + rest;
    assert x + sep + rest == x + tail;
    SplitOnPrefix(x, tail, sep);
    assert tail[..|sep|] == sep;
    assert tail[|sep|..] == rest;
    var t := SplitOn(tail, sep);
    assert t == [""] + SplitOn(rest, sep);
    assert x + t[0] == x;
    assert t[1..] == SplitOn(rest, sep);
  }

  /** Text in which the separator's first character never appears starts
      no separator anywhere before its end. */
  lemma NoStartWithoutHead(x: string, tail: string, sep: string)
    requires |sep| > 0 && sep[0] !in x
    ensures NoStartBefore(x + tail, sep, |x|)
  {
    forall k | 0 <= k < |x|
      ensures !StartsWith((x + tail)[k..], sep)
    {
      assert (x + tail)[k..][0] == x[k];
    }
  }

  /** A character absent from every part and from the separator is absent
      from their join. */
  lemma {:induction false} JoinAvoids(parts: seq<string>, sep: string, c: char)
    requires forall i :: 0 <= i < |parts| ==> c !in parts[i]
    requires c !in sep
    ensures c !in Join(parts, sep)
  {
    if |parts| > 1 {
      JoinAvoids(parts[1..], sep, c);
    }
  }

  /** `split` undoes `join` when no part contains the separator's first
      character (and there is at least one part: `[].join(sep)` is the
      empty text, which splits into one empty piece). */
  lemma {:induction false} SplitOnJoin(parts: seq<string>, sep: string)
    requires |sep| > 0 && |parts| > 0
    requires forall i :: 0 <= i < |parts| ==> sep[0] !in parts[i]
    ensures SplitOn(Join(parts, sep), sep) == parts
  {
    if |parts| == 1 {
      NoStartWithoutHead(parts[0], "", sep);
      assert parts[0] + "" == parts[0];
      SplitOnPrefix(parts[0], "", sep);
    } else {
      var rest := Join(parts[1..], sep);
      NoStartWithoutHead(parts[0], sep + rest, sep);
      assert parts[0] + (sep + rest) == parts[0] + sep + rest;
      SplitOnHead(parts[0], rest, sep);
      SplitOnJoin(parts[1..], sep);
      assert [parts[0]] + parts[1..] == parts;
    }
  }
}
