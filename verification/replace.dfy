/** `String.prototype.replace` for the regular expressions of the SELECT
    rewriter whose pattern is literal text matched case-insensitively:
    the first match (no `g` flag) or every match (with `g`). */
module Replace {
  import opened Wrappers
  import opened Text

  /** `i` is where a non-global search for `pat` stops: the leftmost match. */
  predicate FirstCiAt(s: string, i: nat, pat: string)
  {
    CiMatchAt(s, i, pat) && forall k: nat :: k < i ==> !CiMatchAt(s, k, pat)
  }

  /** `pat` matches nowhere in `s`. */
  predicate CiFree(s: string, pat: string)
  {
    forall k: nat :: k <= |s| ==> !CiMatchAt(s, k, pat)
  }

  /** The leftmost index at or after `from` where `pat` matches. */
  function FirstCiMatch(s: string, pat: string, from: nat): (r: Option<nat>)
    requires from <= |s|
    ensures r.Some? ==> from <= r.value && CiMatchAt(s, r.value, pat)
    ensures r.Some? ==> forall k: nat :: from <= k < r.value ==> !CiMatchAt(s, k, pat)
    ensures r.None? ==> forall k: nat :: from <= k ==> !CiMatchAt(s, k, pat)
    decreases |s| - from
  {
    if CiMatchAt(s, from, pat) then Some(from)
    else if from == |s| then None
    else FirstCiMatch(s, pat, from + 1)
  }

  /** The text a replacement string stands for under the `$` patterns of
      `String.prototype.replace` when the regular expression has no capture
      groups: `$$` is a dollar sign, `$&` the matched text, `` $` `` the text
      before the match and `$'` the text after it; any other `$` (including
      `$1` and `$<`) is taken literally. */
  function Expand(rep: string, before: string, matched: string, after: string): (r: string)
    ensures forall c :: c in r ==> c in rep || c in before || c in matched || c in after
    decreases |rep|
  {
    if |rep| == 0 then ""
    else if rep[0] == '$' && |rep| >= 2 && rep[1] == '$' then "$" + Expand(rep[2..], before, matched, after)
    else if rep[0] == '$' && |rep| >= 2 && rep[1] == '&' then matched + Expand(rep[2..], before, matched, after)
    else if rep[0] == '$' && |rep| >= 2 && rep[1] == '`' then before + Expand(rep[2..], before, matched, after)
    else if rep[0] == '$' && |rep| >= 2 && rep[1] == '\'' then after + Expand(rep[2..], before, matched, after)
    else [rep[0]] + Expand(rep[1..], before, matched, after)
  }

  /** A replacement string without `$` is inserted as it stands. */
  lemma {:induction false} ExpandLiteral(rep: string, before: string, matched: string, after: string)
    requires '$' !in rep
    ensures Expand(rep, before, matched, after) == rep
    decreases |rep|
  {
    if |rep| > 0 {
      ExpandLiteral(rep[1..], before, matched, after);
      assert [rep[0]] + rep[1..] == rep;
    }
  }

  /** The four `$` patterns and a `$` followed by anything else. */
  lemma ExpandPatterns(before: string, matched: string, after: string)
    ensures Expand("$$", before, matched, after) == "$"
    ensures Expand("$&", before, matched, after) == matched
    ensures Expand("$`", before, matched, after) == before
    ensures Expand("$'", before, matched, after) == after
    ensures Expand("$1", before, matched, after) == "$1"
  {
  }

  /** `s.replace(/pat/i, rep)`: the leftmost match, if any, is replaced by
      the expansion of `rep`; everything around it is kept. */
  function ReplaceFirstCi(s: string, pat: string, rep: string): (r: string)
    ensures CiFree(s, pat) ==> r == s
    ensures forall i: nat :: FirstCiAt(s, i, pat) ==>
      r == s[..i] + Expand(rep, s[..i], s[i..i + |pat|], s[i + |pat|..]) + s[i + |pat|..]
  {
    match FirstCiMatch(s, pat, 0)
    case None => s
    case Some(i) =>
      s[..i] + Expand(rep, s[..i], s[i..i + |pat|], s[i + |pat|..]) + s[i + |pat|..]
  }

  /** `s.replace(/pat/ig, rep)` for a replacement without `$`: matches are
      found left to right, each search resuming after the previous match. */
  function ReplaceAllCi(s: string, pat: string, rep: string): (r: string)
    requires |pat| > 0
    decreases |s|
  {
    if |s| == 0 then ""
    else if CiMatchAt(s, 0, pat) then rep + ReplaceAllCi(s[|pat|..], pat, rep)
    else [s[0]] + ReplaceAllCi(s[1..], pat, rep)
  }

  /** A global replacement changes the length of the text by the
      difference between replacement and pattern at each match: it never
      lengthens the text when the replacement is no longer than the
      pattern, never shortens it when it is no shorter, and leaves a text
      shorter than the pattern as it was. */
  lemma {:induction false} ReplaceAllLength(s: string, pat: string, rep: string)
    requires |pat| > 0
    ensures |s| < |pat| ==> ReplaceAllCi(s, pat, rep) == s
    ensures |rep| <= |pat| ==> |ReplaceAllCi(s, pat, rep)| <= |s|
    ensures |pat| <= |rep| ==> |s| <= |ReplaceAllCi(s, pat, rep)|
    decreases |s|
  {
    if |s| > 0 {
      ReplaceAllStep(s, pat, rep);
      ReplaceAllLength(s[StepLength(s, pat)..], pat, rep);
      assert [s[0]] + s[1..] == s;
    }
  }

  /** A global replacement leaves a text without any match as it was. */
  lemma {:induction false} ReplaceAllFree(s: string, pat: string, rep: string)
    requires |pat| > 0 && CiFree(s, pat)
    ensures ReplaceAllCi(s, pat, rep) == s
    decreases |s|
  {
    if |s| > 0 {
      assert !CiMatchAt(s, 0, pat);
      assert forall k: nat :: CiMatchAt(s[1..], k, pat) ==> CiMatchAt(s, k + 1, pat);
      ReplaceAllFree(s[1..], pat, rep);
      assert [s[0]] + s[1..] == s;
    }
  }

  /** No proper suffix of `pat` can begin a match: its first character
      (up to case) occurs nowhere else in it. Every pattern the rewriter
      replaces globally starts with its only space. */
  predicate HeadUnique(pat: string)
  {
    |pat| > 0 && forall j :: 1 <= j < |pat| ==> !CiEq(pat[j], pat[0])
  }

  /** Whether a pattern matches at the start of `x + y` depends on `x`
      alone once `x` is at least as long as the pattern. */
  lemma MatchInPrefix(x: string, y: string, pat: string)
    requires |pat| <= |x|
    ensures CiMatchAt(x + y, 0, pat) <==> CiMatchAt(x, 0, pat)
  {
    forall j | 0 <= j < |pat| ensures (x + y)[j] == x[j] {
    }
  }

  /** A match for a pattern with a unique head cannot start strictly
      before a character that could begin another match and run over it. */
  lemma NoMatchStraddles(a: string, t: string, pat: string)
    requires HeadUnique(pat)
    requires |t| > 0 && CiEq(t[0], pat[0])
    requires 0 < |a| < |pat|
    ensures !CiMatchAt(a + t, 0, pat)
  {
    assert (a + t)[0 + |a|] == t[0];
    assert !CiEq(pat[|a|], pat[0]);
  }

  /** One step of a global replacement at a match. */
  lemma ReplaceAllStepMatch(s: string, pat: string, rep: string)
    requires |pat| > 0 && CiMatchAt(s, 0, pat)
    ensures ReplaceAllCi(s, pat, rep) == rep + ReplaceAllCi(s[|pat|..], pat, rep)
  {
  }

  /** Dropping part of the left operand of a concatenation. */
  lemma DropFromConcat(a: string, t: string, n: nat)
    requires n <= |a|
    ensures (a + t)[n..] == a[n..] + t
  {
  }

  /** A global replacement replaces every occurrence of a pattern with a
      unique head: the text before an occurrence, the occurrence and the
      text after it are rewritten independently. */
  lemma ReplaceAllAround(a: string, m: string, b: string, pat: string, rep: string)
    requires HeadUnique(pat)
    requires |m| == |pat| && CiMatchAt(m, 0, pat)
    ensures ReplaceAllCi(a + m + b, pat, rep) == ReplaceAllCi(a, pat, rep) + rep + ReplaceAllCi(b, pat, rep)
  {
    var mb := m + b;
    assert a + m + b == a + mb;
    MatchInPrefix(m, b, pat);
    assert mb[0] == m[0 + 0];
    ReplaceAllSplits(a, mb, pat, rep);
    assert mb[|pat|..] == b;
    ReplaceAllStepMatch(mb, pat, rep);
  }

  /** How far one step of a global replacement advances at the start of `a`. */
  function StepLength(a: string, pat: string): nat
    requires |a| > 0
  {
    if CiMatchAt(a, 0, pat) then |pat| else 1
  }

  /** What one step of a global replacement emits at the start of `a`. */
  function StepOutput(a: string, pat: string, rep: string): string
    requires |a| > 0
  {
    if CiMatchAt(a, 0, pat) then rep else [a[0]]
  }

  /** One step of a global replacement, whichever way it goes. */
  lemma ReplaceAllStep(a: string, pat: string, rep: string)
    requires |pat| > 0 && |a| > 0
    ensures StepLength(a, pat) <= |a|
    ensures ReplaceAllCi(a, pat, rep) == StepOutput(a, pat, rep) + ReplaceAllCi(a[StepLength(a, pat)..], pat, rep)
  {
  }

  /** The first step on `a + t` is the first step on `a` when `t` starts
      with the first character of a pattern with a unique head. */
  lemma SplitsStep(a: string, t: string, pat: string, rep: string)
    requires HeadUnique(pat)
    requires |t| > 0 && CiEq(t[0], pat[0])
    requires |a| > 0
    ensures StepLength(a, pat) <= |a|
    ensures ReplaceAllCi(a + t, pat, rep) == StepOutput(a, pat, rep) + ReplaceAllCi(a[StepLength(a, pat)..] + t, pat, rep)
  {
    var s := a + t;
    if |a| < |pat| {
      NoMatchStraddles(a, t, pat);
    } else {
      MatchInPrefix(a, t, pat);
    }
    assert s[0] == a[0];
    ReplaceAllStep(s, pat, rep);
    DropFromConcat(a, t, StepLength(a, pat));
  }

  /** A global replacement of a pattern with a unique head rewrites the
      text before any character that could begin a match independently of
      the text from that character on. */
  lemma {:induction false} ReplaceAllSplits(a: string, t: string, pat: string, rep: string)
    requires HeadUnique(pat)
    requires |t| > 0 && CiEq(t[0], pat[0])
    ensures ReplaceAllCi(a + t, pat, rep) == ReplaceAllCi(a, pat, rep) + ReplaceAllCi(t, pat, rep)
    decreases |a|
  {
    if |a| == 0 {
      assert a + t == t;
    } else {
      var n := StepLength(a, pat);
      var head := StepOutput(a, pat, rep);
      ReplaceAllStep(a, pat, rep);
      SplitsStep(a, t, pat, rep);
      ReplaceAllSplits(a[n..], t, pat, rep);
      var x := ReplaceAllCi(a[n..], pat, rep);
      var y := ReplaceAllCi(t, pat, rep);
      assert head + (x + y) == (head + x) + y;
    }
  }

  /** One step over a first character that does not start a match. */
  lemma PassesOverHead(x: string, t: string, pat: string, rep: string)
    requires |pat| > 0 && |x| > 0
    requires !CiMatchAt(x + t, 0, pat)
    ensures ReplaceAllCi(x + t, pat, rep) == [x[0]] + ReplaceAllCi(x[1..] + t, pat, rep)
  {
    var s := x + t;
    ReplaceAllStep(s, pat, rep);
    assert s[0] == x[0];
    DropFromConcat(x, t, 1);
  }

  /** A piece of text that does not start a match and in which no later
      character could begin one is copied through. */
  lemma {:induction false} PassesOver(x: string, t: string, pat: string, rep: string)
    requires |pat| > 0 && |x| > 0
    requires !CiMatchAt(x + t, 0, pat)
    requires forall i :: 1 <= i < |x| ==> !CiEq(x[i], pat[0])
    ensures ReplaceAllCi(x + t, pat, rep) == x + ReplaceAllCi(t, pat, rep)
    decreases |x|
  {
    PassesOverHead(x, t, pat, rep);
    var y := x[1..];
    if |y| == 0 {
      assert y + t == t;
    } else {
      assert (y + t)[0] == x[1];
      assert !CiEq(x[1], pat[0]);
      PassesOver(y, t, pat, rep);
    }
    assert [x[0]] + y == x;
  }
}
