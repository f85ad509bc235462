/** The rewriting `select` applies to an Open SQL SELECT clause before
    handing it to SQLite (packages/database-sqlite/src/index.ts, lines
    133-141): five regular-expression replacements in a fixed order. */
module SelectClause {
  import opened Wrappers
  import opened Text
  import opened Replace

  const UpTo: string := " UP TO "
  const RowsWord: string := " ROWS"
  const Limit: string := " LIMIT "
  const OrderByPrimaryKey: string := " ORDER BY PRIMARY KEY"
  const OrderBy: string := " ORDER BY "
  const Ascending: string := " ASCENDING"
  const Asc: string := " ASC"
  const Descending: string := " DESCENDING"
  const Desc: string := " DESC"

  /** `\d` without the `u` flag. */
  predicate IsDigit(c: char)
  {
    '0' <= c <= '9'
  }

  /** The characters `.` refuses to match: JavaScript's line terminators. */
  predicate IsLineTerminator(c: char)
  {
    c == '\n' || c == '\r' || c == '\U{2028}' || c == '\U{2029}'
  }

  /** Every character of `s` in `[from, to)` is a decimal digit. */
  predicate AllDigits(s: string, from: nat, to: nat)
  {
    to <= |s| && forall k :: from <= k < to ==> IsDigit(s[k])
  }

  // ---------------------------------------------------------------------
  // Step 1: / UP TO (\d+) ROWS(.*)/i  ->  "$2 LIMIT $1"
  // ---------------------------------------------------------------------

  /** ` UP TO (\d+) ROWS` matches at index `i` with `d` digits in the group. */
  predicate LimitMatch(s: string, i: nat, d: nat)
  {
    && CiMatchAt(s, i, UpTo)
    && 1 <= d
    && AllDigits(s, i + |UpTo|, i + |UpTo| + d)
    && CiMatchAt(s, i + |UpTo| + d, RowsWord)
  }

  /** The row-limit expression matches at index `i` for some digit count. */
  predicate LimitAt(s: string, i: nat)
  {
    exists d: nat :: d <= |s| && LimitMatch(s, i, d)
  }

  /** `i` is the leftmost index where the row-limit expression matches. */
  predicate FirstLimitAt(s: string, i: nat)
  {
    LimitAt(s, i) && forall k: nat :: k < i ==> !LimitAt(s, k)
  }

  /** The length of the longest run of digits starting at `from`. */
  function DigitRun(s: string, from: nat): (n: nat)
    requires from <= |s|
    ensures AllDigits(s, from, from + n)
    ensures from + n == |s| || !IsDigit(s[from + n])
    decreases |s| - from
  {
    if from < |s| && IsDigit(s[from]) then 1 + DigitRun(s, from + 1) else 0
  }

  /** Backtracking never helps `\d+`: the digit group of a match is always
      the whole run of digits, since the text after it starts with a space. */
  lemma DigitsMaximal(s: string, i: nat, d: nat)
    requires LimitMatch(s, i, d)
    ensures d == DigitRun(s, i + |UpTo|)
  {
    var from := i + |UpTo|;
    var n := DigitRun(s, from);
    assert CiEq(s[from + d + 0], RowsWord[0]);
    assert !IsDigit(s[from + d]);
  }

  /** The digit count of the row-limit match at `i`, or 0 when there is none. */
  function LimitDigitsAt(s: string, i: nat): (d: nat)
    ensures d > 0 <==> LimitAt(s, i)
    ensures d > 0 ==> LimitMatch(s, i, d)
  {
    if !CiMatchAt(s, i, UpTo) then 0
    else
      var n := DigitRun(s, i + |UpTo|);
      if n > 0 && CiMatchAt(s, i + |UpTo| + n, RowsWord) then
        assert LimitMatch(s, i, n);
        n
      else
        assert !LimitAt(s, i) by {
          if LimitAt(s, i) {
            var d: nat :| d <= |s| && LimitMatch(s, i, d);
            DigitsMaximal(s, i, d);
          }
        }
        0
  }

  /** The leftmost index at or after `from` where the row-limit expression matches. */
  function FindLimit(s: string, from: nat): (r: Option<nat>)
    requires from <= |s|
    ensures r.Some? ==> from <= r.value && LimitAt(s, r.value)
    ensures r.Some? ==> forall k: nat :: from <= k < r.value ==> !LimitAt(s, k)
    ensures r.None? ==> forall k: nat :: from <= k ==> !LimitAt(s, k)
    decreases |s| - from
  {
    if LimitDigitsAt(s, from) > 0 then Some(from)
    else if from == |s| then NoLimitPastEnd(s); None
    else FindLimit(s, from + 1)
  }

  /** The row-limit expression cannot start after the end of the text. */
  lemma NoLimitPastEnd(s: string)
    ensures forall k: nat :: |s| < k ==> !LimitAt(s, k)
  {
  }

  /** Where `(.*)` stops when it starts at `from`: the first line terminator, or the end. */
  function LineEnd(s: string, from: nat): (e: nat)
    requires from <= |s|
    ensures from <= e <= |s|
    ensures forall k :: from <= k < e ==> !IsLineTerminator(s[k])
    ensures e == |s| || IsLineTerminator(s[e])
    decreases |s| - from
  {
    if from == |s| || IsLineTerminator(s[from]) then from else LineEnd(s, from + 1)
  }

  /** Step 1: `s.replace(/ UP TO (\d+) ROWS(.*)/i, "$2 LIMIT $1")`. */
  function RewriteLimit(s: string): (r: string)
    ensures (forall i: nat :: !LimitAt(s, i)) ==> r == s
  {
    match FindLimit(s, 0)
    case None => s
    case Some(i) => Hoist(s, i, LimitDigitsAt(s, i))
  }

  /** The replacement at a match found at `i` with `d` digits. */
  function Hoist(s: string, i: nat, d: nat): string
    requires LimitMatch(s, i, d)
  {
    var j := i + |UpTo| + d + |RowsWord|;
    var e := LineEnd(s, j);
    s[..i] + s[j..e] + Limit + s[i + |UpTo|..i + |UpTo| + d] + s[e..]
  }

  /** The leftmost ` UP TO <digits> ROWS` is removed, the rest of its line
      moves up into its place, ` LIMIT <digits>` follows, and the lines
      after it are kept. */
  lemma RewriteLimitFirst(s: string, i: nat, d: nat)
    requires FirstLimitAt(s, i) && LimitMatch(s, i, d)
    ensures var j := i + |UpTo| + d + |RowsWord|;
            var e := LineEnd(s, j);
            RewriteLimit(s) == s[..i] + s[j..e] + Limit + s[i + |UpTo|..i + |UpTo| + d] + s[e..]
  {
    RewriteLimitHoists(s, i, d);
  }

  /** At the leftmost match, step 1 is the replacement built at that match. */
  lemma RewriteLimitHoists(s: string, i: nat, d: nat)
    requires FirstLimitAt(s, i) && LimitMatch(s, i, d)
    ensures RewriteLimit(s) == Hoist(s, i, d)
  {
    FindLimitFirst(s, i);
    var n := LimitDigitsAt(s, i);
    assert n == d by {
      DigitsMaximal(s, i, d);
      DigitsMaximal(s, i, n);
    }
  }

  /** The search finds the leftmost match. */
  lemma FindLimitFirst(s: string, i: nat)
    requires FirstLimitAt(s, i)
    ensures FindLimit(s, 0) == Some(i)
  {
    var r := FindLimit(s, 0);
    assert r.Some?;
    assert r.value <= i;
    assert r.value >= i;
  }

  /** The row-limit expression matches where a clause was built to hold it. */
  lemma LimitMatchBuilt(a: string, digits: string, b: string)
    requires |digits| > 0 && forall k :: 0 <= k < |digits| ==> IsDigit(digits[k])
    ensures LimitMatch(a + UpTo + digits + RowsWord + b, |a|, |digits|)
  {
    var s := a + UpTo + digits + RowsWord + b;
    var i := |a|;
    var d := |digits|;
    assert forall k :: 0 <= k < |UpTo| ==> s[i + k] == UpTo[k];
    assert forall k :: 0 <= k < d ==> s[i + |UpTo| + k] == digits[k];
    assert forall k :: 0 <= k < |RowsWord| ==> s[i + |UpTo| + d + k] == RowsWord[k];
  }

  /** The usual shape: a clause with one row limit, on one line, becomes
      the clause without it, followed by ` LIMIT <digits>`. */
  lemma LimitMovesToEnd(a: string, digits: string, b: string)
    requires |digits| > 0 && forall k :: 0 <= k < |digits| ==> IsDigit(digits[k])
    requires forall k :: 0 <= k < |b| ==> !IsLineTerminator(b[k])
    requires forall k: nat :: k < |a| ==> !LimitAt(a + UpTo + digits + RowsWord + b, k)
    ensures RewriteLimit(a + UpTo + digits + RowsWord + b) == a + b + Limit + digits
  {
    var s := a + UpTo + digits + RowsWord + b;
    var i := |a|;
    var d := |digits|;
    var j := i + |UpTo| + d + |RowsWord|;
    LimitMatchBuilt(a, digits, b);
    assert FirstLimitAt(s, i);
    assert s[..i] == a;
    assert s[j..] == b;
    assert s[i + |UpTo|..i + |UpTo| + d] == digits;
    LineEndOfLastLine(s, j);
    RewriteLimitHoists(s, i, d);
    HoistAtLineEnd(s, i, d);
  }

  /** The replacement at a match whose line runs to the end of the clause. */
  lemma HoistAtLineEnd(s: string, i: nat, d: nat)
    requires LimitMatch(s, i, d)
    requires LineEnd(s, i + |UpTo| + d + |RowsWord|) == |s|
    ensures Hoist(s, i, d) == s[..i] + s[i + |UpTo| + d + |RowsWord|..] + Limit + s[i + |UpTo|..i + |UpTo| + d]
  {
    var j := i + |UpTo| + d + |RowsWord|;
    var e := LineEnd(s, j);
    assert s[j..e] == s[j..];
    assert s[e..] == [];
  }

  /** `(.*)` runs to the end of a clause whose tail has no line terminator. */
  lemma LineEndOfLastLine(s: string, j: nat)
    requires j <= |s|
    requires forall k :: j <= k < |s| ==> !IsLineTerminator(s[k])
    ensures LineEnd(s, j) == |s|
  {
  }

  // ---------------------------------------------------------------------
  // Step 2: / ORDER BY PRIMARY KEY/i  ->  " ORDER BY k1, k2, ..." or ""
  // ---------------------------------------------------------------------

  /** The replacement for ` ORDER BY PRIMARY KEY`. Any key list, even an
      empty one, is truthy in JavaScript and yields an ORDER BY clause. */
  function KeyOrder(primaryKey: Option<seq<string>>): string
  {
    match primaryKey
    case None => ""
    case Some(keys) => OrderBy + Join(keys, ", ")
  }

  /** No key contains a `$`, so the replacement is not subject to `$` expansion. */
  predicate DollarFree(keys: seq<string>)
  {
    forall k :: 0 <= k < |keys| ==> '$' !in keys[k]
  }

  /** Step 2: `s.replace(/ ORDER BY PRIMARY KEY/i, ...)`, with the
      primary key ordering when the caller supplied one and with nothing
      otherwise. A clause without the phrase is left alone. */
  function RewriteOrderBy(s: string, primaryKey: Option<seq<string>>): (r: string)
    ensures CiFree(s, OrderByPrimaryKey) ==> r == s
  {
    ReplaceFirstCi(s, OrderByPrimaryKey, KeyOrder(primaryKey))
  }

  /** With a primary key, the leftmost ` ORDER BY PRIMARY KEY` becomes
      ` ORDER BY ` followed by the key columns separated by `, `; nothing
      else changes. */
  lemma OrderByKeys(s: string, i: nat, keys: seq<string>)
    requires FirstCiAt(s, i, OrderByPrimaryKey)
    requires DollarFree(keys)
    ensures RewriteOrderBy(s, Some(keys))
         == s[..i] + OrderBy + Join(keys, ", ") + s[i + |OrderByPrimaryKey|..]
  {
    var n := |OrderByPrimaryKey|;
    var rep := KeyOrder(Some(keys));
    JoinAvoids(keys, ", ", '$');
    ExpandLiteral(rep, s[..i], s[i..i + n], s[i + n..]);
    assert s[..i] + rep + s[i + n..] == s[..i] + OrderBy + Join(keys, ", ") + s[i + n..];
  }

  /** Without a primary key, the leftmost ` ORDER BY PRIMARY KEY` is cut
      out and nothing else changes. */
  lemma OrderByDropped(s: string, i: nat)
    requires FirstCiAt(s, i, OrderByPrimaryKey)
    ensures RewriteOrderBy(s, None) == s[..i] + s[i + |OrderByPrimaryKey|..]
  {
    var n := |OrderByPrimaryKey|;
    ExpandLiteral("", s[..i], s[i..i + n], s[i + n..]);
  }

  // ---------------------------------------------------------------------
  // Steps 3 and 4: / ASCENDING/ig -> " ASC", / DESCENDING/ig -> " DESC"
  // ---------------------------------------------------------------------

  /** Steps 3 and 4, in the order the client applies them. */
  function RewriteDirections(s: string): (r: string)
    ensures |r| <= |s|
  {
    var s3 := ReplaceAllCi(s, Ascending, Asc);
    ReplaceAllLength(s, Ascending, Asc);
    ReplaceAllLength(s3, Descending, Desc);
    ReplaceAllCi(s3, Descending, Desc)
  }

  /** Both sort keywords start with their only space, so a global
      replacement rewrites every occurrence of them. */
  lemma DirectionWordsHeadUnique()
    ensures HeadUnique(Ascending) && HeadUnique(Descending)
  {
  }

  /** After its leading space, a sort keyword holds only letters, none of
      which could begin either keyword. */
  lemma KeywordTailSpaceless(m: string, word: string)
    requires word == Ascending || word == Descending
    requires |m| == |word| && CiMatchAt(m, 0, word)
    ensures forall i :: 1 <= i < |m| ==> !CiEq(m[i], ' ')
  {
    forall i | 1 <= i < |m| ensures !CiEq(m[i], ' ') {
      assert CiEq(m[0 + i], word[i]);
    }
  }

  /** A `DESCENDING` is not an `ASCENDING`, so step 3 passes over it. */
  lemma AscendingPassesDescending(m: string, b: string)
    requires |m| == |Descending| && CiMatchAt(m, 0, Descending)
    ensures ReplaceAllCi(m + b, Ascending, Asc) == m + ReplaceAllCi(b, Ascending, Asc)
  {
    assert Descending[1] == 'D' && Ascending[1] == 'A';
    assert (m + b)[0 + 1] == m[0 + 1];
    assert CiEq(m[0 + 1], Descending[1]);
    assert !CiEq((m + b)[0 + 1], Ascending[1]);
    KeywordTailSpaceless(m, Descending);
    PassesOver(m, b, Ascending, Asc);
  }

  /** The ` ASC` step 3 writes is not a `DESCENDING`, so step 4 passes over it. */
  lemma DescendingPassesAsc(y: string)
    ensures ReplaceAllCi(Asc + y, Descending, Desc) == Asc + ReplaceAllCi(y, Descending, Desc)
  {
    assert Descending[1] == 'D';
    assert (Asc + y)[0 + 1] == 'A';
    assert !CiEq((Asc + y)[0 + 1], Descending[1]);
    PassesOver(Asc, y, Descending, Desc);
  }

  /** Steps 3 and 4 turn every `DESCENDING`, in any case, into ` DESC`, and
      rewrite the text on either side of it independently. */
  lemma DescendingRewritten(a: string, m: string, b: string)
    requires |m| == |Descending| && CiMatchAt(m, 0, Descending)
    ensures RewriteDirections(a + m + b) == RewriteDirections(a) + Desc + RewriteDirections(b)
  {
    DirectionWordsHeadUnique();
    var mb := m + b;
    assert a + m + b == a + mb;
    assert mb[0] == m[0 + 0];
    assert CiEq(m[0 + 0], Descending[0]) && Descending[0] == Ascending[0];
    ReplaceAllSplits(a, mb, Ascending, Asc);
    AscendingPassesDescending(m, b);
    var a3 := ReplaceAllCi(a, Ascending, Asc);
    var b3 := ReplaceAllCi(b, Ascending, Asc);
    assert a3 + (m + b3) == a3 + m + b3;
    ReplaceAllAround(a3, m, b3, Descending, Desc);
  }

  /** Steps 3 and 4 turn every `ASCENDING`, in any case, into ` ASC`, and
      rewrite the text on either side of it independently. */
  lemma AscendingRewritten(a: string, m: string, b: string)
    requires |m| == |Ascending| && CiMatchAt(m, 0, Ascending)
    ensures RewriteDirections(a + m + b) == RewriteDirections(a) + Asc + RewriteDirections(b)
  {
    DirectionWordsHeadUnique();
    ReplaceAllAround(a, m, b, Ascending, Asc);
    var a3 := ReplaceAllCi(a, Ascending, Asc);
    var b3 := ReplaceAllCi(b, Ascending, Asc);
    var t := Asc + b3;
    assert a3 + Asc + b3 == a3 + t;
    assert t[0] == ' ';
    ReplaceAllSplits(a3, t, Descending, Desc);
    DescendingPassesAsc(b3);
  }

  // ---------------------------------------------------------------------
  // Step 5: /~/g -> "."
  // ---------------------------------------------------------------------

  /** Step 5. Every component selector `~` becomes the qualified-name
      separator `.`; every other character stays where it was. */
  function TildeToDot(s: string): (r: string)
    ensures |r| == |s|
    ensures forall k :: 0 <= k < |s| ==> r[k] == (if s[k] == '~' then '.' else s[k])
    ensures '~' !in r
  {
    if |s| == 0 then ""
    else [if s[0] == '~' then '.' else s[0]] + TildeToDot(s[1..])
  }

  // ---------------------------------------------------------------------
  // The whole rewrite
  // ---------------------------------------------------------------------

  /** The SQL `select` sends to SQLite for an Open SQL clause. */
  function Translate(clause: string, primaryKey: Option<seq<string>>): (sql: string)
    ensures '~' !in sql
  {
    TildeToDot(RewriteDirections(RewriteOrderBy(RewriteLimit(clause), primaryKey)))
  }

  /** A clause that uses none of the Open SQL-only forms reaches SQLite unchanged. */
  lemma TranslatePlain(clause: string, primaryKey: Option<seq<string>>)
    requires forall i: nat :: !LimitAt(clause, i)
    requires CiFree(clause, OrderByPrimaryKey)
    requires CiFree(clause, Ascending) && CiFree(clause, Descending)
    requires '~' !in clause
    ensures Translate(clause, primaryKey) == clause
  {
    ReplaceAllFree(clause, Ascending, Asc);
    ReplaceAllFree(clause, Descending, Desc);
    var t := TildeToDot(clause);
    assert forall k :: 0 <= k < |clause| ==> t[k] == clause[k];
  }
}
