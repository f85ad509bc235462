/** The SQL text `delete`, `update` and `insert` build by string
    concatenation (packages/database-sqlite/src/index.ts, lines 58, 83 and
    108), and readers that recover a request from that text. The callers'
    where-clauses, assignments and values are already SQL text and are
    pasted in unchanged. */
module Templates {
  import opened Wrappers
  import opened Text

  datatype DeleteRequest = DeleteRequest(table: string, where: string)
  datatype UpdateRequest = UpdateRequest(table: string, assignments: seq<string>, where: string)
  datatype InsertRequest = InsertRequest(table: string, columns: seq<string>, values: seq<string>)

  const DeletePrefix: string := "DELETE FROM "
  const UpdatePrefix: string := "UPDATE "
  const InsertPrefix: string := "INSERT INTO "
  const Where: string := " WHERE "
  const SetWord: string := " SET "
  const ColumnsOpen: string := " ("
  const ValuesWord: string := ") VALUES ("

  /** `DELETE FROM <table> WHERE <where>`. */
  function DeleteSql(r: DeleteRequest): (sql: string)
    ensures StartsWith(sql, DeletePrefix + r.table + Where)
    ensures EndsWith(sql, Where + r.where)
    ensures |sql| == |DeletePrefix| + |r.table| + |Where| + |r.where|
  {
    DeletePrefix + r.table + Where + r.where
  }

  /** `UPDATE <table> SET <a1>, <a2>, ... WHERE <where>`. */
  function UpdateSql(r: UpdateRequest): (sql: string)
    ensures StartsWith(sql, UpdatePrefix + r.table + SetWord)
    ensures EndsWith(sql, Where + r.where)
    ensures |r.assignments| == 0 ==> sql == UpdatePrefix + r.table + SetWord + Where + r.where
  {
    UpdatePrefix + r.table + SetWord + Join(r.assignments, ", ") + Where + r.where
  }

  /** A column name between single quotes. */
  function Quote(column: string): string
  {
    "'" + column + "'"
  }

  /** `columns.map(c => "'" + c + "'")`. */
  function QuoteAll(columns: seq<string>): (quoted: seq<string>)
    ensures |quoted| == |columns|
    ensures forall k :: 0 <= k < |columns| ==> quoted[k] == Quote(columns[k])
  {
    if |columns| == 0 then [] else [Quote(columns[0])] + QuoteAll(columns[1..])
  }

  /** `INSERT INTO <table> ('<c1>','<c2>',...) VALUES (<v1>,<v2>,...)`. */
  function InsertSql(r: InsertRequest): (sql: string)
    ensures StartsWith(sql, InsertPrefix + r.table + ColumnsOpen)
    ensures EndsWith(sql, ValuesWord + Join(r.values, ",") + ")")
    ensures |r.columns| == 0 && |r.values| == 0 ==> sql == InsertPrefix + r.table + " () VALUES ()"
  {
    InsertPrefix + r.table + ColumnsOpen + Join(QuoteAll(r.columns), ",") + ValuesWord + Join(r.values, ",") + ")"
  }

  // ---------------------------------------------------------------------
  // Reading the statements back
  // ---------------------------------------------------------------------

  /** The text after a fixed prefix, if `s` starts with it. */
  function After(s: string, prefix: string): Option<string>
  {
    if StartsWith(s, prefix) then Some(s[|prefix|..]) else None
  }

  /** `s` cut at the first occurrence of `sep` into the text before and after it. */
  function CutAt(s: string, sep: string): Option<(string, string)>
    requires |sep| > 0
  {
    var parts := SplitOn(s, sep);
    if |parts| < 2 then None else Some((parts[0], Join(parts[1..], sep)))
  }

  /** Cutting at a separator that no earlier text starts finds exactly that separator. */
  lemma CutAtFirst(x: string, sep: string, rest: string)
    requires |sep| > 0
    requires NoStartBefore(x + sep + rest, sep, |x|)
    ensures CutAt(x + sep + rest, sep) == Some((x, rest))
  {
    SplitOnHead(x, rest, sep);
    var parts := SplitOn(x + sep + rest, sep);
    assert parts[1..] == SplitOn(rest, sep);
    JoinSplitOn(rest, sep);
  }

  lemma AfterPrefix(prefix: string, rest: string)
    ensures After(prefix + rest, prefix) == Some(rest)
  {
    assert (prefix + rest)[..|prefix|] == prefix;
    assert (prefix + rest)[|prefix|..] == rest;
  }

  /** Reads a DELETE statement back into its table and where-clause. */
  function ParseDelete(sql: string): Option<DeleteRequest>
  {
    match After(sql, DeletePrefix)
    case None => None
    case Some(rest) =>
      match CutAt(rest, Where)
      case None => None
      case Some((table, where)) => Some(DeleteRequest(table, where))
  }

  /** A DELETE statement names its table and where-clause unambiguously
      as long as the table name has no space in it. */
  lemma DeleteRoundTrip(r: DeleteRequest)
    requires ' ' !in r.table
    ensures ParseDelete(DeleteSql(r)) == Some(r)
  {
    var rest := r.table + Where + r.where;
    assert DeleteSql(r) == DeletePrefix + rest;
    AfterPrefix(DeletePrefix, rest);
    NoStartWithoutHead(r.table, Where + r.where, Where);
    assert r.table + (Where + r.where) == rest;
    CutAtFirst(r.table, Where, r.where);
  }

  /** Reads an UPDATE statement back into its table, assignments and where-clause. */
  function ParseUpdate(sql: string): Option<UpdateRequest>
  {
    match After(sql, UpdatePrefix)
    case None => None
    case Some(rest) =>
      match CutAt(rest, SetWord)
      case None => None
      case Some((table, tail)) =>
        match CutAt(tail, Where)
        case None => None
        case Some((text, where)) => Some(UpdateRequest(table, SplitOn(text, ", "), where))
  }

  /** No part contains `pat` and `pat` shares no character with `sep`:
      then `pat` does not occur in the join either. */
  lemma {:induction false} JoinKeepsOut(parts: seq<string>, sep: string, pat: string)
    requires |sep| > 0 && |pat| > 0
    requires forall k :: 0 <= k < |parts| ==> !Contains(parts[k], pat)
    requires forall k :: 0 <= k < |sep| ==> sep[k] !in pat
    ensures !Contains(Join(parts, sep), pat)
  {
    if |parts| > 1 {
      var p0 := parts[0];
      var tail := Join(parts[1..], sep);
      var s := Join(parts, sep);
      assert s == p0 + sep + tail;
      JoinKeepsOut(parts[1..], sep, pat);
      forall k | 0 <= k <= |s| ensures !OccursAt(s, k, pat) {
        if k + |pat| > |s| {
        } else if k + |pat| <= |p0| {
          assert s[k..k + |pat|] == p0[k..k + |pat|];
          assert !OccursAt(p0, k, pat);
        } else if k < |p0| + |sep| {
          var q := if k < |p0| then |p0| else k;
          assert s[q] == sep[q - |p0|];
          assert s[q] !in pat;
          assert s[k..k + |pat|][q - k] == s[q];
        } else {
          var k' := k - |p0| - |sep|;
          assert s[k..k + |pat|] == tail[k'..k' + |pat|];
          assert !OccursAt(tail, k', pat);
        }
      }
    }
  }

  /** The first ` WHERE ` after assignments that never mention `WHERE` is
      the one the template put there. */
  lemma WhereAfterAssignments(text: string, where: string)
    requires !Contains(text, "WHERE")
    ensures NoStartBefore(text + Where + where, Where, |text|)
  {
    var s := text + Where + where;
    forall k | 0 <= k < |text|
      ensures !StartsWith(s[k..], Where)
    {
      if k + 6 <= |text| {
        assert s[k..][1..6] == text[k + 1..k + 6];
        assert !OccursAt(text, k + 1, "WHERE");
        assert Where[1..6] == "WHERE";
      } else {
        var p := |text| - k;
        assert s[k..][p] == ' ';
        assert Where[p] != ' ';
      }
    }
  }

  /** An UPDATE statement can be read back when the table name has no
      space, there is at least one assignment, no assignment contains a
      comma, and no assignment contains the word `WHERE` (in upper case). */
  lemma UpdateRoundTrip(r: UpdateRequest)
    requires ' ' !in r.table
    requires |r.assignments| > 0
    requires forall k :: 0 <= k < |r.assignments| ==> ',' !in r.assignments[k] && !Contains(r.assignments[k], "WHERE")
    ensures ParseUpdate(UpdateSql(r)) == Some(r)
  {
    var text := Join(r.assignments, ", ");
    var tail := text + Where + r.where;
    var rest := r.table + SetWord + tail;
    assert UpdateSql(r) == UpdatePrefix + rest;
    AfterPrefix(UpdatePrefix, rest);
    NoStartWithoutHead(r.table, SetWord + tail, SetWord);
    assert r.table + (SetWord + tail) == rest;
    CutAtFirst(r.table, SetWord, tail);
    JoinKeepsOut(r.assignments, ", ", "WHERE");
    WhereAfterAssignments(text, r.where);
    CutAtFirst(text, Where, r.where);
    SplitOnJoin(r.assignments, ", ");
  }

  /** Assignments are raw SQL text, so an UPDATE statement alone does not
      always determine the request that produced it. */
  lemma UpdateTextAmbiguous()
    ensures UpdateRequest("ZT", ["A = 1 WHERE B = 2"], "C = 3") != UpdateRequest("ZT", ["A = 1"], "B = 2 WHERE C = 3")
    ensures UpdateSql(UpdateRequest("ZT", ["A = 1 WHERE B = 2"], "C = 3"))
         == UpdateSql(UpdateRequest("ZT", ["A = 1"], "B = 2 WHERE C = 3"))
  {
  }

  /** A quoted column name without its quotes. */
  function Unquote(q: string): string
  {
    if |q| >= 2 then q[1..|q| - 1] else q
  }

  function UnquoteAll(qs: seq<string>): (columns: seq<string>)
    ensures |columns| == |qs|
    ensures forall k :: 0 <= k < |qs| ==> columns[k] == Unquote(qs[k])
  {
    if |qs| == 0 then [] else [Unquote(qs[0])] + UnquoteAll(qs[1..])
  }

  /** Reads an INSERT statement back into its table, columns and values. */
  function ParseInsert(sql: string): Option<InsertRequest>
  {
    match After(sql, InsertPrefix)
    case None => None
    case Some(rest) =>
      match CutAt(rest, ColumnsOpen)
      case None => None
      case Some((table, tail)) =>
        match CutAt(tail, ValuesWord)
        case None => None
        case Some((columns, values)) =>
          if |values| == 0 || values[|values| - 1] != ')' then None
          else Some(InsertRequest(table, UnquoteAll(SplitOn(columns, ",")), SplitOn(values[..|values| - 1], ",")))
  }

  /** An INSERT statement can be read back when the table name has no
      space, there is at least one column and one value, no column
      contains a comma or a closing parenthesis, and no value contains a
      comma (a string literal with a comma breaks this). */
  lemma InsertRoundTrip(r: InsertRequest)
    requires ' ' !in r.table
    requires |r.columns| > 0 && |r.values| > 0
    requires forall k :: 0 <= k < |r.columns| ==> ',' !in r.columns[k] && ')' !in r.columns[k]
    requires forall k :: 0 <= k < |r.values| ==> ',' !in r.values[k]
    ensures ParseInsert(InsertSql(r)) == Some(r)
  {
    var colText := Join(QuoteAll(r.columns), ",");
    var valText := Join(r.values, ",");
    var tail := colText + ValuesWord + (valText + ")");
    var rest := r.table + ColumnsOpen + tail;
    assert InsertSql(r) == InsertPrefix + rest;
    AfterPrefix(InsertPrefix, rest);
    InsertHead(r.table, tail);
    InsertTailBack(r.columns, r.values);
  }

  /** What follows the table name reads back to the columns and the values. */
  lemma InsertTailBack(columns: seq<string>, values: seq<string>)
    requires |columns| > 0 && |values| > 0
    requires forall k :: 0 <= k < |columns| ==> ',' !in columns[k] && ')' !in columns[k]
    requires forall k :: 0 <= k < |values| ==> ',' !in values[k]
    ensures var colText := Join(QuoteAll(columns), ",");
            var v := Join(values, ",") + ")";
            && CutAt(colText + ValuesWord + v, ValuesWord) == Some((colText, v))
            && |v| > 0 && v[|v| - 1] == ')'
            && UnquoteAll(SplitOn(colText, ",")) == columns
            && SplitOn(v[..|v| - 1], ",") == values
  {
    QuoteAllAvoids(columns, ')');
    JoinAvoids(QuoteAll(columns), ",", ')');
    InsertListsCut(Join(QuoteAll(columns), ","), Join(values, ","));
    ColumnsBack(columns);
    ValuesBack(values);
  }

  /** The table name ends at the first ` (`. */
  lemma InsertHead(table: string, tail: string)
    requires ' ' !in table
    ensures CutAt(table + ColumnsOpen + tail, ColumnsOpen) == Some((table, tail))
  {
    NoStartWithoutHead(table, ColumnsOpen + tail, ColumnsOpen);
    assert table + (ColumnsOpen + tail) == table + ColumnsOpen + tail;
    CutAtFirst(table, ColumnsOpen, tail);
  }

  /** The value list and its closing parenthesis read back to the values. */
  lemma ValuesBack(values: seq<string>)
    requires |values| > 0
    requires forall k :: 0 <= k < |values| ==> ',' !in values[k]
    ensures var v := Join(values, ",") + ")";
            |v| > 0 && v[|v| - 1] == ')' && SplitOn(v[..|v| - 1], ",") == values
  {
    var valText := Join(values, ",");
    assert (valText + ")")[..|valText + ")"| - 1] == valText;
    SplitOnJoin(values, ",");
  }

  /** The column list ends at the first `) VALUES (`. */
  lemma InsertListsCut(colText: string, valText: string)
    requires ')' !in colText
    ensures CutAt(colText + ValuesWord + (valText + ")"), ValuesWord) == Some((colText, valText + ")"))
  {
    NoStartWithoutHead(colText, ValuesWord + (valText + ")"), ValuesWord);
    assert colText + (ValuesWord + (valText + ")")) == colText + ValuesWord + (valText + ")");
    CutAtFirst(colText, ValuesWord, valText + ")");
  }

  /** Quoting adds no character other than `'`. */
  lemma QuoteAllAvoids(columns: seq<string>, c: char)
    requires c != '\''
    requires forall k :: 0 <= k < |columns| ==> c !in columns[k]
    ensures forall k :: 0 <= k < |columns| ==> c !in QuoteAll(columns)[k]
  {
    forall k | 0 <= k < |columns| ensures c !in QuoteAll(columns)[k] {
      assert QuoteAll(columns)[k] == "'" + columns[k] + "'";
    }
  }

  /** Quoted column names joined with commas split and unquote back to the names. */
  lemma ColumnsBack(columns: seq<string>)
    requires |columns| > 0
    requires forall k :: 0 <= k < |columns| ==> ',' !in columns[k]
    ensures UnquoteAll(SplitOn(Join(QuoteAll(columns), ","), ",")) == columns
  {
    var quoted := QuoteAll(columns);
    QuoteAllAvoids(columns, ',');
    SplitOnJoin(quoted, ",");
    assert UnquoteAll(quoted) == columns;
  }
}
