# SQLite Open SQL client — a Dafny model

This project models the SQLite database client of the ABAP-to-JavaScript
runtime (`packages/database-sqlite/src/index.ts`). The client receives Open
SQL requests from transpiled ABAP programs. It turns them into SQLite SQL,
hands them to SQLite, and reports back with ABAP conventions: `sy-subrc` and
`sy-dbcnt` for changes, rows or a typed condition for queries, and a cursor
that pages through a query result.

The model has one module per concern:

- `Text` (`text.dfy`): ASCII case folding, prefixes, `join` and `split`.
- `Replace` (`replace.dfy`): `String.prototype.replace` for a literal,
  case-insensitive pattern. It covers the first match or every match, and
  the `$` patterns of the replacement string.
- `SelectClause` (`select_clause.dfy`): the five rewrites `select` applies
  to an Open SQL clause: row limit, primary-key ordering, `ASCENDING`,
  `DESCENDING` and `~`.
- `Templates` (`templates.dfy`): the DELETE, UPDATE and INSERT text, and
  readers that recover a request from that text.
- `Mutations` (`mutations.dfy`): `delete`, `update` and `insert`, and the
  `(subrc, dbcnt)` status each derives.
- `Query` (`query.dfy`): `select` with its error policy, and `openCursor`
  with `fetchNextCursor` and `closeCursor`.
- `Batch` (`batch.dfy`): `execute` over one SQL text or a list of texts.

SQLite itself is not modelled. Each operation takes the database as a
function parameter called `engine`. The engine says what SQLite answers to
a statement: a change count or an error for a mutation, rows or an error
for a query. For `execute`, the engine is also given the log of texts
already run. With the connection closed, the `this.sqlite!` dereference
throws, and the client then behaves like an engine that fails every
statement. In `delete`, `update`, `insert` and `select` the dereference
sits inside the `try` that also catches SQLite's own errors, so the failure
is handled there like any other. `execute` (lines 28-39) has no `try`, so
its error, whether SQLite's or the dereference's, escapes directly.

Regular-expression details follow JavaScript without the `u` flag:

- The `i` flag folds only ASCII letters here. JavaScript never folds a
  non-ASCII character onto an ASCII one, and every pattern is ASCII.
- `\d` is `[0-9]`.
- `(.*)` stops at the first line terminator: `\n`, `\r`, U+2028 or U+2029.
  The row-limit rewrite therefore hoists only the rest of its own line.
  The model handles clauses of any number of lines and does not require a
  single-line clause.
- The primary-key replacement string goes through JavaScript's `$`
  substitution. `$$`, `$&`, `` $` `` and `$'` are special there. The key
  lemma assumes no key contains `$`, which ABAP column names never do.
- `if (options.primaryKey)` treats an empty key list as present, since `[]`
  is truthy. An empty list therefore leaves a bare ` ORDER BY `.
  `OrderByKeys` covers this case, because `Join([], ", ")` is empty.

Two consequences of the code are easy to miss, and the model keeps both:

- A translated clause can still contain ` UP TO `. Only the leftmost row
  limit is rewritten, and hoisting the rest of its line can place text next
  to the clause's beginning that forms a new ` UP TO `.
- A missing key list removes ` ORDER BY PRIMARY KEY` altogether. An empty
  key list is truthy, so it takes the other branch and leaves a bare
  ` ORDER BY `.

## Model

| member | source | states |
|---|---|---|
| SelectClause.RewriteLimit | packages/database-sqlite/src/index.ts:133 | a clause in which ` UP TO <digits> ROWS` matches nowhere, in any letter case, is left unchanged |
| SelectClause.RewriteLimitFirst | packages/database-sqlite/src/index.ts:133 | at the leftmost match, the result is the text before it, then the rest of its line, then ` LIMIT ` and the digits, then the following lines |
| SelectClause.DigitsMaximal | packages/database-sqlite/src/index.ts:133 | the digits captured by `(\d+)` are always the whole run of digits after ` UP TO `, so backtracking never picks a shorter number |
| SelectClause.LimitMovesToEnd | packages/database-sqlite/src/index.ts:133 | a one-line clause `a UP TO n ROWS b` with no earlier row limit becomes `a b LIMIT n` |
| SelectClause.RewriteOrderBy | packages/database-sqlite/src/index.ts:134-138 | a clause without ` ORDER BY PRIMARY KEY`, in any letter case, is left unchanged, with or without a primary key |
| SelectClause.OrderByKeys | packages/database-sqlite/src/index.ts:134-135 | with a primary key, the leftmost ` ORDER BY PRIMARY KEY` becomes ` ORDER BY ` followed by the keys joined with `, `, and no other text changes |
| SelectClause.OrderByDropped | packages/database-sqlite/src/index.ts:136-137 | without a primary key, the leftmost ` ORDER BY PRIMARY KEY` is cut out, and no other text changes |
| Replace.ReplaceFirstCi | packages/database-sqlite/src/index.ts:135-137 | a non-global replace changes nothing when there is no match, and otherwise replaces exactly the leftmost match by the `$`-expanded replacement |
| Replace.ExpandLiteral | packages/database-sqlite/src/index.ts:135 | a replacement string without `$` is inserted exactly as written |
| Replace.ReplaceAllFree | packages/database-sqlite/src/index.ts:139-140 | a global replace leaves a text without any match unchanged |
| Replace.ReplaceAllLength | packages/database-sqlite/src/index.ts:139-140 | a global replace never lengthens the text when the replacement is no longer than the pattern, never shortens it when the replacement is no shorter, and leaves a text shorter than the pattern unchanged |
| Replace.Expand | packages/database-sqlite/src/index.ts:135 | every character of the expanded replacement comes from the replacement string, the text before the match, the match itself or the text after it |
| Replace.ExpandPatterns | packages/database-sqlite/src/index.ts:135 | `$$` gives `$`, `$&` the match, `` $` `` the text before it, `$'` the text after it, and `$1` stays literal, since the pattern has no capture groups |
| Replace.ReplaceAllSplits | packages/database-sqlite/src/index.ts:139-140 | for a pattern whose first character occurs nowhere else in it, a global replace over `a + t`, where `t` starts with that character (up to case), is the global replace over `a` followed by the one over `t` |
| Replace.PassesOver | packages/database-sqlite/src/index.ts:139-140 | a piece of text that does not start a match, and none of whose later characters is the pattern's first character, is copied through unchanged |
| Replace.ReplaceAllAround | packages/database-sqlite/src/index.ts:139-140 | for a pattern whose first character occurs nowhere else in it, every occurrence is replaced, and the texts before and after it are rewritten independently |
| SelectClause.RewriteDirections | packages/database-sqlite/src/index.ts:139-140 | the two sort-keyword replacements never lengthen the clause |
| SelectClause.DescendingRewritten | packages/database-sqlite/src/index.ts:139-140 | for any `DESCENDING` `m`, in any letter case, `RewriteDirections(a + m + b)` is `RewriteDirections(a) + " DESC" + RewriteDirections(b)` |
| SelectClause.AscendingRewritten | packages/database-sqlite/src/index.ts:139-140 | for any `ASCENDING` `m`, in any letter case, `RewriteDirections(a + m + b)` is `RewriteDirections(a) + " ASC" + RewriteDirections(b)` |
| SelectClause.TildeToDot | packages/database-sqlite/src/index.ts:141 | the result has the input's length, every `~` becomes `.`, every other character stays in place, and no `~` remains |
| SelectClause.Translate | packages/database-sqlite/src/index.ts:133-141 | the SQL sent to SQLite never contains `~` |
| SelectClause.TranslatePlain | packages/database-sqlite/src/index.ts:133-141 | a clause that uses none of the Open SQL-only forms reaches SQLite unchanged |
| Query.Select | packages/database-sqlite/src/index.ts:130-160 | the options are rewritten in place to the translated clause; on success the rows are SQLite's rows; a failure always escapes with SQLite's message, as CX_SY_DYNAMIC_OSQL_SEMANTICS exactly when that class exists |
| Query.OpenCursor | packages/database-sqlite/src/index.ts:162-165 | the caller's options come back rewritten to the translated clause; on success the cursor holds SQLite's whole result at offset 0; a failure escapes from the open call with SQLite's message, as CX_SY_DYNAMIC_OSQL_SEMANTICS exactly when that class exists |
| Query.Slice | packages/database-sqlite/src/index.ts:167 | `rows.slice(start, end)`: for 0 <= start <= end it is the window between them cut at the end of the rows; it is empty when 0 <= end <= start; a negative start counts back from the end; an end at or before `-|xs|` gives an empty slice |
| Query.SliceNormalised | packages/database-sqlite/src/index.ts:167 | any start and end, negative or past the end, act as the positions in `[0, len]` they resolve to (a negative index counts back from the end and is clamped at 0), so the slice is the window between the resolved positions, or empty when they cross |
| Query.SliceNegativeExamples | packages/database-sqlite/src/index.ts:167 | on `[1,2,3]`: `slice(0,-1)` is `[1,2]`, `slice(-2,-1)` is `[2]`, `slice(-5,2)` is `[1,2]` |
| Query.Fetch | packages/database-sqlite/src/index.ts:166-170 | for a non-negative size k at offset i over n rows, the page is `rows[min(i,n)..min(i+k,n)]`; it is empty once i >= n; the offset becomes i+k whatever the page's length |
| Query.Close | packages/database-sqlite/src/index.ts:171-173 | closing leaves the cursor exactly as it was |
| Query.FetchAllCursor | packages/database-sqlite/src/index.ts:166-170 | after a run of fetches the offset has moved on by the sum of the page sizes, over the same rows |
| Query.PagesConsecutive | packages/database-sqlite/src/index.ts:164-170 | from a non-negative offset and for non-negative page sizes, the pages of successive fetches concatenate to the rows between the starting offset and that offset plus the sizes, cut at the end of the result |
| Query.PagesFormPrefix | packages/database-sqlite/src/index.ts:162-170 | for non-negative page sizes, everything fetched from a fresh cursor is a prefix of the result, so it never holds more rows than the result |
| Query.ExhaustedStaysEmpty | packages/database-sqlite/src/index.ts:166-170 | for non-negative page sizes, once the offset reaches the end of the result, every later page is empty |
| Query.SevenRowsByThree | packages/database-sqlite/src/index.ts:166-170 | seven rows in pages of three give rows 0-2, rows 3-5, row 6, then empty, then empty again |
| Query.NegativeSizeRefetches | packages/database-sqlite/src/index.ts:166-170 | a negative page size moves the offset back: seven rows fetched with sizes 7, -7, 7 give all seven, nothing, then all seven again, fourteen rows in all |
| Mutations.ChangeStatus | packages/database-sqlite/src/index.ts:70-77 | `subrc` is 0 or 4; `subrc` is 4 exactly when `dbcnt` is 0; `dbcnt` is SQLite's change count; an error gives (4, 0) |
| Mutations.Delete | packages/database-sqlite/src/index.ts:57-80 | the status of the DELETE statement: `dbcnt` is the change count, `subrc` is 4 exactly when `dbcnt` is 0, and an error gives (4, 0) without escaping |
| Mutations.Update | packages/database-sqlite/src/index.ts:82-105 | the status of the UPDATE statement follows the same rules as delete |
| Mutations.Insert | packages/database-sqlite/src/index.ts:107-127 | success gives (0, 1) whatever SQLite counted; any error, a duplicate key for one, gives (4, 0) without escaping; `subrc` is 0 exactly when `dbcnt` is 1 |
| Templates.QuoteAll | packages/database-sqlite/src/index.ts:108 | every column name is wrapped in single quotes, in order |
| Templates.DeleteSql | packages/database-sqlite/src/index.ts:58 | the DELETE text starts with `DELETE FROM `, the table and ` WHERE `, ends with ` WHERE ` and the where-clause, and holds nothing else |
| Templates.UpdateSql | packages/database-sqlite/src/index.ts:83 | the UPDATE text starts with `UPDATE `, the table and ` SET `, and ends with ` WHERE ` and the where-clause; with no assignments nothing lies between ` SET ` and ` WHERE ` |
| Templates.InsertSql | packages/database-sqlite/src/index.ts:108 | the INSERT text starts with `INSERT INTO `, the table and ` (`, and ends with `) VALUES (`, the values joined with `,`, and `)`; with no columns and no values it reads `() VALUES ()` |
| Templates.DeleteRoundTrip | packages/database-sqlite/src/index.ts:58 | the DELETE text determines its table and where-clause when the table name has no space |
| Templates.UpdateRoundTrip | packages/database-sqlite/src/index.ts:83 | the UPDATE text determines its table, assignments (joined with `, `) and where-clause when the table name has no space, there is at least one assignment, and no assignment contains a comma or `WHERE` |
| Templates.UpdateTextAmbiguous | packages/database-sqlite/src/index.ts:83 | two different update requests can produce the same UPDATE text, because assignments and predicates are pasted in as raw SQL |
| Templates.InsertRoundTrip | packages/database-sqlite/src/index.ts:108 | the INSERT text determines its table, quoted columns (joined with `,`) and values (joined with `,`) when the table name has no space, there is at least one column and one value, no column contains a comma or `)`, and no value contains a comma |
| Batch.Execute | packages/database-sqlite/src/index.ts:28-39 | an empty text changes nothing; otherwise the non-empty texts run in input order; on success the log grows by exactly those texts; on failure the first failing text ends the run, and the log grows by the texts up to and including it |
| Batch.SubmittedMembers | packages/database-sqlite/src/index.ts:29-36 | the texts that reach SQLite are exactly the non-empty texts of the input |

## Left out

- `connect` and `disconnect` (lines 13-26) are left out. They are process-wide plumbing: opening the in-memory database and registering `sy-dbsys`. A closed connection shows up only as an engine that fails every statement.
- `beginTransaction`, `commit`, `rollback` and `export` (lines 41-55) are left out. They are empty stubs with no behaviour, so the model claims no atomicity.
- SQLite is not modelled. `prepare`, `run`, `all`, `exec` and `setReadBigInts` are foreign calls, so each operation takes SQLite's answer as an `engine` parameter.
- Trace output (`console.log` and `console.dir` under the `trace` flag) is left out. It is a side effect only and never changes a result.
- The lookup of `CX_SY_DYNAMIC_OSQL_SEMANTICS` in the global class table (lines 151-156) is a boolean parameter of `Select`. Building the condition object is not modelled.
- The async/`Promise` wrapping is left out. Every operation is sequential, so each is a plain function or method.
- Replace.ReplaceAllCi: inserts its replacement literally and does not apply `$` substitution. The two global replacements use the constants ` ASC` and ` DESC`, which contain no `$`.
- Query.Fetch: page sizes and offsets are unbounded integers. A fractional or NaN `packageSize` and offsets beyond 2^53 are not modelled. A negative size follows JavaScript's `slice`, counting from the end, but the pagination lemmas are stated only for non-negative sizes. With negative sizes the fetched rows need not form a prefix of the result (see Query.NegativeSizeRefetches).
- Templates.UpdateRoundTrip: this round trip holds only under its stated conditions. The text of an UPDATE is ambiguous in general (see Templates.UpdateTextAmbiguous).
