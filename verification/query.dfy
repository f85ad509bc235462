/** `select` and `openCursor` (packages/database-sqlite/src/index.ts,
    lines 130-175): the rewritten clause goes to SQLite once, the whole
    result is read, and a cursor pages through that in-memory result. */
module Query {
  import opened Wrappers
  import opened SelectClause

  /** The caller's options object: an Open SQL clause and, optionally, the
      table's primary key columns. */
  datatype SelectOptions = SelectOptions(select: string, primaryKey: Option<seq<string>>)

  /** What SQLite answers to a query: every row, or an error. */
  datatype QueryReply<Row> = Returned(rows: seq<Row>) | QueryFailed(message: string)

  /** What escapes from a failed query: the typed Open SQL condition
      CX_SY_DYNAMIC_OSQL_SEMANTICS carrying SQLite's message, or, when that
      class is not loaded, SQLite's own error. */
  datatype SelectError = OsqlSemantics(sqlmsg: string) | Backend(message: string)

  /** The text of an escaping error. */
  function ErrorText(e: SelectError): string
  {
    match e
    case OsqlSemantics(m) => m
    case Backend(m) => m
  }

  /** `select` rewrites the caller's options in place; the options after the
      call travel with the result. */
  datatype Selected<Row> = Selected(options: SelectOptions, result: Result<seq<Row>, SelectError>)

  /** `select`. `osqlConditionDefined` says whether the running program has
      the class CX_SY_DYNAMIC_OSQL_SEMANTICS. A failed query always
      escapes, with SQLite's message. */
  function Select<Row>(options: SelectOptions, engine: string -> QueryReply<Row>, osqlConditionDefined: bool): (r: Selected<Row>)
    ensures r.options.primaryKey == options.primaryKey
    ensures r.options.select == Translate(options.select, options.primaryKey)
    ensures '~' !in r.options.select
    ensures r.result.Success? <==> engine(r.options.select).Returned?
    ensures r.result.Success? ==> r.result.value == engine(r.options.select).rows
    ensures r.result.Failure? ==> ErrorText(r.result.error) == engine(r.options.select).message
    ensures r.result.Failure? ==> (r.result.error.OsqlSemantics? <==> osqlConditionDefined)
  {
    var sql := Translate(options.select, options.primaryKey);
    var rewritten := options.(select := sql);
    match engine(sql)
    case Returned(rows) => Selected(rewritten, Success(rows))
    case QueryFailed(msg) =>
      Selected(rewritten, Failure(if osqlConditionDefined then OsqlSemantics(msg) else Backend(msg)))
  }

  // ---------------------------------------------------------------------
  // Cursors
  // ---------------------------------------------------------------------

  /** A cursor: the whole result, read when the cursor was opened, and the
      index of the next row to hand out. */
  datatype Cursor<Row> = Cursor(rows: seq<Row>, offset: int)

  /** One page and the cursor after it. */
  datatype Fetched<Row> = Fetched(page: seq<Row>, cursor: Cursor<Row>)

  function Min(a: int, b: int): int
  {
    if a <= b then a else b
  }

  /** The rows with indices in `[from, to)`, cut off at the end of `xs`. */
  function Window<T>(xs: seq<T>, from: int, to: int): seq<T>
    requires 0 <= from <= to
  {
    xs[Min(from, |xs|)..Min(to, |xs|)]
  }

  /** How `Array.prototype.slice` reads an index into an array of length
      `len`: a negative index counts from the end, and every index is
      clamped to `[0, len]`. */
  function RelativeIndex(k: int, len: nat): (r: nat)
    ensures r <= len
    ensures 0 <= k ==> r == Min(k, len)
    ensures k < 0 ==> r == (if len + k < 0 then 0 else len + k)
  {
    if k < 0 then (if len + k < 0 then 0 else len + k)
    else if k < len then k else len
  }

  /** `xs.slice(start, end)`. */
  function Slice<T>(xs: seq<T>, start: int, end: int): (r: seq<T>)
    ensures |r| <= |xs|
    ensures 0 <= start <= end ==> r == Window(xs, start, end)
    ensures 0 <= end <= start ==> r == []
    ensures start < 0 && 0 <= |xs| + start && |xs| <= end ==> r == xs[|xs| + start..]
    ensures end < 0 && |xs| + end <= 0 ==> r == []
  {
    var from := RelativeIndex(start, |xs|);
    var to := RelativeIndex(end, |xs|);
    if from < to then xs[from..to] else []
  }

  /** Any index, negative or beyond the end, acts as the position in
      `[0, |xs|]` it resolves to; with both resolved, `Slice`'s clauses for
      non-negative indices apply. */
  lemma SliceNormalised<T>(xs: seq<T>, start: int, end: int)
    ensures Slice(xs, start, end) == Slice(xs, RelativeIndex(start, |xs|), RelativeIndex(end, |xs|))
    ensures Slice(xs, start, end)
         == if RelativeIndex(start, |xs|) <= RelativeIndex(end, |xs|)
            then Window(xs, RelativeIndex(start, |xs|), RelativeIndex(end, |xs|))
            else []
  {
  }

  /** Negative ends and starts before the beginning, on three elements. */
  lemma SliceNegativeExamples()
    ensures Slice([1, 2, 3], 0, -1) == [1, 2]
    ensures Slice([1, 2, 3], -2, -1) == [2]
    ensures Slice([1, 2, 3], -5, 2) == [1, 2]
  {
  }

  /** `openCursor` goes through `select`, so it too rewrites the caller's
      options in place; the options after the call travel with the cursor. */
  datatype Opened<Row> = Opened(options: SelectOptions, cursor: Result<Cursor<Row>, SelectError>)

  /** `openCursor`: runs the query; a failure escapes from the open call
      itself, exactly as it escapes from `select`, otherwise the cursor
      starts before the first row. */
  function OpenCursor<Row>(options: SelectOptions, engine: string -> QueryReply<Row>, osqlConditionDefined: bool)
    : (r: Opened<Row>)
    ensures r.options.primaryKey == options.primaryKey
    ensures r.options.select == Translate(options.select, options.primaryKey)
    ensures r.cursor.Success? <==> engine(r.options.select).Returned?
    ensures r.cursor.Success? ==> r.cursor.value == Cursor(engine(r.options.select).rows, 0)
    ensures r.cursor.Failure? ==> ErrorText(r.cursor.error) == engine(r.options.select).message
    ensures r.cursor.Failure? ==> (r.cursor.error.OsqlSemantics? <==> osqlConditionDefined)
  {
    var selected := Select(options, engine, osqlConditionDefined);
    match selected.result
    case Success(rows) => Opened(selected.options, Success(Cursor(rows, 0)))
    case Failure(e) => Opened(selected.options, Failure(e))
  }

  /** `fetchNextCursor(packageSize)`: the next `packageSize` rows, fewer at
      the end and none past it, and the offset moves on by `packageSize`
      however many rows came back. */
  function Fetch<Row>(c: Cursor<Row>, packageSize: int): (f: Fetched<Row>)
    ensures f.cursor.rows == c.rows
    ensures f.cursor.offset == c.offset + packageSize
    ensures 0 <= c.offset && 0 <= packageSize ==>
      f.page == Window(c.rows, c.offset, c.offset + packageSize)
    ensures 0 <= packageSize && |c.rows| <= c.offset ==> f.page == []
  {
    Fetched(Slice(c.rows, c.offset, c.offset + packageSize), Cursor(c.rows, c.offset + packageSize))
  }

  /** `closeCursor`: the rows are already in memory, so there is nothing
      to release and the cursor is left as it was. */
  function Close<Row>(c: Cursor<Row>): (c': Cursor<Row>)
    ensures c' == c
  {
    c
  }

  /** The pages of a run of fetches and the cursor after the last one. */
  datatype Paged<Row> = Paged(pages: seq<seq<Row>>, cursor: Cursor<Row>)

  /** Fetches pages of the given sizes, one after another. */
  function FetchAll<Row>(c: Cursor<Row>, sizes: seq<int>): (p: Paged<Row>)
    ensures |p.pages| == |sizes|
    decreases |sizes|
  {
    if |sizes| == 0 then Paged([], c)
    else
      var f := Fetch(c, sizes[0]);
      var rest := FetchAll(f.cursor, sizes[1..]);
      Paged([f.page] + rest.pages, rest.cursor)
  }

  function Flatten<T>(pages: seq<seq<T>>): seq<T>
  {
    if |pages| == 0 then [] else pages[0] + Flatten(pages[1..])
  }

  function Sum(sizes: seq<int>): (total: int)
    ensures NonNegative(sizes) ==> 0 <= total
  {
    if |sizes| == 0 then 0 else sizes[0] + Sum(sizes[1..])
  }

  predicate NonNegative(sizes: seq<int>)
  {
    forall k :: 0 <= k < |sizes| ==> 0 <= sizes[k]
  }

  /** After a run of fetches the offset has moved on by the sum of the sizes. */
  lemma {:induction false} FetchAllCursor<Row>(c: Cursor<Row>, sizes: seq<int>)
    ensures FetchAll(c, sizes).cursor == Cursor(c.rows, c.offset + Sum(sizes))
    decreases |sizes|
  {
    if |sizes| > 0 {
      FetchAllCursor(Fetch(c, sizes[0]).cursor, sizes[1..]);
    }
  }

  /** Successive pages are consecutive slices of the result: together they
      are exactly the rows between the starting offset and the starting
      offset plus all the page sizes, cut off at the end of the result. */
  lemma PagesConsecutive<Row>(c: Cursor<Row>, sizes: seq<int>)
    requires 0 <= c.offset && NonNegative(sizes)
    ensures Flatten(FetchAll(c, sizes).pages) == Window(c.rows, c.offset, c.offset + Sum(sizes))
    ensures FetchAll(c, sizes).cursor == Cursor(c.rows, c.offset + Sum(sizes))
  {
    FetchAllCursor(c, sizes);
    assert c == Cursor(c.rows, c.offset);
    FlattenedRows(c, sizes);
    FetchedWindows(c.rows, c.offset, sizes);
    WindowsJoin(c.rows, c.offset, sizes, c.offset + Sum(sizes));
  }

  /** The rows a run of fetches hands out, one page after another. */
  function FetchedRows<Row>(c: Cursor<Row>, sizes: seq<int>): seq<Row>
    decreases |sizes|
  {
    if |sizes| == 0 then []
    else
      var f := Fetch(c, sizes[0]);
      f.page + FetchedRows(f.cursor, sizes[1..])
  }

  /** Consecutive windows of the given sizes, the first one starting at `offset`. */
  function Windows<Row>(rows: seq<Row>, offset: int, sizes: seq<int>): seq<Row>
    requires 0 <= offset && NonNegative(sizes)
    decreases |sizes|
  {
    if |sizes| == 0 then []
    else Window(rows, offset, offset + sizes[0]) + Windows(rows, offset + sizes[0], sizes[1..])
  }

  /** The pages of a run of fetches, run together, are the rows it hands out. */
  lemma {:induction false} FlattenedRows<Row>(c: Cursor<Row>, sizes: seq<int>)
    ensures Flatten(FetchAll(c, sizes).pages) == FetchedRows(c, sizes)
    decreases |sizes|
  {
    if |sizes| > 0 {
      var f := Fetch(c, sizes[0]);
      FlattenedRows(f.cursor, sizes[1..]);
      FlattenCons(f.page, FetchAll(f.cursor, sizes[1..]).pages);
    }
  }

  /** Each fetch from a non-negative offset hands out the next window. */
  lemma {:induction false} FetchedWindows<Row>(rows: seq<Row>, offset: int, sizes: seq<int>)
    requires 0 <= offset && NonNegative(sizes)
    ensures FetchedRows(Cursor(rows, offset), sizes) == Windows(rows, offset, sizes)
    decreases |sizes|
  {
    if |sizes| > 0 {
      FetchedWindows(rows, offset + sizes[0], sizes[1..]);
      FetchedWindowsStep(rows, offset, sizes);
    }
  }

  /** The induction step of `FetchedWindows`. */
  lemma FetchedWindowsStep<Row>(rows: seq<Row>, offset: int, sizes: seq<int>)
    requires 0 <= offset && NonNegative(sizes) && |sizes| > 0
    requires FetchedRows(Cursor(rows, offset + sizes[0]), sizes[1..]) == Windows(rows, offset + sizes[0], sizes[1..])
    ensures FetchedRows(Cursor(rows, offset), sizes) == Windows(rows, offset, sizes)
  {
    CursorAfter(rows, offset, sizes[0]);
  }

  /** A fetch moves the cursor on by the page size. */
  lemma CursorAfter<Row>(rows: seq<Row>, offset: int, k: int)
    ensures Fetch(Cursor(rows, offset), k).cursor == Cursor(rows, offset + k)
  {
  }

  /** Consecutive windows run together are one window, from the first
      offset to `end`, the offset plus all the sizes. */
  lemma {:induction false} WindowsJoin<Row>(rows: seq<Row>, offset: int, sizes: seq<int>, end: int)
    requires 0 <= offset && NonNegative(sizes) && end == offset + Sum(sizes)
    ensures Windows(rows, offset, sizes) == Window(rows, offset, end)
    decreases |sizes|
  {
    if |sizes| > 0 {
      WindowsJoin(rows, offset + sizes[0], sizes[1..], end);
      WindowsConcat(rows, offset, offset + sizes[0], end);
    }
  }

  /** Two adjacent windows make one. */
  lemma WindowsConcat<T>(xs: seq<T>, a: int, b: int, e: int)
    requires 0 <= a <= b <= e
    ensures Window(xs, a, b) + Window(xs, b, e) == Window(xs, a, e)
  {
    var n := |xs|;
    SliceConcat(xs, Min(a, n), Min(b, n), Min(e, n));
  }

  lemma FlattenCons<T>(page: seq<T>, pages: seq<seq<T>>)
    ensures Flatten([page] + pages) == page + Flatten(pages)
  {
    assert ([page] + pages)[1..] == pages;
  }

  lemma SliceConcat<T>(xs: seq<T>, a: nat, b: nat, e: nat)
    requires a <= b <= e <= |xs|
    ensures xs[a..b] + xs[b..e] == xs[a..e]
  {
  }

  /** From a freshly opened cursor, everything fetched so far is a prefix
      of the result, so never more rows than the result has. */
  lemma PagesFormPrefix<Row>(rows: seq<Row>, sizes: seq<int>)
    requires NonNegative(sizes)
    ensures var fetched := Flatten(FetchAll(Cursor(rows, 0), sizes).pages);
      |fetched| <= |rows| && fetched == rows[..|fetched|]
  {
    PagesConsecutive(Cursor(rows, 0), sizes);
    var fetched := Flatten(FetchAll(Cursor(rows, 0), sizes).pages);
    assert fetched == Window(rows, 0, Sum(sizes));
  }

  /** Once the offset has reached the end of the result, every later page is empty. */
  lemma {:induction false} ExhaustedStaysEmpty<Row>(c: Cursor<Row>, sizes: seq<int>)
    requires |c.rows| <= c.offset && NonNegative(sizes)
    ensures forall k :: 0 <= k < |sizes| ==> FetchAll(c, sizes).pages[k] == []
    decreases |sizes|
  {
    if |sizes| > 0 {
      var f := Fetch(c, sizes[0]);
      ExhaustedStaysEmpty(f.cursor, sizes[1..]);
      var p := FetchAll(c, sizes).pages;
      forall k | 0 <= k < |sizes| ensures p[k] == [] {
        if k > 0 {
          assert p[k] == FetchAll(f.cursor, sizes[1..]).pages[k - 1];
        }
      }
    }
  }

  /** Seven rows fetched three at a time: rows 0-2, 3-5, 6, then nothing, and nothing again. */
  lemma SevenRowsByThree<Row>(rows: seq<Row>)
    requires |rows| == 7
    ensures FetchAll(Cursor(rows, 0), [3, 3, 3, 3, 3]).pages == [rows[0..3], rows[3..6], rows[6..7], [], []]
  {
    var c1 := Fetch(Cursor(rows, 0), 3).cursor;
    var c2 := Fetch(c1, 3).cursor;
    var c3 := Fetch(c2, 3).cursor;
    var c4 := Fetch(c3, 3).cursor;
    var c5 := Fetch(c4, 3).cursor;
    assert FetchAll(c5, []).pages == [];
    assert FetchAll(c4, [3]).pages == [[]];
    assert FetchAll(c3, [3, 3]).pages == [[], []];
    assert FetchAll(c2, [3, 3, 3]).pages == [rows[6..7], [], []];
    assert FetchAll(c1, [3, 3, 3, 3]).pages == [rows[3..6], rows[6..7], [], []];
  }

  /** A negative page size moves the offset back, so the same rows can be
      handed out twice: seven rows fetched with sizes 7, -7, 7 give all
      seven rows, nothing, then all seven rows again, fourteen in all. */
  lemma NegativeSizeRefetches<Row>(rows: seq<Row>)
    requires |rows| == 7
    ensures FetchAll(Cursor(rows, 0), [7, -7, 7]).pages == [rows, [], rows]
    ensures |Flatten(FetchAll(Cursor(rows, 0), [7, -7, 7]).pages)| == 14
  {
    var c1 := Fetch(Cursor(rows, 0), 7).cursor;
    var c2 := Fetch(c1, -7).cursor;
    var c3 := Fetch(c2, 7).cursor;
    assert Fetch(Cursor(rows, 0), 7).page == rows[0..7] == rows;
    assert Fetch(c1, -7).page == Slice(rows, 7, 0) == [];
    assert c2 == Cursor(rows, 0);
    assert FetchAll(c3, []).pages == [];
    assert FetchAll(c2, [7]).pages == [rows];
    assert FetchAll(c1, [-7, 7]).pages == [[], rows];
    assert FetchAll(Cursor(rows, 0), [7, -7, 7]).pages == [rows, [], rows];
    var pages: seq<seq<Row>> := [rows, [], rows];
    assert pages[1..] == [[], rows] && pages[1..][1..] == [rows];
    assert Flatten([rows]) == rows + Flatten([]);
    assert Flatten([[], rows]) == [] + Flatten([rows]);
    assert Flatten(pages) == rows + Flatten([[], rows]);
  }
}
