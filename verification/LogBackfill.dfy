/**
 One page of a log stream's backfill (`list_stream_backfill` in `src/application/logs.rs`):
 the first rows past a cursor, or the id-merge of two such pages.
 */
module LogBackfill {
  import opened LogFilters

  ghost predicate Sorted(rows: seq<Row>) {
    forall i, j :: 0 <= i < j < |rows| ==> rows[i].id < rows[j].id
  }

  /** What a query's `WHERE` selects. */
  type Query = Row -> bool

  /** Stored rows past a cursor that `query` selects; `gone` are the ids retention has deleted. */
  function CursorQuery(query: Query, after: int, gone: set<int>): Query {
    (row: Row) => row.id > after && row.id !in gone && query(row)
  }

  /** What a stream's filter selects live, and with the one or two queries of a backfill page. */
  datatype Selection = Selection(live: Query, pipeline: Query, restream: Query, merges: bool)

  function SelectionOf(f: StreamFilter): Selection {
    Selection((row: Row) => LiveMatches(f, row),
              (row: Row) => StoreMatches(BackfillFilter(f), row),
              (row: Row) => StoreMatches(RestreamFilter(f), row),
              ShouldMerge(f))
  }

  predicate Backfills(selection: Selection, row: Row) {
    selection.pipeline(row) || (selection.merges && selection.restream(row))
  }

  /** Every live row is in the backfill, and a merging stream's two queries share no row. */
  ghost predicate Sound(selection: Selection) {
    && (forall row :: selection.live(row) ==> Backfills(selection, row))
    && (selection.merges ==> forall row :: !(selection.pipeline(row) && selection.restream(row)))
  }

  lemma FilterSelectionIsSound(f: StreamFilter)
    ensures Sound(SelectionOf(f))
    ensures forall row :: Backfills(SelectionOf(f), row) <==> BackfillMatches(f, row)
  {
    forall row ensures Backfills(SelectionOf(f), row) <==> BackfillMatches(f, row) {
      assert BackfillFilter(f) in Queries(f);
      assert ShouldMerge(f) ==> RestreamFilter(f) in Queries(f);
    }
    forall row | LiveMatches(f, row) ensures BackfillMatches(f, row) {
      LiveRowsAreBackfilled(f, row);
    }
  }

  /** The store's answer to a cursor query: the first `limit` selected rows, ascending by id. */
  function Page(rows: seq<Row>, query: Query, limit: nat): seq<Row> {
    if rows == [] || limit == 0 then []
    else if query(rows[0]) then [rows[0]] + Page(rows[1..], query, limit - 1)
    else Page(rows[1..], query, limit)
  }

  function First(rows: seq<Row>, limit: nat): seq<Row> {
    if |rows| <= limit then rows else rows[..limit]
  }

  // ---------- What a page holds ----------

  /** The page is ascending selected rows, and misses a selected row only when full of smaller ids. */
  ghost predicate IsPage(page: seq<Row>, rows: seq<Row>, query: Query, limit: nat) {
    && Sorted(page) && |page| <= limit
    && (forall row :: row in page ==> row in rows && query(row))
    && forall row :: row in rows && query(row) && row !in page ==> |page| == limit && AllBelow(page, row.id)
  }

  ghost predicate AllBelow(rows: seq<Row>, id: int) {
    forall row :: row in rows ==> row.id < id
  }

  /** Putting a smaller row first keeps rows ascending. */
  lemma PrependHolds(head: Row, rows: seq<Row>)
    requires Sorted(rows) && forall row :: row in rows ==> head.id < row.id
    ensures Sorted([head] + rows)
    ensures forall row :: row in [head] + rows <==> row == head || row in rows
  {
  }

  lemma HeadAndTail(rows: seq<Row>)
    requires Sorted(rows) && rows != []
    ensures Sorted(rows[1..])
    ensures forall row :: row in rows <==> row == rows[0] || row in rows[1..]
    ensures forall row :: row in rows[1..] ==> rows[0].id < row.id
  {
  }

  lemma HeadJoinsPage(rows: seq<Row>, page: seq<Row>, query: Query, limit: nat)
    requires Sorted(rows) && rows != [] && limit > 0 && query(rows[0]) && IsPage(page, rows[1..], query, limit - 1)
    ensures IsPage([rows[0]] + page, rows, query, limit)
  {
    HeadAndTail(rows);
    PrependHolds(rows[0], page);
    var whole := [rows[0]] + page;
    forall row | row in rows && query(row) && row !in whole ensures |whole| == limit && AllBelow(whole, row.id) {
      assert row in rows[1..] && row !in page;
    }
  }

  lemma HeadSkipsPage(rows: seq<Row>, page: seq<Row>, query: Query, limit: nat)
    requires Sorted(rows) && rows != [] && !query(rows[0]) && IsPage(page, rows[1..], query, limit)
    ensures IsPage(page, rows, query, limit)
  {
    HeadAndTail(rows);
  }

  lemma {:induction false} PageIsPage(rows: seq<Row>, query: Query, limit: nat)
    requires Sorted(rows)
    ensures IsPage(Page(rows, query, limit), rows, query, limit)
  {
    if rows != [] && limit > 0 {
      HeadAndTail(rows);
      if query(rows[0]) {
        PageIsPage(rows[1..], query, limit - 1);
        HeadJoinsPage(rows, Page(rows[1..], query, limit - 1), query, limit);
      } else {
        PageIsPage(rows[1..], query, limit);
        HeadSkipsPage(rows, Page(rows[1..], query, limit), query, limit);
      }
    }
  }

  // ---------- The merge ----------

  /** `BTreeMap::insert` keyed by row id, the map kept as its ascending rows. */
  function Inserted(rows: seq<Row>, row: Row): seq<Row> {
    if rows == [] || row.id < rows[0].id then [row] + rows
    else if row.id == rows[0].id then [row] + rows[1..]
    else [rows[0]] + Inserted(rows[1..], row)
  }

  /** Rows that share an id are one row. */
  ghost predicate Agree(a: seq<Row>, b: seq<Row>) {
    forall x, y :: x in a && y in b && x.id == y.id ==> x == y
  }

  lemma {:induction false} InsertedHolds(rows: seq<Row>, row: Row)
    requires Sorted(rows) && Agree(rows, [row])
    ensures Sorted(Inserted(rows, row))
    ensures forall x :: x in Inserted(rows, row) <==> x in rows || x == row
  {
    if rows == [] {
    } else {
      HeadAndTail(rows);
      if row.id < rows[0].id {
        PrependHolds(row, rows);
      } else if row.id == rows[0].id {
        assert row in [row] && rows[0] in rows;
        assert [row] + rows[1..] == rows;
      } else {
        InsertedHolds(rows[1..], row);
        PrependHolds(rows[0], Inserted(rows[1..], row));
      }
    }
  }

  /** The map after the first `i` rows. */
  ghost predicate HoldsFirst(merged: seq<Row>, rows: seq<Row>, i: nat)
    requires i <= |rows|
  {
    Sorted(merged) && forall row :: row in merged <==> row in rows[..i]
  }

  lemma InsertHoldsNext(merged: seq<Row>, rows: seq<Row>, i: nat)
    requires Agree(rows, rows) && i < |rows| && HoldsFirst(merged, rows, i)
    ensures HoldsFirst(Inserted(merged, rows[i]), rows, i + 1)
  {
    assert rows[..i + 1] == rows[..i] + [rows[i]];
    InsertedHolds(merged, rows[i]);
  }

  /** Merging the two pages gives the ascending rows of both, each once, cut to the limit. */
  method MergePages(pipelineRows: seq<Row>, restreamRows: seq<Row>, limit: nat) returns (page: seq<Row>)
    requires Sorted(pipelineRows) && Sorted(restreamRows) && Agree(pipelineRows, restreamRows)
    ensures page == First(Merged(pipelineRows, restreamRows), limit)
  {
    var rows := pipelineRows + restreamRows;
    assert Agree(rows, rows);
    var merged: seq<Row> := [];
    for i := 0 to |rows|
      invariant HoldsFirst(merged, rows, i)
    {
      InsertHoldsNext(merged, rows, i);
      merged := Inserted(merged, rows[i]);
    }
    assert rows[..|rows|] == rows;
    MergedHolds(pipelineRows, restreamRows);
    SortedRowsAreUnique(merged, Merged(pipelineRows, restreamRows));
    page := First(merged, limit);
  }

  lemma {:induction false} SortedRowsAreUnique(a: seq<Row>, b: seq<Row>)
    requires Sorted(a) && Sorted(b)
    requires forall row :: row in a <==> row in b
    ensures a == b
  {
    assert |b| > 0 ==> b[0] in a;
    if a != [] {
      assert a[0] in b;
      HeadAndTail(a);
      HeadAndTail(b);
      SortedRowsAreUnique(a[1..], b[1..]);
    }
  }

  /** The ascending rows of two ascending pages, rows of one id taken once. */
  function Merged(a: seq<Row>, b: seq<Row>): seq<Row> {
    if a == [] then b
    else if b == [] then a
    else if a[0].id < b[0].id then [a[0]] + Merged(a[1..], b)
    else if a[0].id > b[0].id then [b[0]] + Merged(a, b[1..])
    else [a[0]] + Merged(a[1..], b[1..])
  }

  lemma {:induction false} MergedHolds(a: seq<Row>, b: seq<Row>)
    requires Sorted(a) && Sorted(b) && Agree(a, b)
    ensures Sorted(Merged(a, b))
    ensures forall row :: row in Merged(a, b) <==> row in a || row in b
    decreases |a| + |b|
  {
    if a != [] && b != [] {
      HeadAndTail(a);
      HeadAndTail(b);
      if a[0].id < b[0].id {
        MergedHolds(a[1..], b);
        PrependHolds(a[0], Merged(a[1..], b));
      } else if a[0].id > b[0].id {
        MergedHolds(a, b[1..]);
        PrependHolds(b[0], Merged(a, b[1..]));
      } else {
        MergedHolds(a[1..], b[1..]);
        PrependHolds(a[0], Merged(a[1..], b[1..]));
      }
    }
  }

  /** A subset of ascending rows is no longer, and its `j`-th row is no earlier. */
  lemma {:induction false} SubsetRank(a: seq<Row>, all: seq<Row>, j: nat)
    requires Sorted(a) && Sorted(all) && j < |a|
    requires forall row :: row in a ==> row in all
    ensures j < |all| && all[j].id <= a[j].id
  {
    assert a[j] in all;
    if j > 0 {
      SubsetRank(a, all, j - 1);
    }
  }

  /** The page of the merge is the merge of the pages, for any two queries on one state of the store. */
  lemma MergedPageIsPageOfBoth(rows: seq<Row>, f: Query, g: Query, both: Query, limit: nat)
    requires Sorted(rows)
    requires forall row :: both(row) <==> f(row) || g(row)
    ensures First(Merged(Page(rows, f, limit), Page(rows, g, limit)), limit) == Page(rows, both, limit)
  {
    PagesMerge(rows, f, g, both, limit, limit, limit);
  }

  lemma PageIsAfterHead(rows: seq<Row>, query: Query, limit: nat)
    requires Sorted(rows) && rows != []
    ensures forall row :: row in Page(rows[1..], query, limit) ==> rows[0].id < row.id
  {
    HeadAndTail(rows);
    PageIsPage(rows[1..], query, limit);
  }

  lemma PageOfHead(rows: seq<Row>, query: Query, limit: nat)
    requires rows != [] && limit > 0
    ensures Page(rows, query, limit)
         == if query(rows[0]) then [rows[0]] + Page(rows[1..], query, limit - 1) else Page(rows[1..], query, limit)
  {
  }

  lemma FirstOfHead(head: Row, rows: seq<Row>, limit: nat)
    requires limit > 0
    ensures First([head] + rows, limit) == [head] + First(rows, limit - 1)
  {
  }

  lemma {:induction false} PagesMerge(rows: seq<Row>, f: Query, g: Query, both: Query, m: nat, n: nat, limit: nat)
    requires Sorted(rows) && limit <= m && limit <= n
    requires forall row :: both(row) <==> f(row) || g(row)
    ensures First(Merged(Page(rows, f, m), Page(rows, g, n)), limit) == Page(rows, both, limit)
  {
    if rows != [] && limit > 0 {
      var head, rest, inF, inG := rows[0], rows[1..], f(rows[0]), g(rows[0]);
      var m', n' := if inF then m - 1 else m, if inG then n - 1 else n;
      var a, b := Page(rest, f, m'), Page(rest, g, n');
      PageOfHead(rows, f, m);
      PageOfHead(rows, g, n);
      PageOfHead(rows, both, limit);
      HeadAndTail(rows);
      if inF || inG {
        PagesMerge(rest, f, g, both, m', n', limit - 1);
        PageIsAfterHead(rows, f, m');
        PageIsAfterHead(rows, g, n');
        MergeWithHead(head, inF, inG, a, b);
        FirstOfHead(head, Merged(a, b), limit);
      } else {
        PagesMerge(rest, f, g, both, m', n', limit);
      }
    }
  }

  lemma MergeWithHead(head: Row, inA: bool, inB: bool, a: seq<Row>, b: seq<Row>)
    requires inA || inB
    requires forall row :: row in a || row in b ==> head.id < row.id
    ensures Merged(if inA then [head] + a else a, if inB then [head] + b else b) == [head] + Merged(a, b)
  {
    assert a != [] ==> a[0] in a;
    assert b != [] ==> b[0] in b;
    assert ([head] + a)[1..] == a && ([head] + b)[1..] == b;
  }

  /** A short page is the whole result set: the paging loop may stop. */
  lemma ShortPageIsAll(rows: seq<Row>, query: Query, limit: nat, row: Row)
    requires Sorted(rows) && |Page(rows, query, limit)| < limit
    ensures row in Page(rows, query, limit) <==> row in rows && query(row)
  {
    PageIsPage(rows, query, limit);
  }

  /** So is a short merged page: both result sets are exhausted. */
  lemma ShortMergedPageIsAll(rows: seq<Row>, f: Query, g: Query, limit: nat, row: Row)
    requires Sorted(rows)
    requires |First(Merged(Page(rows, f, limit), Page(rows, g, limit)), limit)| < limit
    ensures row in First(Merged(Page(rows, f, limit), Page(rows, g, limit)), limit) <==>
            row in rows && (f(row) || g(row))
  {
    var both: Query := (row: Row) => f(row) || g(row);
    MergedPageIsPageOfBoth(rows, f, g, both, limit);
    ShortPageIsAll(rows, both, limit, row);
  }

  // ---------- Two reads that see two states of the store ----------

  /** The page holds a larger id: the stream's cursor moves past this one. */
  ghost predicate Passed(page: seq<Row>, id: int) {
    exists row :: row in page && id < row.id
  }

  /** A full page of smaller ids keeps a row out of reach of the merged page too. */
  lemma FullPageEndsFirst(page: seq<Row>, merged: seq<Row>, limit: nat, id: int)
    requires Sorted(page) && Sorted(merged) && |page| == limit > 0 && AllBelow(page, id)
    requires forall kept :: kept in page ==> kept in merged
    ensures limit <= |merged| && AllBelow(First(merged, limit), id)
  {
    SubsetRank(page, merged, limit - 1);
    assert page[limit - 1] in page;
  }

  /** A row its own query selected is passed only together with being on the merged page. */
  lemma OwnPageCovers(page: seq<Row>, rows: seq<Row>, query: Query, merged: seq<Row>, limit: nat, row: Row)
    requires IsPage(page, rows, query, limit) && Sorted(merged) && limit > 0
    requires forall kept :: kept in page ==> kept in merged
    requires row in rows && query(row)
    ensures row in First(merged, limit)
            || (limit <= |merged| && AllBelow(First(merged, limit), row.id))
  {
    if row in page {
      var j :| 0 <= j < |merged| && merged[j] == row;
      if j < limit {
        assert row == First(merged, limit)[j];
      }
    } else {
      FullPageEndsFirst(page, merged, limit, row.id);
    }
  }

  /**
   The two pages are read by two queries. When rows commit between them, the merged page passes over
   a row that a query selects exactly if the first query would have taken a row committed between
   the reads and the page reaches past it.
   */
  lemma MergedPageSkipsRow(rows: seq<Row>, early: nat, late: nat, f: Query, g: Query, limit: nat)
    requires Sorted(rows) && early <= late <= |rows| && limit > 0
    requires forall row :: !(f(row) && g(row))
    ensures var page := First(Merged(Page(rows[..early], f, limit), Page(rows[..late], g, limit)), limit);
            (exists i :: 0 <= i < |rows| && (f(rows[i]) || g(rows[i]))
                         && rows[i] !in page && Passed(page, rows[i].id))
            <==> exists i :: early <= i < late && f(rows[i]) && Passed(page, rows[i].id)
  {
    var a, b := Page(rows[..early], f, limit), Page(rows[..late], g, limit);
    PageIsPage(rows[..early], f, limit);
    PageIsPage(rows[..late], g, limit);
    MergedHolds(a, b);
    var page := First(Merged(a, b), limit);
    assert forall row :: row in page ==> row in Merged(a, b);
    forall i | early <= i < late && f(rows[i]) ensures rows[i] !in page {
      assert rows[i] !in rows[..early];
    }
    forall i | 0 <= i < |rows| && (f(rows[i]) || g(rows[i])) && rows[i] !in page && Passed(page, rows[i].id)
      ensures early <= i < late && f(rows[i])
    {
      if i < early && f(rows[i]) {
        assert rows[..early][i] == rows[i];
        OwnPageCovers(a, rows[..early], f, Merged(a, b), limit, rows[i]);
      } else if i < late && g(rows[i]) {
        assert rows[..late][i] == rows[i];
        OwnPageCovers(b, rows[..late], g, Merged(a, b), limit, rows[i]);
      }
    }
  }
}
