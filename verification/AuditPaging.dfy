/** The audit store: appending, and paging through the rows that match a query. */
module AuditPaging {
  import opened Prelude
  import opened AuditQuery

  // ----- ORDER BY ts, id -----

  predicate Earlier(a: Row, b: Row) {
    a.ts < b.ts || (a.ts == b.ts && a.id < b.id)
  }

  predicate Precedes(dir: SortDir, a: Row, b: Row) {
    if dir == Asc then Earlier(a, b) else Earlier(b, a)
  }

  function Inserted(dir: SortDir, row: Row, rows: seq<Row>): seq<Row> {
    if rows == [] || Precedes(dir, row, rows[0]) then [row] + rows
    else [rows[0]] + Inserted(dir, row, rows[1..])
  }

  function Ordered(dir: SortDir, rows: seq<Row>): seq<Row> {
    if rows == [] then [] else Inserted(dir, rows[0], Ordered(dir, rows[1..]))
  }

  ghost predicate Sorted(dir: SortDir, rows: seq<Row>) {
    forall i, j | 0 <= i < j < |rows| :: Precedes(dir, rows[i], rows[j])
  }

  ghost predicate DistinctIds(rows: seq<Row>) {
    forall i, j | 0 <= i < j < |rows| :: rows[i].id != rows[j].id
  }

  lemma {:induction false} InsertedSorted(dir: SortDir, row: Row, rows: seq<Row>)
    requires Sorted(dir, rows) && forall i | 0 <= i < |rows| :: rows[i].id != row.id
    ensures Sorted(dir, Inserted(dir, row, rows))
    ensures multiset(Inserted(dir, row, rows)) == multiset(rows) + multiset{row}
  {
    if rows != [] && !Precedes(dir, row, rows[0]) {
      InsertedSorted(dir, row, rows[1..]);
      var tail := Inserted(dir, row, rows[1..]);
      assert rows == [rows[0]] + rows[1..];
      forall j | 0 <= j < |tail|
        ensures Precedes(dir, rows[0], tail[j])
      {
        assert tail[j] in multiset(tail);
        if tail[j] != row {
          assert tail[j] in rows[1..];
        }
      }
    }
  }

  /** The listing holds the rows it was given, in strict order. */
  lemma {:induction false} OrderedSorts(dir: SortDir, rows: seq<Row>)
    requires DistinctIds(rows)
    ensures Sorted(dir, Ordered(dir, rows)) && multiset(Ordered(dir, rows)) == multiset(rows)
  {
    if rows != [] {
      OrderedSorts(dir, rows[1..]);
      var tail := Ordered(dir, rows[1..]);
      forall i | 0 <= i < |tail|
        ensures tail[i].id != rows[0].id
      {
        assert tail[i] in multiset(tail);
        assert tail[i] in rows[1..];
      }
      InsertedSorted(dir, rows[0], tail);
      assert rows == [rows[0]] + rows[1..];
    }
  }

  lemma SortedHead(dir: SortDir, a: seq<Row>, b: seq<Row>)
    requires Sorted(dir, a) && Sorted(dir, b) && multiset(a) == multiset(b) && a != []
    ensures b != [] && a[0] == b[0]
  {
    assert a[0] in multiset(a) && a[0] in b;
    assert b[0] in multiset(b) && b[0] in a;
  }

  /** There is one listing: any two sorted arrangements of the same rows agree,
      so the answer does not depend on how the database sorts. */
  lemma {:induction false} SortedUnique(dir: SortDir, a: seq<Row>, b: seq<Row>)
    requires Sorted(dir, a) && Sorted(dir, b) && multiset(a) == multiset(b)
    ensures a == b
  {
    if a == [] {
      assert |multiset(b)| == 0;
    } else {
      SortedHead(dir, a, b);
      assert a == [a[0]] + a[1..] && b == [b[0]] + b[1..];
      assert multiset(a[1..]) == multiset(a) - multiset{a[0]};
      assert multiset(b[1..]) == multiset(b) - multiset{b[0]};
      SortedUnique(dir, a[1..], b[1..]);
    }
  }

  function Reversed(rows: seq<Row>): (r: seq<Row>)
    ensures |r| == |rows|
  {
    if rows == [] then [] else Reversed(rows[1..]) + [rows[0]]
  }

  lemma {:induction false} ReversedFacts(rows: seq<Row>)
    ensures multiset(Reversed(rows)) == multiset(rows)
    ensures forall i | 0 <= i < |rows| :: Reversed(rows)[i] == rows[|rows| - 1 - i]
  {
    if rows != [] {
      ReversedFacts(rows[1..]);
      assert rows == [rows[0]] + rows[1..];
    }
  }

  /** The descending listing is the ascending one reversed. */
  lemma DescendingIsReversed(rows: seq<Row>)
    requires DistinctIds(rows)
    ensures Ordered(Desc, rows) == Reversed(Ordered(Asc, rows))
  {
    OrderedSorts(Asc, rows);
    OrderedSorts(Desc, rows);
    ReversedFacts(Ordered(Asc, rows));
    SortedUnique(Desc, Ordered(Desc, rows), Reversed(Ordered(Asc, rows)));
  }

  // ----- SELECT -----

  function Selected(table: seq<Row>, w: Compiled): seq<Row> {
    if table == [] then [] else
    (if Holds(w, table[0]) then [table[0]] else []) + Selected(table[1..], w)
  }

  ghost function Matching(table: seq<Row>, q: Query): seq<Row> {
    if table == [] then [] else
    (if Coded(q, table[0]) then [table[0]] else []) + Matching(table[1..], q)
  }

  lemma {:induction false} SelectedIsMatching(table: seq<Row>, q: Query)
    ensures Selected(table, Where(q)) == Matching(table, q)
  {
    if table != [] {
      WhereMeansCoded(q, table[0]);
      SelectedIsMatching(table[1..], q);
    }
  }

  lemma {:induction false} MatchingRows(table: seq<Row>, q: Query)
    requires DistinctIds(table)
    ensures DistinctIds(Matching(table, q)) && |Matching(table, q)| <= |table|
    ensures forall row :: row in Matching(table, q) <==> row in table && Coded(q, row)
  {
    if table != [] {
      MatchingRows(table[1..], q);
      assert table == [table[0]] + table[1..];
      var tail := Matching(table[1..], q);
      forall j | 0 <= j < |tail|
        ensures tail[j].id != table[0].id
      {
        assert tail[j] in table[1..];
      }
    }
  }

  /** LIMIT and OFFSET, read from the slots of the statement. */
  datatype DataSql = DataSql(conditions: seq<Cond>, dir: SortDir, limitSlot: nat, offsetSlot: nat)

  function Window(rows: seq<Row>, offset: nat, limit: nat): seq<Row> {
    if offset >= |rows| then []
    else if offset + limit >= |rows| then rows[offset..]
    else rows[offset..offset + limit]
  }

  /** What the database answers; a slot with no integer bound to it is an error. */
  function RunData(sql: DataSql, params: seq<Value>, table: seq<Row>): Option<seq<Row>> {
    if 1 <= sql.limitSlot <= |params| && 1 <= sql.offsetSlot <= |params|
       && params[sql.limitSlot - 1].Int? && params[sql.limitSlot - 1].n >= 0
       && params[sql.offsetSlot - 1].Int? && params[sql.offsetSlot - 1].n >= 0
    then Some(Window(Ordered(sql.dir, Selected(table, Compiled(sql.conditions, params))),
                     params[sql.offsetSlot - 1].n, params[sql.limitSlot - 1].n))
    else None
  }

  lemma {:induction false} SelectedIgnoresMore(table: seq<Row>, w: Compiled, more: seq<Value>)
    requires Aligned(w)
    ensures Selected(table, Compiled(w.conditions, w.params + more)) == Selected(table, w)
  {
    if table != [] {
      var w' := Compiled(w.conditions, w.params + more);
      assert forall k | 0 <= k < |w.conditions| ::
          Eval(w'.conditions[k], w'.params, table[0]) == Eval(w.conditions[k], w.params, table[0]);
      SelectedIgnoresMore(table[1..], w, more);
    }
  }

  // ----- the query -----

  datatype Page = Page(entries: seq<Row>, total: nat, page: nat, perPage: nat, pages: nat)

  datatype Error = BadPage | BadPerPage

  /** The offset the statement is given: the u64 product, or 0 when it does not fit an i64. */
  function Offset(page: nat, perPage: nat): nat
    requires page > 0
  {
    var product := (page - 1) * perPage % U64_MODULUS;
    if product <= I64_MAX then product else 0
  }

  function PageCount(total: nat, perPage: nat): nat
    requires perPage > 0
  {
    if total == 0 then 0 else (total - 1) / perPage + 1
  }

  ghost function Listing(table: seq<Row>, q: Query): seq<Row> {
    Ordered(q.sortDir, Matching(table, q))
  }

  ghost function Answer(table: seq<Row>, q: Query): Result<Page, Error> {
    if q.page == 0 then Err(BadPage)
    else if q.perPage == 0 || q.perPage > 500 then Err(BadPerPage)
    else
      var total := |Matching(table, q)|;
      Ok(Page(Window(Listing(table, q), Offset(q.page, q.perPage), q.perPage),
              total, q.page, q.perPage, PageCount(total, q.perPage)))
  }

  /** LIMIT and OFFSET take the two slots after the conditions, and the statement
      yields the window of the listing that the query asks for. */
  lemma DataStatement(table: seq<Row>, q: Query, limit: nat, offset: nat)
    ensures var w := Where(q);
            var n := |w.params| + 1;
            RunData(DataSql(w.conditions, q.sortDir, n, n + 1), w.params + [Int(limit)] + [Int(offset)], table)
            == Some(Window(Listing(table, q), offset, limit))
  {
    var w := Where(q);
    WhereMeansCoded(q, WitnessRow(q, 0));
    var more := [Int(limit)] + [Int(offset)];
    assert w.params + [Int(limit)] + [Int(offset)] == w.params + more;
    SelectedIgnoresMore(table, w, more);
    SelectedIsMatching(table, q);
  }

  datatype Entry = Entry(
    ts: I64, requestId: string, verb: string, path: string, status: U16,
    durationMs: nat, remoteAddr: Option<string>, userAgent: Option<string>, userId: Option<string>)

  /** The row written for an entry; a duration beyond i64 is stored as the maximum. */
  function Stored(id: nat, e: Entry): Row {
    Row(id, e.ts, e.requestId, e.verb, e.path, e.status,
        if e.durationMs <= I64_MAX then e.durationMs else I64_MAX,
        e.remoteAddr, e.userAgent, e.userId)
  }

  /** A stored row and its entry agree in every column; the duration stops
      at the largest i64. */
  lemma StoredColumns(id: nat, e: Entry)
    ensures var row := Stored(id, e);
            && row.id == id && row.ts == e.ts && row.requestId == e.requestId && row.verb == e.verb
            && row.path == e.path && row.status == e.status && row.remoteAddr == e.remoteAddr
            && row.userAgent == e.userAgent && row.userId == e.userId
            && row.durationMs == (if e.durationMs < 0x8000_0000_0000_0000 then e.durationMs else 0x7FFF_FFFF_FFFF_FFFF)
  {
  }

  class AuditStore {
    var table: seq<Row>
    var lastId: nat

    ghost predicate Valid()
      reads this
    {
      && (forall i, j | 0 <= i < j < |table| :: table[i].id < table[j].id)
      && (forall i | 0 <= i < |table| :: table[i].id <= lastId)
    }

    constructor ()
      ensures Valid() && table == []
    {
      table, lastId := [], 0;
    }

    method Log(entry: Entry)
      requires Valid()
      modifies this
      ensures Valid() && DistinctIds(table)
      ensures table == old(table) + [Stored(old(lastId) + 1, entry)]
      ensures forall i | 0 <= i < |old(table)| :: old(table)[i].id < table[|old(table)|].id
    {
      lastId := lastId + 1;
      var duration: I64 := if entry.durationMs <= I64_MAX then entry.durationMs else I64_MAX;
      table := table + [Row(lastId, entry.ts, entry.requestId, entry.verb, entry.path, entry.status,
                            duration, entry.remoteAddr, entry.userAgent, entry.userId)];
    }

    /** Binding the page size and the offset after the filter parameters. */
    method PageParams(params: seq<Value>, perPage: nat, offset: nat) returns (all: seq<Value>)
      ensures all == params + [Int(if perPage <= I64_MAX then perPage else 50)]
                     + [Int(if offset <= I64_MAX then offset else 0)]
    {
      all := [];
      for i := 0 to |params|
        invariant all == params[..i]
      {
        all := all + [params[i]];
      }
      all := all + [Int(if perPage <= I64_MAX then perPage else 50)];
      all := all + [Int(if offset <= I64_MAX then offset else 0)];
    }

    method FetchPage(q: Query, conditions: seq<Cond>, params: seq<Value>, nextIdx: nat) returns (rows: seq<Row>)
      requires q.page > 0 && 0 < q.perPage <= 500
      requires Compiled(conditions, params) == Where(q) && nextIdx == |params| + 1
      ensures rows == Window(Listing(table, q), Offset(q.page, q.perPage), q.perPage)
    {
      var offset := (q.page - 1) * q.perPage % U64_MODULUS;
      var all := PageParams(params, q.perPage, offset);
      DataStatement(table, q, q.perPage, Offset(q.page, q.perPage));
      var sql := DataSql(conditions, q.sortDir, nextIdx, nextIdx + 1);
      rows := RunData(sql, all, table).value;
    }

    method CountAndFetch(q: Query) returns (total: nat, entries: seq<Row>)
      requires q.page > 0 && 0 < q.perPage <= 500
      ensures total == |Matching(table, q)|
      ensures entries == Window(Listing(table, q), Offset(q.page, q.perPage), q.perPage)
    {
      var conditions, params, nextIdx := BuildWhere(q);
      SelectedIsMatching(table, q);
      total := |Selected(table, Compiled(conditions, params))|;
      entries := FetchPage(q, conditions, params, nextIdx);
    }

    method RunQuery(q: Query) returns (r: Result<Page, Error>)
      ensures r == Answer(table, q)
    {
      if q.page == 0 {
        return Err(BadPage);
      }
      if q.perPage == 0 || q.perPage > 500 {
        return Err(BadPerPage);
      }
      var total, entries := CountAndFetch(q);
      var pages := PageCount(total, q.perPage);
      return Ok(Page(entries, total, q.page, q.perPage, pages));
    }
  }

  // ----- all the pages -----

  lemma MulMonotone(a: nat, b: nat, k: nat)
    requires a <= b
    ensures a * k <= b * k
  {
  }

  /** The page count is the ceiling of total / perPage. */
  lemma PageCountIsCeiling(total: nat, perPage: nat)
    requires perPage > 0
    ensures total <= PageCount(total, perPage) * perPage < total + perPage
  {
    if total > 0 {
      var k := (total - 1) / perPage;
      assert total - 1 == k * perPage + (total - 1) % perPage;
      assert (k + 1) * perPage == k * perPage + perPage;
    }
  }

  /** A product that fits an i64 is the offset that is used. */
  lemma OffsetFits(page: nat, perPage: nat)
    requires page > 0 && (page - 1) * perPage <= I64_MAX
    ensures Offset(page, perPage) == (page - 1) * perPage
  {
  }

  ghost function EntriesOf(table: seq<Row>, q: Query, page: nat): seq<Row>
    requires page > 0 && 0 < q.perPage <= 500
  {
    Answer(table, q.(page := page)).value.entries
  }

  /** The entries of pages 1 to n, one page after another. */
  ghost function Pages(table: seq<Row>, q: Query, n: nat): seq<Row>
    requires 0 < q.perPage <= 500
  {
    if n == 0 then [] else Pages(table, q, n - 1) + EntriesOf(table, q, n)
  }

  lemma {:induction false} MatchingIgnoresPage(table: seq<Row>, q: Query, page: nat)
    ensures Matching(table, q.(page := page)) == Matching(table, q)
  {
    if table != [] {
      MatchingIgnoresPage(table[1..], q, page);
    }
  }

  lemma EntriesAre(table: seq<Row>, q: Query, page: nat)
    requires page > 0 && 0 < q.perPage <= 500 && (page - 1) * q.perPage <= I64_MAX
    ensures EntriesOf(table, q, page) == Window(Listing(table, q), (page - 1) * q.perPage, q.perPage)
  {
    MatchingIgnoresPage(table, q, page);
    OffsetFits(page, q.perPage);
  }

  function Least(a: nat, b: nat): nat {
    if a <= b then a else b
  }

  lemma WindowExtends(rows: seq<Row>, offset: nat, limit: nat)
    ensures rows[..Least(offset, |rows|)] + Window(rows, offset, limit) == rows[..Least(offset + limit, |rows|)]
  {
  }

  lemma {:induction false} PagesArePrefix(table: seq<Row>, q: Query, n: nat)
    requires 0 < q.perPage <= 500 && n * q.perPage <= I64_MAX + q.perPage
    ensures Pages(table, q, n) == Listing(table, q)[..Least(n * q.perPage, |Listing(table, q)|)]
  {
    if n > 0 {
      assert n * q.perPage == (n - 1) * q.perPage + q.perPage;
      PagesArePrefix(table, q, n - 1);
      EntriesAre(table, q, n);
      WindowExtends(Listing(table, q), (n - 1) * q.perPage, q.perPage);
    }
  }

  lemma ListingSize(table: seq<Row>, q: Query)
    requires DistinctIds(table)
    ensures |Listing(table, q)| == |Matching(table, q)| <= |table|
  {
    MatchingRows(table, q);
    OrderedSorts(q.sortDir, Matching(table, q));
    assert |multiset(Listing(table, q))| == |multiset(Matching(table, q))|;
  }

  /** Pages 1 to `pages`, read one after another, are the whole listing. */
  lemma PagesCoverListing(table: seq<Row>, q: Query)
    requires 0 < q.perPage <= 500 && DistinctIds(table) && |table| <= I64_MAX
    ensures Pages(table, q, PageCount(|Matching(table, q)|, q.perPage)) == Listing(table, q)
  {
    var total := |Matching(table, q)|;
    var n := PageCount(total, q.perPage);
    ListingSize(table, q);
    PageCountIsCeiling(total, q.perPage);
    PagesArePrefix(table, q, n);
  }

  /** The listing is exactly the matching rows, once each: oldest first by (ts, id) in
      ascending order, newest first in descending order. */
  lemma ListingIsExact(table: seq<Row>, q: Query)
    requires DistinctIds(table)
    ensures var rows := Listing(table, q);
            forall i, j | 0 <= i < j < |rows| ::
              if q.sortDir == Asc
              then rows[i].ts < rows[j].ts || (rows[i].ts == rows[j].ts && rows[i].id < rows[j].id)
              else rows[i].ts > rows[j].ts || (rows[i].ts == rows[j].ts && rows[i].id > rows[j].id)
    ensures Sorted(q.sortDir, Listing(table, q))
    ensures multiset(Listing(table, q)) == multiset(Matching(table, q))
    ensures forall row :: row in Listing(table, q) <==> row in table && Coded(q, row)
    ensures DistinctIds(Listing(table, q))
  {
    var rows := Matching(table, q);
    MatchingRows(table, q);
    OrderedSorts(q.sortDir, rows);
    forall row
      ensures row in Listing(table, q) <==> row in rows
    {
      assert row in Listing(table, q) <==> row in multiset(Listing(table, q));
      assert row in rows <==> row in multiset(rows);
    }
    DistinctAfterSort(Listing(table, q), rows);
  }

  lemma DistinctAfterSort(a: seq<Row>, b: seq<Row>)
    requires multiset(a) == multiset(b) && DistinctIds(b)
    requires forall i, j | 0 <= i < j < |a| :: a[i] != a[j]
    ensures DistinctIds(a)
  {
    forall i, j | 0 <= i < j < |a|
      ensures a[i].id != a[j].id
    {
      assert a[i] in multiset(a) && a[j] in multiset(a);
      assert a[i] in b && a[j] in b;
    }
  }

  ghost function MatchingIds(table: seq<Row>, q: Query): set<nat> {
    set row | row in table && Coded(q, row) :: row.id
  }

  lemma MatchingIdsHead(table: seq<Row>, q: Query)
    requires DistinctIds(table) && table != []
    ensures table[0].id !in MatchingIds(table[1..], q)
    ensures MatchingIds(table, q) ==
            MatchingIds(table[1..], q) + (if Coded(q, table[0]) then {table[0].id} else {})
  {
    assert table == [table[0]] + table[1..];
  }

  lemma {:induction false} MatchingSize(table: seq<Row>, q: Query)
    requires DistinctIds(table)
    ensures |Matching(table, q)| == |MatchingIds(table, q)|
  {
    if table == [] {
      assert MatchingIds(table, q) == {};
    } else {
      MatchingSize(table[1..], q);
      MatchingIdsHead(table, q);
    }
  }

  /** What a reply says: the page numbers asked for, the number of matching rows, the
      least number of pages that holds them, and the rows of the listing from the
      offset on, at most one page of them. The offset is the u64 product, replaced by 0
      where it does not fit an i64. */
  lemma ReplyIs(table: seq<Row>, q: Query)
    requires q.page > 0 && 0 < q.perPage <= 500 && DistinctIds(table)
    ensures var reply := Answer(table, q);
            && reply.Ok? && reply.value.page == q.page && reply.value.perPage == q.perPage
            && reply.value.total == |MatchingIds(table, q)|
            && (forall n: nat :: n * q.perPage >= reply.value.total <==> n >= reply.value.pages)
    ensures var product := (q.page - 1) * q.perPage % 0x1_0000_0000_0000_0000;
            var offset := if product < 0x8000_0000_0000_0000 then product else 0;
            var entries, rows := Answer(table, q).value.entries, Listing(table, q);
            && |entries| == (if offset >= |rows| then 0 else Least(|rows| - offset, q.perPage))
            && forall k | 0 <= k < |entries| :: entries[k] == rows[offset + k]
  {
    MatchingSize(table, q);
    var total := |MatchingIds(table, q)|;
    forall n: nat
      ensures n * q.perPage >= total <==> n >= PageCount(total, q.perPage)
    {
      PageCountIsLeast(total, q.perPage, n);
    }
  }

  /** Bad page numbers are refused, the page before the page size. */
  lemma ReplyIsErrorIff(table: seq<Row>, q: Query)
    ensures Answer(table, q) == Err(BadPage) <==> q.page == 0
    ensures Answer(table, q) == Err(BadPerPage) <==> q.page > 0 && (q.perPage == 0 || q.perPage > 500)
  {
  }

  lemma PageCountIsLeast(total: nat, perPage: nat, n: nat)
    requires perPage > 0
    ensures n * perPage >= total <==> n >= PageCount(total, perPage)
  {
    var pages := PageCount(total, perPage);
    PageCountIsCeiling(total, perPage);
    if n >= pages {
      MulMonotone(pages, n, perPage);
    } else {
      MulMonotone(n, pages - 1, perPage);
      assert (pages - 1) * perPage == pages * perPage - perPage;
    }
  }

  /** Every page after the last is empty, as long as its offset fits an i64. */
  lemma LaterPagesEmpty(table: seq<Row>, q: Query, page: nat)
    requires 0 < q.perPage <= 500 && DistinctIds(table)
    requires page > PageCount(|Matching(table, q)|, q.perPage) && (page - 1) * q.perPage <= I64_MAX
    ensures EntriesOf(table, q, page) == []
  {
    var n := PageCount(|Matching(table, q)|, q.perPage);
    ListingSize(table, q);
    PageCountIsCeiling(|Matching(table, q)|, q.perPage);
    MulMonotone(n, page - 1, q.perPage);
    EntriesAre(table, q, page);
  }

  lemma FirstPageAgain(table: seq<Row>, q: Query, page: nat)
    requires 0 < q.perPage <= 500 && page > 0 && I64_MAX < (page - 1) * q.perPage < U64_MODULUS
    ensures EntriesOf(table, q, page) == EntriesOf(table, q, 1) == Window(Listing(table, q), 0, q.perPage)
  {
    MatchingIgnoresPage(table, q, page);
    assert Offset(page, q.perPage) == 0;
    EntriesAre(table, q, 1);
  }

  /** What happens beyond, for every page after the last: it is empty exactly when
      the offset that is used lies past the matching rows. A product that fits a u64
      but not an i64 is replaced by 0 and shows the first page again, so below 2^64 a
      later page is empty exactly when its offset fits or nothing matches. */
  lemma LaterPageEmptyIff(table: seq<Row>, q: Query, page: nat)
    requires 0 < q.perPage <= 500 && DistinctIds(table)
    requires page > PageCount(|Matching(table, q)|, q.perPage)
    ensures EntriesOf(table, q, page) == [] <==> Offset(page, q.perPage) >= |Matching(table, q)|
    ensures (page - 1) * q.perPage < U64_MODULUS ==>
              (EntriesOf(table, q, page) == [] <==>
               (page - 1) * q.perPage <= I64_MAX || Matching(table, q) == [])
    ensures I64_MAX < (page - 1) * q.perPage < U64_MODULUS ==>
              EntriesOf(table, q, page) == EntriesOf(table, q, 1)
  {
    ListingSize(table, q);
    MatchingIgnoresPage(table, q, page);
    if (page - 1) * q.perPage <= I64_MAX {
      LaterPagesEmpty(table, q, page);
    } else if (page - 1) * q.perPage < U64_MODULUS {
      FirstPageAgain(table, q, page);
    }
  }
}
