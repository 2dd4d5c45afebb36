/** Keyset paging over the alert table: newest update first, ties by identifier, each page
    starting after the last row of the page before. */
module AlertPaging {
  import opened Outcomes
  import Orders

  /** The columns that paging and filtering look at. `id` is the UUID as a number; `search` is the
      text the query filter is matched against. */
  datatype Entry = Entry(
    id: nat, updatedAt: int, state: string, sourceType: string, applicationId: string, serviceId: string,
    severity: string, monitorType: string, search: string)

  /** An empty filter field matches everything; `like` is the database's ILIKE. */
  datatype Filter = Filter(
    state: string, sourceType: string, applicationId: string, serviceId: string, severity: string,
    query: string, monitorType: string, like: (string, string) -> bool)
  {
    predicate Selects(e: Entry) {
      && (state == "" || e.state == state)
      && (sourceType == "" || e.sourceType == sourceType)
      && (applicationId == "" || e.applicationId == applicationId)
      && (serviceId == "" || e.serviceId == serviceId)
      && (severity == "" || e.severity == severity)
      && (query == "" || like(e.search, query))
      && (monitorType == "" || e.monitorType == monitorType)
    }
  }

  /** The zero value of Go's time. */
  const ZERO_TIME: int := 0

  datatype Cursor = Cursor(updatedAt: int, id: nat)

  datatype Page = Page(items: seq<Entry>, total: nat, hasMore: bool)

  /** Descending order of update time and identifier. */
  predicate Precedes(a: Cursor, b: Cursor) {
    a.updatedAt > b.updatedAt || (a.updatedAt == b.updatedAt && a.id > b.id)
  }

  function CursorOf(row: Entry): Cursor {
    Cursor(row.updatedAt, row.id)
  }

  predicate Newer(a: Entry, b: Entry) {
    Precedes(CursorOf(a), CursorOf(b))
  }

  ghost predicate UniqueIds(rows: set<Entry>) {
    forall a, b | a in rows && b in rows && a.id == b.id :: a == b
  }

  ghost predicate Ordered(rows: seq<Entry>) {
    Orders.Listed(Newer, rows)
  }

  // ---------------------------------------------------------------- ORDER BY

  ghost predicate IsNewest(m: Entry, rows: set<Entry>) {
    m in rows && forall r | r in rows && r != m :: Newer(m, r)
  }

  lemma {:induction false} NewestExists(rows: set<Entry>) returns (m: Entry)
    requires rows != {} && UniqueIds(rows)
    ensures IsNewest(m, rows)
    decreases |rows|
  {
    var first :| first in rows;
    var rest := rows - {first};
    m := first;
    if rest != {} {
      var best := NewestExists(rest);
      assert best.id != first.id;
      if Newer(best, first) {
        m := best;
      } else {
        forall r | r in rows && r != first ensures Newer(first, r) {
          assert r == best || Newer(best, r);
        }
      }
    }
  }

  /** The rows in descending order of update time and identifier. */
  ghost function Listing(rows: set<Entry>): seq<Entry>
    requires UniqueIds(rows)
    decreases |rows|
  {
    if rows == {} then []
    else
      assert exists m :: IsNewest(m, rows) by { var m := NewestExists(rows); }
      var m :| IsNewest(m, rows);
      [m] + Listing(rows - {m})
  }

  lemma NewestLeads(rows: set<Entry>, m: Entry, rest: seq<Entry>)
    requires IsNewest(m, rows) && Ordered(rest) && |rest| == |rows - {m}|
    requires forall r :: r in rest <==> r in rows - {m}
    ensures Ordered([m] + rest) && |[m] + rest| == |rows|
    ensures forall r :: r in [m] + rest <==> r in rows
  {
    forall j | 0 <= j < |rest| ensures Newer(m, rest[j]) {
      assert rest[j] in rest;
    }
  }

  lemma {:induction false} ListingFacts(rows: set<Entry>)
    requires UniqueIds(rows)
    ensures Ordered(Listing(rows)) && |Listing(rows)| == |rows|
    ensures forall r :: r in Listing(rows) <==> r in rows
    decreases |rows|
  {
    if rows != {} {
      assert exists m :: IsNewest(m, rows) by { var m := NewestExists(rows); }
      var m :| IsNewest(m, rows) && Listing(rows) == [m] + Listing(rows - {m});
      ListingFacts(rows - {m});
      NewestLeads(rows, m, Listing(rows - {m}));
    }
  }

  // ---------------------------------------------------------------- one page

  ghost function Matching(table: set<Entry>, filter: Filter): set<Entry> {
    set r | r in table && filter.Selects(r)
  }

  /** The rows the cursor condition lets through; a cursor with the zero time is no cursor. */
  ghost function Beyond(rows: set<Entry>, cursor: Option<Cursor>): set<Entry> {
    if cursor.None? || cursor.value.updatedAt == ZERO_TIME then rows
    else set r | r in rows && Precedes(cursor.value, CursorOf(r))
  }

  function PageLimit(limit: int): (n: nat)
    ensures 1 <= limit <= 200 ==> n == limit
    ensures limit < 1 ==> n == 50
    ensures limit > 200 ==> n == 200
  {
    if limit < 1 then 50 else if limit > 200 then 200 else limit
  }

  /** One row more than the limit is fetched to see whether there is more. */
  function Cut(rows: seq<Entry>, n: nat, total: nat): Page {
    var fetched := if |rows| > n + 1 then rows[..n + 1] else rows;
    if |fetched| > n then Page(fetched[..n], total, true) else Page(fetched, total, false)
  }

  ghost function PageOf(matching: set<Entry>, limit: int, cursor: Option<Cursor>): Page
    requires UniqueIds(matching)
  {
    Cut(Listing(Beyond(matching, cursor)), PageLimit(limit), |matching|)
  }

  ghost function ListFilteredPage(table: set<Entry>, filter: Filter, limit: int, cursor: Option<Cursor>): Page
    requires UniqueIds(table)
  {
    PageOf(Matching(table, filter), limit, cursor)
  }

  /** The matching rows that a cursor leaves, in plain terms; a zero time is no cursor. */
  ghost function RowsLeft(table: set<Entry>, filter: Filter, cursor: Option<Cursor>): set<Entry> {
    set r | r in table
            && (filter.state == "" || r.state == filter.state)
            && (filter.sourceType == "" || r.sourceType == filter.sourceType)
            && (filter.applicationId == "" || r.applicationId == filter.applicationId)
            && (filter.serviceId == "" || r.serviceId == filter.serviceId)
            && (filter.severity == "" || r.severity == filter.severity)
            && (filter.query == "" || filter.like(r.search, filter.query))
            && (filter.monitorType == "" || r.monitorType == filter.monitorType)
            && (cursor.None? || cursor.value.updatedAt == ZERO_TIME || r.updatedAt < cursor.value.updatedAt
                || (r.updatedAt == cursor.value.updatedAt && r.id < cursor.value.id))
  }

  lemma RowsLeftAre(table: set<Entry>, filter: Filter, cursor: Option<Cursor>)
    ensures RowsLeft(table, filter, cursor) == Beyond(Matching(table, filter), cursor)
    ensures RowsLeft(table, filter, None) == Matching(table, filter)
  {
    var matching := Matching(table, filter);
    assert RowsLeft(table, filter, None) == matching;
    forall r ensures r in RowsLeft(table, filter, cursor) <==> r in Beyond(matching, cursor) {
      assert r in RowsLeft(table, filter, None) <==> r in matching;
    }
  }

  /** Newest first, and by descending identifier among equals. */
  predicate ListedBefore(a: Entry, b: Entry) {
    a.updatedAt > b.updatedAt || (a.updatedAt == b.updatedAt && a.id > b.id)
  }

  ghost predicate NewestFirst(rows: seq<Entry>) {
    forall i, j | 0 <= i < j < |rows| :: ListedBefore(rows[i], rows[j])
  }

  /** What a page is, without saying how it is fetched: the newest of the rows left, newest
      first, as many as the limit allows; whether more are left; and the number of all matching
      rows. */
  ghost predicate NewestOf(page: Page, left: set<Entry>, n: nat) {
    && NewestFirst(page.items)
    && (forall r | r in page.items :: r in left)
    && (forall r, i | r in left && r !in page.items && 0 <= i < |page.items| :: ListedBefore(page.items[i], r))
    && |page.items| == (if |left| <= n then |left| else n)
    && (page.hasMore <==> |left| > n)
  }

  lemma PageIs(table: set<Entry>, filter: Filter, limit: int, cursor: Option<Cursor>)
    requires UniqueIds(table)
    ensures var page := ListFilteredPage(table, filter, limit, cursor);
            && NewestOf(page, RowsLeft(table, filter, cursor), if limit < 1 then 50 else if limit > 200 then 200 else limit)
            && page.total == |RowsLeft(table, filter, None)|
  {
    RowsLeftAre(table, filter, cursor);
    var left := Beyond(Matching(table, filter), cursor);
    ListingFacts(left);
    PrefixIsNewest(Listing(left), left, PageLimit(limit), |Matching(table, filter)|);
  }

  lemma PrefixIsNewest(list: seq<Entry>, rows: set<Entry>, n: nat, total: nat)
    requires Ordered(list) && |list| == |rows| && forall r :: r in list <==> r in rows
    ensures var page := Cut(list, n, total);
            NewestOf(page, rows, n) && page.total == total
  {
    var k := if |list| <= n then |list| else n;
    var page := Cut(list, n, total);
    assert page.items == list[..k];
    OrderedIsNewestFirst(list[..k]);
    forall r | r in rows && r !in list[..k] ensures forall i | 0 <= i < k :: ListedBefore(list[i], r) {
      LaterRow(list, k, r);
    }
  }

  lemma OrderedIsNewestFirst(list: seq<Entry>)
    requires Ordered(list)
    ensures NewestFirst(list)
  {
    assert forall i, j | 0 <= i < j < |list| :: Newer(list[i], list[j]);
  }

  lemma LaterRow(list: seq<Entry>, k: nat, r: Entry)
    requires Ordered(list) && k <= |list| && r in list && r !in list[..k]
    ensures forall i | 0 <= i < k :: ListedBefore(list[i], r)
  {
    assert list == list[..k] + list[k..] && r in list[k..];
    var m :| 0 <= m < |list[k..]| && list[k..][m] == r;
    assert forall i | 0 <= i < k :: Newer(list[i], list[k + m]);
  }

  // ---------------------------------------------------------------- following pages

  /** The rows seen by a reader who starts at `cursor` and goes on from the last row of each
      page until a page has no more, if that takes fewer than `bound` pages. */
  function Walk(fetch: Option<Cursor> -> Page, cursor: Option<Cursor>, bound: nat): Option<seq<Entry>>
    decreases bound
  {
    if bound == 0 then None
    else
      var page := fetch(cursor);
      if !page.hasMore || page.items == [] then Some(page.items)
      else
        match Walk(fetch, Some(CursorOf(page.items[|page.items| - 1])), bound - 1)
        case None => None
        case Some(rest) => Some(page.items + rest)
  }

  /** Pages of one filtered table that does not change. */
  ghost function Fetching(table: set<Entry>, filter: Filter, limit: int): Option<Cursor> -> Page
    requires UniqueIds(table)
  {
    cursor => ListFilteredPage(table, filter, limit, cursor)
  }

  lemma BeyondMember(rows: set<Entry>, list: seq<Entry>, k: nat, r: Entry)
    requires Ordered(list) && k < |list| && list[k].updatedAt != ZERO_TIME
    requires r in list <==> r in rows
    ensures r in Beyond(rows, Some(CursorOf(list[k]))) <==> r in list[k + 1..]
  {
    if r in list {
      var p :| 0 <= p < |list| && list[p] == r;
      if p > k {
        assert Newer(list[k], list[p]) && list[k + 1..][p - k - 1] == r;
      } else if p < k {
        assert Newer(list[p], list[k]);
      }
    }
  }

  lemma RestIsBeyond(rows: set<Entry>, list: seq<Entry>, beyond: seq<Entry>, k: nat)
    requires Ordered(list) && Ordered(beyond) && k < |list| && list[k].updatedAt != ZERO_TIME
    requires forall r :: r in list <==> r in rows
    requires forall r :: r in beyond <==> r in Beyond(rows, Some(CursorOf(list[k])))
    ensures beyond == list[k + 1..]
  {
    forall r ensures r in beyond <==> r in list[k + 1..] {
      BeyondMember(rows, list, k, r);
    }
    Orders.ListingUnique(Newer, beyond, list[k + 1..]);
  }

  /** Rows that come after the row at position `k` are exactly those its cursor lets through. */
  lemma BeyondPosition(rows: set<Entry>, list: seq<Entry>, k: nat)
    requires UniqueIds(rows) && list == Listing(rows) && k < |list| && list[k].updatedAt != ZERO_TIME
    ensures Listing(Beyond(rows, Some(CursorOf(list[k])))) == list[k + 1..]
  {
    var beyond := Beyond(rows, Some(CursorOf(list[k])));
    ListingFacts(rows);
    ListingFacts(beyond);
    RestIsBeyond(rows, list, Listing(beyond), k);
  }

  /** The reader stands after the first `from` rows of the listing. */
  ghost predicate StandsAfter(list: seq<Entry>, from: nat, cursor: Option<Cursor>) {
    && from <= |list|
    && if from == 0 then cursor == None
       else cursor == Some(CursorOf(list[from - 1])) && list[from - 1].updatedAt != ZERO_TIME
  }

  function Slice(list: seq<Entry>, from: nat, n: nat): seq<Entry>
    requires from <= |list|
  {
    if from + n < |list| then list[from..from + n] else list[from..]
  }

  lemma CutOfRest(list: seq<Entry>, from: nat, n: nat, total: nat)
    requires from <= |list|
    ensures Cut(list[from..], n, total) == Page(Slice(list, from, n), total, from + n < |list|)
  {
    if from + n < |list| {
      assert list[from..][..n + 1][..n] == list[from..from + n];
      assert list[from..][..n] == list[from..from + n];
    }
  }

  lemma RestFrom(matching: set<Entry>, list: seq<Entry>, cursor: Option<Cursor>, from: nat)
    requires UniqueIds(matching) && list == Listing(matching) && StandsAfter(list, from, cursor)
    ensures Listing(Beyond(matching, cursor)) == list[from..]
  {
    if from > 0 {
      BeyondPosition(matching, list, from - 1);
    } else {
      assert Beyond(matching, cursor) == matching && list[0..] == list;
    }
  }

  /** A page holds the rows that follow, up to the limit, and says whether more are left. */
  lemma PageAt(matching: set<Entry>, list: seq<Entry>, limit: int, cursor: Option<Cursor>, from: nat)
    requires UniqueIds(matching) && list == Listing(matching) && StandsAfter(list, from, cursor)
    ensures PageOf(matching, limit, cursor) ==
            Page(Slice(list, from, PageLimit(limit)), |list|, from + PageLimit(limit) < |list|)
  {
    assert |list| == |matching| by { ListingFacts(matching); }
    RestFrom(matching, list, cursor, from);
    CutOfRest(list, from, PageLimit(limit), |list|);
  }

  /** The page source serves the given listing in pages of `n` rows. */
  ghost predicate Serves(fetch: Option<Cursor> -> Page, list: seq<Entry>, n: nat) {
    forall cursor, from: nat | StandsAfter(list, from, cursor) ::
      fetch(cursor) == Page(Slice(list, from, n), |list|, from + n < |list|)
  }

  lemma {:induction false} WalkFrom(
    fetch: Option<Cursor> -> Page, n: nat, list: seq<Entry>, cursor: Option<Cursor>, from: nat, bound: nat)
    requires n >= 1 && Serves(fetch, list, n)
    requires forall i | 0 <= i < |list| :: list[i].updatedAt != ZERO_TIME
    requires StandsAfter(list, from, cursor) && |list| < from + bound
    ensures Walk(fetch, cursor, bound) == Some(list[from..])
    decreases bound
  {
    var end := from + n;
    assert fetch(cursor) == Page(Slice(list, from, n), |list|, end < |list|);
    if end < |list| {
      assert Slice(list, from, n) == list[from..end];
      WalkFrom(fetch, n, list, Some(CursorOf(list[end - 1])), end, bound - 1);
      assert list[from..] == list[from..end] + list[end..];
    }
  }

  lemma WalkIsListing(table: set<Entry>, filter: Filter, limit: int)
    requires UniqueIds(table) && forall r | r in Matching(table, filter) :: r.updatedAt != ZERO_TIME
    ensures Walk(Fetching(table, filter, limit), None, |Matching(table, filter)| + 1) == Some(Listing(Matching(table, filter)))
  {
    var matching := Matching(table, filter);
    var list := Listing(matching);
    ListingFacts(matching);
    NoZeroTimes(matching, list);
    FetchingServes(table, filter, limit);
    WalkFrom(Fetching(table, filter, limit), PageLimit(limit), list, None, 0, |matching| + 1);
    assert list[0..] == list;
  }

  /** Complete paging: on a table that does not change, with unique identifiers and no zero
      update times, the pages put together are the matching rows, each exactly once, newest
      first, within as many pages as there are rows, plus one. */
  lemma PagingIsComplete(table: set<Entry>, filter: Filter, limit: int)
    requires UniqueIds(table) && forall r | r in RowsLeft(table, filter, None) :: r.updatedAt != ZERO_TIME
    ensures var matching := RowsLeft(table, filter, None);
            var walked := Walk(Fetching(table, filter, limit), None, |matching| + 1);
            && walked.Some? && NewestFirst(walked.value) && |walked.value| == |matching|
            && (forall r :: r in walked.value <==> r in matching)
  {
    RowsLeftAre(table, filter, None);
    WalkIsListing(table, filter, limit);
    ListingFacts(Matching(table, filter));
    OrderedIsNewestFirst(Listing(Matching(table, filter)));
  }

  lemma NoZeroTimes(matching: set<Entry>, list: seq<Entry>)
    requires forall r :: r in list <==> r in matching
    requires forall r | r in matching :: r.updatedAt != ZERO_TIME
    ensures forall i | 0 <= i < |list| :: list[i].updatedAt != ZERO_TIME
  {
    forall i | 0 <= i < |list| ensures list[i].updatedAt != ZERO_TIME {
      assert list[i] in list;
    }
  }

  lemma FetchingServes(table: set<Entry>, filter: Filter, limit: int)
    requires UniqueIds(table)
    ensures Serves(Fetching(table, filter, limit), Listing(Matching(table, filter)), PageLimit(limit))
  {
    var list, n := Listing(Matching(table, filter)), PageLimit(limit);
    forall cursor, from: nat | StandsAfter(list, from, cursor)
      ensures Fetching(table, filter, limit)(cursor) == Page(Slice(list, from, n), |list|, from + n < |list|)
    {
      PageAt(Matching(table, filter), list, limit, cursor, from);
    }
  }

  /** The proviso on update times is exact for each page boundary: going on from a row leads to
      the rows after it exactly when its update time is not zero; from a row with the zero
      time the reader is sent back to the first page. Every page reports the full number. */
  lemma ContinuesIffNonZeroTime(matching: set<Entry>, list: seq<Entry>, limit: int, k: nat)
    requires UniqueIds(matching) && list == Listing(matching) && k < |list|
    ensures var next := PageOf(matching, limit, Some(CursorOf(list[k])));
            && (list[k].updatedAt == ZERO_TIME ==> next == PageOf(matching, limit, None))
            && (list[k].updatedAt != ZERO_TIME <==> next.items <= list[k + 1..])
            && next.total == |matching|
  {
    if list[k].updatedAt != ZERO_TIME {
      PageAt(matching, list, limit, Some(CursorOf(list[k])), k + 1);
      SliceOfRest(list, k + 1, PageLimit(limit));
    } else {
      PageAt(matching, list, limit, None, 0);
      assert Ordered(list) by { ListingFacts(matching); }
      FirstNotAmongLater(list, k, PageLimit(limit));
    }
  }

  lemma SliceOfRest(list: seq<Entry>, from: nat, n: nat)
    requires from <= |list|
    ensures Slice(list, from, n) <= list[from..]
  {
  }

  lemma FirstNotAmongLater(list: seq<Entry>, k: nat, n: nat)
    requires Ordered(list) && k < |list| && n >= 1
    ensures !(Slice(list, 0, n) <= list[k + 1..])
  {
    var items := Slice(list, 0, n);
    assert items[0] == list[0];
    if k + 1 < |list| {
      assert Newer(list[0], list[k + 1]) && list[k + 1..][0] == list[k + 1];
    }
  }
}
