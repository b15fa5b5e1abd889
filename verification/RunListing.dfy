// Keyset paging of analysis runs and of a run's matrix: one row beyond the limit is fetched to
// decide whether another page follows, and the cursor is the encoded key of the last row returned.
// First what the query gives a client that could hand on bare keys, then what a client gets by
// handing on the cursors it is given.
module RunListing {
  import opened Arithmetic
  import opened Outcomes
  import opened Keyset
  import opened PageCursors
  import opened RunAdmission
  import opened Sequences

  const DEFAULT_PAGE_LIMIT := 50
  const MIN_PAGE_LIMIT := 1
  const MAX_PAGE_LIMIT := 100

  datatype Page<+T> = Page(items: seq<Row<T>>, next: Option<Key>)

  function PageOf<T>(table: seq<Row<T>>, cursor: Option<Key>, limit: nat): (page: Page<T>)
    requires limit >= 1
    ensures page.next.Some? ==> |page.items| == limit && page.next.value == page.items[limit - 1].key
  {
    PageFrom(Select(table, cursor, limit + 1), limit)
  }

  // The page made of rows fetched one beyond the limit.
  function PageFrom<T>(rows: seq<Row<T>>, limit: nat): (page: Page<T>)
    requires limit >= 1
    ensures page.next.Some? ==> |page.items| == limit && page.next.value == page.items[limit - 1].key
  {
    if |rows| > limit then Page(rows[..limit], Some(rows[limit - 1].key)) else Page(rows, None)
  }

  // ----- the two listings -----

  datatype ListError = InvalidLimit | InvalidCursor | RunNotFound | RunNotSucceeded

  // How a listing turns the last row of a page into its cursor, and a cursor into a key.
  datatype Codec<!T> = Codec(encode: Row<T> -> Option<string>, decode: string -> Option<Key>)

  datatype Listed<+T> = Listed(items: seq<Row<T>>, next: Option<string>)

  function CursorKey<T>(codec: Codec<T>, cursor: Option<string>): Result<Option<Key>, ListError> {
    if cursor.None? then Ok(None)
    else
      var key := codec.decode(cursor.value);
      if key.None? then Err(InvalidCursor) else Ok(key)
  }

  function Listing<T>(codec: Codec<T>, table: seq<Row<T>>, cursor: Option<string>, limit: nat)
    : Result<Listed<T>, ListError>
    requires limit >= 1
  {
    var key := CursorKey(codec, cursor);
    if key.Err? then Err(InvalidCursor) else Answer(codec, PageOf(table, key.value, limit))
  }

  // A page as a client sees it: its cursor is that of its last row.
  function Answer<T>(codec: Codec<T>, page: Page<T>): Result<Listed<T>, ListError>
    requires page.next.Some? ==> page.items != []
  {
    if page.next.None? then Ok(Listed(page.items, None))
    else
      var next := codec.encode(page.items[|page.items| - 1]);
      if next.None? then Err(InvalidCursor) else Ok(Listed(page.items, next))
  }

  predicate ValidLimit(requested: Option<int>) {
    requested.Some? ==> 1 <= requested.value <= 100
  }

  method PageLimit(requested: Option<int>) returns (limit: Option<int>)
    ensures limit == if !ValidLimit(requested) then None else if requested.Some? then requested else Some(50)
  {
    if requested.None? {
      return Some(DEFAULT_PAGE_LIMIT);
    }
    if requested.value < MIN_PAGE_LIMIT || requested.value > MAX_PAGE_LIMIT {
      return None;
    }
    return requested;
  }

  method ReadPage<T>(codec: Codec<T>, table: seq<Row<T>>, cursor: Option<string>, limit: nat)
    returns (r: Result<Listed<T>, ListError>)
    requires limit >= 1
    ensures r == Listing(codec, table, cursor, limit)
  {
    var key: Option<Key> := None;
    if cursor.Some? {
      key := codec.decode(cursor.value);
      if key.None? {
        return Err(InvalidCursor);
      }
    }
    var rows := Select(table, key, limit + 1);
    var next: Option<string> := None;
    if |rows| > limit {
      next := codec.encode(rows[limit - 1]);
      rows := rows[..limit];
      if next.None? {
        return Err(InvalidCursor);
      }
    }
    return Ok(Listed(rows, next));
  }

  method ListRuns<T>(codec: Codec<T>, table: seq<Row<T>>, cursor: Option<string>, requested: Option<int>)
    returns (r: Result<Listed<T>, ListError>)
    ensures !ValidLimit(requested) ==> r == Err(InvalidLimit)
    ensures ValidLimit(requested) ==>
      r == Listing(codec, table, cursor, if requested.Some? then requested.value else 50)
    ensures r == Err(InvalidLimit) <==> requested.Some? && (requested.value < 1 || requested.value > 100)
    ensures r.Ok? && UniqueKeys(table) ==>
      && OldestFirst(r.value.items)
      && |r.value.items| <= (if requested.Some? then requested.value else 50)
      && (forall row :: row in r.value.items ==> row in table)
      && (r.value.next.None? && cursor.None? ==> forall row :: row in table ==> row in r.value.items)
      && (cursor.None? ==> forall row, item :: row in table && row !in r.value.items && item in r.value.items ==>
            item.key.at < row.key.at || (item.key.at == row.key.at && item.key.id < row.key.id))
  {
    var limit := PageLimit(requested);
    if limit.None? {
      return Err(InvalidLimit);
    }
    r := ReadPage(codec, table, cursor, limit.value);
    if r.Ok? && UniqueKeys(table) {
      ListingMeaning(codec, table, cursor, limit.value);
    }
  }

  datatype MatrixEntry = MatrixEntry(itemId: string, proposedStatus: string, systemStatus: string)

  datatype MatrixPage = MatrixPage(page: Listed<MatrixEntry>, total: nat)

  predicate WithStatus(status: Option<string>, row: Row<MatrixEntry>) {
    status.Some? ==> row.value.proposedStatus == status.value || row.value.systemStatus == status.value
  }

  // The matrix of a run that has succeeded; `run` is None for an unknown run.
  method GetRunMatrix(codec: Codec<MatrixEntry>, run: Option<Status>, table: seq<Row<MatrixEntry>>,
                      cursor: Option<string>, requested: Option<int>, status: Option<string>)
    returns (r: Result<MatrixPage, ListError>)
    ensures !ValidLimit(requested) ==> r == Err(InvalidLimit)
    ensures r == Err(InvalidLimit) <==> requested.Some? && (requested.value < 1 || requested.value > 100)
    ensures ValidLimit(requested) && run != Some(Succeeded) ==>
      r == Err(if run.None? then RunNotFound else RunNotSucceeded)
    ensures ValidLimit(requested) && run == Some(Succeeded) ==>
      var rows := Filter(table, (row: Row<MatrixEntry>) =>
                           || status.None?
                           || row.value.proposedStatus == status.value || row.value.systemStatus == status.value);
      var page := Listing(codec, rows, cursor, if requested.Some? then requested.value else 50);
      r == if page.Err? then Err(page.error) else Ok(MatrixPage(page.value, |rows|))
  {
    var limit := PageLimit(requested);
    if limit.None? {
      return Err(InvalidLimit);
    }
    if run.None? {
      return Err(RunNotFound);
    }
    if run.value != Succeeded {
      return Err(RunNotSucceeded);
    }
    var rows := Filter(table, row => WithStatus(status, row));
    FilterCongruent(table, row => WithStatus(status, row), (row: Row<MatrixEntry>) =>
                      || status.None?
                      || row.value.proposedStatus == status.value || row.value.systemStatus == status.value);
    var total := |rows|;
    var page := ReadPage(codec, rows, cursor, limit.value);
    if page.Err? {
      return Err(page.error);
    }
    return Ok(MatrixPage(page.value, total));
  }

  // ----- one page -----

  // A page keeps a prefix of the fetched rows, and leaves out only rows beyond its next cursor.
  lemma {:induction false} PageFromMeaning<T>(rows: seq<Row<T>>, limit: nat)
    requires limit >= 1 && Ascending(rows)
    ensures var page := PageFrom(rows, limit);
            && |page.items| <= limit
            && Ascending(page.items)
            && (forall r :: r in page.items ==> r in rows)
            && (page.next.None? ==> page.items == rows && |rows| <= limit)
            && (page.next.Some? ==> LastOf(page, rows, limit))
            && (forall r :: r in rows && r !in page.items ==> page.next.Some? && Less(page.next.value, r.key))
  {
    TakeMeaning(rows, limit);
    if |rows| > limit {
      var items := rows[..limit];
      assert items == Take(rows, limit) && items[limit - 1] == rows[limit - 1];
      assert rows[limit - 1] in items;
    }
  }

  ghost predicate LastOf<T>(page: Page<T>, rows: seq<Row<T>>, limit: nat)
    requires limit >= 1
  {
    |page.items| == limit < |rows| && page.items[limit - 1] in rows && page.next == Some(page.items[limit - 1].key)
  }

  // A page is an ascending run beyond the cursor; between the cursor and its own next cursor (or
  // the end) it leaves out no row of the table.
  lemma {:induction false} PageByKey<T>(table: seq<Row<T>>, cursor: Option<Key>, limit: nat)
    requires limit >= 1 && UniqueKeys(table)
    ensures var page := PageOf(table, cursor, limit);
            && |page.items| <= limit
            && Ascending(page.items)
            && (forall r :: r in page.items ==> r in table && Beyond(cursor, r.key))
            && (forall r :: r in table && Beyond(cursor, r.key) && r !in page.items ==>
                  page.next.Some? && Less(page.next.value, r.key))
            && (page.next.Some? ==>
                  |page.items| == limit && page.next.value == page.items[limit - 1].key)
  {
    var rows := Select(table, cursor, limit + 1);
    SelectByKey(table, cursor, limit + 1);
    PageFromMeaning(rows, limit);
  }

  // The items go by ascending request time and, at equal times, by ascending id.
  ghost predicate OldestFirst<T>(items: seq<Row<T>>) {
    forall i, j :: 0 <= i < j < |items| ==>
      items[i].key.at < items[j].key.at || (items[i].key.at == items[j].key.at && items[i].key.id < items[j].key.id)
  }

  // The same on the two columns: a page goes by ascending time, then id, from after the cursor, and
  // a row beyond the cursor that it leaves out is later than its next cursor, which is the key of
  // its last row.
  lemma {:induction false} PageMeaning<T>(table: seq<Row<T>>, cursor: Option<Key>, limit: nat)
    requires limit >= 1 && UniqueKeys(table)
    ensures var page := PageOf(table, cursor, limit);
            && |page.items| <= limit
            && OldestFirst(page.items)
            && (forall r :: r in page.items ==> r in table)
            && (cursor.Some? ==> forall r :: r in page.items ==>
                  || cursor.value.at < r.key.at
                  || (cursor.value.at == r.key.at && cursor.value.id < r.key.id))
            && (forall r :: r in table && r !in page.items
                  && (cursor.Some? ==> || cursor.value.at < r.key.at
                                       || (cursor.value.at == r.key.at && cursor.value.id < r.key.id))
                  ==> page.next.Some?
                      && (|| page.next.value.at < r.key.at
                          || (page.next.value.at == r.key.at && page.next.value.id < r.key.id)))
            && (page.next.Some? ==> |page.items| == limit && page.next.value == page.items[limit - 1].key)
  {
    PageByKey(table, cursor, limit);
    var page := PageOf(table, cursor, limit);
    assert Ascending(page.items);
  }

  lemma {:induction false} ListingMeaning<T>(codec: Codec<T>, table: seq<Row<T>>, cursor: Option<string>, limit: nat)
    requires limit >= 1 && UniqueKeys(table) && Listing(codec, table, cursor, limit).Ok?
    ensures var page := Listing(codec, table, cursor, limit).value;
            && OldestFirst(page.items) && |page.items| <= limit
            && (forall row :: row in page.items ==> row in table)
            && (page.next.None? && cursor.None? ==> forall row :: row in table ==> row in page.items)
            && (cursor.None? ==> forall row, item :: row in table && row !in page.items && item in page.items ==>
                  item.key.at < row.key.at || (item.key.at == row.key.at && item.key.id < row.key.id))
  {
    var key := CursorKey(codec, cursor).value;
    PageMeaning(table, key, limit);
    SelectMeaning(table, key, limit + 1);
    var page := PageOf(table, key, limit);
    forall row, item | cursor.None? && row in table && row !in page.items && item in page.items
      ensures item.key.at < row.key.at || (item.key.at == row.key.at && item.key.id < row.key.id)
    {
      var i :| 0 <= i < |page.items| && page.items[i] == item;
      assert page.next.value == page.items[limit - 1].key;
    }
  }

  // ----- walking the pages by key -----

  // What a client that hands on keys collects; page i is read from tables[i], so rows may be
  // inserted, changed or deleted between pages.
  datatype Collected<+T> = Collected(rows: seq<Row<T>>, finished: bool, pages: nat)

  function WalkPages<T>(tables: seq<seq<Row<T>>>, cursor: Option<Key>, limit: nat): (c: Collected<T>)
    requires limit >= 1
    ensures c.pages <= |tables|
  {
    if tables == [] then Collected([], false, 0)
    else
      var page := PageOf(tables[0], cursor, limit);
      if page.next.None? then Collected(page.items, true, 1)
      else
        var rest := WalkPages(tables[1..], page.next, limit);
        Collected(page.items + rest.rows, rest.finished, rest.pages + 1)
  }

  ghost predicate HasKey<T>(table: seq<Row<T>>, k: Key) {
    exists r :: r in table && r.key == k
  }

  ghost predicate AllUnique<T>(tables: seq<seq<Row<T>>>) {
    forall i :: 0 <= i < |tables| ==> UniqueKeys(tables[i])
  }

  // One page of a walk, given the walk of the rest.
  lemma {:induction false} WalkOn<T>(tables: seq<seq<Row<T>>>, cursor: Option<Key>, limit: nat, page: Page<T>,
                                     rest: Collected<T>) returns (c: Collected<T>)
    requires limit >= 1 && tables != [] && PageOf(tables[0], cursor, limit) == page
    requires page.next.Some? ==> rest == WalkPages(tables[1..], page.next, limit)
    ensures c == WalkPages(tables, cursor, limit)
    ensures c == if page.next.None? then Collected(page.items, true, 1)
                 else Collected(page.items + rest.rows, rest.finished, rest.pages + 1)
  {
    c := WalkPages(tables, cursor, limit);
  }

  // Every row was in the table of one of the first pages.
  ghost predicate FromPages<T>(rows: seq<Row<T>>, tables: seq<seq<Row<T>>>, pages: nat)
    requires pages <= |tables|
  {
    forall r :: r in rows ==> exists i :: 0 <= i < pages && r in tables[i]
  }

  lemma {:induction false} FromOnePage<T>(items: seq<Row<T>>, tables: seq<seq<Row<T>>>)
    requires tables != [] && forall r :: r in items ==> r in tables[0]
    ensures FromPages(items, tables, 1)
  {
  }

  lemma {:induction false} FromMorePages<T>(items: seq<Row<T>>, rest: seq<Row<T>>, tables: seq<seq<Row<T>>>, pages: nat)
    requires tables != [] && pages <= |tables[1..]| && FromPages(rest, tables[1..], pages)
    requires forall r :: r in items ==> r in tables[0]
    ensures FromPages(items + rest, tables, pages + 1)
  {
    forall r | r in items + rest ensures exists i :: 0 <= i < pages + 1 && r in tables[i] {
      if r !in items {
        assert r in rest;
        var i :| 0 <= i < pages && r in tables[1..][i];
        assert r in tables[i + 1];
      }
    }
  }

  // The query's side of paging. Whatever happens to the table between pages, rows collected by key
  // are in strict key order, so no key is returned twice, and each was in the table of some page.
  lemma {:induction false} WalkInOrder<T>(tables: seq<seq<Row<T>>>, cursor: Option<Key>, limit: nat)
    requires limit >= 1 && AllUnique(tables)
    ensures var c := WalkPages(tables, cursor, limit);
            && Ascending(c.rows)
            && (forall r :: r in c.rows ==> Beyond(cursor, r.key))
            && FromPages(c.rows, tables, c.pages)
  {
    hide PageOf, Sorted;
    if tables != [] {
      var page := PageOf(tables[0], cursor, limit);
      PageByKey(tables[0], cursor, limit);
      if page.next.None? {
        var c := WalkOn(tables, cursor, limit, page, Collected([], false, 0));
        FromOnePage(page.items, tables);
      } else {
        var rest := WalkPages(tables[1..], page.next, limit);
        WalkInOrder(tables[1..], page.next, limit);
        var c := WalkOn(tables, cursor, limit, page, rest);
        assert page.items[limit - 1] in page.items;
        JoinedPages(page.items, rest.rows, page.next.value);
        BothBeyond(cursor, page.items, rest.rows, page.next.value);
        FromMorePages(page.items, rest.rows, tables, rest.pages);
      }
    }
  }

  // Once a walk by key finishes, every key that was in the table at each of its pages has been returned.
  lemma {:induction false} WalkMissesNothing<T>(tables: seq<seq<Row<T>>>, cursor: Option<Key>, limit: nat, k: Key)
    requires limit >= 1 && AllUnique(tables) && WalkPages(tables, cursor, limit).finished
    requires Beyond(cursor, k)
    requires forall i :: 0 <= i < WalkPages(tables, cursor, limit).pages ==> HasKey(tables[i], k)
    ensures HasKey(WalkPages(tables, cursor, limit).rows, k)
  {
    var page := PageOf(tables[0], cursor, limit);
    PageByKey(tables[0], cursor, limit);
    assert HasKey(tables[0], k);
    var r :| r in tables[0] && r.key == k;
    if r in page.items {
      assert r in WalkPages(tables, cursor, limit).rows;
    } else {
      var rest := WalkPages(tables[1..], page.next, limit);
      forall i | 0 <= i < rest.pages ensures HasKey(tables[1..][i], k) {
        assert HasKey(tables[i + 1], k);
      }
      WalkMissesNothing(tables[1..], page.next, limit, k);
      var q :| q in rest.rows && q.key == k;
      assert q in WalkPages(tables, cursor, limit).rows;
    }
  }

  // ----- a table at rest, by key -----

  // Full pages, then a last one that is full or partial; an empty table still answers one page.
  function PagesNeeded(rows: nat, limit: nat): nat
    requires limit >= 1
  {
    if rows <= limit then 1 else 1 + PagesNeeded(rows - limit, limit)
  }

  lemma {:induction false} OnePageLess(rows: nat, fewer: nat, limit: nat)
    requires limit >= 1 && rows > limit && fewer == rows - limit
    ensures PagesNeeded(rows, limit) == PagesNeeded(fewer, limit) + 1
  {
  }

  lemma {:induction false} PageAtRest<T>(table: seq<Row<T>>, all: seq<Row<T>>, k: nat, limit: nat)
    requires limit >= 1 && UniqueKeys(table) && k <= |all| == |table| && all == Sorted(table)
    ensures PageOf(table, CursorAt(all, k), limit)
         == if |all| - k > limit then Page(all[k..k + limit], CursorAt(all, k + limit)) else Page(all[k..], None)
  {
    SelectResumes(table, k, limit + 1);
    assert Select(table, CursorAt(all, k), limit + 1) == Take(all[k..], limit + 1);
    PageFromTake(all, k, limit);
  }

  lemma {:induction false} PageFromTake<T>(all: seq<Row<T>>, k: nat, limit: nat)
    requires limit >= 1 && k <= |all|
    ensures PageFrom(Take(all[k..], limit + 1), limit)
         == if |all| - k > limit then Page(all[k..k + limit], CursorAt(all, k + limit)) else Page(all[k..], None)
  {
    if |all| - k > limit {
      assert Take(all[k..], limit + 1)[..limit] == all[k..k + limit];
    }
  }

  ghost predicate AtRest<T>(tables: seq<seq<Row<T>>>, table: seq<Row<T>>) {
    forall i :: 0 <= i < |tables| ==> tables[i] == table
  }

  lemma {:induction false} WalkFromPosition<T>(tables: seq<seq<Row<T>>>, table: seq<Row<T>>, all: seq<Row<T>>, k: nat,
                                               limit: nat) returns (c: Collected<T>)
    requires limit >= 1 && UniqueKeys(table) && k <= |all| == |table| && all == Sorted(table)
    requires AtRest(tables, table) && |tables| >= PagesNeeded(|all| - k, limit)
    ensures c == WalkPages(tables, CursorAt(all, k), limit)
    ensures c.rows == all[k..] && c.finished && c.pages == PagesNeeded(|all| - k, limit)
    decreases |tables|
  {
    hide PageOf, Sorted, WalkPages;
    if |all| - k > limit {
      var rest := WalkFromPosition(tables[1..], table, all, k + limit, limit);
      OnePageLess(|all| - k, |all| - (k + limit), limit);
      c := AddPage(tables, table, all, k, limit, rest);
      SliceJoin(all, k, k + limit);
    } else {
      PageAtRest(table, all, k, limit);
      c := WalkOn(tables, CursorAt(all, k), limit, Page(all[k..], None), Collected([], false, 0));
    }
  }

  lemma {:induction false} AddPage<T>(tables: seq<seq<Row<T>>>, table: seq<Row<T>>, all: seq<Row<T>>, k: nat,
                                      limit: nat, rest: Collected<T>) returns (c: Collected<T>)
    requires limit >= 1 && UniqueKeys(table) && k + limit < |all| == |table| && all == Sorted(table)
    requires tables != [] && tables[0] == table
    requires rest == WalkPages(tables[1..], CursorAt(all, k + limit), limit)
    ensures c == WalkPages(tables, CursorAt(all, k), limit)
    ensures c.rows == all[k..k + limit] + rest.rows && c.finished == rest.finished && c.pages == rest.pages + 1
  {
    PageAtRest(table, all, k, limit);
    c := WalkOn(tables, CursorAt(all, k), limit, Page(all[k..k + limit], CursorAt(all, k + limit)), rest);
  }

  // Over a table that does not change, the walk by key ends after exactly the pages the rows need and
  // collects the whole table in key order.
  lemma {:induction false} FixedTableWalk<T>(tables: seq<seq<Row<T>>>, table: seq<Row<T>>, limit: nat)
    requires limit >= 1 && UniqueKeys(table)
    requires AtRest(tables, table) && |tables| >= PagesNeeded(|table|, limit)
    ensures var c := WalkPages(tables, None, limit);
            && c == Collected(Sorted(table), true, PagesNeeded(|table|, limit))
            && multiset(c.rows) == multiset(table)
  {
    SortedPermutes(table);
    var c := WalkFromPosition(tables, table, Sorted(table), 0, limit);
  }

  // ----- walking the pages by cursor -----

  // How a client's walk ends: at a page without a cursor, at a cursor that is rejected, or with
  // pages still to read.
  datatype Ending = Finished | Rejected | Unfinished

  datatype Followed<+T> = Followed(rows: seq<Row<T>>, ending: Ending, pages: nat)

  // What a client collects by sending back the cursors it is given.
  function Follow<T>(codec: Codec<T>, tables: seq<seq<Row<T>>>, cursor: Option<string>, limit: nat): Followed<T>
    requires limit >= 1
  {
    if tables == [] then Followed([], Unfinished, 0)
    else
      var page := Listing(codec, tables[0], cursor, limit);
      if page.Err? then Followed([], Rejected, 0)
      else if page.value.next.None? then Followed(page.value.items, Finished, 1)
      else
        var rest := Follow(codec, tables[1..], page.value.next, limit);
        Followed(page.value.items + rest.rows, rest.ending, rest.pages + 1)
  }

  // A row's cursor is accepted back.
  predicate Readable<T>(codec: Codec<T>, r: Row<T>) {
    codec.encode(r).Some? && codec.decode(codec.encode(r).value) == Some(r.key)
  }

  // A row's cursor can be made, and is either accepted back or rejected.
  predicate Sound<T>(codec: Codec<T>, r: Row<T>) {
    codec.encode(r).Some? && (Readable(codec, r) || codec.decode(codec.encode(r).value).None?)
  }

  ghost predicate AllSound<T>(codec: Codec<T>, tables: seq<seq<Row<T>>>) {
    forall i, r :: 0 <= i < |tables| && r in tables[i] ==> Sound(codec, r)
  }

  predicate RowsSound<T>(codec: Codec<T>, all: seq<Row<T>>, n: nat)
    requires n <= |all|
  {
    n == 0 || (Sound(codec, all[n - 1]) && RowsSound(codec, all, n - 1))
  }

  lemma {:induction false} RowsSoundIff<T>(codec: Codec<T>, all: seq<Row<T>>, n: nat)
    requires n <= |all|
    ensures RowsSound(codec, all, n) <==> forall i :: 0 <= i < n ==> Sound(codec, all[i])
  {
    if n > 0 {
      RowsSoundIff(codec, all, n - 1);
    }
  }

  lemma {:induction false} SoundAt<T>(codec: Codec<T>, all: seq<Row<T>>, i: nat)
    requires i < |all| && RowsSound(codec, all, |all|)
    ensures Sound(codec, all[i])
  {
    RowsSoundIff(codec, all, |all|);
  }

  // One page by cursor, given the walk of the rest.
  lemma {:induction false} FollowOn<T>(codec: Codec<T>, tables: seq<seq<Row<T>>>, cursor: Option<string>,
                                       key: Option<Key>, limit: nat, page: Page<T>) returns (f: Followed<T>)
    requires limit >= 1 && tables != [] && CursorKey(codec, cursor) == Ok(key)
    requires page == PageOf(tables[0], key, limit)
    requires page.next.Some? ==> Sound(codec, page.items[limit - 1])
    ensures f == Follow(codec, tables, cursor, limit)
    ensures page.next.None? ==> f == Followed(page.items, Finished, 1)
    ensures page.next.Some? ==>
      var next := codec.encode(page.items[limit - 1]);
      var rest := Follow(codec, tables[1..], next, limit);
      f == Followed(page.items + rest.rows, rest.ending, rest.pages + 1)
      && (Readable(codec, page.items[limit - 1]) ==> CursorKey(codec, next) == Ok(page.next))
      && (!Readable(codec, page.items[limit - 1]) && |tables| > 1 ==> rest == Followed([], Rejected, 0))
  {
    hide PageOf, Sorted;
    f := Follow(codec, tables, cursor, limit);
    assert Listing(codec, tables[0], cursor, limit) == Answer(codec, page);
  }

  // As long as no cursor is rejected, a client following cursors collects what the walk by key
  // collects; a rejected cursor cuts that short.
  lemma {:induction false} FollowIsWalk<T>(codec: Codec<T>, tables: seq<seq<Row<T>>>, cursor: Option<string>,
                                           key: Option<Key>, limit: nat)
    requires limit >= 1 && AllSound(codec, tables) && AllUnique(tables)
    requires CursorKey(codec, cursor) == Ok(key)
    ensures var f, w := Follow(codec, tables, cursor, limit), WalkPages(tables, key, limit);
            && f.rows <= w.rows
            && (f.ending != Rejected ==>
                  f.rows == w.rows && f.pages == w.pages && (f.ending == Finished <==> w.finished))
    decreases |tables|
  {
    if tables != [] {
      var page := PageOf(tables[0], key, limit);
      PageByKey(tables[0], key, limit);
      if page.next.Some? {
        assert page.items[limit - 1] in page.items;
        var f := FollowOn(codec, tables, cursor, key, limit, page);
        var w := WalkOn(tables, key, limit, page, WalkPages(tables[1..], page.next, limit));
        if Readable(codec, page.items[limit - 1]) {
          FollowIsWalk(codec, tables[1..], codec.encode(page.items[limit - 1]), page.next, limit);
        }
      } else {
        var f := FollowOn(codec, tables, cursor, key, limit, page);
      }
    }
  }

  // So a client whose walk finishes has every key that was there throughout, each once and in
  // order, whatever was inserted, changed or deleted between pages.
  lemma {:induction false} FinishedWalkMissesNothing<T>(codec: Codec<T>, tables: seq<seq<Row<T>>>, limit: nat)
    requires limit >= 1 && AllSound(codec, tables) && AllUnique(tables)
    requires Follow(codec, tables, None, limit).ending == Finished
    ensures var f := Follow(codec, tables, None, limit);
            && Ascending(f.rows)
            && f.pages <= |tables|
            && FromPages(f.rows, tables, f.pages)
            && (forall k: Key :: (forall i :: 0 <= i < f.pages ==> HasKey(tables[i], k)) ==> HasKey(f.rows, k))
  {
    FollowIsWalk(codec, tables, None, None, limit);
    WalkInOrder(tables, None, limit);
    var f := Follow(codec, tables, None, limit);
    forall k: Key | forall i :: 0 <= i < f.pages ==> HasKey(tables[i], k) ensures HasKey(f.rows, k) {
      WalkMissesNothing(tables, None, limit, k);
    }
  }

  // ----- a table at rest, by cursor -----

  // How many rows a client has when its walk ends, having collected k.
  function StopsAt<T>(codec: Codec<T>, all: seq<Row<T>>, k: nat, limit: nat): (n: nat)
    requires limit >= 1 && k <= |all|
    ensures k <= n <= |all|
    decreases |all| - k
  {
    if |all| - k <= limit then |all|
    else if Readable(codec, all[k + limit - 1]) then StopsAt(codec, all, k + limit, limit)
    else k + limit
  }

  // A page ends after m rows, with more to come.
  predicate PageEnds(m: int, rows: nat, limit: nat)
    requires limit >= 1
  {
    0 < m < rows && m % limit == 0
  }

  ghost predicate BoundariesReadable<T>(codec: Codec<T>, all: seq<Row<T>>, k: nat, limit: nat)
    requires limit >= 1
  {
    forall m :: k < m && PageEnds(m, |all|, limit) ==> Readable(codec, all[m - 1])
  }

  lemma {:induction false} StopsAtEndIff<T>(codec: Codec<T>, all: seq<Row<T>>, k: nat, limit: nat)
    requires limit >= 1 && k <= |all| && k % limit == 0
    ensures StopsAt(codec, all, k, limit) == |all| <==> BoundariesReadable(codec, all, k, limit)
    decreases |all| - k
  {
    forall m | k < m < k + limit ensures m % limit != 0 {
      BetweenMultiples(k, m, limit);
    }
    if |all| - k > limit {
      BetweenMultiples(k, k + limit, limit);
      assert PageEnds(k + limit, |all|, limit);
      StopsAtEndIff(codec, all, k + limit, limit);
      assert BoundariesReadable(codec, all, k, limit)
        <==> Readable(codec, all[k + limit - 1]) && BoundariesReadable(codec, all, k + limit, limit);
    }
  }

  // The walk from position k and, when a page follows, the walk from there.
  lemma {:induction false} FollowPage<T>(codec: Codec<T>, tables: seq<seq<Row<T>>>, table: seq<Row<T>>,
                                         all: seq<Row<T>>, k: nat, cursor: Option<string>, limit: nat)
    returns (f: Followed<T>, next: Option<string>, rest: Followed<T>)
    requires limit >= 1 && UniqueKeys(table) && k <= |all| == |table| && all == Sorted(table)
    requires |tables| >= 1 && tables[0] == table
    requires |all| - k > limit ==> Sound(codec, all[k + limit - 1])
    requires CursorKey(codec, cursor) == Ok(CursorAt(all, k))
    ensures f == Follow(codec, tables, cursor, limit) && rest == Follow(codec, tables[1..], next, limit)
    ensures |all| - k <= limit ==> f == Followed(all[k..], Finished, 1)
    ensures |all| - k > limit ==>
      && f == Followed(all[k..k + limit] + rest.rows, rest.ending, rest.pages + 1)
      && (Readable(codec, all[k + limit - 1]) ==> CursorKey(codec, next) == Ok(CursorAt(all, k + limit)))
      && (!Readable(codec, all[k + limit - 1]) && |tables| > 1 ==> rest == Followed([], Rejected, 0))
  {
    PageAtRest(table, all, k, limit);
    var page := PageOf(table, CursorAt(all, k), limit);
    next := None;
    if |all| - k > limit {
      next := codec.encode(all[k + limit - 1]);
      assert page.items[limit - 1] == all[k + limit - 1];
    }
    rest := Follow(codec, tables[1..], next, limit);
    f := FollowOn(codec, tables, cursor, CursorAt(all, k), limit, page);
  }

  // The table does not change, and `all` is its rows in key order.
  ghost predicate Resting<T>(tables: seq<seq<Row<T>>>, table: seq<Row<T>>, all: seq<Row<T>>) {
    AtRest(tables, table) && UniqueKeys(table) && |all| == |table| && all == Sorted(table)
  }

  lemma {:induction false} RestingTail<T>(tables: seq<seq<Row<T>>>, table: seq<Row<T>>, all: seq<Row<T>>)
    requires Resting(tables, table, all) && tables != []
    ensures tables[0] == table && Resting(tables[1..], table, all)
  {
  }

  // What following cursors through the ordered rows comes to.
  function FollowRows<T>(codec: Codec<T>, all: seq<Row<T>>, k: nat, limit: nat): Followed<T>
    requires limit >= 1 && k <= |all|
    decreases |all| - k
  {
    if |all| - k <= limit then Followed(all[k..], Finished, 1)
    else
      var rest := if Readable(codec, all[k + limit - 1]) then FollowRows(codec, all, k + limit, limit)
                  else Followed([], Rejected, 0);
      Followed(all[k..k + limit] + rest.rows, rest.ending, rest.pages + 1)
  }

  lemma {:induction false} FollowRowsStep<T>(codec: Codec<T>, all: seq<Row<T>>, k: nat, limit: nat, rest: Followed<T>)
    requires limit >= 1 && k <= |all| && |all| - k > limit
    requires rest == if Readable(codec, all[k + limit - 1]) then FollowRows(codec, all, k + limit, limit)
                     else Followed([], Rejected, 0)
    ensures FollowRows(codec, all, k, limit) == Followed(all[k..k + limit] + rest.rows, rest.ending, rest.pages + 1)
  {
  }

  lemma {:induction false} FollowFromPosition<T>(codec: Codec<T>, tables: seq<seq<Row<T>>>, table: seq<Row<T>>,
                                                 all: seq<Row<T>>, k: nat, cursor: Option<string>, limit: nat)
    returns (f: Followed<T>)
    requires limit >= 1 && Resting(tables, table, all) && k <= |all|
    requires |tables| >= PagesNeeded(|all| - k, limit)
    requires RowsSound(codec, all, |all|)
    requires CursorKey(codec, cursor) == Ok(CursorAt(all, k))
    ensures f == Follow(codec, tables, cursor, limit) == FollowRows(codec, all, k, limit)
    decreases |tables|, 1
  {
    hide PageOf, Sorted, Follow;
    RestingTail(tables, table, all);
    if |all| - k > limit {
      SoundAt(codec, all, k + limit - 1);
    }
    var next, rest;
    f, next, rest := FollowPage(codec, tables, table, all, k, cursor, limit);
    if |all| - k > limit {
      FollowRest(codec, tables, table, all, k, next, limit, rest);
      FollowRowsStep(codec, all, k, limit, rest);
    }
  }

  lemma {:induction false} FollowRest<T>(codec: Codec<T>, tables: seq<seq<Row<T>>>, table: seq<Row<T>>,
                                         all: seq<Row<T>>, k: nat, next: Option<string>, limit: nat, rest: Followed<T>)
    requires limit >= 1 && Resting(tables, table, all) && k + limit < |all|
    requires |tables| >= PagesNeeded(|all| - k, limit)
    requires RowsSound(codec, all, |all|)
    requires rest == Follow(codec, tables[1..], next, limit)
    requires Readable(codec, all[k + limit - 1]) ==> CursorKey(codec, next) == Ok(CursorAt(all, k + limit))
    requires !Readable(codec, all[k + limit - 1]) ==> rest == Followed([], Rejected, 0)
    ensures rest == if Readable(codec, all[k + limit - 1]) then FollowRows(codec, all, k + limit, limit)
                    else Followed([], Rejected, 0)
    decreases |tables|, 0
  {
    hide Sorted, Follow, FollowRows, RowsSound;
    if Readable(codec, all[k + limit - 1]) {
      OnePageLess(|all| - k, |all| - (k + limit), limit);
      RestingTail(tables, table, all);
      var f := FollowFromPosition(codec, tables[1..], table, all, k + limit, next, limit);
    }
  }

  lemma {:induction false} FollowRowsStops<T>(codec: Codec<T>, all: seq<Row<T>>, k: nat, limit: nat)
    requires limit >= 1 && k <= |all|
    ensures var f, n := FollowRows(codec, all, k, limit), StopsAt(codec, all, k, limit);
            f.rows == all[k..n] && f.ending == if n == |all| then Finished else Rejected
    decreases |all| - k
  {
    if |all| - k <= limit {
      assert all[k..|all|] == all[k..];
    } else if Readable(codec, all[k + limit - 1]) {
      FollowRowsStops(codec, all, k + limit, limit);
      PageThenRest(all, k, k + limit, StopsAt(codec, all, k, limit), FollowRows(codec, all, k + limit, limit).rows);
    } else {
      PageThenRest(all, k, k + limit, k + limit, []);
    }
  }

  lemma {:induction false} PageThenRest<T>(s: seq<T>, a: nat, b: nat, c: nat, rest: seq<T>)
    requires a <= b <= c <= |s| && rest == s[b..c]
    ensures s[a..b] + rest == s[a..c]
  {
  }

  // Over a table at rest, following cursors collects the whole table exactly when the cursor of
  // every row that ends a page is accepted back; otherwise the walk breaks off.
  lemma {:induction false} RestingWalkIff<T>(codec: Codec<T>, tables: seq<seq<Row<T>>>, table: seq<Row<T>>, limit: nat)
    requires limit >= 1 && UniqueKeys(table)
    requires AtRest(tables, table) && |tables| >= PagesNeeded(|table|, limit)
    requires forall r :: r in table ==> Sound(codec, r)
    ensures |Sorted(table)| == |table|
    ensures var f := Follow(codec, tables, None, limit);
            && (f.rows == Sorted(table) <==> f.ending == Finished)
            && (f.ending == Finished <==> BoundariesReadable(codec, Sorted(table), 0, limit))
            && (f.ending != Finished ==> f.ending == Rejected)
  {
    var all := Sorted(table);
    SortedPermutes(table);
    forall i | 0 <= i < |all| ensures Sound(codec, all[i]) {
      assert all[i] in all;
    }
    RowsSoundIff(codec, all, |all|);
    var f := FollowFromPosition(codec, tables, table, all, 0, None, limit);
    FollowRowsStops(codec, all, 0, limit);
    assert 0 % limit == 0 by {
      QuotientIs(0, limit, 0, 0);
    }
    StopsAtEndIff(codec, all, 0, limit);
    assert all[0..|all|] == all;
  }

  // ----- runs and matrix rows -----

  function RunCodec<T(!new)>(runId: int -> string, requestedAt: int -> string, loads: seq<Byte> -> Option<RunDocument>,
                       keyOf: (string, string) -> Option<Key>): Codec<T>
  {
    Codec((r: Row<T>) => EncodeCursor(RunPayload(runId(r.key.id), requestedAt(r.key.at))),
          (cursor: string) => DecodeRunCursor(loads, keyOf, cursor))
  }

  lemma {:induction false} FirstPage<T>(all: seq<T>, limit: nat)
    ensures |all| > limit ==> all[0..0 + limit] + [] == Take(all, limit) && Take(all, limit) != all
    ensures |all| <= limit ==> all[0..] == all == Take(all, limit)
  {
    assert |all| > limit ==> |Take(all, limit)| == limit;
  }

  // Where no cursor is accepted back, a client gets the first page and no more.
  lemma {:induction false} UnreadableWalk<T>(codec: Codec<T>, tables: seq<seq<Row<T>>>, limit: nat)
    requires limit >= 1 && |tables| >= 2 && UniqueKeys(tables[0])
    requires forall r :: r in tables[0] ==> Sound(codec, r) && !Readable(codec, r)
    ensures Follow(codec, tables, None, limit)
         == Followed(Take(Sorted(tables[0]), limit), if |tables[0]| <= limit then Finished else Rejected, 1)
    ensures Take(Sorted(tables[0]), limit) == Sorted(tables[0]) <==> |tables[0]| <= limit
  {
    var all := Sorted(tables[0]);
    SortedPermutes(tables[0]);
    assert |all| > limit ==> all[limit - 1] in all;
    var f, next, rest := FollowPage(codec, tables, tables[0], all, 0, None, limit);
    FirstPage(all, limit);
  }

  lemma {:induction false} RunRowUnreadable<T(!new)>(runId: int -> string, requestedAt: int -> string,
                                                     loads: seq<Byte> -> Option<RunDocument>,
                                                     keyOf: (string, string) -> Option<Key>, r: Row<T>)
    requires IsRunText(runId(r.key.id), requestedAt(r.key.at))
    ensures var codec := RunCodec<T>(runId, requestedAt, loads, keyOf);
            Sound(codec, r) && !Readable(codec, r)
  {
    RunCursorNeverReadable(runId(r.key.id), requestedAt(r.key.at));
  }

  // A listing of runs gives its first page and no more: it is complete exactly when all the rows
  // fit one page, and the cursor it returns otherwise is rejected, whatever the table holds by then.
  lemma {:induction false} RunWalkIff<T(!new)>(runId: int -> string, requestedAt: int -> string,
                                         loads: seq<Byte> -> Option<RunDocument>,
                                         keyOf: (string, string) -> Option<Key>, tables: seq<seq<Row<T>>>, limit: nat)
    requires limit >= 1 && |tables| >= 2 && UniqueKeys(tables[0])
    requires forall r :: r in tables[0] ==> IsRunText(runId(r.key.id), requestedAt(r.key.at))
    ensures var codec := RunCodec<T>(runId, requestedAt, loads, keyOf);
            var f := Follow(codec, tables, None, limit);
            && f == Followed(Take(Sorted(tables[0]), limit), if |tables[0]| <= limit then Finished else Rejected, 1)
            && (f.rows == Sorted(tables[0]) <==> |tables[0]| <= limit)
  {
    var codec := RunCodec<T>(runId, requestedAt, loads, keyOf);
    forall r | r in tables[0] ensures Sound(codec, r) && !Readable(codec, r) {
      RunRowUnreadable(runId, requestedAt, loads, keyOf, r);
    }
    UnreadableWalk(codec, tables, limit);
  }

  // `rank` is an item id's place in the database's collation order.
  function MatrixCodec(rank: string -> int, loads: seq<Byte> -> Option<MatrixDocument>): Codec<MatrixEntry> {
    Codec((r: Row<MatrixEntry>) => EncodeCursor(MatrixPayload(r.value.itemId)),
          (cursor: string) => MatrixKey(rank, DecodeMatrixCursor(loads, cursor)))
  }

  function MatrixKey(rank: string -> int, itemId: Option<string>): Option<Key> {
    if itemId.None? then None else Some(Key(rank(itemId.value), 0))
  }

  // A stored matrix row, whose cursor payload the JSON parser reads back.
  predicate IsMatrixRow(rank: string -> int, loads: seq<Byte> -> Option<MatrixDocument>, r: Row<MatrixEntry>) {
    var id := r.value.itemId;
    && r.key == Key(rank(id), 0)
    && |id| <= 128 && (forall i :: 0 <= i < |id| ==> IsItemChar(id[i]))
    && loads(MatrixPayload(id)) == Some(MatrixDocument(Some(1), Some(id)))
  }

  lemma {:induction false} MatrixRowReadable(rank: string -> int, loads: seq<Byte> -> Option<MatrixDocument>,
                                             r: Row<MatrixEntry>)
    requires IsMatrixRow(rank, loads, r)
    ensures var codec := MatrixCodec(rank, loads);
            Sound(codec, r) && (Readable(codec, r) <==> |r.value.itemId| % 3 == 0)
  {
    ItemIdLengthDecides(loads, r.value.itemId);
  }

  // Following the cursors of a matrix collects all of it exactly when every item id that ends a
  // page has a length that is a multiple of three.
  lemma {:induction false} MatrixWalkIff(rank: string -> int, loads: seq<Byte> -> Option<MatrixDocument>,
                                         tables: seq<seq<Row<MatrixEntry>>>, table: seq<Row<MatrixEntry>>, limit: nat)
    requires limit >= 1 && UniqueKeys(table)
    requires AtRest(tables, table) && |tables| >= PagesNeeded(|table|, limit)
    requires forall r :: r in table ==> IsMatrixRow(rank, loads, r)
    ensures |Sorted(table)| == |table|
    ensures Follow(MatrixCodec(rank, loads), tables, None, limit).rows == Sorted(table)
       <==> forall m :: PageEnds(m, |table|, limit) ==> |Sorted(table)[m - 1].value.itemId| % 3 == 0
  {
    var codec, all := MatrixCodec(rank, loads), Sorted(table);
    SortedPermutes(table);
    forall r | r in table ensures Sound(codec, r) && (Readable(codec, r) <==> |r.value.itemId| % 3 == 0) {
      MatrixRowReadable(rank, loads, r);
    }
    RestingWalkIff(codec, tables, table, limit);
    forall m | PageEnds(m, |table|, limit)
      ensures Readable(codec, all[m - 1]) <==> |all[m - 1].value.itemId| % 3 == 0
    {
      assert all[m - 1] in all;
    }
  }
}
