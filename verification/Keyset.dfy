// Rows ordered by a (timestamp, id) key, and the keyset query
// `WHERE key > cursor ORDER BY key LIMIT n` that the audit verifier, the chat purge
// and the run listing all issue. A table is a sequence in physical order: the
// database promises nothing about that order, so every result below goes through Sorted.
module Keyset {
  import opened Outcomes

  datatype Key = Key(at: int, id: int)

  datatype Row<+T> = Row(key: Key, value: T)

  predicate Less(a: Key, b: Key) {
    a.at < b.at || (a.at == b.at && a.id < b.id)
  }

  ghost predicate Ascending<T>(s: seq<Row<T>>) {
    forall i, j :: 0 <= i < j < |s| ==> Less(s[i].key, s[j].key)
  }

  ghost predicate UniqueKeys<T>(s: seq<Row<T>>) {
    forall i, j :: 0 <= i < j < |s| ==> s[i].key != s[j].key
  }

  function Insert<T>(r: Row<T>, s: seq<Row<T>>): seq<Row<T>> {
    if s == [] || Less(r.key, s[0].key) then [r] + s
    else [s[0]] + Insert(r, s[1..])
  }

  function Sorted<T>(s: seq<Row<T>>): seq<Row<T>> {
    if s == [] then [] else Insert(s[0], Sorted(s[1..]))
  }

  predicate Beyond(cursor: Option<Key>, k: Key) {
    cursor.None? || Less(cursor.value, k)
  }

  function Where<T>(s: seq<Row<T>>, cursor: Option<Key>): seq<Row<T>> {
    if s == [] then []
    else (if Beyond(cursor, s[0].key) then [s[0]] else []) + Where(s[1..], cursor)
  }

  function Take<T>(s: seq<T>, n: nat): seq<T> {
    if n < |s| then s[..n] else s
  }

  function Select<T>(table: seq<Row<T>>, cursor: Option<Key>, limit: nat): seq<Row<T>> {
    Take(Sorted(Where(table, cursor)), limit)
  }

  // ----- sorting -----

  lemma {:induction false} InsertPermutes<T>(r: Row<T>, s: seq<Row<T>>)
    ensures multiset(Insert(r, s)) == multiset(s) + multiset{r}
  {
    if s != [] && !Less(r.key, s[0].key) {
      InsertPermutes(r, s[1..]);
      assert s == [s[0]] + s[1..];
    }
  }

  lemma {:induction false} SortedSameRows<T>(s: seq<Row<T>>)
    ensures multiset(Sorted(s)) == multiset(s)
  {
    if s != [] {
      SortedSameRows(s[1..]);
      InsertPermutes(s[0], Sorted(s[1..]));
      assert s == [s[0]] + s[1..];
    }
  }

  lemma SortedPermutes<T>(s: seq<Row<T>>)
    ensures multiset(Sorted(s)) == multiset(s)
    ensures |Sorted(s)| == |s|
    ensures forall r :: r in Sorted(s) ==> r in s
    ensures forall r :: r in s ==> r in Sorted(s)
  {
    SortedSameRows(s);
    var t := Sorted(s);
    assert |multiset(t)| == |multiset(s)|;
    assert forall r :: r in t ==> r in multiset(t);
    assert forall r :: r in s ==> r in multiset(s);
  }

  lemma {:induction false} InsertAscending<T>(r: Row<T>, s: seq<Row<T>>)
    requires Ascending(s)
    requires forall q :: q in s ==> q.key != r.key
    ensures Ascending(Insert(r, s))
  {
    if s != [] && !Less(r.key, s[0].key) {
      var tail := Insert(r, s[1..]);
      InsertAscending(r, s[1..]);
      InsertPermutes(r, s[1..]);
      assert s[0] in s;
      forall i | 0 <= i < |tail| ensures Less(s[0].key, tail[i].key) {
        assert tail[i] in multiset(tail);
        assert tail[i] == r || tail[i] in s[1..];
      }
    }
  }

  lemma HeadKeyIsNew<T>(s: seq<Row<T>>)
    requires UniqueKeys(s) && s != []
    ensures forall r :: r in s[1..] ==> r.key != s[0].key
  {
    forall r | r in s[1..] ensures r.key != s[0].key {
      var i :| 0 <= i < |s[1..]| && s[1..][i] == r;
      assert s[i + 1] == r;
    }
  }

  lemma {:induction false} SortedAscending<T>(s: seq<Row<T>>)
    requires UniqueKeys(s)
    ensures Ascending(Sorted(s))
  {
    if s != [] {
      SortedAscending(s[1..]);
      SortedPermutes(s[1..]);
      HeadKeyIsNew(s);
      forall q | q in Sorted(s[1..]) ensures q.key != s[0].key {
        assert q in s[1..];
      }
      InsertAscending(s[0], Sorted(s[1..]));
    }
  }

  // The same rows by ascending time, and by ascending id at equal times.
  lemma SortedMeaning<T>(s: seq<Row<T>>)
    requires UniqueKeys(s)
    ensures |Sorted(s)| == |s| && multiset(Sorted(s)) == multiset(s)
    ensures Ascending(Sorted(s))
    ensures forall i, j :: 0 <= i < j < |s| ==>
      || Sorted(s)[i].key.at < Sorted(s)[j].key.at
      || (Sorted(s)[i].key.at == Sorted(s)[j].key.at && Sorted(s)[i].key.id < Sorted(s)[j].key.id)
    ensures forall r :: r in Sorted(s) ==> r in s
    ensures forall r :: r in s ==> r in Sorted(s)
  {
    SortedPermutes(s);
    SortedAscending(s);
  }

  // A sequence already in key order is its own sort.
  lemma {:induction false} SortedFixpoint<T>(s: seq<Row<T>>)
    requires Ascending(s)
    ensures Sorted(s) == s
  {
    if s != [] {
      SortedFixpoint(s[1..]);
    }
  }

  // ----- the WHERE clause -----

  lemma {:induction false} WhereMembers<T>(s: seq<Row<T>>, cursor: Option<Key>)
    ensures forall r :: r in Where(s, cursor) ==> r in s && Beyond(cursor, r.key)
    ensures forall r :: r in s && Beyond(cursor, r.key) ==> r in Where(s, cursor)
    ensures |Where(s, cursor)| <= |s|
  {
    if s != [] {
      WhereMembers(s[1..], cursor);
      assert s == [s[0]] + s[1..];
    }
  }

  lemma {:induction false} WhereUnique<T>(s: seq<Row<T>>, cursor: Option<Key>)
    requires UniqueKeys(s)
    ensures UniqueKeys(Where(s, cursor))
  {
    if s != [] {
      WhereUnique(s[1..], cursor);
      WhereMembers(s[1..], cursor);
      HeadKeyIsNew(s);
      var tail := Where(s[1..], cursor);
      forall j | 0 <= j < |tail| ensures tail[j].key != s[0].key {
        assert tail[j] in tail;
        assert tail[j] in s[1..];
      }
    }
  }

  lemma {:induction false} WhereOfInsert<T>(r: Row<T>, s: seq<Row<T>>, cursor: Option<Key>)
    requires Ascending(s)
    requires forall q :: q in s ==> q.key != r.key
    ensures Where(Insert(r, s), cursor)
         == if Beyond(cursor, r.key) then Insert(r, Where(s, cursor)) else Where(s, cursor)
  {
    if s == [] {
    } else if Less(r.key, s[0].key) {
      assert ([r] + s)[1..] == s;
      if Beyond(cursor, r.key) {
        WhereAll(s, cursor);
      }
    } else {
      WhereOfInsert(r, s[1..], cursor);
      assert Insert(r, s)[1..] == Insert(r, s[1..]);
      assert s[0] in s;
      if Beyond(cursor, s[0].key) {
        assert Where(s, cursor)[1..] == Where(s[1..], cursor);
      } else {
        assert Where(s, cursor) == Where(s[1..], cursor);
      }
    }
  }

  lemma {:induction false} WhereAll<T>(s: seq<Row<T>>, cursor: Option<Key>)
    requires forall r :: r in s ==> Beyond(cursor, r.key)
    ensures Where(s, cursor) == s
  {
    if s != [] {
      WhereAll(s[1..], cursor);
    }
  }

  lemma {:induction false} SortCommutesWithWhere<T>(s: seq<Row<T>>, cursor: Option<Key>)
    requires UniqueKeys(s)
    ensures Sorted(Where(s, cursor)) == Where(Sorted(s), cursor)
  {
    if s != [] {
      SortCommutesWithWhere(s[1..], cursor);
      SortedAscending(s[1..]);
      SortedPermutes(s[1..]);
      HeadKeyIsNew(s);
      forall q | q in Sorted(s[1..]) ensures q.key != s[0].key {
        assert q in s[1..];
      }
      WhereOfInsert(s[0], Sorted(s[1..]), cursor);
      if Beyond(cursor, s[0].key) {
        assert Where(s, cursor)[1..] == Where(s[1..], cursor);
      } else {
        assert Where(s, cursor) == Where(s[1..], cursor);
      }
    }
  }

  lemma {:induction false} WhereFromPosition<T>(s: seq<Row<T>>, k: nat)
    requires Ascending(s) && k < |s|
    ensures Where(s, Some(s[k].key)) == s[k + 1..]
  {
    if k == 0 {
      WhereAll(s[1..], Some(s[0].key));
    } else {
      WhereFromPosition(s[1..], k - 1);
    }
  }

  // The cursor of a walk that has collected the first k rows.
  function CursorAt<T>(all: seq<Row<T>>, k: nat): Option<Key>
    requires k <= |all|
  {
    if k == 0 then None else Some(all[k - 1].key)
  }

  // With the cursor on row k of the ordered table, the query returns the rows after k.
  lemma SelectResumes<T>(table: seq<Row<T>>, k: nat, limit: nat)
    requires UniqueKeys(table) && k <= |table|
    ensures |Sorted(table)| == |table|
    ensures Select(table, CursorAt(Sorted(table), k), limit) == Take(Sorted(table)[k..], limit)
  {
    SortedPermutes(table);
    var cursor := CursorAt(Sorted(table), k);
    SortedAscending(table);
    SortCommutesWithWhere(table, cursor);
    if k == 0 {
      WhereAll(Sorted(table), None);
    } else {
      WhereFromPosition(Sorted(table), k - 1);
    }
  }

  lemma TakeMeaning<T>(rows: seq<Row<T>>, n: nat)
    requires Ascending(rows)
    ensures var page := Take(rows, n);
            && |page| <= n
            && Ascending(page)
            && (|page| < n ==> page == rows)
            && (forall r :: r in page ==> r in rows)
            && (forall r, p :: r in rows && r !in page && p in page ==> Less(p.key, r.key))
  {
    var page := Take(rows, n);
    assert forall k :: 0 <= k < |page| ==> page[k] == rows[k];
    forall r, p | r in rows && r !in page && p in page ensures Less(p.key, r.key) {
      var i :| 0 <= i < |rows| && rows[i] == r;
      var j :| 0 <= j < |page| && page[j] == p;
      assert |page| <= i;
    }
  }

  // What the query promises for any cursor, whether or not a row still carries its key:
  // an ascending run of rows beyond the cursor, and no row beyond the cursor is skipped.
  lemma SelectByKey<T>(table: seq<Row<T>>, cursor: Option<Key>, limit: nat)
    requires UniqueKeys(table)
    ensures var page := Select(table, cursor, limit);
            && |page| <= limit
            && Ascending(page)
            && (forall r :: r in page ==> r in table && Beyond(cursor, r.key))
            && (|page| < limit ==> forall r :: r in table && Beyond(cursor, r.key) ==> r in page)
            && (forall r, p :: r in table && Beyond(cursor, r.key) && r !in page && p in page
                  ==> Less(p.key, r.key))
  {
    var rows := Sorted(Where(table, cursor));
    WhereMembers(table, cursor);
    WhereUnique(table, cursor);
    SortedAscending(Where(table, cursor));
    SortedPermutes(Where(table, cursor));
    TakeMeaning(rows, limit);
  }

  // The same on the two columns: a page goes by ascending time and, at equal times, by ascending
  // id; it starts after the cursor's time, or at that time after the cursor's id; and a row that
  // is beyond the cursor and left out comes after the whole page, which is then full.
  lemma SelectMeaning<T>(table: seq<Row<T>>, cursor: Option<Key>, limit: nat)
    requires UniqueKeys(table)
    ensures var page := Select(table, cursor, limit);
            && |page| <= limit
            && (forall i, j :: 0 <= i < j < |page| ==>
                  || page[i].key.at < page[j].key.at
                  || (page[i].key.at == page[j].key.at && page[i].key.id < page[j].key.id))
            && (forall r :: r in page ==> r in table)
            && (cursor.Some? ==> forall r :: r in page ==>
                  || cursor.value.at < r.key.at
                  || (cursor.value.at == r.key.at && cursor.value.id < r.key.id))
            && (forall r :: r in table && r !in page
                  && (cursor.Some? ==> || cursor.value.at < r.key.at
                                       || (cursor.value.at == r.key.at && cursor.value.id < r.key.id))
                  ==> |page| == limit && forall p :: p in page ==>
                        p.key.at < r.key.at || (p.key.at == r.key.at && p.key.id < r.key.id))
  {
    SelectByKey(table, cursor, limit);
    var page := Select(table, cursor, limit);
    forall r | r in table && r !in page && Beyond(cursor, r.key)
      ensures |page| == limit && forall p :: p in page ==> Less(p.key, r.key)
    {
    }
  }

  // ----- batch after batch -----

  lemma {:induction false} JoinedPages<T>(a: seq<Row<T>>, b: seq<Row<T>>, last: Key)
    requires a != [] && a[|a| - 1].key == last
    requires Ascending(a) && Ascending(b)
    requires forall r :: r in b ==> Less(last, r.key)
    ensures Ascending(a + b)
  {
    forall i, j | 0 <= i < j < |a + b| ensures Less((a + b)[i].key, (a + b)[j].key) {
      if i < |a| <= j {
        assert b[j - |a|] in b;
      }
    }
  }

  lemma {:induction false} BothBeyond<T>(cursor: Option<Key>, a: seq<Row<T>>, b: seq<Row<T>>, last: Key)
    requires Beyond(cursor, last) && forall r :: r in a ==> Beyond(cursor, r.key)
    requires forall r :: r in b ==> Less(last, r.key)
    ensures forall r :: r in a + b ==> Beyond(cursor, r.key)
  {
  }

  lemma {:induction false} SelectMembers<T>(table: seq<Row<T>>, cursor: Option<Key>, limit: nat)
    ensures forall r :: r in Select(table, cursor, limit) ==> r in table && Beyond(cursor, r.key)
  {
    WhereMembers(table, cursor);
    SortedPermutes(Where(table, cursor));
    var rows := Sorted(Where(table, cursor));
    assert forall r :: r in Take(rows, limit) ==> r in rows;
  }

  // A later cursor selects fewer rows.
  lemma {:induction false} WhereShrinks<T>(table: seq<Row<T>>, cursor: Option<Key>, later: Key)
    requires Beyond(cursor, later)
    ensures |Where(table, Some(later))| <= |Where(table, cursor)|
    ensures (exists r :: r in table && r.key == later) ==> |Where(table, Some(later))| < |Where(table, cursor)|
  {
    if table != [] {
      WhereShrinks(table[1..], cursor, later);
      assert table == [table[0]] + table[1..];
    }
  }

  lemma {:induction false} BatchShrinks<T>(table: seq<Row<T>>, cursor: Option<Key>, limit: nat)
    requires Select(table, cursor, limit) != []
    ensures var batch := Select(table, cursor, limit);
            |Where(table, Some(batch[|batch| - 1].key))| < |Where(table, cursor)|
  {
    var batch := Select(table, cursor, limit);
    SelectMembers(table, cursor, limit);
    assert batch[|batch| - 1] in batch;
    WhereShrinks(table, cursor, batch[|batch| - 1].key);
  }

  // Statement i of a walk sees tables[i]; once `tables` is used up the table is at rest.
  function NextTable<T>(tables: seq<seq<Row<T>>>, last: nat): (next: nat)
    requires last < |tables|
    ensures last <= next < |tables|
    ensures next == last + 1 || last + 1 == |tables| == next + 1
  {
    if last + 1 < |tables| then last + 1 else last
  }

  // The rows that a walk collects, batch after batch, until a batch is empty.
  function Collected<T>(tables: seq<seq<Row<T>>>, last: nat, cursor: Option<Key>, limit: nat): seq<Row<T>>
    requires last < |tables|
    decreases |tables| - last, |Where(tables[last], cursor)|
  {
    var batch := Select(tables[last], cursor, limit);
    if batch == [] then []
    else
      BatchShrinks(tables[last], cursor, limit);
      batch + Collected(tables, NextTable(tables, last), Some(batch[|batch| - 1].key), limit)
  }

  // The statement that sees the empty batch.
  function LastRead<T>(tables: seq<seq<Row<T>>>, last: nat, cursor: Option<Key>, limit: nat): (n: nat)
    requires last < |tables|
    ensures last <= n < |tables|
    decreases |tables| - last, |Where(tables[last], cursor)|
  {
    var batch := Select(tables[last], cursor, limit);
    if batch == [] then last
    else
      BatchShrinks(tables[last], cursor, limit);
      LastRead(tables, NextTable(tables, last), Some(batch[|batch| - 1].key), limit)
  }

  lemma {:induction false} CollectedStep<T>(tables: seq<seq<Row<T>>>, last: nat, cursor: Option<Key>, limit: nat,
                                            batch: seq<Row<T>>)
    requires last < |tables| && batch == Select(tables[last], cursor, limit)
    ensures batch == [] ==>
      Collected(tables, last, cursor, limit) == [] && LastRead(tables, last, cursor, limit) == last
    ensures batch != [] ==>
      var next, later := NextTable(tables, last), Some(batch[|batch| - 1].key);
      && Collected(tables, last, cursor, limit) == batch + Collected(tables, next, later, limit)
      && LastRead(tables, last, cursor, limit) == LastRead(tables, next, later, limit)
      && |Where(tables[last], later)| < |Where(tables[last], cursor)|
  {
    if batch != [] {
      BatchShrinks(tables[last], cursor, limit);
    }
  }

  // Whatever happens to the table between batches: the collected rows ascend strictly, and every
  // row beyond the cursor that is there at each batch is collected.
  lemma {:induction false} CollectedMeaning<T>(tables: seq<seq<Row<T>>>, last: nat, cursor: Option<Key>, limit: nat)
    requires last < |tables| && forall i :: 0 <= i < |tables| ==> UniqueKeys(tables[i])
    ensures var all := Collected(tables, last, cursor, limit);
            && Ascending(all)
            && (forall r :: r in all ==> Beyond(cursor, r.key))
            && (limit >= 1 ==> forall r: Row<T> :: Beyond(cursor, r.key) && ThereFrom(tables, last, r) ==> r in all)
    decreases |tables| - last, |Where(tables[last], cursor)|
  {
    var batch := Select(tables[last], cursor, limit);
    SelectByKey(tables[last], cursor, limit);
    if batch != [] {
      var next, end := NextTable(tables, last), batch[|batch| - 1];
      var rest := Collected(tables, next, Some(end.key), limit);
      BatchShrinks(tables[last], cursor, limit);
      CollectedMeaning(tables, next, Some(end.key), limit);
      assert end in batch;
      JoinedPages(batch, rest, end.key);
      BothBeyond(cursor, batch, rest, end.key);
      forall r: Row<T> | limit >= 1 && Beyond(cursor, r.key) && ThereFrom(tables, last, r) ensures r in batch + rest {
        assert r in tables[last];
        assert r !in batch ==> ThereFrom(tables, next, r);
      }
    } else {
      forall r: Row<T> | limit >= 1 && Beyond(cursor, r.key) && ThereFrom(tables, last, r) ensures r in batch {
        assert r in tables[last];
      }
    }
  }

  ghost predicate ThereFrom<T>(tables: seq<seq<Row<T>>>, last: nat, r: Row<T>) {
    forall i :: last <= i < |tables| ==> r in tables[i]
  }

  // Rows are inserted between batches, each after every row already there.
  ghost predicate GrowsInOrder<T>(tables: seq<seq<Row<T>>>) {
    && (forall i :: 0 <= i < |tables| ==> UniqueKeys(tables[i]))
    && (forall i :: 0 < i < |tables| ==> Sorted(tables[i - 1]) <= Sorted(tables[i]))
  }

  lemma {:induction false} PrefixPiece<T>(a: seq<T>, b: seq<T>, k: nat, n: nat, rest: seq<T>)
    requires k < |a| && a <= b && n >= 1
    ensures var batch := Take(a[k..], n);
            && 0 < |batch| && k + |batch| <= |a| && batch[|batch| - 1] == a[k + |batch| - 1]
            && (rest == b[k + |batch|..] ==> batch + rest == b[k..])
  {
    var batch := Take(a[k..], n);
    assert batch == a[k..k + |batch|] == b[k..k + |batch|];
  }

  // A walk from position k of the ordered table collects the rest of the table as it is at the end.
  ghost predicate CollectsRest<T>(tables: seq<seq<Row<T>>>, last: nat, k: nat, limit: nat)
    requires last < |tables| && k <= |Sorted(tables[last])|
  {
    var cursor := CursorAt(Sorted(tables[last]), k);
    var end := Sorted(tables[LastRead(tables, last, cursor, limit)]);
    Sorted(tables[last]) <= end && Collected(tables, last, cursor, limit) == end[k..]
  }

  lemma {:induction false} FirstBatch<T>(tables: seq<seq<Row<T>>>, last: nat, k: nat, limit: nat)
    returns (batch: seq<Row<T>>)
    requires last < |tables| && UniqueKeys(tables[last]) && k <= |Sorted(tables[last])|
    ensures var all := Sorted(tables[last]);
            batch == Take(all[k..], limit) == Select(tables[last], CursorAt(all, k), limit)
  {
    SortedPermutes(tables[last]);
    SelectResumes(tables[last], k, limit);
    batch := Take(Sorted(tables[last])[k..], limit);
  }

  lemma {:induction false} NextBatch<T>(tables: seq<seq<Row<T>>>, last: nat, k: nat, limit: nat, batch: seq<Row<T>>)
    requires last < |tables| && k < |Sorted(tables[last])| && limit >= 1
    requires batch == Take(Sorted(tables[last])[k..], limit)
    requires batch == Select(tables[last], CursorAt(Sorted(tables[last]), k), limit)
    requires Sorted(tables[last]) <= Sorted(tables[NextTable(tables, last)])
    requires k + |batch| <= |Sorted(tables[last])| && CollectsRest(tables, NextTable(tables, last), k + |batch|, limit)
    ensures CollectsRest(tables, last, k, limit)
  {
    hide Sorted, Select, Where, Collected, LastRead;
    var all, grown := Sorted(tables[last]), Sorted(tables[NextTable(tables, last)]);
    var later := Some(batch[|batch| - 1].key);
    CollectedStep(tables, last, CursorAt(all, k), limit, batch);
    PrefixPiece(all, grown, k, limit, []);
    assert CursorAt(grown, k + |batch|) == later;
    PrefixPiece(all, Sorted(tables[LastRead(tables, NextTable(tables, last), later, limit)]), k, limit,
                Collected(tables, NextTable(tables, last), later, limit));
  }

  // Over such a table, and over one at rest, a walk collects the whole table as its last batch
  // saw it, in key order.
  lemma {:induction false} CollectedInOrder<T>(tables: seq<seq<Row<T>>>, last: nat, k: nat, limit: nat)
    requires last < |tables| && GrowsInOrder(tables) && limit >= 1 && k <= |Sorted(tables[last])|
    ensures CollectsRest(tables, last, k, limit)
    decreases |tables| - last, |Sorted(tables[last])| - k
  {
    hide Sorted, Select, Where, Collected, LastRead;
    var all := Sorted(tables[last]);
    var batch := FirstBatch(tables, last, k, limit);
    if k < |all| {
      PrefixPiece(all, all, k, limit, []);
      CollectedInOrder(tables, NextTable(tables, last), k + |batch|, limit);
      NextBatch(tables, last, k, limit, batch);
    } else {
      CollectedStep(tables, last, CursorAt(all, k), limit, batch);
    }
  }
}

// `SELECT ... WHERE due ORDER BY key LIMIT n` over a table of plain records.
module DueRows {
  import opened Outcomes
  import opened Keyset
  import opened Sequences

  function Keyed<T>(s: seq<T>, key: T -> Key): (rows: seq<Row<T>>)
    ensures |rows| == |s|
    ensures forall i :: 0 <= i < |s| ==> rows[i] == Row(key(s[i]), s[i])
  {
    seq(|s|, i requires 0 <= i < |s| => Row(key(s[i]), s[i]))
  }

  function Values<T>(rows: seq<Row<T>>): (s: seq<T>)
    ensures |s| == |rows|
    ensures forall i :: 0 <= i < |s| ==> s[i] == rows[i].value
  {
    seq(|rows|, i requires 0 <= i < |rows| => rows[i].value)
  }

  function Pick<T>(s: seq<T>, due: T -> bool, key: T -> Key, limit: nat): seq<T> {
    Values(Select(Keyed(Filter(s, due), key), None, limit))
  }

  ghost predicate DistinctKeys<T>(s: seq<T>, key: T -> Key) {
    forall i, j :: 0 <= i < j < |s| ==> key(s[i]).id != key(s[j]).id
  }

  // The pick is made of due rows, holds all of them unless the limit is reached, and never
  // passes over a due row in favour of a later one.
  lemma PickMeaning<T>(s: seq<T>, due: T -> bool, key: T -> Key, limit: nat)
    requires DistinctKeys(s, key)
    ensures var page := Pick(s, due, key, limit);
            && |page| <= limit
            && DistinctKeys(page, key)
            && (forall x :: x in page ==> x in s && due(x))
            && (|page| < limit ==> forall x :: x in s && due(x) ==> x in page)
            && (forall x, p :: x in s && due(x) && x !in page && p in page ==> Less(key(p), key(x)))
  {
    var candidates := Filter(s, due);
    FilterMembers(s, due);
    FilterDistinct(s, due, (x: T) => key(x).id);
    assert DistinctBy(candidates, (x: T) => key(x).id);
    var rows := Keyed(candidates, key);
    SelectByKey(rows, None, limit);
    SelectIsKeyed(candidates, key, limit);
  }

  lemma SelectIsKeyed<T>(s: seq<T>, key: T -> Key, limit: nat)
    requires DistinctKeys(s, key)
    ensures var rows := Select(Keyed(s, key), None, limit);
            && DistinctKeys(Values(rows), key)
            && (forall x :: x in s ==> Row(key(x), x) in Keyed(s, key))
            && (forall x :: x in Values(rows) ==> x in s && Row(key(x), x) in rows)
            && (forall r :: r in rows ==> r.value in Values(rows) && r.key == key(r.value))
  {
    var table := Keyed(s, key);
    var rows := Select(table, None, limit);
    SelectByKey(table, None, limit);
    forall x | x in s ensures Row(key(x), x) in table {
      var i :| 0 <= i < |s| && s[i] == x;
      assert table[i] == Row(key(x), x);
    }
    forall r | r in rows ensures r.value in s && r.key == key(r.value) {
      assert r in table;
    }
    forall x | x in Values(rows) ensures x in s && Row(key(x), x) in rows {
      var i :| 0 <= i < |rows| && rows[i].value == x;
      assert rows[i] in rows;
    }
    forall r | r in rows ensures r.value in Values(rows) {
      var i :| 0 <= i < |rows| && rows[i] == r;
      assert Values(rows)[i] == r.value;
    }
  }
}
