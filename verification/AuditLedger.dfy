// Audit appends from overlapping transactions, and when the chain they leave verifies.
module AuditLedger {
  import opened AuditChain
  import opened Keyset
  import opened Outcomes
  import opened Text

  // A transaction's timestamp is the time of its request, fixed before it waits for the chain's
  // lock. It holds the lock from its first append until it ends and sees its own rows. The table
  // is in the order in which the lock was held.
  datatype Appender = Begun(at: int) | Holding(at: int, rows: seq<AuditEvent>)

  datatype Ledger = Ledger(table: seq<AuditEvent>, open: map<int, Appender>)

  datatype LedgerStep =
    | Begin(tx: int, at: int)
    | Lock(tx: int)
    | InsertEvent(tx: int, id: int, facts: Facts)
    | Commit(tx: int)
    | Rollback(tx: int)

  const EMPTY_LEDGER := Ledger([], map[])

  predicate HasId(table: seq<AuditEvent>, id: int) {
    exists i :: 0 <= i < |table| && table[i].key.id == id
  }

  predicate CanStep(s: Ledger, step: LedgerStep) {
    match step
    case Begin(tx, at) => tx !in s.open
    case Lock(tx) => tx in s.open && s.open[tx].Begun? && forall t :: t in s.open ==> s.open[t].Begun?
    case InsertEvent(tx, id, facts) =>
      tx in s.open && s.open[tx].Holding? && !HasId(s.table + s.open[tx].rows, id)
    case Commit(tx) => tx in s.open
    case Rollback(tx) => tx in s.open
  }

  function Stepped(mac: Payload -> Hash, s: Ledger, step: LedgerStep): Ledger
    requires CanStep(s, step)
  {
    match step
    case Begin(tx, at) => s.(open := s.open[tx := Begun(at)])
    case Lock(tx) => s.(open := s.open[tx := Holding(s.open[tx].at, [])])
    case InsertEvent(tx, id, facts) =>
      var Holding(at, rows) := s.open[tx];
      var event := Linked(mac, s.table + rows, Request(Key(at, id), facts));
      s.(open := s.open[tx := Holding(at, rows + [event])])
    case Commit(tx) =>
      Ledger(s.table + (if s.open[tx].Holding? then s.open[tx].rows else []), s.open - {tx})
    case Rollback(tx) => s.(open := s.open - {tx})
  }

  predicate IsLedgerRun(mac: Payload -> Hash, s: Ledger, steps: seq<LedgerStep>)
    decreases |steps|
  {
    steps == [] || (CanStep(s, steps[0]) && IsLedgerRun(mac, Stepped(mac, s, steps[0]), steps[1..]))
  }

  function LedgerAfter(mac: Payload -> Hash, s: Ledger, steps: seq<LedgerStep>): Ledger
    requires IsLedgerRun(mac, s, steps)
    decreases |steps|
  {
    if steps == [] then s else LedgerAfter(mac, Stepped(mac, s, steps[0]), steps[1..])
  }

  function RequestOf(e: AuditEvent): Request {
    Request(e.key, e.value.facts)
  }

  function RequestsOf(table: seq<AuditEvent>): (run: seq<Request>)
    ensures |run| == |table|
    ensures forall i :: 0 <= i < |table| ==> run[i] == RequestOf(table[i])
  {
    seq(|table|, i requires 0 <= i < |table| => RequestOf(table[i]))
  }

  // Every row was linked against exactly the rows before it.
  ghost predicate Chained(mac: Payload -> Hash, table: seq<AuditEvent>) {
    forall i :: 0 <= i < |table| ==> LinkedAt(mac, table, i)
  }

  ghost predicate LinkedAt(mac: Payload -> Hash, table: seq<AuditEvent>, i: nat)
    requires i < |table|
  {
    table[i] == Linked(mac, table[..i], RequestOf(table[i]))
  }

  ghost predicate UniqueIds(table: seq<AuditEvent>) {
    forall i, j :: 0 <= i < j < |table| ==> table[i].key.id != table[j].key.id
  }

  ghost predicate LedgerInv(mac: Payload -> Hash, s: Ledger) {
    && Chained(mac, s.table) && UniqueIds(s.table)
    && (forall a, b :: a in s.open && b in s.open && s.open[a].Holding? && s.open[b].Holding? ==> a == b)
    && (forall tx :: tx in s.open && s.open[tx].Holding? ==>
          Chained(mac, s.table + s.open[tx].rows) && UniqueIds(s.table + s.open[tx].rows))
  }

  lemma {:induction false} ChainGrows(mac: Payload -> Hash, table: seq<AuditEvent>, event: AuditEvent)
    requires Chained(mac, table) && UniqueIds(table)
    requires event == Linked(mac, table, RequestOf(event)) && !HasId(table, event.key.id)
    ensures Chained(mac, table + [event]) && UniqueIds(table + [event])
  {
    var longer := table + [event];
    forall i | 0 <= i < |longer| ensures LinkedAt(mac, longer, i) {
      assert longer[..i] == table[..i];
      assert i < |table| ==> LinkedAt(mac, table, i);
    }
  }

  lemma {:induction false} StepKeepsLedger(mac: Payload -> Hash, s: Ledger, step: LedgerStep)
    requires LedgerInv(mac, s) && CanStep(s, step)
    ensures LedgerInv(mac, Stepped(mac, s, step))
  {
    match step
    case Lock(tx) => assert s.table + [] == s.table;
    case InsertEvent(tx, id, facts) =>
      var Holding(at, rows) := s.open[tx];
      var event := Linked(mac, s.table + rows, Request(Key(at, id), facts));
      ChainGrows(mac, s.table + rows, event);
      assert s.table + (rows + [event]) == s.table + rows + [event];
    case Commit(tx) => assert s.table + [] == s.table;
    case _ =>
  }

  lemma {:induction false} RunKeepsLedger(mac: Payload -> Hash, s: Ledger, steps: seq<LedgerStep>)
    requires LedgerInv(mac, s) && IsLedgerRun(mac, s, steps)
    ensures LedgerInv(mac, LedgerAfter(mac, s, steps))
    decreases |steps|
  {
    if steps != [] {
      StepKeepsLedger(mac, s, steps[0]);
      RunKeepsLedger(mac, Stepped(mac, s, steps[0]), steps[1..]);
    }
  }

  lemma {:induction false} FrontIsChained(mac: Payload -> Hash, table: seq<AuditEvent>)
    requires Chained(mac, table) && table != []
    ensures var n := |table| - 1;
            && Chained(mac, table[..n])
            && RequestsOf(table)[..n] == RequestsOf(table[..n])
            && table == table[..n] + [Linked(mac, table[..n], RequestsOf(table)[n])]
  {
    var n := |table| - 1;
    var front := table[..n];
    forall i | 0 <= i < n ensures LinkedAt(mac, front, i) {
      assert front[..i] == table[..i];
      assert LinkedAt(mac, table, i);
    }
    assert LinkedAt(mac, table, n);
    TakeLast(table, |table|);
    assert table == table[..|table|];
  }

  lemma {:induction false} ChainedIsSerial(mac: Payload -> Hash, table: seq<AuditEvent>)
    requires Chained(mac, table)
    ensures TableAfter(mac, RequestsOf(table)) == table
  {
    if table != [] {
      FrontIsChained(mac, table);
      ChainedIsSerial(mac, table[..|table| - 1]);
    }
  }

  // Whatever the interleaving, the committed rows are those of a serial run of appends, made in
  // the order in which the transactions held the lock.
  lemma {:induction false} OverlappingIsSerial(mac: Payload -> Hash, steps: seq<LedgerStep>)
    requires IsLedgerRun(mac, EMPTY_LEDGER, steps)
    ensures var table := LedgerAfter(mac, EMPTY_LEDGER, steps).table;
            && table == TableAfter(mac, RequestsOf(table))
            && DistinctKeys(RequestsOf(table))
  {
    RunKeepsLedger(mac, EMPTY_LEDGER, steps);
    ChainedIsSerial(mac, LedgerAfter(mac, EMPTY_LEDGER, steps).table);
  }

  // The same steps as a book of requests: each insert is entered under its transaction's request
  // time, and a commit moves the transaction's entries, in order, to the committed ones.
  datatype Claim = Claim(at: int, entries: seq<Request>)

  datatype Book = Book(committed: seq<Request>, pending: map<int, Claim>)

  ghost function Booked(b: Book, step: LedgerStep): Book {
    match step
    case Begin(tx, at) => b.(pending := b.pending[tx := Claim(at, [])])
    case Lock(tx) => b
    case InsertEvent(tx, id, facts) =>
      if tx !in b.pending then b
      else
        var Claim(at, entries) := b.pending[tx];
        b.(pending := b.pending[tx := Claim(at, entries + [Request(Key(at, id), facts)])])
    case Commit(tx) =>
      if tx !in b.pending then b else Book(b.committed + b.pending[tx].entries, b.pending - {tx})
    case Rollback(tx) => b.(pending := b.pending - {tx})
  }

  ghost function BookAfter(b: Book, steps: seq<LedgerStep>): Book
    decreases |steps|
  {
    if steps == [] then b else BookAfter(Booked(b, steps[0]), steps[1..])
  }

  ghost predicate Agree(s: Ledger, b: Book) {
    && RequestsOf(s.table) == b.committed
    && s.open.Keys == b.pending.Keys
    && forall tx :: tx in s.open ==>
         && s.open[tx].at == b.pending[tx].at
         && b.pending[tx].entries == if s.open[tx].Holding? then RequestsOf(s.open[tx].rows) else []
  }

  lemma {:induction false} RequestsAppend(a: seq<AuditEvent>, b: seq<AuditEvent>)
    ensures RequestsOf(a + b) == RequestsOf(a) + RequestsOf(b)
  {
  }

  lemma {:induction false} StepKeepsBook(mac: Payload -> Hash, s: Ledger, b: Book, step: LedgerStep)
    requires Agree(s, b) && CanStep(s, step)
    ensures Agree(Stepped(mac, s, step), Booked(b, step))
  {
    match step
    case InsertEvent(tx, id, facts) =>
      var Holding(at, rows) := s.open[tx];
      var event := Linked(mac, s.table + rows, Request(Key(at, id), facts));
      RequestsAppend(rows, [event]);
      assert RequestsOf([event]) == [Request(Key(at, id), facts)];
    case Commit(tx) =>
      RequestsAppend(s.table, if s.open[tx].Holding? then s.open[tx].rows else []);
      assert RequestsOf([]) == [];
    case _ =>
  }

  lemma {:induction false} RunKeepsBook(mac: Payload -> Hash, s: Ledger, b: Book, steps: seq<LedgerStep>)
    requires Agree(s, b) && IsLedgerRun(mac, s, steps)
    ensures Agree(LedgerAfter(mac, s, steps), BookAfter(b, steps))
    decreases |steps|
  {
    if steps != [] {
      StepKeepsBook(mac, s, b, steps[0]);
      RunKeepsBook(mac, Stepped(mac, s, steps[0]), Booked(b, steps[0]), steps[1..]);
    }
  }

  // The committed rows are exactly the committed requests, in order: every row carries the id and
  // facts it was inserted with and the time its transaction began with.
  lemma {:induction false} CommittedAsInserted(mac: Payload -> Hash, steps: seq<LedgerStep>)
    requires IsLedgerRun(mac, EMPTY_LEDGER, steps)
    ensures var table := LedgerAfter(mac, EMPTY_LEDGER, steps).table;
            var book := BookAfter(Book([], map[]), steps).committed;
            && |table| == |book|
            && forall i :: 0 <= i < |table| ==>
                 table[i].key == book[i].key && table[i].value.facts == book[i].facts
  {
    assert RequestsOf([]) == [];
    RunKeepsBook(mac, EMPTY_LEDGER, Book([], map[]), steps);
  }

  // So the chain verifies exactly when the lock was held in key order: by transactions in the
  // order of their request times, each inserting ascending ids at equal times.
  lemma {:induction false} OverlappingAppendsVerifyIff(mac: Payload -> Hash, opts: Options, steps: seq<LedgerStep>)
    requires opts.checkpointInterval != 0
    requires IsLedgerRun(mac, EMPTY_LEDGER, steps)
    requires SoundMac(mac, LedgerAfter(mac, EMPTY_LEDGER, steps).table)
    ensures var table := LedgerAfter(mac, EMPTY_LEDGER, steps).table;
            Verdict(mac, opts, Sorted(table)).passed <==>
            forall i, j :: 0 <= i < j < |table| ==>
              || table[i].key.at < table[j].key.at
              || (table[i].key.at == table[j].key.at && table[i].key.id < table[j].key.id)
  {
    var table := LedgerAfter(mac, EMPTY_LEDGER, steps).table;
    OverlappingIsSerial(mac, steps);
    AppendThenVerify(mac, opts, RequestsOf(table));
    assert InKeyOrder(RequestsOf(table)) <==> Ascending(table);
  }

  lemma {:induction false} LedgerSnoc(mac: Payload -> Hash, s: Ledger, steps: seq<LedgerStep>, step: LedgerStep)
    returns (longer: seq<LedgerStep>)
    requires IsLedgerRun(mac, s, steps) && CanStep(LedgerAfter(mac, s, steps), step)
    ensures longer == steps + [step] && IsLedgerRun(mac, s, longer)
    ensures LedgerAfter(mac, s, longer) == Stepped(mac, LedgerAfter(mac, s, steps), step)
    decreases |steps|
  {
    longer := steps + [step];
    if steps != [] {
      var rest := LedgerSnoc(mac, Stepped(mac, s, steps[0]), steps[1..], step);
      assert longer[1..] == rest;
    }
  }

  lemma {:induction false} LaterGoesFirst(mac: Payload -> Hash, b: Facts) returns (steps: seq<LedgerStep>)
    ensures IsLedgerRun(mac, EMPTY_LEDGER, steps)
    ensures LedgerAfter(mac, EMPTY_LEDGER, steps).open == map[1 := Begun(1)]
    ensures var table := LedgerAfter(mac, EMPTY_LEDGER, steps).table; |table| == 1 && table[0].key == Key(2, 20)
  {
    steps := LedgerSnoc(mac, EMPTY_LEDGER, [], Begin(1, 1));
    steps := LedgerSnoc(mac, EMPTY_LEDGER, steps, Begin(2, 2));
    steps := LedgerSnoc(mac, EMPTY_LEDGER, steps, Lock(2));
    steps := LedgerSnoc(mac, EMPTY_LEDGER, steps, InsertEvent(2, 20, b));
    steps := LedgerSnoc(mac, EMPTY_LEDGER, steps, Commit(2));
  }

  // Two overlapping requests are enough: the one that came first gets the lock second.
  lemma {:induction false} LateLockBreaksTheChain(mac: Payload -> Hash, opts: Options, a: Facts, b: Facts)
    returns (steps: seq<LedgerStep>)
    requires opts.checkpointInterval != 0
    ensures IsLedgerRun(mac, EMPTY_LEDGER, steps)
    ensures var table := LedgerAfter(mac, EMPTY_LEDGER, steps).table;
            && |table| == 2 && table[0].key.at == 2 && table[1].key.at == 1
            && (SoundMac(mac, table) ==> !Verdict(mac, opts, Sorted(table)).passed)
  {
    steps := LaterGoesFirst(mac, b);
    steps := LedgerSnoc(mac, EMPTY_LEDGER, steps, Lock(1));
    steps := LedgerSnoc(mac, EMPTY_LEDGER, steps, InsertEvent(1, 10, a));
    steps := LedgerSnoc(mac, EMPTY_LEDGER, steps, Commit(1));
    if SoundMac(mac, LedgerAfter(mac, EMPTY_LEDGER, steps).table) {
      OverlappingAppendsVerifyIff(mac, opts, steps);
    }
  }

  lemma {:induction false} LateRowIsMissed(early: AuditEvent, late: AuditEvent, limit: nat)
    requires limit >= 1 && Less(late.key, early.key)
    ensures Collected([[early], [early, late]], 0, None, limit) == [early]
  {
    var tables := [[early], [early, late]];
    assert Sorted([early]) == [early] && Where([early], None) == [early] by {
      assert [early][1..] == [];
    }
    assert Where([late], Some(early.key)) == [] by {
      assert [late][1..] == [];
    }
    assert Where([early, late], Some(early.key)) == [] by {
      assert [early, late][1..] == [late];
    }
    CollectedStep(tables, 0, None, limit, [early]);
    CollectedStep(tables, 1, Some(early.key), limit, []);
  }

  // A session that is past a row's place when the row is committed does not see it: here it reads
  // the first row, the late one is committed behind its cursor, and it passes a table that fails.
  lemma {:induction false} SessionMissesLateRow(mac: Payload -> Hash, opts: Options, a: Facts, b: Facts)
    returns (first: seq<LedgerStep>, steps: seq<LedgerStep>)
    requires opts.checkpointInterval != 0 && opts.batchSize >= 1
    ensures IsLedgerRun(mac, EMPTY_LEDGER, first) && IsLedgerRun(mac, EMPTY_LEDGER, steps) && first <= steps
    ensures var before := LedgerAfter(mac, EMPTY_LEDGER, first).table;
            var after := LedgerAfter(mac, EMPTY_LEDGER, steps).table;
            SoundMac(mac, after) ==>
              && Verdict(mac, opts, Collected([before, after], 0, None, opts.batchSize)).passed
              && !Verdict(mac, opts, Sorted(after)).passed
  {
    first := LaterGoesFirst(mac, b);
    steps := LedgerSnoc(mac, EMPTY_LEDGER, first, Lock(1));
    steps := LedgerSnoc(mac, EMPTY_LEDGER, steps, InsertEvent(1, 10, a));
    steps := LedgerSnoc(mac, EMPTY_LEDGER, steps, Commit(1));
    var before, after := LedgerAfter(mac, EMPTY_LEDGER, first).table, LedgerAfter(mac, EMPTY_LEDGER, steps).table;
    assert before == [before[0]] && after == [before[0], after[1]];
    if SoundMac(mac, after) {
      assert forall e :: e in before ==> e in after;
      OverlappingAppendsVerifyIff(mac, opts, first);
      OverlappingAppendsVerifyIff(mac, opts, steps);
      SortedFixpoint(before);
      LateRowIsMissed(before[0], after[1], opts.batchSize);
    }
  }

  // Nor does it take two: a transaction that appends two events gives both its one timestamp, and
  // their order is then that of two random ids.
  lemma {:induction false} OneTimestampBreaksTheChain(mac: Payload -> Hash, opts: Options, a: Facts, b: Facts)
    returns (steps: seq<LedgerStep>)
    requires opts.checkpointInterval != 0
    ensures IsLedgerRun(mac, EMPTY_LEDGER, steps)
    ensures var table := LedgerAfter(mac, EMPTY_LEDGER, steps).table;
            && |table| == 2 && table[0].key == Key(1, 20) && table[1].key == Key(1, 10)
            && (SoundMac(mac, table) ==> !Verdict(mac, opts, Sorted(table)).passed)
  {
    steps := LedgerSnoc(mac, EMPTY_LEDGER, [], Begin(1, 1));
    steps := LedgerSnoc(mac, EMPTY_LEDGER, steps, Lock(1));
    steps := LedgerSnoc(mac, EMPTY_LEDGER, steps, InsertEvent(1, 20, a));
    steps := LedgerSnoc(mac, EMPTY_LEDGER, steps, InsertEvent(1, 10, b));
    steps := LedgerSnoc(mac, EMPTY_LEDGER, steps, Commit(1));
    if SoundMac(mac, LedgerAfter(mac, EMPTY_LEDGER, steps).table) {
      OverlappingAppendsVerifyIff(mac, opts, steps);
    }
  }
}
