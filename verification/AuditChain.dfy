// The HMAC audit chain: appends that link to the table's latest row, and the two verifiers
// that walk the chain, one over a list and one over keyset batches of the table.
// The keyed HMAC is the parameter `mac`; timestamps and UUIDs are integers.
module AuditChain {
  import opened Arithmetic
  import opened Outcomes
  import opened Keyset
  import opened Text

  type Hash = string

  const ZEROS := "0000000000000000"
  const GENESIS: Hash := ZEROS + ZEROS + ZEROS + ZEROS
  const MAX_CHECKPOINTS := 100

  datatype Scalar = Null | Flag(b: bool) | Number(n: real) | Words(t: string)

  datatype Facts = Facts(
    actorType: string, actorId: string, action: string, objectType: string, objectId: string,
    outcome: string, reasonCode: Option<string>, metadata: map<string, Scalar>)

  // The stored part of an audit row beside its key (occurred_at, audit_event_id).
  datatype Entry = Entry(facts: Facts, previousHash: Hash, eventHash: Hash)

  type AuditEvent = Row<Entry>

  // Everything the HMAC covers: the whole row except event_hash.
  datatype Payload = Payload(key: Key, facts: Facts, previousHash: Hash)

  datatype Reason = ChainBreak | HmacMismatch | OrderingViolation | WrongKey

  datatype Checkpoint = Checkpoint(index: nat, id: int, hash: Hash)

  datatype Options = Options(
    checkpointInterval: int, batchSize: nat,
    objectType: Option<string>, objectIdPrefix: Option<string>)

  datatype Report = Report(
    passed: bool, verifiedEvents: nat, totalEvents: nat, headHash: Option<Hash>,
    checkpoints: seq<Checkpoint>, failureReason: Option<Reason>, failureIndex: Option<nat>,
    failureId: Option<int>, matchingEvents: nat)

  function PayloadOf(e: AuditEvent): Payload {
    Payload(e.key, e.value.facts, e.value.previousHash)
  }

  predicate HashMatches(mac: Payload -> Hash, e: AuditEvent) {
    IsSha256(e.value.eventHash) && mac(PayloadOf(e)) == e.value.eventHash
  }

  predicate MatchesFilter(opts: Options, e: AuditEvent) {
    && (opts.objectType.Some? ==> e.value.facts.objectType == opts.objectType.value)
    && (opts.objectIdPrefix.Some? ==> opts.objectIdPrefix.value <= e.value.facts.objectId)
  }

  // ----- what a chain must satisfy -----

  function ExpectedPrevious(events: seq<AuditEvent>, i: nat): Hash
    requires i <= |events|
  {
    if i == 0 then GENESIS else events[i - 1].value.eventHash
  }

  // The first check that event i fails, in the order the verifiers make them.
  function Fault(mac: Payload -> Hash, events: seq<AuditEvent>, i: nat): Option<Reason>
    requires i < |events|
  {
    if i > 0 && Less(events[i].key, events[i - 1].key) then Some(OrderingViolation)
    else if events[i].value.previousHash != ExpectedPrevious(events, i) then Some(ChainBreak)
    else if !HashMatches(mac, events[i]) then Some(if i == 0 then WrongKey else HmacMismatch)
    else None
  }

  ghost predicate IntactUpTo(mac: Payload -> Hash, events: seq<AuditEvent>, n: nat)
    requires n <= |events|
  {
    forall i :: 0 <= i < n ==> Fault(mac, events, i).None?
  }

  ghost predicate Intact(mac: Payload -> Hash, events: seq<AuditEvent>) {
    IntactUpTo(mac, events, |events|)
  }

  // ----- the report as a function of the event list -----

  function FirstFault(mac: Payload -> Hash, events: seq<AuditEvent>, from: nat): (n: nat)
    requires from <= |events|
    ensures from <= n <= |events|
    ensures forall i :: from <= i < n ==> Fault(mac, events, i).None?
    ensures n < |events| ==> Fault(mac, events, n).Some?
    decreases |events| - from
  {
    if from == |events| || Fault(mac, events, from).Some? then from
    else FirstFault(mac, events, from + 1)
  }

  function AddCheckpoint(marks: seq<Checkpoint>, index: nat, e: AuditEvent): seq<Checkpoint> {
    if |marks| >= MAX_CHECKPOINTS then marks
    else marks + [Checkpoint(index, e.key.id, e.value.eventHash)]
  }

  predicate MarksIndex(interval: int, index: nat)
    requires interval != 0
  {
    index == 0 || (index + 1) % interval == 0
  }

  function Checkpoints(interval: int, events: seq<AuditEvent>): seq<Checkpoint>
    requires interval != 0
  {
    if events == [] then []
    else
      var last := |events| - 1;
      var marks := Checkpoints(interval, events[..last]);
      if MarksIndex(interval, last) then AddCheckpoint(marks, last, events[last]) else marks
  }

  function FinalCheckpoints(interval: int, events: seq<AuditEvent>): seq<Checkpoint>
    requires interval != 0
  {
    var marks := Checkpoints(interval, events);
    if |events| > 1 && (|events| - 1) % interval != 0
    then AddCheckpoint(marks, |events| - 1, events[|events| - 1])
    else marks
  }

  function CountMatching(opts: Options, events: seq<AuditEvent>): nat {
    if events == [] then 0
    else
      var last := |events| - 1;
      CountMatching(opts, events[..last]) + (if MatchesFilter(opts, events[last]) then 1 else 0)
  }

  function HeadHash(events: seq<AuditEvent>): Option<Hash> {
    if events == [] then None else Some(events[|events| - 1].value.eventHash)
  }

  function Verdict(mac: Payload -> Hash, opts: Options, events: seq<AuditEvent>): Report
    requires opts.checkpointInterval != 0
  {
    var n := FirstFault(mac, events, 0);
    if n == |events| then
      Report(true, n, n, HeadHash(events), FinalCheckpoints(opts.checkpointInterval, events),
             None, None, None, CountMatching(opts, events))
    else
      Report(false, n, |events|, HeadHash(events[..n]),
             Checkpoints(opts.checkpointInterval, events[..n]),
             Fault(mac, events, n), Some(n), Some(events[n].key.id), CountMatching(opts, events[..n]))
  }

  // ----- the in-memory verifier -----

  // What a verifier carries from event to event.
  datatype Walk = Walk(
    index: nat, expectedPrevious: Hash, previous: Option<AuditEvent>, head: Option<Hash>,
    marks: seq<Checkpoint>, matching: nat)

  // The walk that has accepted the first `w.index` events.
  ghost predicate Walked(mac: Payload -> Hash, opts: Options, events: seq<AuditEvent>, w: Walk)
    requires opts.checkpointInterval != 0
  {
    && w.index <= |events|
    && IntactUpTo(mac, events, w.index)
    && w.expectedPrevious == ExpectedPrevious(events, w.index)
    && w.previous == (if w.index == 0 then None else Some(events[w.index - 1]))
    && w.head == HeadHash(events[..w.index])
    && w.marks == Checkpoints(opts.checkpointInterval, events[..w.index])
    && w.matching == CountMatching(opts, events[..w.index])
  }

  lemma {:induction false} FaultsAfter(mac: Payload -> Hash, events: seq<AuditEvent>, n: nat, from: nat)
    requires from <= n <= |events| && IntactUpTo(mac, events, n)
    ensures FirstFault(mac, events, from) == FirstFault(mac, events, n)
    decreases n - from
  {
    if from < n {
      FaultsAfter(mac, events, n, from + 1);
    }
  }

  // A walk stopped by a fault at n determines the whole report.
  lemma {:induction false} StoppedAt(mac: Payload -> Hash, events: seq<AuditEvent>, n: nat)
    requires n <= |events| && IntactUpTo(mac, events, n)
    requires n < |events| ==> Fault(mac, events, n).Some?
    ensures FirstFault(mac, events, 0) == n
  {
    FaultsAfter(mac, events, n, 0);
  }

  // The loop body of both verifiers: the three checks in order, then the counters.
  method Visit(mac: Payload -> Hash, opts: Options, w: Walk, event: AuditEvent, ghost events: seq<AuditEvent>)
    returns (next: Walk, reason: Option<Reason>)
    requires opts.checkpointInterval != 0
    requires Walked(mac, opts, events, w) && w.index < |events| && events[w.index] == event
    ensures reason == Fault(mac, events, w.index)
    ensures reason.Some? ==> next == w
    ensures reason.None? ==> next.index == w.index + 1 && Walked(mac, opts, events, next)
  {
    next, reason := w, None;
    if w.previous.Some? && Less(event.key, w.previous.value.key) {
      reason := Some(OrderingViolation);
    } else if event.value.previousHash != w.expectedPrevious {
      reason := Some(ChainBreak);
    } else if !HashMatches(mac, event) {
      reason := Some(if w.index == 0 then WrongKey else HmacMismatch);
    } else {
      var matching, marks := w.matching, w.marks;
      if MatchesFilter(opts, event) {
        matching := matching + 1;
      }
      if w.index == 0 || (w.index + 1) % opts.checkpointInterval == 0 {
        marks := AddCheckpoint(marks, w.index, event);
      }
      assert events[..w.index + 1][..w.index] == events[..w.index];
      next := Walk(w.index + 1, event.value.eventHash, Some(event), Some(event.value.eventHash),
                   marks, matching);
    }
  }

  function Rejection(w: Walk, total: nat, reason: Reason, event: AuditEvent): Report {
    Report(false, w.index, total, w.head, w.marks, Some(reason), Some(w.index),
           Some(event.key.id), w.matching)
  }

  const START := Walk(0, GENESIS, None, None, [], 0)

  method VerifyEvents(mac: Payload -> Hash, opts: Options, events: seq<AuditEvent>)
    returns (report: Report)
    requires opts.checkpointInterval != 0
    ensures report == Verdict(mac, opts, events)
  {
    var w, reason := START, None;
    if events == [] {
      return Report(true, 0, 0, None, [], None, None, None, 0);
    }
    for index := 0 to |events|
      invariant w.index == index && Walked(mac, opts, events, w)
    {
      w, reason := Visit(mac, opts, w, events[index], events);
      if reason.Some? {
        StoppedAt(mac, events, index);
        return Rejection(w, |events|, reason.value, events[index]);
      }
    }
    assert events[..|events|] == events;
    StoppedAt(mac, events, |events|);
    var marks := w.marks;
    if |events| > 1 && (|events| - 1) % opts.checkpointInterval != 0 {
      marks := AddCheckpoint(marks, |events| - 1, events[|events| - 1]);
    }
    return Report(true, |events|, |events|, w.head, marks, None, None, None, w.matching);
  }

  // ----- the batched verifier refines it -----

  // The batched walk stops counting at the failure, so its total is index + 1 there.
  function SessionView(r: Report): (seen: Report)
    ensures seen.(totalEvents := r.totalEvents) == r
    ensures seen.totalEvents == r.totalEvents || (!r.passed && seen.totalEvents == r.verifiedEvents + 1)
    ensures !r.passed ==> seen.totalEvents == seen.verifiedEvents + 1
  {
    if r.passed then r else r.(totalEvents := r.verifiedEvents + 1)
  }

  method VisitBatch(mac: Payload -> Hash, opts: Options, w: Walk, batch: seq<AuditEvent>,
                    ghost events: seq<AuditEvent>)
    returns (next: Walk, failure: Option<Report>)
    requires opts.checkpointInterval != 0
    requires Walked(mac, opts, events, w) && batch <= events[w.index..]
    ensures failure.None? ==> next.index == w.index + |batch| && Walked(mac, opts, events, next)
    ensures failure.Some? ==> failure.value == SessionView(Verdict(mac, opts, events))
  {
    next, failure := w, None;
    var reason: Option<Reason>;
    for j := 0 to |batch|
      invariant next.index == w.index + j && Walked(mac, opts, events, next)
    {
      assert batch[j] == events[w.index..][j];
      next, reason := Visit(mac, opts, next, batch[j], events);
      if reason.Some? {
        StoppedAt(mac, events, next.index);
        return next, Some(Rejection(next, next.index + 1, reason.value, batch[j]));
      }
    }
  }

  // The closing report of a walk that accepted every event.
  method PassingReport(mac: Payload -> Hash, opts: Options, w: Walk, ghost events: seq<AuditEvent>)
    returns (report: Report)
    requires opts.checkpointInterval != 0
    requires Walked(mac, opts, events, w) && w.index == |events|
    ensures report == Verdict(mac, opts, events) == SessionView(Verdict(mac, opts, events))
  {
    AllWalked(mac, opts, events, w);
    if w.index == 0 {
      return Report(true, 0, 0, None, [], None, None, None, 0);
    }
    var marks := w.marks;
    if w.index > 1 && (w.index - 1) % opts.checkpointInterval != 0 {
      marks := AddCheckpoint(marks, w.index - 1, w.previous.value);
    }
    return Report(true, w.index, w.index, w.head, marks, None, None, None, w.matching);
  }

  lemma {:induction false} StartWalked(mac: Payload -> Hash, opts: Options, events: seq<AuditEvent>)
    requires opts.checkpointInterval != 0
    ensures Walked(mac, opts, events, START)
  {
  }

  lemma {:induction false} AllWalked(mac: Payload -> Hash, opts: Options, events: seq<AuditEvent>, w: Walk)
    requires opts.checkpointInterval != 0 && Walked(mac, opts, events, w) && w.index == |events|
    ensures events[..|events|] == events && FirstFault(mac, events, 0) == |events|
  {
    StoppedAt(mac, events, |events|);
  }

  // One batch of the collected rows, and what is left of them after it.
  lemma {:induction false} NextPiece(events: seq<AuditEvent>, from: nat, batch: seq<AuditEvent>, rest: seq<AuditEvent>)
    requires from <= |events| && events[from..] == batch + rest
    ensures batch <= events[from..] && from + |batch| <= |events| && events[from + |batch|..] == rest
    ensures events[from..] == [] ==> from == |events|
  {
    assert events[from + |batch|..] == events[from..][|batch|..];
  }

  lemma {:induction false} NothingRead(mac: Payload -> Hash, opts: Options, tables: seq<seq<AuditEvent>>)
    requires opts.checkpointInterval != 0 && tables != []
    ensures Collected(tables, 0, None, 0) == [] && SessionView(Verdict(mac, opts, [])) == Verdict(mac, opts, [])
  {
    assert Select(tables[0], None, 0) == [];
  }

  // Reads the table through keyset batches, each from the table as it is by then. The report is
  // that of the in-memory verifier on the rows collected. Where appends come only after every row
  // already there, those are the key-ordered rows that the last batch could see. A batch size of
  // zero reads nothing.
  method VerifySession(mac: Payload -> Hash, opts: Options, tables: seq<seq<AuditEvent>>) returns (report: Report)
    requires opts.checkpointInterval != 0 && tables != []
    ensures report == SessionView(Verdict(mac, opts, Collected(tables, 0, None, opts.batchSize)))
    ensures opts.batchSize >= 1 && GrowsInOrder(tables) ==>
      report == SessionView(Verdict(mac, opts, Sorted(tables[LastRead(tables, 0, None, opts.batchSize)])))
    ensures opts.batchSize == 0 ==> report == Verdict(mac, opts, [])
  {
    hide Select, Collected, LastRead, Where, Sorted, Verdict, SessionView, Walked;
    ghost var events := Collected(tables, 0, None, opts.batchSize);
    StartWalked(mac, opts, events);
    NothingRead(mac, opts, tables);
    assert events[0..] == events;
    if opts.batchSize >= 1 && GrowsInOrder(tables) {
      CollectedInOrder(tables, 0, 0, opts.batchSize);
    }
    var last, w, failure := 0, START, None;
    var cursor: Option<Key> := None;
    var batch := Select(tables[0], cursor, opts.batchSize);
    while batch != []
      invariant last < |tables| && w.index <= |events| && Walked(mac, opts, events, w)
      invariant batch == Select(tables[last], cursor, opts.batchSize)
      invariant events[w.index..] == Collected(tables, last, cursor, opts.batchSize)
      decreases |tables| - last, |Where(tables[last], cursor)|
    {
      CollectedStep(tables, last, cursor, opts.batchSize, batch);
      ghost var later := Some(batch[|batch| - 1].key);
      NextPiece(events, w.index, batch, Collected(tables, NextTable(tables, last), later, opts.batchSize));
      w, failure := VisitBatch(mac, opts, w, batch, events);
      if failure.Some? {
        return failure.value;
      }
      cursor := Some(batch[|batch| - 1].key);
      last := NextTable(tables, last);
      batch := Select(tables[last], cursor, opts.batchSize);
    }
    CollectedStep(tables, last, cursor, opts.batchSize, batch);
    report := PassingReport(mac, opts, w, events);
  }

  // Whatever is committed between batches, the rows collected ascend in key order, so the session
  // never reports an ordering violation, and no row that was there throughout escapes it.
  lemma {:induction false} SessionCoverage(mac: Payload -> Hash, opts: Options, tables: seq<seq<AuditEvent>>)
    requires opts.checkpointInterval != 0 && opts.batchSize >= 1
    requires tables != [] && forall i :: 0 <= i < |tables| ==> UniqueKeys(tables[i])
    ensures var events := Collected(tables, 0, None, opts.batchSize);
            && Ascending(events)
            && Verdict(mac, opts, events).failureReason != Some(OrderingViolation)
            && (forall e: AuditEvent :: (forall i :: 0 <= i < |tables| ==> e in tables[i]) ==> e in events)
  {
    var events := Collected(tables, 0, None, opts.batchSize);
    CollectedMeaning(tables, 0, None, opts.batchSize);
    forall e: AuditEvent | forall i :: 0 <= i < |tables| ==> e in tables[i] ensures e in events {
      assert ThereFrom(tables, 0, e);
    }
  }

  // ----- what the report means -----

  // The verifier passes exactly the intact chains. A failure at i is minimal: the first i
  // events pass by themselves, and the first i + 1 already fail, at i and for the same reason.
  lemma {:induction false} VerdictMeaning(mac: Payload -> Hash, opts: Options, events: seq<AuditEvent>)
    requires opts.checkpointInterval != 0
    ensures var r := Verdict(mac, opts, events);
            && (r.passed <==> Intact(mac, events))
            && (r.passed ==> r.headHash == HeadHash(events) && r.verifiedEvents == |events|)
            && (!r.passed ==>
                  && r.failureIndex.Some? && r.failureIndex.value < |events|
                  && r.failureReason == Fault(mac, events, r.failureIndex.value)
                  && Verdict(mac, opts, events[..r.failureIndex.value]).passed
                  && var shorter := Verdict(mac, opts, events[..r.failureIndex.value + 1]);
                     !shorter.passed && shorter.failureIndex == r.failureIndex
                     && shorter.failureReason == r.failureReason)
  {
    var n := FirstFault(mac, events, 0);
    if n < |events| {
      PrefixFaults(mac, events, n);
      StoppedAt(mac, events[..n], n);
      PrefixFaults(mac, events, n + 1);
      StoppedAt(mac, events[..n + 1], n);
    }
  }

  // Event i on its fields: time falls, or stays while the id falls; it does not carry the hash of
  // the event before it, or 64 zeros at the start; or its own hash is not 64 lower-case hex digits
  // or not the HMAC of its other fields.
  ghost predicate OutOfOrder(events: seq<AuditEvent>, i: nat)
    requires i < |events|
  {
    i > 0 && (|| events[i].key.at < events[i - 1].key.at
              || (events[i].key.at == events[i - 1].key.at && events[i].key.id < events[i - 1].key.id))
  }

  ghost predicate Unlinked(events: seq<AuditEvent>, i: nat)
    requires i < |events|
  {
    var previous := events[i].value.previousHash;
    if i == 0 then |previous| != 64 || exists k :: 0 <= k < 64 && previous[k] != '0'
    else previous != events[i - 1].value.eventHash
  }

  ghost predicate Forged(mac: Payload -> Hash, e: AuditEvent) {
    || |e.value.eventHash| != 64 || (exists c :: c in e.value.eventHash && c !in "0123456789abcdef")
    || e.value.eventHash != mac(Payload(e.key, e.value.facts, e.value.previousHash))
  }

  lemma {:induction false} GenesisIsZeros(s: Hash)
    ensures s == GENESIS <==> |s| == 64 && forall k :: 0 <= k < 64 ==> s[k] == '0'
  {
    assert |ZEROS| == 16 && forall k :: 0 <= k < 16 ==> ZEROS[k] == '0';
    assert forall k :: 0 <= k < 64 ==> GENESIS[k] == '0';
    if |s| == 64 && forall k :: 0 <= k < 64 ==> s[k] == '0' {
      assert s == GENESIS;
    }
  }

  lemma {:induction false} FaultOnFields(mac: Payload -> Hash, events: seq<AuditEvent>, i: nat)
    requires i < |events|
    ensures Fault(mac, events, i)
         == if OutOfOrder(events, i) then Some(OrderingViolation)
            else if Unlinked(events, i) then Some(ChainBreak)
            else if Forged(mac, events[i]) then Some(if i == 0 then WrongKey else HmacMismatch)
            else None
  {
    GenesisIsZeros(events[i].value.previousHash);
    HexIs(events[i].value.eventHash);
  }

  // The positions among the first n whose object type and id match the filters.
  ghost function MatchingPositions(opts: Options, events: seq<AuditEvent>, n: nat): set<int>
    requires n <= |events|
  {
    set i | 0 <= i < n && Wanted(opts, events[i].value.facts)
  }

  ghost predicate Wanted(opts: Options, facts: Facts) {
    && (opts.objectType == None || opts.objectType == Some(facts.objectType))
    && (opts.objectIdPrefix.Some? ==>
          && |opts.objectIdPrefix.value| <= |facts.objectId|
          && facts.objectId[..|opts.objectIdPrefix.value|] == opts.objectIdPrefix.value)
  }

  lemma {:induction false} FilterOnFields(opts: Options, e: AuditEvent)
    ensures MatchesFilter(opts, e) <==> Wanted(opts, e.value.facts)
  {
  }

  lemma {:induction false} CountOnFields(opts: Options, events: seq<AuditEvent>, n: nat)
    requires n <= |events|
    ensures CountMatching(opts, events[..n]) == |MatchingPositions(opts, events, n)|
  {
    if n > 0 {
      CountOnFields(opts, events, n - 1);
      CountStep(opts, events, n - 1);
      PositionsStep(opts, events, n - 1);
    }
  }

  lemma {:induction false} CountStep(opts: Options, events: seq<AuditEvent>, n: nat)
    requires n < |events|
    ensures CountMatching(opts, events[..n + 1])
         == CountMatching(opts, events[..n]) + (if MatchesFilter(opts, events[n]) then 1 else 0)
  {
    assert events[..n + 1][..n] == events[..n];
  }

  lemma {:induction false} PositionsStep(opts: Options, events: seq<AuditEvent>, n: nat)
    requires n < |events|
    ensures |MatchingPositions(opts, events, n + 1)|
         == |MatchingPositions(opts, events, n)| + (if MatchesFilter(opts, events[n]) then 1 else 0)
  {
    var before, now := MatchingPositions(opts, events, n), MatchingPositions(opts, events, n + 1);
    hide Wanted, MatchesFilter;
    FilterOnFields(opts, events[n]);
    if MatchesFilter(opts, events[n]) {
      assert now == before + {n};
    } else {
      assert now == before;
    }
  }

  // The whole report on the fields of the events. It stops at the first event that is out of
  // order, unlinked or forged, tells these apart in that order, and counts what came before.
  lemma {:induction false} ReportMeaning(mac: Payload -> Hash, opts: Options, events: seq<AuditEvent>)
    requires opts.checkpointInterval != 0
    ensures var r := Verdict(mac, opts, events);
            var n := r.verifiedEvents;
            && n <= |events| && r.totalEvents == |events|
            && (forall i :: 0 <= i < n ==>
                  !OutOfOrder(events, i) && !Unlinked(events, i) && !Forged(mac, events[i]))
            && (r.passed <==> n == |events|)
            && r.headHash == (if n == 0 then None else Some(events[n - 1].value.eventHash))
            && r.matchingEvents == |MatchingPositions(opts, events, n)|
            && (n < |events| ==> r.checkpoints == Checkpoints(opts.checkpointInterval, events[..n]))
            && (n == |events| ==> r.failureReason.None? && r.failureIndex.None? && r.failureId.None?)
            && (n < |events| ==>
                  && r.failureIndex == Some(n) && r.failureId == Some(events[n].key.id)
                  && (r.failureReason == Some(OrderingViolation) <==> OutOfOrder(events, n))
                  && (r.failureReason == Some(ChainBreak) <==> !OutOfOrder(events, n) && Unlinked(events, n))
                  && (r.failureReason == Some(WrongKey) <==>
                        n == 0 && !OutOfOrder(events, n) && !Unlinked(events, n) && Forged(mac, events[n]))
                  && (r.failureReason == Some(HmacMismatch) <==>
                        n > 0 && !OutOfOrder(events, n) && !Unlinked(events, n) && Forged(mac, events[n])))
  {
    hide CountMatching, Checkpoints, FinalCheckpoints, FirstFault, Fault, OutOfOrder, Unlinked, Forged;
    var n := FirstFault(mac, events, 0);
    forall i | 0 <= i < n ensures !OutOfOrder(events, i) && !Unlinked(events, i) && !Forged(mac, events[i]) {
      FaultOnFields(mac, events, i);
    }
    CountOnFields(opts, events, n);
    assert n == |events| ==> events[..n] == events;
    if n < |events| {
      FaultOnFields(mac, events, n);
    }
  }

  lemma {:induction false} PrefixFaults(mac: Payload -> Hash, events: seq<AuditEvent>, n: nat)
    requires n <= |events|
    ensures forall i :: 0 <= i < n ==> Fault(mac, events[..n], i) == Fault(mac, events, i)
  {
  }

  // Cutting events off the end of an intact chain is not detectable without a retained head hash.
  lemma {:induction false} TruncationPasses(mac: Payload -> Hash, opts: Options, events: seq<AuditEvent>, n: nat)
    requires opts.checkpointInterval != 0 && n <= |events|
    requires Verdict(mac, opts, events).passed
    ensures Verdict(mac, opts, events[..n]).passed
  {
    VerdictMeaning(mac, opts, events);
    PrefixFaults(mac, events, n);
    StoppedAt(mac, events[..n], n);
  }

  // Checkpoints name only marked positions of the verified prefix, with that event's id and hash,
  // and until the cap is reached they name all of them.
  lemma {:induction false} CheckpointsMeaning(interval: int, events: seq<AuditEvent>)
    requires interval != 0
    ensures var marks := Checkpoints(interval, events);
            && |marks| <= 100
            && (forall c :: c in marks ==>
                  && c.index < |events| && (c.index == 0 || (c.index + 1) % interval == 0)
                  && c.id == events[c.index].key.id && c.hash == events[c.index].value.eventHash)
            && (|marks| < 100 ==>
                  forall i :: 0 <= i < |events| && (i == 0 || (i + 1) % interval == 0) ==>
                    Checkpoint(i, events[i].key.id, events[i].value.eventHash) in marks)
  {
    if events != [] {
      CheckpointsMeaning(interval, events[..|events| - 1]);
    }
  }

  // How many of the first n positions the rolling rule marks.
  function MarkedBelow(interval: int, n: nat): nat
    requires interval != 0
  {
    var step := if interval < 0 then -interval else interval;
    if n == 0 then 0 else if step == 1 then n else 1 + n / step
  }

  lemma {:induction false} NextMarked(interval: int, n: nat)
    requires interval != 0
    ensures MarkedBelow(interval, n + 1) == MarkedBelow(interval, n) + (if MarksIndex(interval, n) then 1 else 0)
  {
    var step := if interval < 0 then -interval else interval;
    SameRemainder(n + 1, interval, step);
    if step == 1 {
      assert (n + 1) % 1 == 0;
    } else if n > 0 {
      NextQuotient(n, step);
    } else {
      QuotientIs(1, step, 0, 1);
    }
  }

  // Rolling checkpoints are taken at every marked position until there are 100 of them.
  lemma {:induction false} CheckpointCount(interval: int, events: seq<AuditEvent>)
    requires interval != 0
    ensures var marked := MarkedBelow(interval, |events|);
            |Checkpoints(interval, events)| == if marked < 100 then marked else 100
  {
    if events != [] {
      CheckpointCount(interval, events[..|events| - 1]);
      NextMarked(interval, |events| - 1);
    }
  }

  // The last checkpoint of a passing report misses the head for two reasons. The final checkpoint
  // uses index % interval while the rolling ones use (index + 1) % interval, so neither takes a
  // last index that is a positive multiple of the interval when its successor is not. And once 100
  // positions before the last are marked, no later event gets a checkpoint at all.
  lemma {:induction false} HeadCheckpoint(mac: Payload -> Hash, opts: Options, events: seq<AuditEvent>)
    requires opts.checkpointInterval != 0 && events != []
    requires Verdict(mac, opts, events).passed
    ensures var marks := Verdict(mac, opts, events).checkpoints;
            var last := |events| - 1;
            && marks != []
            && (forall c :: c in marks ==>
                  c.index < |events| && c.id == events[c.index].key.id && c.hash == events[c.index].value.eventHash)
            && (marks[|marks| - 1].index == last
                <==> last == 0
                     || (MarkedBelow(opts.checkpointInterval, last) < 100
                         && (last % opts.checkpointInterval != 0 || (last + 1) % opts.checkpointInterval == 0)))
  {
    var interval, last := opts.checkpointInterval, |events| - 1;
    FirstIsMarked(interval, events);
    CheckpointsMeaning(interval, events[..last]);
    CheckpointCount(interval, events[..last]);
    CheckpointsMeaning(interval, events);
  }

  ghost predicate IndicesAscend(marks: seq<Checkpoint>) {
    forall i, j :: 0 <= i < j < |marks| ==> marks[i].index < marks[j].index
  }

  lemma {:induction false} RollingAscend(interval: int, events: seq<AuditEvent>)
    requires interval != 0
    ensures IndicesAscend(Checkpoints(interval, events))
  {
    if events != [] {
      RollingAscend(interval, events[..|events| - 1]);
      CheckpointsMeaning(interval, events[..|events| - 1]);
      LastIsBeyond(Checkpoints(interval, events[..|events| - 1]), |events| - 1);
    }
  }

  lemma {:induction false} LastIsBeyond(marks: seq<Checkpoint>, n: nat)
    requires forall c :: c in marks ==> c.index < n
    ensures forall i :: 0 <= i < |marks| ==> marks[i].index < n
  {
    forall i | 0 <= i < |marks| ensures marks[i].index < n {
      assert marks[i] in marks;
    }
  }

  // The closing rule records the head a second time exactly when the rolling rule has just
  // recorded it and there is room: the interval divides the number of events but not the last
  // index, and fewer than 100 positions are marked. Otherwise the reported indices ascend strictly.
  lemma {:induction false} CheckpointsAscendIff(mac: Payload -> Hash, opts: Options, events: seq<AuditEvent>)
    requires opts.checkpointInterval != 0 && Verdict(mac, opts, events).passed
    ensures IndicesAscend(Verdict(mac, opts, events).checkpoints)
       <==> !(&& |events| > 1
              && |events| % opts.checkpointInterval == 0 && (|events| - 1) % opts.checkpointInterval != 0
              && MarkedBelow(opts.checkpointInterval, |events|) < 100)
  {
    hide Checkpoints, FirstFault;
    var interval := opts.checkpointInterval;
    var marks := Checkpoints(interval, events);
    RollingAscend(interval, events);
    CheckpointsMeaning(interval, events);
    CheckpointCount(interval, events);
    if |events| > 1 && (|events| - 1) % interval != 0 && |marks| < MAX_CHECKPOINTS {
      var last := |events| - 1;
      var head := Checkpoint(last, events[last].key.id, events[last].value.eventHash);
      assert FinalCheckpoints(interval, events) == marks + [head];
      OneMoreMark(marks, head);
      assert MarksIndex(interval, last) ==> head in marks;
    }
  }

  lemma {:induction false} OneMoreMark(marks: seq<Checkpoint>, head: Checkpoint)
    requires IndicesAscend(marks) && forall c :: c in marks ==> c.index <= head.index
    ensures IndicesAscend(marks + [head]) <==> forall c :: c in marks ==> c.index < head.index
  {
    var more := marks + [head];
    if IndicesAscend(more) {
      forall c | c in marks ensures c.index < head.index {
        var k :| 0 <= k < |marks| && marks[k] == c;
        assert more[k].index < more[|marks|].index;
      }
    }
    if forall c :: c in marks ==> c.index < head.index {
      LastIsBeyond(marks, head.index);
    }
  }

  lemma {:induction false} FirstIsMarked(interval: int, events: seq<AuditEvent>)
    requires interval != 0 && events != []
    ensures Checkpoints(interval, events) != []
  {
    if |events| > 1 {
      FirstIsMarked(interval, events[..|events| - 1]);
    }
  }

  // ----- tamper evidence -----

  ghost predicate CollisionFree(mac: Payload -> Hash, a: seq<AuditEvent>, b: seq<AuditEvent>) {
    forall e, f :: e in a && f in b && mac(PayloadOf(e)) == mac(PayloadOf(f))
      ==> PayloadOf(e) == PayloadOf(f)
  }

  ghost predicate NeverGenesis(mac: Payload -> Hash, a: seq<AuditEvent>) {
    forall e :: e in a ==> mac(PayloadOf(e)) != GENESIS
  }

  // On the rows of one table the HMAC has its form, no collision, and never the genesis hash.
  ghost predicate SoundMac(mac: Payload -> Hash, table: seq<AuditEvent>) {
    && CollisionFree(mac, table, table) && NeverGenesis(mac, table)
    && forall e :: e in table ==> IsSha256(mac(PayloadOf(e)))
  }

  // One hash retained from an earlier passing verification pins the whole history before it: if
  // the hash of event m of `a`, its head or any of its checkpoints, is found at event n of a list
  // that passes now, the two lists agree up to there, row for row and field for field, unless the
  // HMAC collides on their payloads or produces the genesis hash.
  lemma {:induction false} RetainedHashPinsHistory(mac: Payload -> Hash, opts: Options,
                                                   a: seq<AuditEvent>, m: nat, b: seq<AuditEvent>, n: nat)
    requires opts.checkpointInterval != 0 && m < |a| && n < |b|
    requires Verdict(mac, opts, a).passed && Verdict(mac, opts, b).passed
    requires a[m].value.eventHash == b[n].value.eventHash
    requires CollisionFree(mac, a, b) && NeverGenesis(mac, a) && NeverGenesis(mac, b)
    ensures m == n && a[..m + 1] == b[..n + 1]
  {
    VerdictMeaning(mac, opts, a);
    VerdictMeaning(mac, opts, b);
    SameTails(mac, a, b, m + 1, n + 1);
    assert |a[..m + 1]| == m + 1 && |b[..n + 1]| == n + 1;
  }

  // Two non-empty lists that both pass with the same head hash are the same list.
  lemma {:induction false} TamperEvidence(mac: Payload -> Hash, opts: Options, a: seq<AuditEvent>, b: seq<AuditEvent>)
    requires opts.checkpointInterval != 0
    requires a != [] && b != []
    requires Verdict(mac, opts, a).passed && Verdict(mac, opts, b).passed
    requires Verdict(mac, opts, a).headHash == Verdict(mac, opts, b).headHash
    requires CollisionFree(mac, a, b) && NeverGenesis(mac, a) && NeverGenesis(mac, b)
    ensures a == b
  {
    VerdictMeaning(mac, opts, a);
    VerdictMeaning(mac, opts, b);
    RetainedHashPinsHistory(mac, opts, a, |a| - 1, b, |b| - 1);
    assert a == a[..|a|] && b == b[..|b|];
  }

  lemma {:induction false} HashIsNotGenesis(mac: Payload -> Hash, events: seq<AuditEvent>, n: nat)
    requires 0 < n <= |events| && IntactUpTo(mac, events, n) && NeverGenesis(mac, events)
    ensures ExpectedPrevious(events, n) != GENESIS
  {
    assert Fault(mac, events, n - 1).None? && events[n - 1] in events;
  }

  lemma {:induction false} TakeLast(a: seq<AuditEvent>, m: nat)
    requires 0 < m <= |a|
    ensures a[..m] == a[..m - 1] + [a[m - 1]]
  {
  }

  lemma {:induction false} SameTails(mac: Payload -> Hash, a: seq<AuditEvent>, b: seq<AuditEvent>, m: nat, n: nat)
    requires m <= |a| && n <= |b|
    requires IntactUpTo(mac, a, m) && IntactUpTo(mac, b, n)
    requires CollisionFree(mac, a, b) && NeverGenesis(mac, a) && NeverGenesis(mac, b)
    requires ExpectedPrevious(a, m) == ExpectedPrevious(b, n)
    ensures a[..m] == b[..n]
  {
    if n > 0 {
      HashIsNotGenesis(mac, b, n);
    }
    if m > 0 {
      HashIsNotGenesis(mac, a, m);
      assert Fault(mac, a, m - 1).None? && Fault(mac, b, n - 1).None?;
      assert a[m - 1] in a && b[n - 1] in b;
      assert a[m - 1] == b[n - 1];
      SameTails(mac, a, b, m - 1, n - 1);
      TakeLast(a, m);
      TakeLast(b, n);
    }
  }

  // ----- appending -----

  // `ORDER BY occurred_at DESC, audit_event_id DESC LIMIT 1`.
  function Latest(table: seq<AuditEvent>): (r: Option<AuditEvent>)
    ensures table == [] <==> r.None?
    ensures r.Some? ==> r.value in table
    ensures r.Some? ==> forall e :: e in table ==> !Less(r.value.key, e.key)
    ensures r.Some? ==> forall e :: e in table ==>
      e.key.at < r.value.key.at || (e.key.at == r.value.key.at && e.key.id <= r.value.key.id)
  {
    if table == [] then None
    else
      var rest := Latest(table[1..]);
      assert table == [table[0]] + table[1..];
      if rest.None? || Less(rest.value.key, table[0].key) then Some(table[0]) else rest
  }

  datatype Request = Request(key: Key, facts: Facts)

  function Linked(mac: Payload -> Hash, table: seq<AuditEvent>, request: Request): AuditEvent {
    var latest := Latest(table);
    var previous := if latest.Some? then latest.value.value.eventHash else GENESIS;
    Row(request.key,
        Entry(request.facts, previous, mac(Payload(request.key, request.facts, previous))))
  }

  // The table after a whole run of appends from empty.
  function TableAfter(mac: Payload -> Hash, run: seq<Request>): (table: seq<AuditEvent>)
    ensures |table| == |run|
  {
    if run == [] then [] else Appended(mac, TableAfter(mac, run[..|run| - 1]), run[|run| - 1])
  }

  function Appended(mac: Payload -> Hash, table: seq<AuditEvent>, request: Request): seq<AuditEvent> {
    table + [Linked(mac, table, request)]
  }

  class AuditLog {
    var table: seq<AuditEvent>

    constructor ()
      ensures table == []
    {
      table := [];
    }

    // One append under the chain's advisory lock. The id is a fresh UUID.
    method Append(mac: Payload -> Hash, request: Request) returns (event: AuditEvent)
      requires UniqueKeys(table)
      requires forall e :: e in table ==> e.key.id != request.key.id
      modifies this
      ensures event == Linked(mac, old(table), request)
      ensures event.key == request.key && event.value.facts == request.facts
      ensures event.value.eventHash == mac(Payload(request.key, request.facts, event.value.previousHash))
      ensures old(table) == [] ==> event.value.previousHash == GENESIS
      ensures old(table) != [] ==> exists tail ::
        && tail in old(table) && event.value.previousHash == tail.value.eventHash
        && forall e :: e in old(table) ==>
             e.key.at < tail.key.at || (e.key.at == tail.key.at && e.key.id <= tail.key.id)
      ensures table == old(table) + [event]
      ensures UniqueKeys(table)
    {
      var latest := Latest(table);
      var previousHash := if latest.Some? then latest.value.value.eventHash else GENESIS;
      var eventHash := mac(Payload(request.key, request.facts, previousHash));
      event := Row(request.key, Entry(request.facts, previousHash, eventHash));
      assert forall i :: 0 <= i < |table| ==> table[i] in table;
      table := table + [event];
    }
  }

  ghost predicate DistinctKeys(run: seq<Request>) {
    forall i, j :: 0 <= i < j < |run| ==> run[i].key != run[j].key
  }

  // Every append is later than every one before it, or has the same time and a greater id.
  ghost predicate InKeyOrder(run: seq<Request>) {
    forall i, j :: 0 <= i < j < |run| ==>
      run[i].key.at < run[j].key.at || (run[i].key.at == run[j].key.at && run[i].key.id < run[j].key.id)
  }

  // Row i of a run links to the greatest key appended before it.
  lemma {:induction false} RowsLinkBackwards(mac: Payload -> Hash, run: seq<Request>, i: nat)
    requires i < |run|
    ensures TableAfter(mac, run)[i] == Linked(mac, TableAfter(mac, run)[..i], run[i])
  {
    var n := |run| - 1;
    var table, before := TableAfter(mac, run), TableAfter(mac, run[..n]);
    assert table == Appended(mac, before, run[n]);
    if i == n {
      assert table[..n] == before;
    } else {
      RowsLinkBackwards(mac, run[..n], i);
      assert table[..i] == before[..i];
    }
  }

  lemma {:induction false} RunKeys(mac: Payload -> Hash, run: seq<Request>)
    ensures forall i :: 0 <= i < |run| ==> TableAfter(mac, run)[i].key == run[i].key
    ensures forall e :: e in TableAfter(mac, run) ==> e.value.eventHash == mac(PayloadOf(e))
  {
    var table := TableAfter(mac, run);
    forall i | 0 <= i < |run| ensures table[i].key == run[i].key
      ensures table[i].value.eventHash == mac(PayloadOf(table[i]))
    {
      RowsLinkBackwards(mac, run, i);
    }
  }

  // What row i of a run holds: the key and facts it was appended with, their HMAC over the hash it
  // links to, and as that hash the one of the latest row before it, or 64 zeros for the first.
  lemma {:induction false} RowsHold(mac: Payload -> Hash, run: seq<Request>, i: nat)
    requires i < |run|
    ensures var table := TableAfter(mac, run);
            var previous := table[i].value.previousHash;
            && table[i].key == run[i].key && table[i].value.facts == run[i].facts
            && table[i].value.eventHash == mac(Payload(run[i].key, run[i].facts, previous))
            && (i == 0 ==> |previous| == 64 && forall k :: 0 <= k < 64 ==> previous[k] == '0')
            && (i > 0 ==> exists j :: 0 <= j < i && previous == table[j].value.eventHash && LatestUpTo(run, i, j))
  {
    var table := TableAfter(mac, run);
    RowsLinkBackwards(mac, run, i);
    RunKeys(mac, run);
    GenesisIsZeros(table[i].value.previousHash);
    if i > 0 {
      var tail := Latest(table[..i]).value;
      var j :| 0 <= j < i && table[..i][j] == tail;
      forall k | 0 <= k < i
        ensures run[k].key.at < run[j].key.at || (run[k].key.at == run[j].key.at && run[k].key.id <= run[j].key.id)
      {
        assert table[..i][k] == table[k] && table[..i][k] in table[..i];
      }
      assert LatestUpTo(run, i, j);
    }
  }

  // Of the first n appends none is later than append j.
  ghost predicate LatestUpTo(run: seq<Request>, n: nat, j: nat)
    requires j < n <= |run|
  {
    forall k :: 0 <= k < n ==>
      run[k].key.at < run[j].key.at || (run[k].key.at == run[j].key.at && run[k].key.id <= run[j].key.id)
  }

  lemma {:induction false} LatestOfAscending(table: seq<AuditEvent>)
    requires Ascending(table) && table != []
    ensures Latest(table) == Some(table[|table| - 1])
  {
    var latest := Latest(table).value;
    var k :| 0 <= k < |table| && table[k] == latest;
    assert table[|table| - 1] in table;
  }

  lemma {:induction false} RowsInOrderLink(mac: Payload -> Hash, run: seq<Request>, i: nat)
    requires i < |run| && Ascending(TableAfter(mac, run))
    ensures TableAfter(mac, run)[i].value.previousHash == ExpectedPrevious(TableAfter(mac, run), i)
  {
    RowsLinkBackwards(mac, run, i);
    if i > 0 {
      LatestOfAscending(TableAfter(mac, run)[..i]);
    }
  }

  lemma {:induction false} InOrderAscends(mac: Payload -> Hash, run: seq<Request>)
    requires InKeyOrder(run)
    ensures Ascending(TableAfter(mac, run))
  {
    RunKeys(mac, run);
  }

  lemma {:induction false} NoFaultInOrder(mac: Payload -> Hash, run: seq<Request>, i: nat)
    requires i < |run| && Ascending(TableAfter(mac, run))
    requires var e := TableAfter(mac, run)[i]; IsSha256(mac(PayloadOf(e))) && e.value.eventHash == mac(PayloadOf(e))
    ensures Fault(mac, TableAfter(mac, run), i).None?
  {
    RowsInOrderLink(mac, run, i);
  }

  lemma {:induction false} InOrderIntact(mac: Payload -> Hash, run: seq<Request>)
    requires InKeyOrder(run)
    requires forall e :: e in TableAfter(mac, run) ==> IsSha256(mac(PayloadOf(e)))
    ensures Ascending(TableAfter(mac, run))
    ensures Intact(mac, TableAfter(mac, run))
  {
    var table := TableAfter(mac, run);
    InOrderAscends(mac, run);
    RunKeys(mac, run);
    forall i | 0 <= i < |table| ensures Fault(mac, table, i).None? {
      assert table[i] in table;
      NoFaultInOrder(mac, run, i);
    }
  }

  // A row that links upwards breaks the chain: its predecessor in key order cannot carry the
  // hash it recorded.
  lemma {:induction false} LinkingUpwardsBreaks(mac: Payload -> Hash, table: seq<AuditEvent>,
                                                e: AuditEvent, m: AuditEvent)
    requires UniqueKeys(table) && e in table && m in table
    requires Less(e.key, m.key) && e.value.previousHash == mac(PayloadOf(m))
    requires forall f :: f in table ==> f.value.eventHash == mac(PayloadOf(f))
    requires CollisionFree(mac, table, table) && NeverGenesis(mac, table)
    ensures !Intact(mac, Sorted(table))
  {
    var s := Sorted(table);
    SortedMeaning(table);
    var p :| 0 <= p < |s| && s[p] == e;
    if p > 0 {
      assert s[p - 1] in table;
      assert PayloadOf(s[p - 1]).key != PayloadOf(m).key;
    }
    assert Fault(mac, s, p).Some?;
  }

  lemma {:induction false} OutOfOrderBreaks(mac: Payload -> Hash, run: seq<Request>, i: nat, j: nat)
    requires DistinctKeys(run) && i < j < |run| && Less(run[j].key, run[i].key)
    requires var table := TableAfter(mac, run);
             CollisionFree(mac, table, table) && NeverGenesis(mac, table)
    ensures !Intact(mac, Sorted(TableAfter(mac, run)))
  {
    var table := TableAfter(mac, run);
    RunKeys(mac, run);
    RowsLinkBackwards(mac, run, j);
    var m := Latest(table[..j]).value;
    assert table[..j][i] == table[i];
    assert m in table && table[j] in table;
    LinkingUpwardsBreaks(mac, table, table[j], m);
  }

  lemma {:induction false} LessTotal(a: Key, b: Key)
    ensures a == b || Less(a, b) || Less(b, a)
  {
  }

  lemma {:induction false} PairOutOfOrder(run: seq<Request>) returns (i: nat, j: nat)
    requires DistinctKeys(run) && !InKeyOrder(run)
    ensures i < j < |run| && Less(run[j].key, run[i].key)
  {
    i, j :| i < j < |run| && !Less(run[i].key, run[j].key);
    LessTotal(run[i].key, run[j].key);
  }

  // For every run of appends: verifying the table in key order passes exactly when the run was in
  // key order. The tail is chosen by key, so one late timestamp breaks the chain for good.
  lemma {:induction false} AppendThenVerify(mac: Payload -> Hash, opts: Options, run: seq<Request>)
    requires opts.checkpointInterval != 0
    requires DistinctKeys(run)
    requires SoundMac(mac, TableAfter(mac, run))
    ensures Verdict(mac, opts, Sorted(TableAfter(mac, run))).passed <==>
      forall i, j :: 0 <= i < j < |run| ==>
        run[i].key.at < run[j].key.at || (run[i].key.at == run[j].key.at && run[i].key.id < run[j].key.id)
  {
    var table := TableAfter(mac, run);
    VerdictMeaning(mac, opts, Sorted(table));
    if InKeyOrder(run) {
      InOrderIntact(mac, run);
      SortedFixpoint(table);
    } else {
      var i, j := PairOutOfOrder(run);
      OutOfOrderBreaks(mac, run, i, j);
    }
  }
}
