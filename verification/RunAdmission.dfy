// Analysis runs: admission under a transaction-scoped advisory lock, and the cancellations and
// workers that change a run's status under its row lock. Every statement of every transaction is
// a step of its own and reads the rows committed by then.
module RunAdmission {
  import opened Outcomes

  datatype Status = Queued | Running | Succeeded | Failed | Cancelled | PolicyBlocked

  datatype Condition =
    | WorkerClaimed | OutputsCommitted | AuthorizedCancellation
    | PolicyDeniedBeforeExecution | PolicyDeniedBeforeModel | RunFailed

  predicate Terminal(s: Status) {
    s.Succeeded? || s.Failed? || s.Cancelled? || s.PolicyBlocked?
  }

  predicate Legal(from: Status, to: Status, c: Condition) {
    || (from, to, c) == (Queued, Running, WorkerClaimed)
    || (from, to, c) == (Running, Succeeded, OutputsCommitted)
    || (from, to, c) == (Queued, Cancelled, AuthorizedCancellation)
    || (from, to, c) == (Running, Cancelled, AuthorizedCancellation)
    || (from, to, c) == (Queued, PolicyBlocked, PolicyDeniedBeforeExecution)
    || (from, to, c) == (Running, PolicyBlocked, PolicyDeniedBeforeModel)
    || (from, to, c) == (Running, Failed, RunFailed)
  }

  // A worker claims a queued run and ends a running one; either may be cancelled or blocked; what
  // has ended goes nowhere.
  lemma {:induction false} LegalMeaning(from: Status, to: Status)
    ensures (exists c :: Legal(from, to, c)) <==>
      || (from == Queued && to in {Running, Cancelled, PolicyBlocked})
      || (from == Running && to in {Succeeded, Failed, Cancelled, PolicyBlocked})
    ensures Terminal(from) <==> from !in {Queued, Running}
    ensures Terminal(from) <==> forall s, c :: !Legal(from, s, c)
    ensures forall c :: Legal(from, to, c) ==>
              && (c.WorkerClaimed? <==> to == Running) && (c.OutputsCommitted? <==> to == Succeeded)
              && (c.RunFailed? <==> to == Failed) && (c.AuthorizedCancellation? <==> to == Cancelled)
              && (c.PolicyDeniedBeforeExecution? <==> from == Queued && to == PolicyBlocked)
              && (c.PolicyDeniedBeforeModel? <==> from == Running && to == PolicyBlocked)
  {
    var reason :=
      match to
      case Running => WorkerClaimed
      case Succeeded => OutputsCommitted
      case Cancelled => AuthorizedCancellation
      case PolicyBlocked => if from == Queued then PolicyDeniedBeforeExecution else PolicyDeniedBeforeModel
      case _ => RunFailed;
    if exists c :: Legal(from, to, c) {
      assert Legal(from, to, reason);
    }
    if !Terminal(from) {
      assert Legal(from, Cancelled, AuthorizedCancellation);
    }
    if (from == Queued && to in {Running, Cancelled, PolicyBlocked})
       || (from == Running && to in {Succeeded, Failed, Cancelled, PolicyBlocked}) {
      assert Legal(from, to, reason);
    }
  }

  function ActiveIds(runs: map<int, Status>): set<int> {
    set id | id in runs && (runs[id].Queued? || runs[id].Running?)
  }

  function ActiveCount(runs: map<int, Status>): nat {
    |ActiveIds(runs)|
  }

  // A start_run transaction from the moment it holds the advisory lock: before the count, with
  // the count in hand, and with its new row inserted but uncommitted.
  datatype Admission = Locked | Counted(active: nat) | Inserted(active: nat, run: int)

  // A transaction that changes the status of one run. `seen` is the status in its loaded object.
  // A cancellation loads the run before it asks for the row lock; a worker only under the lock,
  // and may make several transitions before it commits.
  datatype Session =
    | Loaded(run: int, seen: Status)
    | Holding(run: int, seen: Status, worker: bool, stage: Stage)

  datatype Stage = Entered | Checked(to: Status) | Written(to: Status)

  datatype Database = Database(runs: map<int, Status>, open: map<int, Admission>, sessions: map<int, Session>)

  // `advisoryLock`: admission takes the lock. `refresh`: the locking read of a cancellation
  // refreshes the object that its first read loaded; an object-relational session does that only
  // on request, and the cancellation does not ask.
  datatype Rules = Rules(limit: int, advisoryLock: bool, refresh: bool)

  datatype Step =
    | Acquire(tx: int)
    | Count(tx: int)
    | Insert(tx: int, run: int)
    | Commit(tx: int)
    | Rollback(tx: int)
    | Read(session: int, run: int)
    | LockRow(session: int)
    | LockAndRead(session: int, run: int)
    | Check(session: int, to: Status, condition: Condition)
    | Write(session: int)
    | Finish(session: int)
    | Abort(session: int)

  predicate RowFree(db: Database, run: int) {
    forall s :: s in db.sessions && db.sessions[s].Holding? ==> db.sessions[s].run != run
  }

  // The status that the next check of a session reads.
  function Current(session: Session): Status {
    if session.Holding? && session.stage.Written? then session.stage.to else session.seen
  }

  predicate MayCheck(session: Session, to: Status, condition: Condition) {
    && session.Holding?
    && (session.stage.Entered? || (session.worker && session.stage.Written?))
    && (session.worker <==> condition != AuthorizedCancellation)
    && Legal(Current(session), to, condition)
  }

  // With the advisory lock one admission is open at a time; it is released at its end.
  predicate Enabled(rules: Rules, db: Database, step: Step) {
    match step
    case Acquire(tx) => tx !in db.open && (rules.advisoryLock ==> db.open == map[])
    case Count(tx) => tx in db.open && db.open[tx].Locked?
    case Insert(tx, run) =>
      && tx in db.open && db.open[tx].Counted? && db.open[tx].active < rules.limit
      && run !in db.runs
      && forall t :: t in db.open && db.open[t].Inserted? ==> db.open[t].run != run
    case Commit(tx) => tx in db.open && db.open[tx].Inserted?
    case Rollback(tx) => tx in db.open
    case Read(s, run) => s !in db.sessions && run in db.runs
    case LockRow(s) =>
      s in db.sessions && db.sessions[s].Loaded? && db.sessions[s].run in db.runs && RowFree(db, db.sessions[s].run)
    case LockAndRead(s, run) => s !in db.sessions && run in db.runs && RowFree(db, run)
    case Check(s, to, condition) => s in db.sessions && MayCheck(db.sessions[s], to, condition)
    case Write(s) => s in db.sessions && db.sessions[s].Holding? && db.sessions[s].stage.Checked?
    case Finish(s) => s in db.sessions && db.sessions[s].Holding? && db.sessions[s].stage.Written?
    case Abort(s) => s in db.sessions
  }

  function Apply(rules: Rules, db: Database, step: Step): Database
    requires Enabled(rules, db, step)
  {
    match step
    case Acquire(tx) => db.(open := db.open[tx := Locked])
    case Count(tx) => db.(open := db.open[tx := Counted(ActiveCount(db.runs))])
    case Insert(tx, run) => db.(open := db.open[tx := Inserted(db.open[tx].active, run)])
    case Commit(tx) => db.(runs := db.runs[db.open[tx].run := Queued], open := db.open - {tx})
    case Rollback(tx) => db.(open := db.open - {tx})
    case Read(s, run) => db.(sessions := db.sessions[s := Loaded(run, db.runs[run])])
    case LockRow(s) =>
      var Loaded(run, seen) := db.sessions[s];
      db.(sessions := db.sessions[s := Holding(run, if rules.refresh then db.runs[run] else seen, false, Entered)])
    case LockAndRead(s, run) => db.(sessions := db.sessions[s := Holding(run, db.runs[run], true, Entered)])
    case Check(s, to, condition) => db.(sessions := db.sessions[s := db.sessions[s].(stage := Checked(to))])
    case Write(s) => db.(sessions := db.sessions[s := db.sessions[s].(stage := Written(db.sessions[s].stage.to))])
    case Finish(s) =>
      db.(runs := db.runs[db.sessions[s].run := db.sessions[s].stage.to], sessions := db.sessions - {s})
    case Abort(s) => db.(sessions := db.sessions - {s})
  }

  predicate IsRun(rules: Rules, db: Database, steps: seq<Step>)
    decreases |steps|
  {
    steps == []
    || (Enabled(rules, db, steps[0]) && IsRun(rules, Apply(rules, db, steps[0]), steps[1..]))
  }

  function After(rules: Rules, db: Database, steps: seq<Step>): Database
    requires IsRun(rules, db, steps)
    decreases |steps|
  {
    if steps == [] then db else After(rules, Apply(rules, db, steps[0]), steps[1..])
  }

  predicate Idle(db: Database) {
    db.open == map[] && db.sessions == map[]
  }

  // ----- rows and row locks -----

  ghost predicate SessionInv(rules: Rules, db: Database, s: int)
    requires s in db.sessions && db.sessions[s].run in db.runs
  {
    var session := db.sessions[s];
    session.Holding? ==>
      && (session.worker || rules.refresh ==> session.seen == db.runs[session.run])
      && (!session.stage.Entered? ==> !Terminal(session.seen))
      && (!session.stage.Entered? && !session.worker ==> session.stage.to == Cancelled)
  }

  // Runs are never deleted, a row has one holder, and inserted ids are new.
  ghost predicate SessionsKnown(db: Database) {
    forall s :: s in db.sessions ==> db.sessions[s].run in db.runs
  }

  ghost predicate RowsInv(rules: Rules, db: Database) {
    && LocksInv(db)
    && (forall s :: s in db.sessions ==> SessionInv(rules, db, s))
  }

  ghost predicate LocksInv(db: Database) {
    && SessionsKnown(db)
    && (forall a, b :: a in db.sessions && b in db.sessions && HoldSameRow(db.sessions[a], db.sessions[b]) ==> a == b)
    && (forall tx :: tx in db.open && db.open[tx].Inserted? ==> db.open[tx].run !in db.runs)
    && (forall a, b :: a in db.open && b in db.open && InsertSameRow(db.open[a], db.open[b]) ==> a == b)
  }

  predicate HoldSameRow(a: Session, b: Session) {
    a.Holding? && b.Holding? && a.run == b.run
  }

  predicate InsertSameRow(a: Admission, b: Admission) {
    a.Inserted? && b.Inserted? && a.run == b.run
  }

  lemma {:induction false} StepKeepsSession(rules: Rules, db: Database, step: Step, s: int)
    requires RowsInv(rules, db) && Enabled(rules, db, step) && s in Apply(rules, db, step).sessions
    ensures var after := Apply(rules, db, step);
            after.sessions[s].run in after.runs && SessionInv(rules, after, s)
  {
    assert s in db.sessions ==> SessionInv(rules, db, s);
  }

  lemma {:induction false} StepKeepsLocks(rules: Rules, db: Database, step: Step)
    requires LocksInv(db) && Enabled(rules, db, step)
    ensures LocksInv(Apply(rules, db, step))
  {
  }

  lemma {:induction false} StepKeepsRows(rules: Rules, db: Database, step: Step)
    requires RowsInv(rules, db) && Enabled(rules, db, step)
    ensures RowsInv(rules, Apply(rules, db, step))
  {
    StepKeepsLocks(rules, db, step);
    forall s | s in Apply(rules, db, step).sessions ensures SessionInv(rules, Apply(rules, db, step), s) {
      StepKeepsSession(rules, db, step, s);
    }
  }

  lemma {:induction false} RunKeepsRows(rules: Rules, db: Database, steps: seq<Step>)
    requires RowsInv(rules, db) && IsRun(rules, db, steps)
    ensures RowsInv(rules, After(rules, db, steps))
    decreases |steps|
  {
    if steps != [] {
      StepKeepsRows(rules, db, steps[0]);
      RunKeepsRows(rules, Apply(rules, db, steps[0]), steps[1..]);
    }
  }

  // ----- admission -----

  // `bound` is the larger of the limit and the number of runs active at the start. A count in
  // hand stays an upper bound on the active runs, since only the lock holder can add one.
  ghost predicate Inv(rules: Rules, db: Database, bound: nat) {
    && RowsInv(rules, db)
    && ActiveCount(db.runs) <= bound
    && rules.limit <= bound
    && (forall a, b :: a in db.open && b in db.open ==> a == b)
    && (forall tx :: tx in db.open && db.open[tx].Counted? ==> ActiveCount(db.runs) <= db.open[tx].active)
    && (forall tx :: tx in db.open && db.open[tx].Inserted? ==>
          ActiveCount(db.runs) <= db.open[tx].active < rules.limit)
  }

  lemma {:induction false} CountAfterUpdate(runs: map<int, Status>, id: int, s: Status)
    ensures ActiveCount(runs[id := s]) <= ActiveCount(runs) + 1
    ensures id in ActiveIds(runs) || !(s.Queued? || s.Running?) ==> ActiveCount(runs[id := s]) <= ActiveCount(runs)
    ensures id !in runs && s.Queued? ==> ActiveCount(runs[id := s]) == ActiveCount(runs) + 1
  {
    var before, after := ActiveIds(runs), ActiveIds(runs[id := s]);
    if s.Queued? || s.Running? {
      assert after == before + {id};
    } else {
      assert after == before - {id};
    }
  }

  // The active runs are the queued and the running ones.
  lemma {:induction false} CountMeaning(runs: map<int, Status>)
    ensures ActiveCount(runs) == |set id | id in runs && runs[id] in {Queued, Running}|
  {
    assert ActiveIds(runs) == set id | id in runs && runs[id] in {Queued, Running};
  }

  // A status change never adds an active run, stale or not: only a worker can leave a run active,
  // and a worker has read it under the lock.
  lemma {:induction false} FinishAddsNothing(rules: Rules, db: Database, s: int)
    requires RowsInv(rules, db) && Enabled(rules, db, Finish(s))
    ensures ActiveCount(Apply(rules, db, Finish(s)).runs) <= ActiveCount(db.runs)
  {
    var session := db.sessions[s];
    assert SessionInv(rules, db, s);
    CountAfterUpdate(db.runs, session.run, session.stage.to);
  }

  lemma {:induction false} StepKeepsInv(rules: Rules, db: Database, bound: nat, step: Step)
    requires rules.advisoryLock && Inv(rules, db, bound) && Enabled(rules, db, step)
    ensures Inv(rules, Apply(rules, db, step), bound)
  {
    StepKeepsRows(rules, db, step);
    match step
    case Commit(tx) => CountAfterUpdate(db.runs, db.open[tx].run, Queued);
    case Finish(s) => FinishAddsNothing(rules, db, s);
    case _ =>
  }

  lemma {:induction false} RunKeepsInv(rules: Rules, db: Database, bound: nat, steps: seq<Step>)
    requires rules.advisoryLock && Inv(rules, db, bound) && IsRun(rules, db, steps)
    ensures Inv(rules, After(rules, db, steps), bound)
    decreases |steps|
  {
    if steps != [] {
      StepKeepsInv(rules, db, bound, steps[0]);
      RunKeepsInv(rules, Apply(rules, db, steps[0]), bound, steps[1..]);
    }
  }

  // Over every interleaving, the active runs never exceed the limit; and if they did when the
  // limit was set, they never grow.
  lemma {:induction false} AdmissionSafety(rules: Rules, db: Database, steps: seq<Step>)
    requires rules.advisoryLock && Idle(db) && IsRun(rules, db, steps)
    ensures ActiveCount(After(rules, db, steps).runs) <= rules.limit
         || ActiveCount(After(rules, db, steps).runs) <= ActiveCount(db.runs)
    ensures var before, after := db.runs, After(rules, db, steps).runs;
            var active := |set id | id in after && after[id] in {Queued, Running}|;
            active <= rules.limit || active <= |set id | id in before && before[id] in {Queued, Running}|
  {
    CountMeaning(db.runs);
    CountMeaning(After(rules, db, steps).runs);
    var active := ActiveCount(db.runs);
    RunKeepsInv(rules, db, if rules.limit > active then rules.limit else active, steps);
  }

  lemma {:induction false} RunSnoc(rules: Rules, db: Database, steps: seq<Step>, step: Step)
    returns (longer: seq<Step>)
    requires IsRun(rules, db, steps) && Enabled(rules, After(rules, db, steps), step)
    ensures longer == steps + [step] && IsRun(rules, db, longer)
    ensures After(rules, db, longer) == Apply(rules, After(rules, db, steps), step)
    decreases |steps|
  {
    longer := steps + [step];
    if steps != [] {
      var rest := RunSnoc(rules, Apply(rules, db, steps[0]), steps[1..], step);
      assert longer[1..] == rest;
    }
  }

  // The limit is reached, not merely respected: below it, an undisturbed start_run is admitted.
  lemma {:induction false} RoomIsGranted(rules: Rules, db: Database, tx: int, run: int) returns (steps: seq<Step>)
    requires RowsInv(rules, db) && db.open == map[] && ActiveCount(db.runs) < rules.limit && run !in db.runs
    ensures steps == [Acquire(tx), Count(tx), Insert(tx, run), Commit(tx)] && IsRun(rules, db, steps)
    ensures After(rules, db, steps).runs == db.runs[run := Queued]
    ensures ActiveCount(After(rules, db, steps).runs) == ActiveCount(db.runs) + 1
  {
    steps := RunSnoc(rules, db, [], Acquire(tx));
    steps := RunSnoc(rules, db, steps, Count(tx));
    steps := RunSnoc(rules, db, steps, Insert(tx, run));
    steps := RunSnoc(rules, db, steps, Commit(tx));
    CountAfterUpdate(db.runs, run, Queued);
  }

  // Extends a run by one step whose effect is known.
  lemma {:induction false} Reach(rules: Rules, start: Database, steps: seq<Step>, db: Database, step: Step,
                                 next: Database)
    returns (longer: seq<Step>)
    requires IsRun(rules, start, steps) && After(rules, start, steps) == db && Enabled(rules, db, step)
    requires var got := Apply(rules, db, step);
             got.runs == next.runs && got.open == next.open && got.sessions == next.sessions
    ensures longer == steps + [step] && IsRun(rules, start, longer) && After(rules, start, longer) == next
  {
    longer := RunSnoc(rules, start, steps, step);
  }

  lemma {:induction false} TwoCountZero(rules: Rules) returns (steps: seq<Step>)
    requires !rules.advisoryLock
    ensures var start := Database(map[], map[], map[]);
            IsRun(rules, start, steps)
            && After(rules, start, steps) == start.(open := map[0 := Counted(0), 1 := Counted(0)])
  {
    var d0 := Database(map[], map[], map[]);
    var d1 := d0.(open := map[0 := Locked]);
    var d2 := d0.(open := map[0 := Counted(0)]);
    var d3 := d0.(open := map[0 := Counted(0), 1 := Locked]);
    var d4 := d0.(open := map[0 := Counted(0), 1 := Counted(0)]);
    assert ActiveIds(map[]) == {};
    steps := Reach(rules, d0, [], d0, Acquire(0), d1);
    steps := Reach(rules, d0, steps, d1, Count(0), d2);
    steps := Reach(rules, d0, steps, d2, Acquire(1), d3);
    steps := Reach(rules, d0, steps, d3, Count(1), d4);
  }

  // The advisory lock is what makes it safe: without it two transactions count zero active runs
  // and both commit past a limit of one.
  lemma {:induction false} WithoutLockLimitFails() returns (steps: seq<Step>)
    ensures var rules, start := Rules(1, false, false), Database(map[], map[], map[]);
            IsRun(rules, start, steps) && ActiveCount(After(rules, start, steps).runs) == 2
  {
    var rules := Rules(1, false, false);
    var d0 := Database(map[], map[], map[]);
    var d4 := d0.(open := map[0 := Counted(0), 1 := Counted(0)]);
    var d5 := d0.(open := map[0 := Inserted(0, 0), 1 := Counted(0)]);
    var d6 := d0.(open := map[0 := Inserted(0, 0), 1 := Inserted(0, 1)]);
    var d7 := Database(map[0 := Queued], map[1 := Inserted(0, 1)], map[]);
    var d8 := Database(map[0 := Queued, 1 := Queued], map[], map[]);
    assert ActiveIds(d8.runs) == {0, 1};
    steps := TwoCountZero(rules);
    steps := Reach(rules, d0, steps, d4, Insert(0, 0), d5);
    steps := Reach(rules, d0, steps, d5, Insert(1, 1), d6);
    steps := Reach(rules, d0, steps, d6, Commit(0), d7);
    steps := Reach(rules, d0, steps, d7, Commit(1), d8);
  }

  // ----- the status of a run that has ended -----

  // The run keeps the status it has, whatever follows.
  ghost predicate Final(rules: Rules, db: Database, run: int)
    requires run in db.runs
  {
    forall later :: IsRun(rules, db, later) ==>
      run in After(rules, db, later).runs && After(rules, db, later).runs[run] == db.runs[run]
  }

  // No open transaction has read the run before it ended.
  ghost predicate ReadByNoneInTime(db: Database, run: int) {
    forall s :: s in db.sessions && db.sessions[s].run == run ==> Terminal(db.sessions[s].seen)
  }

  ghost predicate Undisturbed(rules: Rules, db: Database, run: int)
    requires run in db.runs
  {
    Terminal(db.runs[run]) && (rules.refresh || db.runs[run].Cancelled? || ReadByNoneInTime(db, run))
  }

  lemma {:induction false} StepKeepsStatus(rules: Rules, db: Database, run: int, step: Step)
    requires RowsInv(rules, db) && run in db.runs && Undisturbed(rules, db, run) && Enabled(rules, db, step)
    ensures var after := Apply(rules, db, step);
            run in after.runs && after.runs[run] == db.runs[run] && Undisturbed(rules, after, run)
  {
    if step.Finish? {
      assert SessionInv(rules, db, step.session);
    } else if step.Check? || step.Write? {
      assert SessionInv(rules, db, step.session);
    }
  }

  lemma {:induction false} RunKeepsStatus(rules: Rules, db: Database, run: int, steps: seq<Step>)
    requires RowsInv(rules, db) && run in db.runs && Undisturbed(rules, db, run) && IsRun(rules, db, steps)
    ensures run in After(rules, db, steps).runs && After(rules, db, steps).runs[run] == db.runs[run]
    decreases |steps|
  {
    if steps != [] {
      StepKeepsStatus(rules, db, run, steps[0]);
      StepKeepsRows(rules, db, steps[0]);
      RunKeepsStatus(rules, Apply(rules, db, steps[0]), run, steps[1..]);
    }
  }

  predicate IsCancellation(session: Session) {
    session.Loaded? || !session.worker
  }

  // What a cancellation that saw an active run still has to do, from any of its stages, once no
  // other transaction holds the row.
  lemma {:induction false} CancelFromStage(rules: Rules, db: Database, s: int) returns (steps: seq<Step>)
    requires RowsInv(rules, db) && s in db.sessions && db.sessions[s].Holding? && !db.sessions[s].worker
    requires !Terminal(db.sessions[s].seen)
    ensures IsRun(rules, db, steps) && After(rules, db, steps).runs == db.runs[db.sessions[s].run := Cancelled]
  {
    assert SessionInv(rules, db, s);
    steps := [];
    if db.sessions[s].stage.Entered? {
      steps := RunSnoc(rules, db, steps, Check(s, Cancelled, AuthorizedCancellation));
    }
    if !db.sessions[s].stage.Written? {
      steps := RunSnoc(rules, db, steps, Write(s));
    }
    steps := RunSnoc(rules, db, steps, Finish(s));
  }

  lemma {:induction false} Prepend(rules: Rules, db: Database, step: Step, rest: seq<Step>) returns (steps: seq<Step>)
    requires Enabled(rules, db, step) && IsRun(rules, Apply(rules, db, step), rest)
    ensures IsRun(rules, db, steps) && After(rules, db, steps) == After(rules, Apply(rules, db, step), rest)
  {
    steps := [step] + rest;
    assert steps[1..] == rest;
  }

  // A cancellation that read the run while it was active goes through once it has the row lock,
  // whatever has been committed meanwhile, unless its locking read refreshes what it loaded.
  lemma {:induction false} StaleCancelGoesThrough(rules: Rules, db: Database, s: int) returns (steps: seq<Step>)
    requires RowsInv(rules, db) && !rules.refresh
    requires s in db.sessions && IsCancellation(db.sessions[s]) && !Terminal(db.sessions[s].seen)
    ensures IsRun(rules, db, steps) && After(rules, db, steps).runs == db.runs[db.sessions[s].run := Cancelled]
  {
    var run := db.sessions[s].run;
    if db.sessions[s].Holding? {
      steps := CancelFromStage(rules, db, s);
    } else if RowFree(db, run) {
      StepKeepsRows(rules, db, LockRow(s));
      steps := CancelFromStage(rules, Apply(rules, db, LockRow(s)), s);
      steps := Prepend(rules, db, LockRow(s), steps);
    } else {
      var holder :| holder in db.sessions && db.sessions[holder].Holding? && db.sessions[holder].run == run;
      var freed := Apply(rules, db, Abort(holder));
      StepKeepsRows(rules, db, Abort(holder));
      StepKeepsRows(rules, freed, LockRow(s));
      steps := CancelFromStage(rules, Apply(rules, freed, LockRow(s)), s);
      steps := Prepend(rules, freed, LockRow(s), steps);
      steps := Prepend(rules, db, Abort(holder), steps);
    }
  }

  // A run that has ended keeps its status through everything that may follow exactly when the
  // locking read refreshes, or the status is already Cancelled, or no open transaction read the
  // run before it ended.
  lemma {:induction false} TerminalStaysIff(rules: Rules, start: Database, steps: seq<Step>, run: int)
    requires Idle(start) && IsRun(rules, start, steps)
    requires var db := After(rules, start, steps); run in db.runs && Terminal(db.runs[run])
    ensures var db := After(rules, start, steps);
            Final(rules, db, run) <==> rules.refresh || db.runs[run].Cancelled? || ReadByNoneInTime(db, run)
  {
    var db := After(rules, start, steps);
    RunKeepsRows(rules, start, steps);
    if Undisturbed(rules, db, run) {
      forall later | IsRun(rules, db, later)
        ensures run in After(rules, db, later).runs && After(rules, db, later).runs[run] == db.runs[run]
      {
        RunKeepsStatus(rules, db, run, later);
      }
    } else {
      var s :| s in db.sessions && db.sessions[s].run == run && !Terminal(db.sessions[s].seen);
      assert SessionInv(rules, db, s);
      var later := StaleCancelGoesThrough(rules, db, s);
    }
  }

  // The interleaving in full: a cancellation reads a queued run, a worker claims the run and
  // commits its success, and the cancellation then takes the lock and overwrites it.
  lemma {:induction false} StaleCancelOverwritesSuccess(rules: Rules) returns (first: seq<Step>, later: seq<Step>)
    requires !rules.refresh
    ensures var start := Database(map[0 := Queued], map[], map[]);
            && IsRun(rules, start, first)
            && After(rules, start, first) == Database(map[0 := Succeeded], map[], map[1 := Loaded(0, Queued)])
            && IsRun(rules, After(rules, start, first), later)
            && later == [LockRow(1), Check(1, Cancelled, AuthorizedCancellation), Write(1), Finish(1)]
            && After(rules, After(rules, start, first), later).runs == map[0 := Cancelled]
  {
    first := StaleCancelIsOpen(rules);
    later := StaleCancelFinishes(rules);
  }

  // The state of run 0, committed as `committed`, with a cancellation that read it queued and a
  // worker at the given stage.
  function CancelAndWorker(committed: Status, stage: Stage): Database {
    Database(map[0 := committed], map[], map[1 := Loaded(0, Queued), 2 := Holding(0, Queued, true, stage)])
  }

  lemma {:induction false} WorkerRuns(rules: Rules) returns (first: seq<Step>)
    ensures var start := Database(map[0 := Queued], map[], map[]);
            IsRun(rules, start, first) && After(rules, start, first) == CancelAndWorker(Queued, Written(Running))
  {
    var d0 := Database(map[0 := Queued], map[], map[]);
    var d1 := d0.(sessions := map[1 := Loaded(0, Queued)]);
    first := Reach(rules, d0, [], d0, Read(1, 0), d1);
    first := Reach(rules, d0, first, d1, LockAndRead(2, 0), CancelAndWorker(Queued, Entered));
    first := Reach(rules, d0, first, CancelAndWorker(Queued, Entered), Check(2, Running, WorkerClaimed),
                   CancelAndWorker(Queued, Checked(Running)));
    first := Reach(rules, d0, first, CancelAndWorker(Queued, Checked(Running)), Write(2),
                   CancelAndWorker(Queued, Written(Running)));
  }

  lemma {:induction false} StaleCancelIsOpen(rules: Rules) returns (first: seq<Step>)
    ensures var start := Database(map[0 := Queued], map[], map[]);
            && IsRun(rules, start, first)
            && After(rules, start, first) == Database(map[0 := Succeeded], map[], map[1 := Loaded(0, Queued)])
  {
    var d0 := Database(map[0 := Queued], map[], map[]);
    first := WorkerRuns(rules);
    first := Reach(rules, d0, first, CancelAndWorker(Queued, Written(Running)), Check(2, Succeeded, OutputsCommitted),
                   CancelAndWorker(Queued, Checked(Succeeded)));
    first := Reach(rules, d0, first, CancelAndWorker(Queued, Checked(Succeeded)), Write(2),
                   CancelAndWorker(Queued, Written(Succeeded)));
    first := Reach(rules, d0, first, CancelAndWorker(Queued, Written(Succeeded)), Finish(2),
                   Database(map[0 := Succeeded], map[], map[1 := Loaded(0, Queued)]));
  }

  lemma {:induction false} StaleCancelFinishes(rules: Rules) returns (later: seq<Step>)
    requires !rules.refresh
    ensures var db := Database(map[0 := Succeeded], map[], map[1 := Loaded(0, Queued)]);
            && later == [LockRow(1), Check(1, Cancelled, AuthorizedCancellation), Write(1), Finish(1)]
            && IsRun(rules, db, later) && After(rules, db, later).runs == map[0 := Cancelled]
  {
    var d0 := Database(map[0 := Succeeded], map[], map[1 := Loaded(0, Queued)]);
    var d1 := d0.(sessions := map[1 := Holding(0, Queued, false, Entered)]);
    var d2 := d0.(sessions := map[1 := Holding(0, Queued, false, Checked(Cancelled))]);
    var d3 := d0.(sessions := map[1 := Holding(0, Queued, false, Written(Cancelled))]);
    var d4 := Database(map[0 := Cancelled], map[], map[]);
    later := Reach(rules, d0, [], d0, LockRow(1), d1);
    later := Reach(rules, d0, later, d1, Check(1, Cancelled, AuthorizedCancellation), d2);
    later := Reach(rules, d0, later, d2, Write(1), d3);
    later := Reach(rules, d0, later, d3, Finish(1), d4);
  }

  // Every run that ever ends keeps its status.
  ghost predicate TerminalIsFinal(rules: Rules) {
    forall start, steps, run ::
      Idle(start) && IsRun(rules, start, steps)
      && run in After(rules, start, steps).runs && Terminal(After(rules, start, steps).runs[run])
      ==> Final(rules, After(rules, start, steps), run)
  }

  // Terminal runs stay terminal exactly when the status a cancellation checks is the one it reads
  // under the row lock.
  lemma {:induction false} TerminalIsFinalIff(rules: Rules)
    ensures TerminalIsFinal(rules) <==> rules.refresh
  {
    if rules.refresh {
      forall start, steps, run |
        Idle(start) && IsRun(rules, start, steps)
        && run in After(rules, start, steps).runs && Terminal(After(rules, start, steps).runs[run])
        ensures Final(rules, After(rules, start, steps), run)
      {
        TerminalStaysIff(rules, start, steps, run);
      }
    } else {
      var first, later := StaleCancelOverwritesSuccess(rules);
      var start := Database(map[0 := Queued], map[], map[]);
      assert !Final(rules, After(rules, start, first), 0);
    }
  }

  // ----- the two calls on the run table -----

  datatype RunError = LimitExceeded | NotFound | IllegalTransition

  class RunTable {
    var runs: map<int, Status>

    constructor ()
      ensures runs == map[]
    {
      runs := map[];
    }

    // The transaction that holds the lock from count to commit; `run` is a fresh UUID.
    method StartRun(run: int, limit: int) returns (r: Result<Status, RunError>)
      requires run !in runs
      modifies this
      ensures r.Ok? <==> |set id | id in old(runs) && old(runs)[id] in {Queued, Running}| < limit
      ensures r == (if r.Ok? then Ok(Queued) else Err(LimitExceeded))
      ensures runs == if r.Ok? then old(runs)[run := Queued] else old(runs)
      ensures r.Ok? ==> ActiveCount(runs) <= limit
    {
      var active := ActiveCount(runs);
      CountMeaning(runs);
      if active >= limit {
        return Err(LimitExceeded);
      }
      CountAfterUpdate(runs, run, Queued);
      runs := runs[run := Queued];
      return Ok(Queued);
    }

    // `meanwhile` is the table by the time the row lock is granted; runs are never deleted. The
    // check is on the loaded object, which the locking read refreshes only if `refresh`.
    method CancelRun(run: int, meanwhile: map<int, Status>, refresh: bool) returns (r: Result<Status, RunError>)
      requires runs.Keys <= meanwhile.Keys
      modifies this
      ensures run !in old(runs) ==> r == Err(NotFound) && runs == old(runs)
      ensures run in old(runs) ==>
        var checked := if refresh then meanwhile[run] else old(runs)[run];
        && r == (if Terminal(checked) then Err(IllegalTransition) else Ok(Cancelled))
        && runs == (if Terminal(checked) then meanwhile else meanwhile[run := Cancelled])
      ensures r.Ok? && (refresh || meanwhile[run] == old(runs)[run]) ==> ActiveCount(runs) == ActiveCount(meanwhile) - 1
      ensures r.Ok? && Terminal(meanwhile[run]) ==> !refresh && ActiveCount(runs) == ActiveCount(meanwhile)
    {
      if run !in runs {
        return Err(NotFound);
      }
      var loaded := runs[run];
      runs := meanwhile;
      if refresh {
        loaded := runs[run];
      }
      if Terminal(loaded) {
        return Err(IllegalTransition);
      }
      assert Legal(loaded, Cancelled, AuthorizedCancellation);
      assert ActiveIds(runs[run := Cancelled]) == ActiveIds(runs) - {run};
      runs := runs[run := Cancelled];
      return Ok(Cancelled);
    }
  }
}
