// Finalizing one package revision: write its content manifest, then record the manifest's digest
// in the revision's row. Calls may be retried, overlap, fail at a directory sync, be abandoned
// while their writer thread goes on, or be cut off by a crash. `sha` is the digest function.
module PackageFinalize {
  import opened ContentManifest
  import opened Outcomes

  // A call has entered with leave to replace or not; is cleared to store its bytes; has renamed
  // them into place; or has its manifest stored and goes on to commit the row.
  datatype Call =
    | Entered(bytes: Bytes, replace: bool)
    | Cleared(bytes: Bytes)
    | Renamed(bytes: Bytes)
    | Settled(bytes: Bytes)

  // `recorded` is the digest in the row, absent while the revision is uploading. `file` is the
  // manifest as processes see it and `onDisk` what its directory holds on disk. `orphans` are the
  // calls whose transaction has ended, and with it the row lock, while the thread that writes
  // their manifest still runs.
  datatype System = System(
    recorded: Option<string>, file: Option<Bytes>, onDisk: Option<Bytes>, calls: map<int, Call>, orphans: set<int>)

  // SyncFails stands for a directory sync that raises and for a process killed before it. Abandon
  // is a cancelled request or a lost connection: the transaction rolls back, the thread goes on.
  datatype Step =
    | Enter(call: int, bytes: Bytes)
    | Check(call: int)
    | Rename(call: int)
    | SyncDirectory(call: int)
    | SyncFails(call: int)
    | Commit(call: int)
    | Rollback(call: int)
    | Abandon(call: int)
    | Crash(survivor: Option<Bytes>)

  // How calls may be run: one at a time, as the row lock makes them; with directory syncs that
  // never fail; with or without crashes; with crashes that spare the revision's own directory,
  // which the writer creates and whose parent it never syncs; with no call abandoned before its
  // writer thread has ended; and all offering the same bytes.
  datatype Discipline = Discipline(
    serialized: bool, syncsSucceed: bool, crashes: bool, directoryKept: bool, writersJoined: bool,
    agreed: Option<Bytes>)

  const EMPTY := System(None, None, None, map[], {})

  // No call has a transaction any more.
  predicate AllLeftBehind(s: System) {
    forall c :: c in s.calls ==> c in s.orphans
  }

  // A revision that has left the uploading state is refused on entry.
  predicate Enabled(d: Discipline, s: System, step: Step) {
    match step
    case Enter(c, bytes) =>
      && c !in s.calls && s.recorded.None?
      && (d.serialized ==> AllLeftBehind(s))
      && (d.agreed.Some? ==> bytes == d.agreed.value)
    case Check(c) => c in s.calls && s.calls[c].Entered?
    case Rename(c) => c in s.calls && s.calls[c].Cleared?
    case SyncDirectory(c) => c in s.calls && s.calls[c].Renamed?
    case SyncFails(c) => c in s.calls && s.calls[c].Renamed? && !d.syncsSucceed
    case Commit(c) => c in s.calls && s.calls[c].Settled? && c !in s.orphans
    case Rollback(c) => c in s.calls && (if c in s.orphans then s.calls[c].Settled? else !s.calls[c].Renamed?)
    case Abandon(c) => c in s.calls && !s.calls[c].Settled? && c !in s.orphans && !d.writersJoined
    case Crash(survivor) =>
      d.crashes && (survivor == s.onDisk || survivor == s.file || (survivor.None? && !d.directoryKept))
  }

  function Ended(s: System, c: int): System {
    s.(calls := s.calls - {c}, orphans := s.orphans - {c})
  }

  function Apply(sha: Bytes -> string, d: Discipline, s: System, step: Step): System
    requires Enabled(d, s, step)
  {
    match step
    case Enter(c, bytes) => s.(calls := s.calls[c := Entered(bytes, s.recorded.None?)])
    case Check(c) =>
      var Entered(bytes, replace) := s.calls[c];
      (match Place(s.file, bytes, replace)
       case Keep => s.(calls := s.calls[c := Settled(bytes)])
       case Refuse => Ended(s, c)
       case Store => s.(calls := s.calls[c := Cleared(bytes)]))
    case Rename(c) => s.(file := Some(s.calls[c].bytes), calls := s.calls[c := Renamed(s.calls[c].bytes)])
    case SyncDirectory(c) => s.(onDisk := s.file, calls := s.calls[c := Settled(s.calls[c].bytes)])
    case SyncFails(c) => Ended(s, c)
    case Commit(c) => Ended(s.(recorded := Some(sha(s.calls[c].bytes))), c)
    case Rollback(c) => Ended(s, c)
    case Abandon(c) => s.(orphans := s.orphans + {c})
    case Crash(survivor) => System(s.recorded, survivor, survivor, map[], {})
  }

  predicate IsRun(sha: Bytes -> string, d: Discipline, s: System, steps: seq<Step>)
    decreases |steps|
  {
    steps == [] || (Enabled(d, s, steps[0]) && IsRun(sha, d, Apply(sha, d, s, steps[0]), steps[1..]))
  }

  function After(sha: Bytes -> string, d: Discipline, s: System, steps: seq<Step>): System
    requires IsRun(sha, d, s, steps)
    decreases |steps|
  {
    if steps == [] then s else After(sha, d, Apply(sha, d, s, steps[0]), steps[1..])
  }

  // The stored manifest has the recorded digest.
  predicate Matches(sha: Bytes -> string, s: System) {
    s.recorded.Some? ==> s.file.Some? && sha(s.file.value) == s.recorded.value
  }

  ghost predicate AlwaysMatches(sha: Bytes -> string, d: Discipline) {
    forall steps :: IsRun(sha, d, EMPTY, steps) ==> Matches(sha, After(sha, d, EMPTY, steps))
  }

  predicate Adequate(d: Discipline) {
    if d.crashes then d.serialized && d.syncsSucceed && d.directoryKept && d.writersJoined
    else (d.serialized && d.writersJoined) || d.agreed.Some?
  }

  // ----- an adequate discipline keeps the file and the row together -----

  // Under the row lock one call has a transaction, and none once a digest is recorded.
  ghost predicate LockInv(d: Discipline, s: System) {
    && (forall c :: c in s.orphans ==> c in s.calls)
    && (d.writersJoined ==> s.orphans == {})
    && (forall c :: c in s.calls && s.calls[c].Entered? ==> s.calls[c].replace)
    && (d.serialized ==>
          && (forall a, b :: a in s.calls && b in s.calls && a !in s.orphans && b !in s.orphans ==> a == b)
          && (s.recorded.Some? ==> AllLeftBehind(s)))
  }

  ghost predicate AgreedInv(bytes: Bytes, s: System) {
    && (s.file.Some? ==> s.file.value == bytes) && (s.onDisk.Some? ==> s.onDisk.value == bytes)
    && (forall c :: c in s.calls ==> s.calls[c].bytes == bytes)
  }

  ghost predicate Inv(sha: Bytes -> string, d: Discipline, s: System) {
    && Matches(sha, s)
    && LockInv(d, s)
    && (d.serialized && d.writersJoined && d.syncsSucceed ==>
          s.onDisk == s.file || exists c :: c in s.calls && s.calls[c].Renamed?)
    && (d.agreed.Some? ==> AgreedInv(d.agreed.value, s))
    && (forall c :: c in s.calls && (s.calls[c].Renamed? || s.calls[c].Settled?) ==> s.file == Some(s.calls[c].bytes))
  }

  lemma {:induction false} StepKeepsLock(sha: Bytes -> string, d: Discipline, s: System, step: Step)
    requires LockInv(d, s) && Enabled(d, s, step)
    ensures LockInv(d, Apply(sha, d, s, step))
  {
  }

  lemma {:induction false} RunKeepsLock(sha: Bytes -> string, d: Discipline, s: System, steps: seq<Step>)
    requires LockInv(d, s) && IsRun(sha, d, s, steps)
    ensures LockInv(d, After(sha, d, s, steps))
    decreases |steps|
  {
    if steps != [] {
      StepKeepsLock(sha, d, s, steps[0]);
      RunKeepsLock(sha, d, Apply(sha, d, s, steps[0]), steps[1..]);
    }
  }

  lemma {:induction false} StepKeepsInv(sha: Bytes -> string, d: Discipline, s: System, step: Step)
    requires Adequate(d) && Inv(sha, d, s) && Enabled(d, s, step)
    ensures Inv(sha, d, Apply(sha, d, s, step))
  {
    var after := Apply(sha, d, s, step);
    StepKeepsLock(sha, d, s, step);
    match step
    case Rename(c) => assert c in after.calls && after.calls[c].Renamed?;
    case _ =>
  }

  lemma {:induction false} RunKeepsInv(sha: Bytes -> string, d: Discipline, s: System, steps: seq<Step>)
    requires Adequate(d) && Inv(sha, d, s) && IsRun(sha, d, s, steps)
    ensures Inv(sha, d, After(sha, d, s, steps))
    decreases |steps|
  {
    if steps != [] {
      StepKeepsInv(sha, d, s, steps[0]);
      RunKeepsInv(sha, d, Apply(sha, d, s, steps[0]), steps[1..]);
    }
  }

  // Nothing that is still to come can change the file: every writer short of its rename carries
  // the bytes that are there, and a crash leaves them.
  ghost predicate Quiet(d: Discipline, s: System) {
    && (forall c :: c in s.calls && (s.calls[c].Entered? || s.calls[c].Cleared?) ==> s.file == Some(s.calls[c].bytes))
    && (d.crashes ==> s.onDisk == s.file && (d.directoryKept || s.file.None?))
  }

  // Neither the row nor the file changes again.
  ghost predicate Final(sha: Bytes -> string, d: Discipline, s: System) {
    forall later :: IsRun(sha, d, s, later) ==>
      After(sha, d, s, later).recorded == s.recorded && After(sha, d, s, later).file == s.file
  }

  lemma {:induction false} QuietStays(sha: Bytes -> string, d: Discipline, s: System, steps: seq<Step>)
    requires d.serialized && LockInv(d, s) && Quiet(d, s) && s.recorded.Some? && IsRun(sha, d, s, steps)
    ensures After(sha, d, s, steps).recorded == s.recorded && After(sha, d, s, steps).file == s.file
    decreases |steps|
  {
    if steps != [] {
      StepKeepsLock(sha, d, s, steps[0]);
      QuietStays(sha, d, Apply(sha, d, s, steps[0]), steps[1..]);
    }
  }

  lemma {:induction false} OneStep(sha: Bytes -> string, d: Discipline, s: System, step: Step)
    requires Enabled(d, s, step)
    ensures IsRun(sha, d, s, [step]) && After(sha, d, s, [step]) == Apply(sha, d, s, step)
  {
    assert [step][1..] == [];
  }

  lemma {:induction false} TwoSteps(sha: Bytes -> string, d: Discipline, s: System, one: Step, two: Step)
    requires Enabled(d, s, one) && Enabled(d, Apply(sha, d, s, one), two)
    ensures IsRun(sha, d, s, [one, two])
    ensures After(sha, d, s, [one, two]) == Apply(sha, d, Apply(sha, d, s, one), two)
  {
    OneStep(sha, d, Apply(sha, d, s, one), two);
    assert [one, two][1..] == [two];
  }

  // Under the row lock, a recorded revision is final exactly when every writer that an abandoned
  // call has left behind is past its rename or carries the stored bytes, and a crash would leave
  // those bytes in place.
  lemma {:induction false} RecordedIsFinalIff(sha: Bytes -> string, d: Discipline, steps: seq<Step>)
    requires d.serialized && IsRun(sha, d, EMPTY, steps) && After(sha, d, EMPTY, steps).recorded.Some?
    ensures Final(sha, d, After(sha, d, EMPTY, steps)) <==> Quiet(d, After(sha, d, EMPTY, steps))
  {
    var s := After(sha, d, EMPTY, steps);
    RunKeepsLock(sha, d, EMPTY, steps);
    if Quiet(d, s) {
      forall later | IsRun(sha, d, s, later)
        ensures After(sha, d, s, later).recorded == s.recorded && After(sha, d, s, later).file == s.file
      {
        QuietStays(sha, d, s, later);
      }
    } else if c :| c in s.calls && s.calls[c].Entered? && s.file != Some(s.calls[c].bytes) {
      TwoSteps(sha, d, s, Check(c), Rename(c));
    } else if c :| c in s.calls && s.calls[c].Cleared? && s.file != Some(s.calls[c].bytes) {
      OneStep(sha, d, s, Rename(c));
    } else if s.onDisk != s.file {
      OneStep(sha, d, s, Crash(s.onDisk));
    } else {
      OneStep(sha, d, s, Crash(None));
    }
  }

  // So, when no call is abandoned before its writer has ended, directory syncs do not fail and
  // crashes spare the directory: once the row holds a digest, neither the row nor the file
  // changes again, whatever calls and crashes follow, and the file has that digest.
  lemma {:induction false} RecordedIsFinal(sha: Bytes -> string, d: Discipline, steps: seq<Step>, later: seq<Step>)
    requires d.serialized && d.writersJoined && (d.crashes ==> d.syncsSucceed && d.directoryKept)
    requires IsRun(sha, d, EMPTY, steps) && IsRun(sha, d, After(sha, d, EMPTY, steps), later)
    ensures var s := After(sha, d, EMPTY, steps);
            var end := After(sha, d, s, later);
            s.recorded.Some? ==>
              && end.recorded == s.recorded && end.file == s.file
              && s.file.Some? && sha(s.file.value) == s.recorded.value
  {
    var s := After(sha, d, EMPTY, steps);
    RunKeepsInv(sha, d, EMPTY, steps);
    if s.recorded.Some? {
      assert Quiet(d, s);
      QuietStays(sha, d, s, later);
    }
  }

  // ----- no other does -----

  // Extends a run from the empty store by one step whose effect is known.
  lemma {:induction false} Reach(sha: Bytes -> string, d: Discipline, steps: seq<Step>, s: System, step: Step,
                                 next: System)
    returns (longer: seq<Step>)
    requires IsRun(sha, d, EMPTY, steps) && After(sha, d, EMPTY, steps) == s && Enabled(d, s, step)
    requires var got := Apply(sha, d, s, step);
             && got.calls == next.calls && got.recorded == next.recorded && got.orphans == next.orphans
             && got.file == next.file && got.onDisk == next.onDisk
    ensures IsRun(sha, d, EMPTY, longer) && After(sha, d, EMPTY, longer) == next
  {
    longer := Snoc(sha, d, EMPTY, steps, step);
  }

  lemma {:induction false} Snoc(sha: Bytes -> string, d: Discipline, s: System, steps: seq<Step>, step: Step)
    returns (longer: seq<Step>)
    requires IsRun(sha, d, s, steps) && Enabled(d, After(sha, d, s, steps), step)
    ensures longer == steps + [step] && IsRun(sha, d, s, longer)
    ensures After(sha, d, s, longer) == Apply(sha, d, After(sha, d, s, steps), step)
    decreases |steps|
  {
    longer := steps + [step];
    if steps != [] {
      var rest := Snoc(sha, d, Apply(sha, d, s, steps[0]), steps[1..], step);
      assert longer[1..] == rest;
    }
  }

  // The first call is at its directory sync, with `others` open beside it.
  function AtSync(bytes: Bytes, others: map<int, Call>, orphans: set<int>): System {
    System(None, Some(bytes), None, others[0 := Renamed(bytes)], orphans)
  }

  lemma {:induction false} FirstRenames(sha: Bytes -> string, d: Discipline, bytes: Bytes, steps: seq<Step>,
                                        others: map<int, Call>, orphans: set<int>)
    returns (longer: seq<Step>)
    requires IsRun(sha, d, EMPTY, steps)
    requires After(sha, d, EMPTY, steps) == System(None, None, None, others[0 := Entered(bytes, true)], orphans)
    ensures IsRun(sha, d, EMPTY, longer) && After(sha, d, EMPTY, longer) == AtSync(bytes, others, orphans)
  {
    var s := System(None, None, None, others[0 := Entered(bytes, true)], orphans);
    var cleared := s.(calls := others[0 := Cleared(bytes)]);
    longer := Reach(sha, d, steps, s, Check(0), cleared);
    longer := Reach(sha, d, longer, cleared, Rename(0), AtSync(bytes, others, orphans));
  }

  // A call finds identical bytes whose directory was never synced, keeps them and commits; the
  // crash that follows takes the file.
  lemma {:induction false} KeptFileIsLost(sha: Bytes -> string, d: Discipline, bytes: Bytes, steps: seq<Step>,
                                          calls: map<int, Call>, orphans: set<int>)
    returns (longer: seq<Step>)
    requires d.crashes && IsRun(sha, d, EMPTY, steps) && 1 !in orphans
    requires After(sha, d, EMPTY, steps)
          == System(None, Some(bytes), None, calls[1 := Entered(bytes, true)], orphans)
    ensures IsRun(sha, d, EMPTY, longer)
    ensures After(sha, d, EMPTY, longer) == System(Some(sha(bytes)), None, None, map[], {})
  {
    var s := System(None, Some(bytes), None, calls[1 := Entered(bytes, true)], orphans);
    var kept := s.(calls := calls[1 := Settled(bytes)]);
    var committed := System(Some(sha(bytes)), Some(bytes), None, calls - {1}, orphans);
    longer := Reach(sha, d, steps, s, Check(1), kept);
    longer := Reach(sha, d, longer, kept, Commit(1), committed);
    longer := Reach(sha, d, longer, committed, Crash(None), System(Some(sha(bytes)), None, None, map[], {}));
  }

  // The first call fails at its directory sync, and the retry keeps what it left.
  lemma {:induction false} RetryKeepsUnsynced(sha: Bytes -> string, d: Discipline, bytes: Bytes)
    returns (steps: seq<Step>)
    requires d.crashes && !d.syncsSucceed && (d.agreed.Some? ==> bytes == d.agreed.value)
    ensures IsRun(sha, d, EMPTY, steps) && !Matches(sha, After(sha, d, EMPTY, steps))
  {
    steps := Reach(sha, d, [], EMPTY, Enter(0, bytes), EMPTY.(calls := map[][0 := Entered(bytes, true)]));
    steps := FirstRenames(sha, d, bytes, steps, map[], {});
    var left := System(None, Some(bytes), None, map[], {});
    steps := Reach(sha, d, steps, AtSync(bytes, map[], {}), SyncFails(0), left);
    steps := Reach(sha, d, steps, left, Enter(1, bytes), left.(calls := map[][1 := Entered(bytes, true)]));
    steps := KeptFileIsLost(sha, d, bytes, steps, map[], {});
  }

  // Two calls can be past their entry at once: without the lock, or when the first is abandoned.
  predicate MayOverlap(d: Discipline) {
    !d.serialized || !d.writersJoined
  }

  function LeftBehind(d: Discipline, c: int): set<int> {
    if d.serialized then {c} else {}
  }

  lemma {:induction false} BothEnter(sha: Bytes -> string, d: Discipline, x: int, a: Bytes, y: int, b: Bytes)
    returns (steps: seq<Step>)
    requires MayOverlap(d) && x != y && (d.agreed.Some? ==> a == b == d.agreed.value)
    ensures IsRun(sha, d, EMPTY, steps)
    ensures After(sha, d, EMPTY, steps)
         == System(None, None, None, map[x := Entered(a, true)][y := Entered(b, true)], LeftBehind(d, x))
  {
    var one := EMPTY.(calls := map[x := Entered(a, true)]);
    steps := Reach(sha, d, [], EMPTY, Enter(x, a), one);
    var left := one.(orphans := LeftBehind(d, x));
    if d.serialized {
      steps := Reach(sha, d, steps, one, Abandon(x), left);
    }
    steps := Reach(sha, d, steps, left, Enter(y, b), left.(calls := left.calls[y := Entered(b, true)]));
  }

  // Two calls overlap with the same bytes, and the second commits before the first has synced.
  lemma {:induction false} OverlapKeepsUnsynced(sha: Bytes -> string, d: Discipline, bytes: Bytes)
    returns (steps: seq<Step>)
    requires d.crashes && MayOverlap(d) && (d.agreed.Some? ==> bytes == d.agreed.value)
    ensures IsRun(sha, d, EMPTY, steps) && !Matches(sha, After(sha, d, EMPTY, steps))
  {
    var first, second := map[0 := Entered(bytes, true)], map[1 := Entered(bytes, true)];
    steps := BothEnter(sha, d, 0, bytes, 1, bytes);
    assert first[1 := Entered(bytes, true)] == second[0 := Entered(bytes, true)];
    steps := FirstRenames(sha, d, bytes, steps, second, LeftBehind(d, 0));
    assert second[0 := Renamed(bytes)] == map[0 := Renamed(bytes)][1 := Entered(bytes, true)];
    steps := KeptFileIsLost(sha, d, bytes, steps, map[0 := Renamed(bytes)], LeftBehind(d, 0));
  }

  // Two calls overlap with different bytes: both enter while nothing is recorded, so both may
  // replace, and one stores its file over the one the other has recorded. Under the row lock the
  // one that does so is the thread of an abandoned call.
  lemma {:induction false} OverlapReplaces(sha: Bytes -> string, d: Discipline, a: Bytes, b: Bytes)
    returns (steps: seq<Step>)
    requires MayOverlap(d) && d.agreed.None? && sha(a) != sha(b)
    ensures IsRun(sha, d, EMPTY, steps)
    ensures var s := After(sha, d, EMPTY, steps);
            s.recorded == Some(sha(a)) && s.file == Some(b) && !Matches(sha, s)
  {
    var second, left := map[1 := Entered(b, true)], LeftBehind(d, 1);
    steps := BothEnter(sha, d, 1, b, 0, a);
    steps := FirstRenames(sha, d, a, steps, second, left);
    var stored := System(None, Some(a), Some(a), second[0 := Settled(a)], left);
    steps := Reach(sha, d, steps, AtSync(a, second, left), SyncDirectory(0), stored);
    var committed := System(Some(sha(a)), Some(a), Some(a), second, left);
    steps := Reach(sha, d, steps, stored, Commit(0), committed);
    steps := LateWriterReplaces(sha, d, a, b, steps);
  }

  lemma {:induction false} LateWriterReplaces(sha: Bytes -> string, d: Discipline, a: Bytes, b: Bytes, steps: seq<Step>)
    returns (longer: seq<Step>)
    requires a != b && IsRun(sha, d, EMPTY, steps)
    requires After(sha, d, EMPTY, steps)
          == System(Some(sha(a)), Some(a), Some(a), map[1 := Entered(b, true)], LeftBehind(d, 1))
    ensures IsRun(sha, d, EMPTY, longer)
    ensures After(sha, d, EMPTY, longer).recorded == Some(sha(a)) && After(sha, d, EMPTY, longer).file == Some(b)
  {
    var s := System(Some(sha(a)), Some(a), Some(a), map[1 := Entered(b, true)], LeftBehind(d, 1));
    var cleared := s.(calls := map[1 := Cleared(b)]);
    longer := Reach(sha, d, steps, s, Check(1), cleared);
    longer := Reach(sha, d, longer, cleared, Rename(1), cleared.(file := Some(b), calls := map[1 := Renamed(b)]));
  }

  // A call returns and commits, and the crash that follows takes the new directory with the file.
  lemma {:induction false} DirectoryIsLost(sha: Bytes -> string, d: Discipline, bytes: Bytes)
    returns (steps: seq<Step>)
    requires d.crashes && !d.directoryKept && (d.agreed.Some? ==> bytes == d.agreed.value)
    ensures IsRun(sha, d, EMPTY, steps) && !Matches(sha, After(sha, d, EMPTY, steps))
  {
    steps := Reach(sha, d, [], EMPTY, Enter(0, bytes), EMPTY.(calls := map[][0 := Entered(bytes, true)]));
    steps := FirstRenames(sha, d, bytes, steps, map[], {});
    var stored := System(None, Some(bytes), Some(bytes), map[0 := Settled(bytes)], {});
    steps := Reach(sha, d, steps, AtSync(bytes, map[], {}), SyncDirectory(0), stored);
    var committed := System(Some(sha(bytes)), Some(bytes), Some(bytes), map[], {});
    steps := Reach(sha, d, steps, stored, Commit(0), committed);
    steps := Reach(sha, d, steps, committed, Crash(None), System(Some(sha(bytes)), None, None, map[], {}));
  }

  // In every run the stored manifest has the recorded digest exactly when: with crashes, calls are
  // serialized and never abandoned while they write, directory syncs never fail and the revision's
  // directory is kept; without crashes, calls are serialized and never abandoned while they write,
  // or all offer the same bytes. `a` and `b` are any two contents with different digests.
  lemma {:induction false} AlwaysMatchesIff(sha: Bytes -> string, d: Discipline, a: Bytes, b: Bytes)
    requires sha(a) != sha(b)
    ensures AlwaysMatches(sha, d) <==>
            if d.crashes then d.serialized && d.writersJoined && d.syncsSucceed && d.directoryKept
            else (d.serialized && d.writersJoined) || d.agreed.Some?
  {
    var bytes := if d.agreed.Some? then d.agreed.value else a;
    if Adequate(d) {
      forall steps | IsRun(sha, d, EMPTY, steps) ensures Matches(sha, After(sha, d, EMPTY, steps)) {
        RunKeepsInv(sha, d, EMPTY, steps);
      }
    } else if !d.crashes {
      var steps := OverlapReplaces(sha, d, a, b);
    } else if !d.syncsSucceed {
      var steps := RetryKeepsUnsynced(sha, d, bytes);
    } else if MayOverlap(d) {
      var steps := OverlapKeepsUnsynced(sha, d, bytes);
    } else {
      var steps := DirectoryIsLost(sha, d, bytes);
    }
  }
}
