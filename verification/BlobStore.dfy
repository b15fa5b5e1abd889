// Content-addressed blob storage: stage, fsync, rename, fsync the directory, with any number of
// concurrent calls and a crash possible between any two steps. `sha` is the digest function.
module BlobStore {
  import opened Outcomes

  type Bytes = seq<bv8>

  // A file's bytes survive a crash only once its data has been synced.
  datatype File = File(bytes: Bytes, synced: bool)

  // `blobs` is the blob area as processes see it and `durable` what its directories hold on disk.
  // `dirs` are the two-character prefix directories and `dirsOnDisk` those whose own entry is on
  // disk: the store syncs the directory it renamed into, never that directory's parent.
  datatype Disk = Disk(
    staging: map<int, File>, blobs: map<string, File>, durable: map<string, File>,
    dirs: set<string>, dirsOnDisk: set<string>)

  datatype StoredBlob = StoredBlob(storageKey: string, sha256: string, sizeBytes: nat)

  // An Unsynced call renamed its blob into place and then failed at the directory sync.
  datatype Call =
    | Writing(temp: int, written: Bytes)
    | Flushed(temp: int, written: Bytes)
    | Missing(temp: int, written: Bytes)
    | Renamed(written: Bytes)
    | Unsynced(written: Bytes)
    | Returned(blob: StoredBlob, ownRename: bool)
    | Failed

  datatype System = System(disk: Disk, calls: map<int, Call>)

  // The path preparation before FindMissing and FindExisting creates the prefix directory.
  // SyncFails stands for a directory sync that raises and for a process killed before it.
  datatype Step =
    | Open(call: int, temp: int)
    | Write(call: int, chunk: Bytes)
    | Abandon(call: int)
    | Sync(call: int)
    | FindMissing(call: int)
    | FindExisting(call: int)
    | Rename(call: int)
    | SyncDirectory(call: int)
    | SyncFails(call: int)
    | WriteBack(prefix: string)
    | Crash(staging: map<int, File>, survivors: map<string, File>, gone: set<string>)

  function Prefix(digest: string): string {
    if |digest| < 2 then digest else digest[..2]
  }

  function StorageKey(digest: string): string {
    Prefix(digest) + "/" + digest
  }

  function Stored(digest: string, size: nat): StoredBlob {
    StoredBlob(StorageKey(digest), digest, size)
  }

  // A crash takes only directories that are not on disk. Outside them it keeps every durable
  // entry; an entry not yet durable may or may not survive, with its synced bytes intact and
  // unsynced ones replaced by anything.
  predicate CanSurvive(disk: Disk, survivors: map<string, File>, gone: set<string>) {
    && gone !! disk.dirsOnDisk
    && (forall d :: d in survivors ==>
          && Prefix(d) !in gone && survivors[d].synced
          && (|| (d in disk.durable && disk.durable[d] == survivors[d])
              || (d in disk.blobs && (disk.blobs[d].synced ==> disk.blobs[d] == survivors[d]))))
    && (forall d :: d in disk.durable && Prefix(d) !in gone ==> d in survivors)
  }

  predicate Holds(s: System, call: int) {
    call in s.calls && (s.calls[call].Writing? || s.calls[call].Flushed? || s.calls[call].Missing?)
    && s.calls[call].temp in s.disk.staging
  }

  predicate Enabled(sha: Bytes -> string, s: System, step: Step) {
    match step
    case Open(call, temp) => call !in s.calls && temp !in s.disk.staging
    case Write(call, chunk) => Holds(s, call) && s.calls[call].Writing? && chunk != []
    case Abandon(call) => Holds(s, call)
    case Sync(call) => Holds(s, call) && s.calls[call].Writing? && s.calls[call].written != []
    case FindMissing(call) =>
      Holds(s, call) && s.calls[call].Flushed? && sha(s.calls[call].written) !in s.disk.blobs
    case FindExisting(call) =>
      Holds(s, call) && s.calls[call].Flushed? && sha(s.calls[call].written) in s.disk.blobs
    case Rename(call) => Holds(s, call) && s.calls[call].Missing?
    case SyncDirectory(call) => call in s.calls && s.calls[call].Renamed?
    case SyncFails(call) => call in s.calls && s.calls[call].Renamed?
    case WriteBack(prefix) => prefix in s.disk.dirs
    case Crash(staging, survivors, gone) => CanSurvive(s.disk, survivors, gone)
  }

  function Apply(sha: Bytes -> string, s: System, step: Step): System
    requires Enabled(sha, s, step)
  {
    match step
    case Open(call, temp) =>
      s.(disk := s.disk.(staging := s.disk.staging[temp := File([], false)]),
         calls := s.calls[call := Writing(temp, [])])
    case Write(call, chunk) =>
      var Writing(temp, written) := s.calls[call];
      s.(disk := s.disk.(staging := s.disk.staging[temp := File(s.disk.staging[temp].bytes + chunk, false)]),
         calls := s.calls[call := Writing(temp, written + chunk)])
    case Abandon(call) =>
      s.(disk := s.disk.(staging := s.disk.staging - {s.calls[call].temp}),
         calls := s.calls[call := Failed])
    case Sync(call) =>
      var Writing(temp, written) := s.calls[call];
      s.(disk := s.disk.(staging := s.disk.staging[temp := s.disk.staging[temp].(synced := true)]),
         calls := s.calls[call := Flushed(temp, written)])
    case FindMissing(call) =>
      var Flushed(temp, written) := s.calls[call];
      s.(disk := s.disk.(dirs := s.disk.dirs + {Prefix(sha(written))}),
         calls := s.calls[call := Missing(temp, written)])
    case FindExisting(call) =>
      var digest := sha(s.calls[call].written);
      var existing := s.disk.blobs[digest].bytes;
      s.(disk := s.disk.(staging := s.disk.staging - {s.calls[call].temp},
                         dirs := s.disk.dirs + {Prefix(digest)}),
         calls := s.calls[call := if sha(existing) != digest then Failed
                                  else Returned(Stored(digest, |existing|), false)])
    case Rename(call) =>
      var Missing(temp, written) := s.calls[call];
      s.(disk := s.disk.(staging := s.disk.staging - {temp},
                         blobs := s.disk.blobs[sha(written) := s.disk.staging[temp]]),
         calls := s.calls[call := Renamed(written)])
    case SyncDirectory(call) =>
      var written := s.calls[call].written;
      var digest := sha(written);
      s.(disk := s.disk.(durable := s.disk.durable + EntriesUnder(s.disk.blobs, Prefix(digest))),
         calls := s.calls[call := Returned(Stored(digest, |written|), true)])
    case SyncFails(call) =>
      s.(calls := s.calls[call := Unsynced(s.calls[call].written)])
    case WriteBack(prefix) =>
      s.(disk := s.disk.(dirsOnDisk := s.disk.dirsOnDisk + {prefix}))
    case Crash(staging, survivors, gone) =>
      System(Disk(staging, survivors, survivors, s.disk.dirs - gone, s.disk.dirs - gone), map[])
  }

  function EntriesUnder(blobs: map<string, File>, prefix: string): map<string, File> {
    map d | d in blobs && Prefix(d) == prefix :: blobs[d]
  }

  const EMPTY := System(Disk(map[], map[], map[], {}, {}), map[])

  predicate IsRun(sha: Bytes -> string, s: System, steps: seq<Step>)
    decreases |steps|
  {
    steps == [] || (Enabled(sha, s, steps[0]) && IsRun(sha, Apply(sha, s, steps[0]), steps[1..]))
  }

  function After(sha: Bytes -> string, s: System, steps: seq<Step>): System
    requires IsRun(sha, s, steps)
    decreases |steps|
  {
    if steps == [] then s else After(sha, Apply(sha, s, steps[0]), steps[1..])
  }

  // ----- the invariant -----

  ghost predicate Addressed(sha: Bytes -> string, area: map<string, File>) {
    forall d :: d in area ==> area[d].synced && sha(area[d].bytes) == d
  }

  ghost predicate CallInv(sha: Bytes -> string, s: System, call: int)
    requires call in s.calls
  {
    match s.calls[call]
    case Writing(temp, written) => temp in s.disk.staging && s.disk.staging[temp].bytes == written
    case Flushed(temp, written) => temp in s.disk.staging && s.disk.staging[temp] == File(written, true)
    case Missing(temp, written) => temp in s.disk.staging && s.disk.staging[temp] == File(written, true)
    case Renamed(written) => sha(written) in s.disk.blobs
    case Unsynced(written) => sha(written) in s.disk.blobs
    case Returned(blob, own) => blob.sha256 in s.disk.blobs
    case Failed => true
  }

  ghost predicate TempsDiffer(s: System) {
    forall a, b :: a in s.calls && b in s.calls && a != b && Holds(s, a) && Holds(s, b)
      ==> s.calls[a].temp != s.calls[b].temp
  }

  ghost predicate FilesInv(sha: Bytes -> string, s: System) {
    && Addressed(sha, s.disk.blobs)
    && Addressed(sha, s.disk.durable)
    && s.disk.durable.Keys <= s.disk.blobs.Keys
    && s.disk.dirsOnDisk <= s.disk.dirs
  }

  // A call has renamed a blob under the prefix and its directory sync has not happened.
  ghost predicate Pending(sha: Bytes -> string, s: System, prefix: string) {
    exists call :: call in s.calls && AwaitsSync(sha, s.calls[call], prefix)
  }

  predicate AwaitsSync(sha: Bytes -> string, call: Call, prefix: string) {
    (call.Renamed? || call.Unsynced?) && Prefix(sha(call.written)) == prefix
  }

  ghost predicate Settled(sha: Bytes -> string, s: System) {
    forall d :: d in s.disk.blobs ==> d in s.disk.durable || Pending(sha, s, Prefix(d))
  }

  ghost predicate Inv(sha: Bytes -> string, s: System) {
    && FilesInv(sha, s)
    && (forall call :: call in s.calls ==> CallInv(sha, s, call))
    && TempsDiffer(s)
    && Settled(sha, s)
  }

  lemma {:induction false} StepKeepsFiles(sha: Bytes -> string, s: System, step: Step)
    requires Inv(sha, s) && Enabled(sha, s, step)
    ensures FilesInv(sha, Apply(sha, s, step))
  {
    match step
    case Rename(call) => assert CallInv(sha, s, call);
    case SyncDirectory(call) => assert CallInv(sha, s, call);
    case _ =>
  }

  lemma {:induction false} StepKeepsTemps(s: System, sha: Bytes -> string, step: Step)
    requires TempsDiffer(s) && Enabled(sha, s, step)
    requires forall call :: call in s.calls ==> CallInv(sha, s, call)
    ensures TempsDiffer(Apply(sha, s, step))
  {
    var after := Apply(sha, s, step);
    forall a, b | a in after.calls && b in after.calls && a != b && Holds(after, a) && Holds(after, b)
      ensures after.calls[a].temp != after.calls[b].temp
    {
      assert a in s.calls ==> CallInv(sha, s, a);
      assert b in s.calls ==> CallInv(sha, s, b);
    }
  }

  // A step other than a directory sync or a crash leaves every awaited sync awaited.
  lemma {:induction false} StaysPending(sha: Bytes -> string, s: System, step: Step, prefix: string)
    requires Enabled(sha, s, step) && !step.Crash? && Pending(sha, s, prefix)
    requires step.SyncDirectory? ==> Prefix(sha(s.calls[step.call].written)) != prefix
    ensures Pending(sha, Apply(sha, s, step), prefix)
  {
    var call :| call in s.calls && AwaitsSync(sha, s.calls[call], prefix);
    var after := Apply(sha, s, step);
    assert call in after.calls && AwaitsSync(sha, after.calls[call], prefix);
  }

  lemma {:induction false} StepKeepsSettled(sha: Bytes -> string, s: System, step: Step)
    requires Settled(sha, s) && Enabled(sha, s, step)
    ensures Settled(sha, Apply(sha, s, step))
  {
    var after := Apply(sha, s, step);
    forall d | d in after.disk.blobs ensures d in after.disk.durable || Pending(sha, after, Prefix(d)) {
      if step.Rename? && d == sha(s.calls[step.call].written) {
        assert AwaitsSync(sha, after.calls[step.call], Prefix(d));
      } else if step.Crash? || (step.SyncDirectory? && Prefix(d) == Prefix(sha(s.calls[step.call].written))) {
        assert d in after.disk.durable;
      } else if d !in s.disk.durable {
        StaysPending(sha, s, step, Prefix(d));
      }
    }
  }

  lemma {:induction false} StepKeepsInv(sha: Bytes -> string, s: System, step: Step)
    requires Inv(sha, s) && Enabled(sha, s, step)
    ensures Inv(sha, Apply(sha, s, step))
  {
    var after := Apply(sha, s, step);
    StepKeepsFiles(sha, s, step);
    StepKeepsTemps(s, sha, step);
    StepKeepsSettled(sha, s, step);
    forall call | call in after.calls ensures CallInv(sha, after, call) {
      if call in s.calls {
        StepKeepsCall(sha, s, step, call);
      }
    }
  }

  lemma {:induction false} StepKeepsCall(sha: Bytes -> string, s: System, step: Step, call: int)
    requires Inv(sha, s) && Enabled(sha, s, step) && call in s.calls
    ensures call in Apply(sha, s, step).calls ==> CallInv(sha, Apply(sha, s, step), call)
  {
    assert CallInv(sha, s, call);
  }

  lemma {:induction false} RunKeepsInv(sha: Bytes -> string, s: System, steps: seq<Step>)
    requires Inv(sha, s) && IsRun(sha, s, steps)
    ensures Inv(sha, After(sha, s, steps))
    decreases |steps|
  {
    if steps != [] {
      StepKeepsInv(sha, s, steps[0]);
      RunKeepsInv(sha, Apply(sha, s, steps[0]), steps[1..]);
    }
  }

  // In every state that calls, write-backs and crashes can reach, each file of the blob area
  // hashes to its own name, on disk too, and no call ever meets a blob under the wrong name.
  lemma {:induction false} BlobsAreContentAddressed(sha: Bytes -> string, steps: seq<Step>)
    requires IsRun(sha, EMPTY, steps)
    ensures var s := After(sha, EMPTY, steps);
            && (forall d :: d in s.disk.blobs ==> sha(s.disk.blobs[d].bytes) == d)
            && (forall d :: d in s.disk.durable ==> sha(s.disk.durable[d].bytes) == d)
            && (forall call :: Enabled(sha, s, FindExisting(call)) ==>
                  Apply(sha, s, FindExisting(call)).calls[call].Returned?)
  {
    RunKeepsInv(sha, EMPTY, steps);
  }

  // ----- durability of entries -----

  // A blob that processes see is on disk as soon as every call that renamed under its prefix has
  // synced the directory.
  lemma {:induction false} PresentIsDurable(sha: Bytes -> string, steps: seq<Step>, d: string)
    requires IsRun(sha, EMPTY, steps)
    requires var s := After(sha, EMPTY, steps); d in s.disk.blobs && !Pending(sha, s, Prefix(d))
    ensures d in After(sha, EMPTY, steps).disk.durable
  {
    RunKeepsInv(sha, EMPTY, steps);
  }

  // No crash of the run takes the prefix directory.
  predicate Spares(steps: seq<Step>, prefix: string) {
    forall i :: 0 <= i < |steps| && steps[i].Crash? ==> prefix !in steps[i].gone
  }

  lemma {:induction false} DurableStays(sha: Bytes -> string, s: System, steps: seq<Step>, d: string)
    requires IsRun(sha, s, steps) && d in s.disk.durable && Spares(steps, Prefix(d))
    ensures d in After(sha, s, steps).disk.durable
    decreases |steps|
  {
    if steps != [] {
      assert steps[0].Crash? ==> Prefix(d) !in steps[0].gone;
      SparesRest(steps, Prefix(d));
      DurableStays(sha, Apply(sha, s, steps[0]), steps[1..], d);
    }
  }

  lemma {:induction false} SparesRest(steps: seq<Step>, prefix: string)
    requires steps != []
    ensures Spares(steps, prefix) <==> (steps[0].Crash? ==> prefix !in steps[0].gone) && Spares(steps[1..], prefix)
  {
    if (steps[0].Crash? ==> prefix !in steps[0].gone) && Spares(steps[1..], prefix) {
      forall i | 0 <= i < |steps| && steps[i].Crash? ensures prefix !in steps[i].gone {
        if i > 0 {
          assert steps[i] == steps[1..][i - 1];
        }
      }
    }
  }

  lemma {:induction false} OnDiskIsSpared(sha: Bytes -> string, s: System, steps: seq<Step>, prefix: string)
    requires IsRun(sha, s, steps) && prefix in s.disk.dirsOnDisk && s.disk.dirsOnDisk <= s.disk.dirs
    ensures Spares(steps, prefix)
    decreases |steps|
  {
    if steps != [] {
      OnDiskIsSpared(sha, Apply(sha, s, steps[0]), steps[1..], prefix);
      SparesRest(steps, prefix);
    }
  }

  // A call that returns through its own rename: whatever runs and crashes follow, the blob is
  // there under its digest, with the very bytes the call wrote unless the digest collides, as
  // long as none of those crashes takes the prefix directory; and none takes one that is on disk.
  lemma {:induction false} OwnRenameIsDurable(sha: Bytes -> string, steps: seq<Step>, call: int, later: seq<Step>)
    requires IsRun(sha, EMPTY, steps)
    requires Enabled(sha, After(sha, EMPTY, steps), SyncDirectory(call))
    requires IsRun(sha, Apply(sha, After(sha, EMPTY, steps), SyncDirectory(call)), later)
    ensures var s := After(sha, EMPTY, steps);
            var written := s.calls[call].written;
            var d := sha(written);
            var returned := Apply(sha, s, SyncDirectory(call));
            var end := After(sha, returned, later);
            && returned.calls[call] == Returned(Stored(d, |written|), true)
            && (Prefix(d) in s.disk.dirsOnDisk ==> Spares(later, Prefix(d)))
            && (Spares(later, Prefix(d)) ==>
                  && d in end.disk.blobs && d in end.disk.durable
                  && ((forall x :: sha(x) == d ==> x == written) ==> end.disk.blobs[d].bytes == written))
  {
    var s := After(sha, EMPTY, steps);
    var d := sha(s.calls[call].written);
    var returned := Apply(sha, s, SyncDirectory(call));
    RunKeepsInv(sha, EMPTY, steps);
    assert CallInv(sha, s, call);
    StepKeepsInv(sha, s, SyncDirectory(call));
    RunKeepsInv(sha, returned, later);
    if Prefix(d) in s.disk.dirsOnDisk {
      OnDiskIsSpared(sha, returned, later, Prefix(d));
    }
    if Spares(later, Prefix(d)) {
      DurableStays(sha, returned, later, d);
    }
  }

  // ----- durability of directories -----

  // The blob is still there after everything that may follow, crashes included.
  ghost predicate Outlives(sha: Bytes -> string, s: System, d: string) {
    forall later :: IsRun(sha, s, later) ==> d in After(sha, s, later).disk.blobs
  }

  // The kernel wrote the directory's entry back, or the directory outlived a crash.
  predicate ReachedDisk(sha: Bytes -> string, s: System, steps: seq<Step>, prefix: string)
    requires IsRun(sha, s, steps)
    decreases |steps|
  {
    && steps != []
    && (|| steps[0] == WriteBack(prefix)
        || (steps[0].Crash? && prefix in s.disk.dirs && prefix !in steps[0].gone)
        || ReachedDisk(sha, Apply(sha, s, steps[0]), steps[1..], prefix))
  }

  lemma {:induction false} OnDiskIff(sha: Bytes -> string, s: System, steps: seq<Step>, prefix: string)
    requires IsRun(sha, s, steps) && s.disk.dirsOnDisk <= s.disk.dirs
    ensures prefix in After(sha, s, steps).disk.dirsOnDisk
       <==> prefix in s.disk.dirsOnDisk || ReachedDisk(sha, s, steps, prefix)
    decreases |steps|
  {
    if steps != [] {
      OnDiskIff(sha, Apply(sha, s, steps[0]), steps[1..], prefix);
    }
  }

  lemma {:induction false} OneCrash(sha: Bytes -> string, s: System, crash: Step)
    requires crash.Crash? && Enabled(sha, s, crash)
    ensures IsRun(sha, s, [crash]) && After(sha, s, [crash]) == Apply(sha, s, crash)
  {
    assert [crash][1..] == [];
  }

  lemma {:induction false} OutlivesIff(sha: Bytes -> string, s: System, d: string)
    requires Inv(sha, s) && d in s.disk.durable
    ensures Outlives(sha, s, d) <==> Prefix(d) in s.disk.dirsOnDisk
  {
    if Prefix(d) in s.disk.dirsOnDisk {
      forall later | IsRun(sha, s, later) ensures d in After(sha, s, later).disk.blobs {
        OnDiskIsSpared(sha, s, later, Prefix(d));
        DurableStays(sha, s, later, d);
        RunKeepsInv(sha, s, later);
      }
    } else {
      var survivors := map e | e in s.disk.durable && Prefix(e) != Prefix(d) :: s.disk.durable[e];
      OneCrash(sha, s, Crash(map[], survivors, {Prefix(d)}));
    }
  }

  // What a call returns through its own rename outlives everything that may follow exactly when,
  // before the return, its prefix directory was written back or had already outlived a crash.
  lemma {:induction false} OwnReturnOutlivesIff(sha: Bytes -> string, steps: seq<Step>, call: int)
    requires IsRun(sha, EMPTY, steps)
    requires Enabled(sha, After(sha, EMPTY, steps), SyncDirectory(call))
    ensures var s := After(sha, EMPTY, steps);
            var d := sha(s.calls[call].written);
            Outlives(sha, Apply(sha, s, SyncDirectory(call)), d) <==> ReachedDisk(sha, EMPTY, steps, Prefix(d))
  {
    var s := After(sha, EMPTY, steps);
    var d := sha(s.calls[call].written);
    RunKeepsInv(sha, EMPTY, steps);
    assert CallInv(sha, s, call);
    StepKeepsInv(sha, s, SyncDirectory(call));
    OnDiskIff(sha, EMPTY, steps, Prefix(d));
    OutlivesIff(sha, Apply(sha, s, SyncDirectory(call)), d);
  }

  // ----- which returns are safe, by how calls are run -----

  // How calls may be run: one at a time; with directory syncs that never fail; and with crashes
  // that take no prefix directory.
  datatype Discipline = Discipline(serialized: bool, syncsSucceed: bool, directoriesKept: bool)

  predicate InProgress(call: Call) {
    call.Writing? || call.Flushed? || call.Missing? || call.Renamed?
  }

  predicate Allows(discipline: Discipline, s: System, step: Step) {
    && (discipline.serialized && step.Open? ==> forall call :: call in s.calls ==> !InProgress(s.calls[call]))
    && (discipline.syncsSucceed ==> !step.SyncFails?)
    && (discipline.directoriesKept && step.Crash? ==> step.gone == {})
  }

  predicate Obeys(sha: Bytes -> string, discipline: Discipline, s: System, steps: seq<Step>)
    requires IsRun(sha, s, steps)
    decreases |steps|
  {
    steps == [] ||
    (Allows(discipline, s, steps[0]) && Obeys(sha, discipline, Apply(sha, s, steps[0]), steps[1..]))
  }

  // The blob is still there after everything that may follow under the discipline.
  ghost predicate OutlivesUnder(sha: Bytes -> string, discipline: Discipline, s: System, d: string) {
    forall later :: IsRun(sha, s, later) && Obeys(sha, discipline, s, later) ==> d in After(sha, s, later).disk.blobs
  }

  // Whatever a call returns because it found the blob present outlives everything that may follow.
  ghost predicate SharedReturnsSafe(sha: Bytes -> string, discipline: Discipline) {
    forall steps, call ::
      IsRun(sha, EMPTY, steps) && Obeys(sha, discipline, EMPTY, steps)
      && Enabled(sha, After(sha, EMPTY, steps), FindExisting(call))
      ==> var s := After(sha, EMPTY, steps);
          OutlivesUnder(sha, discipline, Apply(sha, s, FindExisting(call)), sha(s.calls[call].written))
  }

  // Whatever a call returns through its own rename outlives everything that may follow.
  ghost predicate OwnReturnsSafe(sha: Bytes -> string, discipline: Discipline) {
    forall steps, call ::
      IsRun(sha, EMPTY, steps) && Obeys(sha, discipline, EMPTY, steps)
      && Enabled(sha, After(sha, EMPTY, steps), SyncDirectory(call))
      ==> var s := After(sha, EMPTY, steps);
          OutlivesUnder(sha, discipline, Apply(sha, s, SyncDirectory(call)), sha(s.calls[call].written))
  }

  ghost predicate OneAtATime(s: System) {
    && (forall a, b :: a in s.calls && b in s.calls && InProgress(s.calls[a]) && InProgress(s.calls[b]) ==> a == b)
    && (forall a :: a in s.calls ==> !s.calls[a].Unsynced?)
  }

  lemma {:induction false} StrictRun(sha: Bytes -> string, s: System, steps: seq<Step>)
    requires OneAtATime(s) && IsRun(sha, s, steps) && Obeys(sha, Discipline(true, true, true), s, steps)
    ensures OneAtATime(After(sha, s, steps))
    decreases |steps|
  {
    if steps != [] {
      StrictRun(sha, Apply(sha, s, steps[0]), steps[1..]);
    }
  }

  lemma {:induction false} KeptIsSpared(sha: Bytes -> string, discipline: Discipline, s: System, steps: seq<Step>,
                                        prefix: string)
    requires discipline.directoriesKept && IsRun(sha, s, steps) && Obeys(sha, discipline, s, steps)
    ensures Spares(steps, prefix)
    decreases |steps|
  {
    if steps != [] {
      KeptIsSpared(sha, discipline, Apply(sha, s, steps[0]), steps[1..], prefix);
      SparesRest(steps, prefix);
    }
  }

  // While directories are kept, an entry on disk outlives everything.
  lemma {:induction false} DurableOutlives(sha: Bytes -> string, discipline: Discipline, s: System, d: string)
    requires discipline.directoriesKept && Inv(sha, s) && d in s.disk.durable
    ensures OutlivesUnder(sha, discipline, s, d)
  {
    forall later | IsRun(sha, s, later) && Obeys(sha, discipline, s, later)
      ensures d in After(sha, s, later).disk.blobs
    {
      KeptIsSpared(sha, discipline, s, later, Prefix(d));
      DurableStays(sha, s, later, d);
      RunKeepsInv(sha, s, later);
    }
  }

  lemma {:induction false} LostToCrash(sha: Bytes -> string, discipline: Discipline, s: System, d: string, crash: Step)
    requires crash.Crash? && Enabled(sha, s, crash) && Allows(discipline, s, crash)
    requires d !in Apply(sha, s, crash).disk.blobs
    ensures !OutlivesUnder(sha, discipline, s, d)
  {
    OneCrash(sha, s, crash);
    assert [crash][1..] == [];
    assert Obeys(sha, discipline, s, [crash]);
  }

  // Returning an existing blob without syncing its directory is safe exactly when no call
  // overlaps another, no directory sync ever fails, and no crash takes a prefix directory.
  lemma {:induction false} SharedReturnsSafeIff(sha: Bytes -> string, discipline: Discipline)
    ensures SharedReturnsSafe(sha, discipline)
       <==> discipline.serialized && discipline.syncsSucceed && discipline.directoriesKept
  {
    if discipline == Discipline(true, true, true) {
      forall steps, call |
        IsRun(sha, EMPTY, steps) && Obeys(sha, discipline, EMPTY, steps)
        && Enabled(sha, After(sha, EMPTY, steps), FindExisting(call))
        ensures var s := After(sha, EMPTY, steps);
                OutlivesUnder(sha, discipline, Apply(sha, s, FindExisting(call)), sha(s.calls[call].written))
      {
        var s := After(sha, EMPTY, steps);
        var d := sha(s.calls[call].written);
        StrictRun(sha, EMPTY, steps);
        PresentIsDurable(sha, steps, d);
        RunKeepsInv(sha, EMPTY, steps);
        StepKeepsInv(sha, s, FindExisting(call));
        DurableOutlives(sha, discipline, Apply(sha, s, FindExisting(call)), d);
      }
    } else {
      var steps, crash := SharedReturnCanBeLost(sha, discipline, [0]);
      var s := After(sha, EMPTY, steps);
      LostToCrash(sha, discipline, Apply(sha, s, FindExisting(1)), sha([0]), crash);
    }
  }

  // A call's own rename, which does sync the directory, needs only the last of the three.
  lemma {:induction false} OwnReturnsSafeIff(sha: Bytes -> string, discipline: Discipline)
    ensures OwnReturnsSafe(sha, discipline) <==> discipline.directoriesKept
  {
    if discipline.directoriesKept {
      forall steps, call |
        IsRun(sha, EMPTY, steps) && Obeys(sha, discipline, EMPTY, steps)
        && Enabled(sha, After(sha, EMPTY, steps), SyncDirectory(call))
        ensures var s := After(sha, EMPTY, steps);
                OutlivesUnder(sha, discipline, Apply(sha, s, SyncDirectory(call)), sha(s.calls[call].written))
      {
        var s := After(sha, EMPTY, steps);
        RunKeepsInv(sha, EMPTY, steps);
        assert CallInv(sha, s, call);
        StepKeepsInv(sha, s, SyncDirectory(call));
        DurableOutlives(sha, discipline, Apply(sha, s, SyncDirectory(call)), sha(s.calls[call].written));
      }
    } else {
      var steps := OneCallRenames(sha, discipline, [0]);
      var s := After(sha, EMPTY, steps);
      var crash := Crash(map[], map[], {Prefix(sha([0]))});
      LostToCrash(sha, discipline, Apply(sha, s, SyncDirectory(0)), sha([0]), crash);
    }
  }

  lemma {:induction false} RunSnoc(sha: Bytes -> string, s: System, steps: seq<Step>, step: Step)
    requires IsRun(sha, s, steps) && Enabled(sha, After(sha, s, steps), step)
    ensures IsRun(sha, s, steps + [step])
    ensures After(sha, s, steps + [step]) == Apply(sha, After(sha, s, steps), step)
    decreases |steps|
  {
    if steps != [] {
      RunSnoc(sha, Apply(sha, s, steps[0]), steps[1..], step);
      assert (steps + [step])[1..] == steps[1..] + [step];
    }
  }

  lemma {:induction false} ObeysSnoc(sha: Bytes -> string, discipline: Discipline, s: System, steps: seq<Step>,
                                     step: Step)
    requires IsRun(sha, s, steps) && Enabled(sha, After(sha, s, steps), step)
    requires Obeys(sha, discipline, s, steps) && Allows(discipline, After(sha, s, steps), step)
    ensures IsRun(sha, s, steps + [step]) && Obeys(sha, discipline, s, steps + [step])
    decreases |steps|
  {
    RunSnoc(sha, s, steps, step);
    if steps != [] {
      ObeysSnoc(sha, discipline, Apply(sha, s, steps[0]), steps[1..], step);
      assert (steps + [step])[1..] == steps[1..] + [step];
    }
  }

  // Extends a run from the empty store by one step whose effect is known.
  lemma {:induction false} Reach(sha: Bytes -> string, discipline: Discipline, s: System, next: System,
                                 steps: seq<Step>, step: Step)
    returns (longer: seq<Step>)
    requires IsRun(sha, EMPTY, steps) && After(sha, EMPTY, steps) == s && Obeys(sha, discipline, EMPTY, steps)
    requires Enabled(sha, s, step) && Allows(discipline, s, step)
    requires Apply(sha, s, step).calls == next.calls && SameDisk(Apply(sha, s, step).disk, next.disk)
    ensures longer == steps + [step]
    ensures IsRun(sha, EMPTY, longer) && After(sha, EMPTY, longer) == next && Obeys(sha, discipline, EMPTY, longer)
  {
    RunSnoc(sha, EMPTY, steps, step);
    ObeysSnoc(sha, discipline, EMPTY, steps, step);
    longer := steps + [step];
  }

  ghost predicate SameDisk(a: Disk, b: Disk) {
    && a.staging == b.staging && a.blobs == b.blobs && a.durable == b.durable
    && a.dirs == b.dirs && a.dirsOnDisk == b.dirsOnDisk
  }

  function Stage(s: System, id: int, file: File, call: Call): System {
    s.(disk := s.disk.(staging := s.disk.staging[id := file]), calls := s.calls[id := call])
  }

  // A call writes one chunk and flushes it.
  lemma {:induction false} OneCallFlushes(sha: Bytes -> string, discipline: Discipline, s: System, steps: seq<Step>,
                                          call: int, chunk: Bytes)
    returns (longer: seq<Step>)
    requires chunk != [] && call !in s.calls && call !in s.disk.staging
    requires IsRun(sha, EMPTY, steps) && After(sha, EMPTY, steps) == s && Obeys(sha, discipline, EMPTY, steps)
    requires Allows(discipline, s, Open(call, call))
    ensures IsRun(sha, EMPTY, longer) && Obeys(sha, discipline, EMPTY, longer)
    ensures After(sha, EMPTY, longer) == Stage(s, call, File(chunk, true), Flushed(call, chunk))
  {
    var open := Stage(s, call, File([], false), Writing(call, []));
    longer := Reach(sha, discipline, s, open, steps, Open(call, call));
    longer := OneCallWrites(sha, discipline, s, longer, call, chunk);
    var wrote := Stage(s, call, File(chunk, false), Writing(call, chunk));
    var flushed := Stage(s, call, File(chunk, true), Flushed(call, chunk));
    longer := Reach(sha, discipline, wrote, flushed, longer, Sync(call));
  }

  lemma {:induction false} OneCallWrites(sha: Bytes -> string, discipline: Discipline, s: System, steps: seq<Step>,
                                         call: int, chunk: Bytes)
    returns (longer: seq<Step>)
    requires chunk != [] && IsRun(sha, EMPTY, steps) && Obeys(sha, discipline, EMPTY, steps)
    requires After(sha, EMPTY, steps) == Stage(s, call, File([], false), Writing(call, []))
    ensures IsRun(sha, EMPTY, longer) && Obeys(sha, discipline, EMPTY, longer)
    ensures After(sha, EMPTY, longer) == Stage(s, call, File(chunk, false), Writing(call, chunk))
  {
    assert [] + chunk == chunk;
    longer := Reach(sha, discipline, Stage(s, call, File([], false), Writing(call, [])),
                    Stage(s, call, File(chunk, false), Writing(call, chunk)), steps, Write(call, chunk));
  }

  function OnlyBlob(sha: Bytes -> string, chunk: Bytes, calls: map<int, Call>): System {
    System(Disk(map[], map[sha(chunk) := File(chunk, true)], map[], {Prefix(sha(chunk))}, {}), calls)
  }

  lemma {:induction false} OneCallRenames(sha: Bytes -> string, discipline: Discipline, chunk: Bytes)
    returns (steps: seq<Step>)
    requires chunk != []
    ensures IsRun(sha, EMPTY, steps) && Obeys(sha, discipline, EMPTY, steps)
    ensures After(sha, EMPTY, steps) == OnlyBlob(sha, chunk, map[0 := Renamed(chunk)])
  {
    steps := OneCallFlushes(sha, discipline, EMPTY, [], 0, chunk);
    var s := Stage(EMPTY, 0, File(chunk, true), Flushed(0, chunk));
    var missing := s.(disk := s.disk.(dirs := {Prefix(sha(chunk))}), calls := map[0 := Missing(0, chunk)]);
    steps := Reach(sha, discipline, s, missing, steps, FindMissing(0));
    steps := Reach(sha, discipline, missing, OnlyBlob(sha, chunk, map[0 := Renamed(chunk)]), steps, Rename(0));
  }

  // A first call has renamed its chunk into place and gone as far as the discipline makes it go.
  lemma {:induction false} FirstCallEnds(sha: Bytes -> string, discipline: Discipline, chunk: Bytes)
    returns (steps: seq<Step>, s: System)
    requires chunk != [] && discipline != Discipline(true, true, true)
    ensures IsRun(sha, EMPTY, steps) && Obeys(sha, discipline, EMPTY, steps) && After(sha, EMPTY, steps) == s
    ensures s.calls.Keys == {0} && (discipline.serialized ==> !InProgress(s.calls[0]))
    ensures s.disk.staging == map[] && s.disk.blobs == map[sha(chunk) := File(chunk, true)]
    ensures s.disk.dirsOnDisk == {}
    ensures s.disk.durable == if discipline.serialized && discipline.syncsSucceed then s.disk.blobs else map[]
  {
    steps := OneCallRenames(sha, discipline, chunk);
    s := OnlyBlob(sha, chunk, map[0 := Renamed(chunk)]);
    if discipline.serialized {
      var next;
      if discipline.syncsSucceed {
        next := OnlyBlob(sha, chunk, map[0 := Returned(Stored(sha(chunk), |chunk|), true)]);
        next := next.(disk := next.disk.(durable := next.disk.blobs));
        steps := Reach(sha, discipline, s, next, steps, SyncDirectory(0));
      } else {
        next := OnlyBlob(sha, chunk, map[0 := Unsynced(chunk)]);
        steps := Reach(sha, discipline, s, next, steps, SyncFails(0));
      }
      s := next;
    }
  }

  // A call that finds its blob present gives no promise of its own. Another call may have renamed
  // the blob and not yet synced the directory; an earlier call may have failed at that sync, and
  // this is the retry; or the prefix directory itself may not be on disk. Each time the next crash
  // can leave nothing behind.
  lemma {:induction false} SharedReturnCanBeLost(sha: Bytes -> string, discipline: Discipline, chunk: Bytes)
    returns (steps: seq<Step>, crash: Step)
    requires chunk != [] && discipline != Discipline(true, true, true)
    ensures IsRun(sha, EMPTY, steps) && Obeys(sha, discipline, EMPTY, steps)
    ensures crash == Crash(map[], map[], if discipline.serialized && discipline.syncsSucceed
                                         then {Prefix(sha(chunk))} else {})
    ensures var s := After(sha, EMPTY, steps);
            && Enabled(sha, s, FindExisting(1)) && s.calls[1].written == chunk
            && var returned := Apply(sha, s, FindExisting(1));
               && returned.calls[1] == Returned(Stored(sha(chunk), |chunk|), false)
               && Enabled(sha, returned, crash) && Allows(discipline, returned, crash)
               && Apply(sha, returned, crash).disk.blobs == map[]
  {
    var s;
    steps, s := FirstCallEnds(sha, discipline, chunk);
    steps := OneCallFlushes(sha, discipline, s, steps, 1, chunk);
    crash := Crash(map[], map[], if discipline.serialized && discipline.syncsSucceed then {Prefix(sha(chunk))} else {});
  }

  // ----- one call, as a loop over its source -----

  // A binary stream ends at its first empty read; an iterable must not yield an empty chunk.
  datatype Source = Stream(blocks: seq<Bytes>) | Chunks(chunks: seq<Bytes>)

  datatype BlobError = InvalidLimit | TooLarge | EmptyChunk | EmptyBlob | DigestMismatch

  function Pieces(source: Source): seq<Bytes> {
    if source.Stream? then source.blocks else source.chunks
  }

  // The bytes before the first empty piece, and whether such a piece exists.
  function Content(pieces: seq<Bytes>): Bytes {
    if pieces == [] || pieces[0] == [] then [] else pieces[0] + Content(pieces[1..])
  }

  function HasEmpty(pieces: seq<Bytes>): bool {
    pieces != [] && (pieces[0] == [] || HasEmpty(pieces[1..]))
  }

  // The answer of a call: a function of the limit, the content and the file already stored under
  // its digest. How the content was cut into pieces does not appear.
  function Answer(sha: Bytes -> string, blobs: map<string, File>, content: Bytes, malformed: bool, maxBytes: int)
    : Result<StoredBlob, BlobError>
  {
    if maxBytes < 1 then Err(InvalidLimit)
    else
      var failure := StageFailure(content, malformed, maxBytes);
      if failure.Some? then Err(failure.value) else Placed(sha, blobs, content)
  }

  function Placed(sha: Bytes -> string, blobs: map<string, File>, content: Bytes): Result<StoredBlob, BlobError> {
    var digest := sha(content);
    if digest !in blobs then Ok(Stored(digest, |content|))
    else if sha(blobs[digest].bytes) != digest then Err(DigestMismatch)
    else Ok(Stored(digest, |blobs[digest].bytes|))
  }

  // Pieces add up in order, an empty one ends the content, and only an empty one counts as empty.
  lemma {:induction false} ContentMeaning(pieces: seq<Bytes>, piece: Bytes, rest: seq<Bytes>)
    requires forall i :: 0 <= i < |pieces| ==> pieces[i] != []
    ensures Content([]) == [] && Content(pieces + [piece]) == Content(pieces) + piece
    ensures Content(pieces + [[]] + rest) == Content(pieces)
    ensures forall all :: HasEmpty(all) <==> [] in all
  {
    var longer, cut := pieces + [piece], pieces + [[]] + rest;
    ContentSplit(longer, |pieces|);
    assert longer[..|pieces|] == pieces && longer[|pieces|..] == [piece];
    assert Content([piece]) == piece by {
      assert [piece][1..] == [];
    }
    ContentEnd(cut, |pieces|);
    assert cut[..|pieces|] == pieces;
    forall all ensures HasEmpty(all) <==> [] in all {
      HasEmptyIff(all);
    }
  }

  lemma {:induction false} HasEmptyIff(pieces: seq<Bytes>)
    ensures HasEmpty(pieces) <==> [] in pieces
  {
    if pieces != [] {
      HasEmptyIff(pieces[1..]);
      assert pieces == [pieces[0]] + pieces[1..];
    }
  }

  // The answer from the limit, the content and the stored file: the refusals in their order, then
  // the key, digest and size of the stored blob.
  lemma {:induction false} AnswerMeaning(sha: Bytes -> string, blobs: map<string, File>, source: Source, maxBytes: int)
    ensures var pieces := match source case Stream(blocks) => blocks case Chunks(chunks) => chunks;
            var content, digest := Content(pieces), sha(Content(pieces));
            var r := Answer(sha, blobs, Content(Pieces(source)), Malformed(source), maxBytes);
            var malformed := source.Chunks? && [] in source.chunks;
            var staged := 1 <= maxBytes && 0 < |content| <= maxBytes && !malformed;
            && (r == Err(InvalidLimit) <==> maxBytes < 1)
            && (r == Err(TooLarge) <==> 1 <= maxBytes < |content|)
            && (r == Err(EmptyChunk) <==> 1 <= maxBytes && |content| <= maxBytes && malformed)
            && (r == Err(EmptyBlob) <==> 1 <= maxBytes && content == [] && !malformed)
            && (r == Err(DigestMismatch) <==> staged && digest in blobs && sha(blobs[digest].bytes) != digest)
            && (staged && r.Ok? ==>
                  && r.value.storageKey == (if |digest| < 2 then digest else digest[..2]) + "/" + digest
                  && r.value.sha256 == digest
                  && r.value.sizeBytes == if digest in blobs then |blobs[digest].bytes| else |content|)
  {
    HasEmptyIff(Pieces(source));
  }

  lemma {:induction false} ContentSplit(pieces: seq<Bytes>, n: nat)
    requires n <= |pieces| && forall i :: 0 <= i < n ==> pieces[i] != []
    ensures Content(pieces) == Content(pieces[..n]) + Content(pieces[n..])
    ensures HasEmpty(pieces) == HasEmpty(pieces[n..])
    ensures n < |pieces| ==> Content(pieces[..n + 1]) == Content(pieces[..n]) + pieces[n]
  {
    if n > 0 {
      ContentSplit(pieces[1..], n - 1);
      assert pieces[..n][1..] == pieces[1..][..n - 1];
      assert pieces[1..][n - 1..] == pieces[n..];
      if n < |pieces| {
        assert pieces[..n + 1][1..] == pieces[1..][..n];
      }
    } else {
      assert pieces[0..] == pieces;
      if pieces != [] {
        assert pieces[..1] == [pieces[0]];
      }
    }
  }

  lemma {:induction false} ContentStep(pieces: seq<Bytes>, n: nat)
    requires n < |pieces| && forall i :: 0 <= i <= n ==> pieces[i] != []
    ensures Content(pieces[..n + 1]) == Content(pieces[..n]) + pieces[n]
    ensures |Content(pieces)| >= |Content(pieces[..n + 1])|
  {
    ContentSplit(pieces, n);
    ContentSplit(pieces, n + 1);
  }

  lemma {:induction false} ContentEnd(pieces: seq<Bytes>, n: nat)
    requires n <= |pieces| && forall i :: 0 <= i < n ==> pieces[i] != []
    requires n < |pieces| ==> pieces[n] == []
    ensures Content(pieces) == Content(pieces[..n])
    ensures HasEmpty(pieces) <==> n < |pieces|
  {
    ContentSplit(pieces, n);
  }

  function StageFailure(content: Bytes, malformed: bool, maxBytes: int): Option<BlobError> {
    if |content| > maxBytes then Some(TooLarge)
    else if malformed then Some(EmptyChunk)
    else if content == [] then Some(EmptyBlob)
    else None
  }

  function Idle(disk: Disk): System {
    System(disk, map[])
  }

  function Malformed(source: Source): bool {
    source.Chunks? && HasEmpty(source.chunks)
  }

  class Store {
    var disk: Disk

    constructor ()
      ensures disk == EMPTY.disk
    {
      disk := EMPTY.disk;
    }

    // Copies the source into a new staging file, piece by piece.
    method StageSource(sha: Bytes -> string, source: Source, maxBytes: int, temp: int)
      returns (written: Bytes, failure: Option<BlobError>, ghost steps: seq<Step>)
      requires maxBytes >= 1 && temp !in disk.staging
      modifies this
      ensures failure == StageFailure(Content(Pieces(source)), Malformed(source), maxBytes)
      ensures failure.None? ==> written == Content(Pieces(source))
      ensures disk == old(disk).(staging := old(disk).staging[temp := File(written, false)])
      ensures IsRun(sha, Idle(old(disk)), steps)
      ensures After(sha, Idle(old(disk)), steps) == Idle(disk).(calls := map[0 := Writing(temp, written)])
    {
      ghost var start := disk;
      var pieces := Pieces(source);
      written, failure, steps := [], None, [];
      OpenStep(sha, start, temp);
      steps := [Open(0, temp)];
      disk := disk.(staging := disk.staging[temp := File([], false)]);
      var n := 0;
      while n < |pieces| && pieces[n] != []
        invariant n <= |pieces| && forall i :: 0 <= i < n ==> pieces[i] != []
        invariant written == Content(pieces[..n]) && |written| <= maxBytes
        invariant IsRun(sha, Idle(start), steps)
        invariant disk == start.(staging := start.staging[temp := File(written, false)])
        invariant After(sha, Idle(start), steps) == Idle(disk).(calls := map[0 := Writing(temp, written)])
      {
        ContentStep(pieces, n);
        if |written| + |pieces[n]| > maxBytes {
          failure := Some(TooLarge);
          return;
        }
        WriteStep(sha, start, disk, steps, temp, written, pieces[n]);
        steps := steps + [Write(0, pieces[n])];
        written := written + pieces[n];
        disk := disk.(staging := disk.staging[temp := File(written, false)]);
        n := n + 1;
      }
      ContentEnd(pieces, n);
      if n < |pieces| && source.Chunks? {
        failure := Some(EmptyChunk);
      } else if written == [] {
        failure := Some(EmptyBlob);
      }
    }

    // `steps` is the run of the protocol above that the call performs, so every state it passes
    // through is one a crash may interrupt. Whatever the store held before, an answer names a file
    // that hashes to its name and has the answered size.
    method StoreStream(sha: Bytes -> string, source: Source, maxBytes: int, temp: int)
      returns (r: Result<StoredBlob, BlobError>, ghost steps: seq<Step>)
      requires temp !in disk.staging
      modifies this
      ensures r == Answer(sha, old(disk).blobs, Content(Pieces(source)), Malformed(source), maxBytes)
      ensures IsRun(sha, Idle(old(disk)), steps) && After(sha, Idle(old(disk)), steps).disk == disk
      ensures r.Ok? ==>
        var calls := After(sha, Idle(old(disk)), steps).calls;
        0 in calls && calls[0] == Returned(r.value, r.value.sha256 !in old(disk).blobs)
      ensures disk.staging == old(disk).staging && disk.dirsOnDisk == old(disk).dirsOnDisk
      ensures r.Err? ==> disk.blobs == old(disk).blobs && disk.durable == old(disk).durable
      ensures r.Ok? ==>
        && r.value.sha256 == sha(Content(Pieces(source)))
        && r.value.sha256 in disk.blobs && sha(disk.blobs[r.value.sha256].bytes) == r.value.sha256
        && r.value.sizeBytes == |disk.blobs[r.value.sha256].bytes|
        && disk.blobs == (if r.value.sha256 in old(disk).blobs then old(disk).blobs
                          else old(disk).blobs[r.value.sha256 := File(Content(Pieces(source)), true)])
      ensures r.Ok? && r.value.sha256 !in old(disk).blobs ==> r.value.sha256 in disk.durable
    {
      steps := [];
      if maxBytes < 1 {
        return Err(InvalidLimit), [];
      }
      ghost var start := disk;
      var written, failure;
      written, failure, steps := StageSource(sha, source, maxBytes, temp);
      if failure.Some? {
        RunSnoc(sha, Idle(start), steps, Abandon(0));
        steps := steps + [Abandon(0)];
        disk := disk.(staging := disk.staging - {temp});
        assert disk.staging == start.staging;
        return Err(failure.value), steps;
      }
      assert disk.staging - {temp} == start.staging;
      r, steps := Publish(sha, start, steps, temp, written);
    }

    // Syncs the staged file, then returns an existing blob, unless it does not hash to its name,
    // or renames the file into place.
    method Publish(sha: Bytes -> string, ghost start: Disk, ghost staged: seq<Step>, temp: int, written: Bytes)
      returns (r: Result<StoredBlob, BlobError>, ghost steps: seq<Step>)
      requires written != []
      requires temp in disk.staging && disk.staging[temp] == File(written, false)
      requires IsRun(sha, Idle(start), staged)
      requires After(sha, Idle(start), staged) == Idle(disk).(calls := map[0 := Writing(temp, written)])
      modifies this
      ensures var digest, blobs := sha(written), old(disk).blobs;
              && r == Placed(sha, blobs, written)
              && disk.blobs == (if digest in blobs then blobs else blobs[digest := File(written, true)])
              && (digest in blobs ==> disk.durable == old(disk).durable)
              && (digest !in blobs ==> digest in disk.durable)
      ensures disk.staging == old(disk).staging - {temp} && disk.dirsOnDisk == old(disk).dirsOnDisk
      ensures IsRun(sha, Idle(start), steps) && After(sha, Idle(start), steps).disk == disk
      ensures r.Ok? ==>
        var calls := After(sha, Idle(start), steps).calls;
        0 in calls && calls[0] == Returned(r.value, r.value.sha256 !in old(disk).blobs)
    {
      RunSnoc(sha, Idle(start), staged, Sync(0));
      steps := staged + [Sync(0)];
      disk := disk.(staging := disk.staging[temp := File(written, true)]);
      assert disk.staging - {temp} == old(disk).staging - {temp};
      var digest := sha(written);
      if digest in disk.blobs {
        var existing := disk.blobs[digest];
        RunSnoc(sha, Idle(start), steps, FindExisting(0));
        steps := steps + [FindExisting(0)];
        disk := disk.(staging := disk.staging - {temp}, dirs := disk.dirs + {Prefix(digest)});
        if sha(existing.bytes) != digest {
          return Err(DigestMismatch), steps;
        }
        return Ok(Stored(digest, |existing.bytes|)), steps;
      }
      steps := CommitSteps(sha, start, disk, steps, temp, written);
      disk := disk.(dirs := disk.dirs + {Prefix(digest)});
      disk := disk.(staging := disk.staging - {temp}, blobs := disk.blobs[digest := File(written, true)]);
      disk := disk.(durable := disk.durable + EntriesUnder(disk.blobs, Prefix(digest)));
      return Ok(Stored(digest, |written|)), steps;
    }
  }

  lemma {:induction false} OpenStep(sha: Bytes -> string, start: Disk, temp: int)
    requires temp !in start.staging
    ensures IsRun(sha, Idle(start), [Open(0, temp)])
    ensures After(sha, Idle(start), [Open(0, temp)])
         == Idle(start.(staging := start.staging[temp := File([], false)])).(calls := map[0 := Writing(temp, [])])
  {
    RunSnoc(sha, Idle(start), [], Open(0, temp));
    assert [] + [Open(0, temp)] == [Open(0, temp)];
  }

  lemma {:induction false} WriteStep(sha: Bytes -> string, start: Disk, disk: Disk, steps: seq<Step>, temp: int,
                                     written: Bytes, chunk: Bytes)
    requires chunk != [] && IsRun(sha, Idle(start), steps)
    requires disk == start.(staging := start.staging[temp := File(written, false)])
    requires After(sha, Idle(start), steps) == Idle(disk).(calls := map[0 := Writing(temp, written)])
    ensures IsRun(sha, Idle(start), steps + [Write(0, chunk)])
    ensures After(sha, Idle(start), steps + [Write(0, chunk)])
         == Idle(start.(staging := start.staging[temp := File(written + chunk, false)])).(
              calls := map[0 := Writing(temp, written + chunk)])
  {
    RunSnoc(sha, Idle(start), steps, Write(0, chunk));
    assert disk.staging[temp := File(written + chunk, false)] == start.staging[temp := File(written + chunk, false)];
    assert map[0 := Writing(temp, written)][0 := Writing(temp, written + chunk)]
        == map[0 := Writing(temp, written + chunk)];
  }

  lemma {:induction false} CommitSteps(sha: Bytes -> string, start: Disk, disk: Disk, steps: seq<Step>, temp: int,
                                       written: Bytes)
    returns (all: seq<Step>)
    requires sha(written) !in disk.blobs && IsRun(sha, Idle(start), steps)
    requires temp in disk.staging && disk.staging[temp] == File(written, true)
    requires var s := After(sha, Idle(start), steps);
             s.disk == disk && 0 in s.calls && s.calls[0] == Flushed(temp, written)
    ensures IsRun(sha, Idle(start), all)
    ensures var digest := sha(written);
            var renamed := disk.(staging := disk.staging - {temp}, blobs := disk.blobs[digest := File(written, true)],
                                 dirs := disk.dirs + {Prefix(digest)});
            After(sha, Idle(start), all).disk
            == renamed.(durable := renamed.durable + EntriesUnder(renamed.blobs, Prefix(digest)))
    ensures var calls := After(sha, Idle(start), all).calls;
            0 in calls && calls[0] == Returned(Stored(sha(written), |written|), true)
  {
    RunSnoc(sha, Idle(start), steps, FindMissing(0));
    all := steps + [FindMissing(0)];
    RunSnoc(sha, Idle(start), all, Rename(0));
    all := all + [Rename(0)];
    RunSnoc(sha, Idle(start), all, SyncDirectory(0));
    all := all + [SyncDirectory(0)];
  }
}
