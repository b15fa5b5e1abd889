// Package content manifests: validated source entries, a document in artifact order, and a
// write-once store. `dumps` is canonical JSON and `sha` the digest function.
module ContentManifest {
  import opened Outcomes
  import opened Text
  import opened Sequences

  type Bytes = seq<bv8>

  const MAX_ARTIFACTS := 500
  const MAX_ARTIFACT_BYTES := 104_857_600

  datatype Entry = Entry(artifactId: string, storageKey: string, sha256: string, sizeBytes: int)

  datatype Limits = Limits(artifacts: int, artifactBytes: int, packageBytes: int)

  datatype Document = Document(revision: string, artifacts: seq<Entry>)

  datatype Stored = Stored(sha256: string, sizeBytes: nat, document: Document)

  datatype ManifestError =
    | InvalidLimits | NoEntries | TooManyEntries | MalformedEntry(index: nat)
    | DuplicateArtifact(index: nat) | DuplicateStorageKey(index: nat) | PackageTooLarge(index: nat)
    | InvalidRevision | BlobMismatch | Conflict

  // ----- field patterns -----

  // A version-4 UUID in either case.
  predicate IsAnyCaseUuid4(s: string) {
    IsUuid4(Lower(s))
  }

  // The storage key is spelled out of the digest: its first two characters, "/", and the digest.
  predicate IsWellFormed(e: Entry, limits: Limits) {
    && IsAnyCaseUuid4(e.artifactId)
    && IsSha256(e.sha256)
    && e.storageKey == e.sha256[..2] + "/" + e.sha256
    && 1 <= e.sizeBytes <= limits.artifactBytes
  }

  predicate ValidLimits(limits: Limits) {
    1 <= limits.artifacts <= MAX_ARTIFACTS && 1 <= limits.artifactBytes <= MAX_ARTIFACT_BYTES
    && limits.packageBytes >= 1
  }

  // ----- validating the entries -----

  function TotalBytes(entries: seq<Entry>): int {
    if entries == [] then 0 else TotalBytes(entries[..|entries| - 1]) + entries[|entries| - 1].sizeBytes
  }

  function ArtifactId(e: Entry): string { e.artifactId }
  function StorageKey(e: Entry): string { e.storageKey }

  ghost predicate ValidEntries(entries: seq<Entry>, limits: Limits) {
    && 1 <= |entries| <= limits.artifacts
    && (forall e :: e in entries ==> IsWellFormed(e, limits))
    && UniqueBy(entries, ArtifactId)
    && UniqueBy(entries, StorageKey)
    && TotalBytes(entries) <= limits.packageBytes
  }

  // An entry names its blob by digest and has a size within the limit.
  lemma {:induction false} WellFormedIff(e: Entry, limits: Limits)
    ensures IsWellFormed(e, limits) <==>
      && IsUuid4(Lower(e.artifactId)) && |e.sha256| == 64 && (forall c :: c in e.sha256 ==> c in "0123456789abcdef")
      && |e.storageKey| == 67 && e.storageKey[..2] == e.sha256[..2] && e.storageKey[2] == '/'
      && e.storageKey[3..] == e.sha256 && 0 < e.sizeBytes <= limits.artifactBytes
  {
    hide IsUuid4, Lower, IsSha256;
    HexIs(e.sha256);
    if |e.sha256| >= 2 && |e.storageKey| == |e.sha256| + 3 {
      KeyParts(e.storageKey, e.sha256);
    }
  }

  lemma {:induction false} KeyParts(key: string, digest: string)
    requires |digest| >= 2 && |key| == |digest| + 3
    ensures key == digest[..2] + "/" + digest <==> key[..2] == digest[..2] && key[2] == '/' && key[3..] == digest
  {
    var text := digest[..2] + "/" + digest;
    assert text[..2] == digest[..2] && text[2] == '/' && text[3..] == digest;
    assert key == key[..2] + [key[2]] + key[3..];
  }

  // One to 500 artifacts of one byte to 100 MiB each, and no upper bound on the package.
  lemma {:induction false} LimitsIff(limits: Limits)
    ensures ValidLimits(limits) <==>
      0 < limits.artifacts <= 500 && 0 < limits.artifactBytes <= 100 * 1024 * 1024 && 0 < limits.packageBytes
  {
  }

  // The sizes of all entries.
  lemma {:induction false} TotalMeaning(a: seq<Entry>, b: seq<Entry>, e: Entry)
    ensures TotalBytes([]) == 0 && TotalBytes([e]) == e.sizeBytes
    ensures TotalBytes(a + b) == TotalBytes(a) + TotalBytes(b)
  {
    assert [e][..0] == [];
    if b == [] {
      assert a + b == a;
    } else {
      var last := |b| - 1;
      TotalMeaning(a, b[..last], e);
      assert (a + b)[..|a + b| - 1] == a + b[..last];
    }
  }

  lemma {:induction false} TotalGrows(entries: seq<Entry>, n: nat)
    requires n <= |entries| && forall e :: e in entries ==> e.sizeBytes >= 0
    ensures TotalBytes(entries[..n]) <= TotalBytes(entries)
    decreases |entries| - n
  {
    if n < |entries| {
      TotalGrows(entries, n + 1);
      assert entries[..n + 1][..n] == entries[..n];
    } else {
      assert entries[..n] == entries;
    }
  }

  function KeysOf(entries: seq<Entry>, key: Entry -> string): set<string> {
    set e | e in entries :: key(e)
  }

  lemma {:induction false} FreshKey(entries: seq<Entry>, n: nat, key: Entry -> string)
    requires n < |entries| && UniqueBy(entries[..n], key) && key(entries[n]) !in KeysOf(entries[..n], key)
    ensures UniqueBy(entries[..n + 1], key)
    ensures KeysOf(entries[..n + 1], key) == KeysOf(entries[..n], key) + {key(entries[n])}
  {
    var front := entries[..n];
    assert entries[..n + 1] == front + [entries[n]];
    assert forall i :: 0 <= i < n ==> front[i] in front && key(front[i]) in KeysOf(front, key);
  }

  lemma {:induction false} RepeatedKey(entries: seq<Entry>, n: nat, key: Entry -> string)
    requires n < |entries| && key(entries[n]) in KeysOf(entries[..n], key)
    ensures !UniqueBy(entries, key)
  {
    var e :| e in entries[..n] && key(e) == key(entries[n]);
    var i :| 0 <= i < n && entries[..n][i] == e;
    assert key(entries[i]) == key(entries[n]);
  }

  lemma {:induction false} MalformedBreaks(entries: seq<Entry>, n: nat, limits: Limits)
    requires n < |entries| && !IsWellFormed(entries[n], limits)
    ensures !ValidEntries(entries, limits)
  {
    assert entries[n] in entries;
  }

  predicate AllWellFormed(entries: seq<Entry>, limits: Limits) {
    entries == [] ||
    (AllWellFormed(entries[..|entries| - 1], limits) && IsWellFormed(entries[|entries| - 1], limits))
  }

  lemma {:induction false} AllWellFormedMeaning(entries: seq<Entry>, limits: Limits)
    requires AllWellFormed(entries, limits)
    ensures forall e :: e in entries ==> IsWellFormed(e, limits)
  {
    if entries != [] {
      var last := |entries| - 1;
      AllWellFormedMeaning(entries[..last], limits);
      assert entries == entries[..last] + [entries[last]];
    }
  }

  lemma {:induction false} PrefixStep(entries: seq<Entry>, n: nat, limits: Limits)
    requires n < |entries|
    ensures TotalBytes(entries[..n + 1]) == TotalBytes(entries[..n]) + entries[n].sizeBytes
    ensures AllWellFormed(entries[..n + 1], limits)
       <==> AllWellFormed(entries[..n], limits) && IsWellFormed(entries[n], limits)
  {
    assert entries[..n + 1][..n] == entries[..n];
  }

  // The first check that entry n fails, given the entries before it.
  function EntryProblem(entries: seq<Entry>, n: nat, limits: Limits): Option<ManifestError>
    requires n < |entries|
  {
    if !IsWellFormed(entries[n], limits) then Some(MalformedEntry(n))
    else if entries[n].artifactId in KeysOf(entries[..n], ArtifactId) then Some(DuplicateArtifact(n))
    else if entries[n].storageKey in KeysOf(entries[..n], StorageKey) then Some(DuplicateStorageKey(n))
    else if TotalBytes(entries[..n + 1]) > limits.packageBytes then Some(PackageTooLarge(n))
    else None
  }

  ghost predicate IsFirstProblem(entries: seq<Entry>, limits: Limits, e: ManifestError) {
    exists n :: 0 <= n < |entries| && EntryProblem(entries, n, limits) == Some(e)
      && forall m :: 0 <= m < n ==> EntryProblem(entries, m, limits).None?
  }

  // The problem of an entry on its fields: it is malformed, repeats an earlier id or storage key,
  // or takes the sizes so far over the package limit, the first of these that holds.
  lemma {:induction false} ProblemMeaning(entries: seq<Entry>, n: nat, limits: Limits)
    requires n < |entries|
    ensures var problem, e := EntryProblem(entries, n, limits), entries[n];
            var sameId := exists m :: 0 <= m < n && entries[m].artifactId == e.artifactId;
            var sameKey := exists m :: 0 <= m < n && entries[m].storageKey == e.storageKey;
            var malformed := !IsWellFormed(e, limits);
            var over := TotalBytes(entries[..n + 1]) > limits.packageBytes;
            && (problem == Some(MalformedEntry(n)) <==> malformed)
            && (problem == Some(DuplicateArtifact(n)) <==> !malformed && sameId)
            && (problem == Some(DuplicateStorageKey(n)) <==> !malformed && !sameId && sameKey)
            && (problem == Some(PackageTooLarge(n)) <==> !malformed && !sameId && !sameKey && over)
            && (problem == None <==> !malformed && !sameId && !sameKey && !over)
  {
    hide IsWellFormed, TotalBytes;
    EarlierKey(entries, n, ArtifactId);
    EarlierKey(entries, n, StorageKey);
    assert forall m :: 0 <= m < n ==> ArtifactId(entries[m]) == entries[m].artifactId;
    assert forall m :: 0 <= m < n ==> StorageKey(entries[m]) == entries[m].storageKey;
  }

  lemma {:induction false} EarlierKey(entries: seq<Entry>, n: nat, key: Entry -> string)
    requires n < |entries|
    ensures key(entries[n]) in KeysOf(entries[..n], key)
       <==> exists m :: 0 <= m < n && key(entries[m]) == key(entries[n])
  {
    assert forall m :: 0 <= m < n ==> entries[..n][m] == entries[m] && entries[m] in entries[..n];
  }

  lemma {:induction false} ProblemBreaks(entries: seq<Entry>, n: nat, limits: Limits)
    requires n < |entries| && EntryProblem(entries, n, limits).Some?
    ensures !ValidEntries(entries, limits)
  {
    if !IsWellFormed(entries[n], limits) {
      MalformedBreaks(entries, n, limits);
    } else if entries[n].artifactId in KeysOf(entries[..n], ArtifactId) {
      RepeatedKey(entries, n, ArtifactId);
    } else if entries[n].storageKey in KeysOf(entries[..n], StorageKey) {
      RepeatedKey(entries, n, StorageKey);
    } else {
      TotalExceeds(entries, n + 1, limits);
    }
  }

  // What the loop has accepted: entries that are well-formed, distinct and within the size limit.
  ghost predicate AcceptedTo(entries: seq<Entry>, n: nat, limits: Limits)
    requires n <= |entries|
  {
    && AllWellFormed(entries[..n], limits)
    && UniqueBy(entries[..n], ArtifactId)
    && UniqueBy(entries[..n], StorageKey)
    && TotalBytes(entries[..n]) <= limits.packageBytes
    && forall m :: 0 <= m < n ==> EntryProblem(entries, m, limits).None?
  }

  lemma {:induction false} AcceptsNext(entries: seq<Entry>, n: nat, limits: Limits)
    requires n < |entries| && AcceptedTo(entries, n, limits) && EntryProblem(entries, n, limits).None?
    ensures AcceptedTo(entries, n + 1, limits)
    ensures KeysOf(entries[..n + 1], ArtifactId) == KeysOf(entries[..n], ArtifactId) + {entries[n].artifactId}
    ensures KeysOf(entries[..n + 1], StorageKey) == KeysOf(entries[..n], StorageKey) + {entries[n].storageKey}
  {
    PrefixStep(entries, n, limits);
    FreshKey(entries, n, ArtifactId);
    FreshKey(entries, n, StorageKey);
  }

  lemma {:induction false} AcceptedNone(entries: seq<Entry>, limits: Limits)
    requires ValidLimits(limits)
    ensures AcceptedTo(entries, 0, limits) && TotalBytes(entries[..0]) == 0
    ensures KeysOf(entries[..0], ArtifactId) == KeysOf(entries[..0], StorageKey) == {}
  {
  }

  lemma {:induction false} ProblemKind(entries: seq<Entry>, n: nat, limits: Limits)
    requires n < |entries| && EntryProblem(entries, n, limits).Some?
    ensures var e := EntryProblem(entries, n, limits).value;
            e.MalformedEntry? || e.DuplicateArtifact? || e.DuplicateStorageKey? || e.PackageTooLarge?
  {
  }

  lemma {:induction false} NoneValid(entries: seq<Entry>, limits: Limits)
    requires entries == [] || |entries| > limits.artifacts
    ensures !ValidEntries(entries, limits)
  {
  }

  lemma {:induction false} AcceptedAll(entries: seq<Entry>, limits: Limits)
    requires 1 <= |entries| <= limits.artifacts && AcceptedTo(entries, |entries|, limits)
    ensures ValidEntries(entries, limits)
  {
    assert entries[..|entries|] == entries;
    AllWellFormedMeaning(entries, limits);
  }

  // The checks on one entry, in order; `total` already includes it.
  method CheckEntry(entries: seq<Entry>, n: nat, limits: Limits, seenIds: set<string>, seenKeys: set<string>,
                    total: int)
    returns (problem: Option<ManifestError>)
    requires n < |entries| && total == TotalBytes(entries[..n + 1])
    requires seenIds == KeysOf(entries[..n], ArtifactId) && seenKeys == KeysOf(entries[..n], StorageKey)
    ensures problem == EntryProblem(entries, n, limits)
  {
    var e := entries[n];
    if !IsWellFormed(e, limits) {
      return Some(MalformedEntry(n));
    }
    if e.artifactId in seenIds {
      return Some(DuplicateArtifact(n));
    }
    if e.storageKey in seenKeys {
      return Some(DuplicateStorageKey(n));
    }
    if total > limits.packageBytes {
      return Some(PackageTooLarge(n));
    }
    return None;
  }

  // Accepts exactly the valid lists, and reports the first problem of the first bad entry.
  method ValidateSourceEntries(entries: seq<Entry>, limits: Limits) returns (r: Result<seq<Entry>, ManifestError>)
    requires ValidLimits(limits)
    ensures r.Ok? <==> ValidEntries(entries, limits)
    ensures r.Ok? ==> r.value == entries
    ensures entries == [] ==> r == Err(NoEntries)
    ensures |entries| > limits.artifacts ==> r == Err(TooManyEntries)
    ensures 1 <= |entries| <= limits.artifacts && r.Err? ==> IsFirstProblem(entries, limits, r.error)
    ensures r.Err? ==>
      || r.error.NoEntries? || r.error.TooManyEntries? || r.error.MalformedEntry? || r.error.DuplicateArtifact?
      || r.error.DuplicateStorageKey? || r.error.PackageTooLarge?
  {
    hide ValidEntries, IsWellFormed, AllWellFormed, TotalBytes, EntryProblem, KeysOf, UniqueBy;
    if |entries| == 0 {
      NoneValid(entries, limits);
      return Err(NoEntries);
    }
    if |entries| > limits.artifacts {
      NoneValid(entries, limits);
      return Err(TooManyEntries);
    }
    var seenIds: set<string>, seenKeys: set<string>, total := {}, {}, 0;
    AcceptedNone(entries, limits);
    for n := 0 to |entries|
      invariant AcceptedTo(entries, n, limits)
      invariant seenIds == KeysOf(entries[..n], ArtifactId) && seenKeys == KeysOf(entries[..n], StorageKey)
      invariant total == TotalBytes(entries[..n])
    {
      PrefixStep(entries, n, limits);
      total := total + entries[n].sizeBytes;
      var problem := CheckEntry(entries, n, limits, seenIds, seenKeys, total);
      if problem.Some? {
        ProblemBreaks(entries, n, limits);
        ProblemKind(entries, n, limits);
        return Err(problem.value);
      }
      AcceptsNext(entries, n, limits);
      seenIds, seenKeys := seenIds + {entries[n].artifactId}, seenKeys + {entries[n].storageKey};
    }
    AcceptedAll(entries, limits);
    return Ok(entries);
  }

  lemma {:induction false} TotalExceeds(entries: seq<Entry>, n: nat, limits: Limits)
    requires n <= |entries| && TotalBytes(entries[..n]) > limits.packageBytes
    ensures !ValidEntries(entries, limits)
  {
    if forall e :: e in entries ==> IsWellFormed(e, limits) {
      TotalGrows(entries, n);
    }
  }

  // ----- the document -----

  // Case folding a UUID lowers its letters.
  function FoldedId(e: Entry): string {
    Lower(e.artifactId)
  }

  function BuildDocument(revision: string, entries: seq<Entry>): Document {
    Document(revision, SortBy(entries, FoldedId))
  }

  // The document keeps the revision and holds the entries in ascending order of their lower-case ids.
  lemma {:induction false} DocumentMeaning(revision: string, entries: seq<Entry>)
    ensures var document := BuildDocument(revision, entries);
            && document.revision == revision && multiset(document.artifacts) == multiset(entries)
            && forall i, j :: 0 <= i < j < |document.artifacts| ==>
              !StrLess(Lower(document.artifacts[j].artifactId), Lower(document.artifacts[i].artifactId))
  {
    SortByPermutes(entries, FoldedId);
    SortByOrdered(entries, FoldedId);
    var artifacts := SortBy(entries, FoldedId);
    forall i, j | 0 <= i < j < |artifacts|
      ensures !StrLess(Lower(artifacts[j].artifactId), Lower(artifacts[i].artifactId))
    {
      assert !StrLess(FoldedId(artifacts[j]), FoldedId(artifacts[i]));
    }
  }

  lemma {:induction false} InsertByStable(x: Entry, s: seq<Entry>, k: string)
    ensures Filter(InsertBy(x, s, FoldedId), (e: Entry) => FoldedId(e) == k)
         == Filter([x] + s, (e: Entry) => FoldedId(e) == k)
  {
    var same := (e: Entry) => FoldedId(e) == k;
    if s != [] && StrLess(FoldedId(s[0]), FoldedId(x)) {
      InsertByStable(x, s[1..], k);
      var inserted := InsertBy(x, s, FoldedId);
      assert inserted[1..] == InsertBy(x, s[1..], FoldedId);
      assert ([x] + s)[1..] == s && ([x] + s[1..])[1..] == s[1..];
      StrLessTotal(FoldedId(s[0]), FoldedId(x));
      assert !(same(s[0]) && same(x));
    }
  }

  lemma {:induction false} SortByStable(s: seq<Entry>, k: string)
    ensures Filter(SortBy(s, FoldedId), (e: Entry) => FoldedId(e) == k) == Filter(s, (e: Entry) => FoldedId(e) == k)
  {
    if s != [] {
      var rest := SortBy(s[1..], FoldedId);
      SortByStable(s[1..], k);
      InsertByStable(s[0], rest, k);
      assert ([s[0]] + rest)[1..] == rest;
    }
  }

  function Reversed(s: seq<Entry>): (r: seq<Entry>)
    ensures |r| == |s|
  {
    if s == [] then [] else Reversed(s[1..]) + [s[0]]
  }

  lemma {:induction false} ReversedMembers(s: seq<Entry>)
    ensures multiset(Reversed(s)) == multiset(s)
    ensures s != [] ==> Reversed(s)[0] == s[|s| - 1]
  {
    if s != [] {
      ReversedMembers(s[1..]);
      assert s == [s[0]] + s[1..];
    }
  }

  lemma {:induction false} HeadOfSum(a: seq<Entry>, b: seq<Entry>)
    requires a != []
    ensures (a + b)[0] == a[0] && (a + b)[1..] == a[1..] + b
  {
  }

  lemma {:induction false} Regroup(x: Entry, s: seq<Entry>, t: seq<Entry>)
    ensures [x] + (s + t) == ([x] + s) + t
    ensures [] + (s + t) == s + t && [] + s == s
  {
  }

  lemma {:induction false} FilterAppend(a: seq<Entry>, b: seq<Entry>, keep: Entry -> bool)
    ensures Filter(a + b, keep) == Filter(a, keep) + Filter(b, keep)
  {
    if a == [] {
      assert a + b == b;
    } else {
      FilterAppend(a[1..], b, keep);
      HeadOfSum(a, b);
      Regroup(a[0], Filter(a[1..], keep), Filter(b, keep));
    }
  }

  lemma {:induction false} FilterReversed(s: seq<Entry>, keep: Entry -> bool)
    ensures Filter(Reversed(s), keep) == Reversed(Filter(s, keep))
  {
    if s != [] {
      FilterReversed(s[1..], keep);
      FilterAppend(Reversed(s[1..]), [s[0]], keep);
      assert [s[0]][1..] == [];
      if keep(s[0]) {
        assert Filter(s, keep)[1..] == Filter(s[1..], keep);
      } else {
        assert Filter(s, keep) == Filter(s[1..], keep);
      }
    }
  }

  lemma {:induction false} TwoWithKey(s: seq<Entry>, i: nat, j: nat, k: string)
    requires i < j < |s| && FoldedId(s[i]) == k && FoldedId(s[j]) == k && UniqueBy(s, ArtifactId)
    ensures var f := Filter(s, (e: Entry) => FoldedId(e) == k);
            |f| >= 2 && f[0] != f[|f| - 1]
  {
    var same := (e: Entry) => FoldedId(e) == k;
    var f := Filter(s, same);
    FilterUnique(s, same);
    FilterMembers(s, same);
    assert s[i] in f && s[j] in f && ArtifactId(s[i]) != ArtifactId(s[j]);
    TwoMembers(f, s[i], s[j]);
  }

  lemma {:induction false} TwoMembers(f: seq<Entry>, x: Entry, y: Entry)
    requires UniqueBy(f, ArtifactId) && x in f && y in f && x != y
    ensures |f| >= 2 && f[0] != f[|f| - 1]
  {
    var a :| 0 <= a < |f| && f[a] == x;
    var b :| 0 <= b < |f| && f[b] == y;
    assert a != b;
    assert ArtifactId(f[0]) != ArtifactId(f[|f| - 1]);
  }

  lemma {:induction false} FilterUnique(s: seq<Entry>, keep: Entry -> bool)
    requires UniqueBy(s, ArtifactId)
    ensures UniqueBy(Filter(s, keep), ArtifactId)
  {
    if s != [] {
      FilterUnique(s[1..], keep);
      FilterMembers(s[1..], keep);
      var rest := Filter(s[1..], keep);
      forall j | 0 <= j < |rest| ensures ArtifactId(rest[j]) != ArtifactId(s[0]) {
        assert rest[j] in s[1..];
        var k :| 0 <= k < |s[1..]| && s[1..][k] == rest[j];
        assert ArtifactId(s[0]) != ArtifactId(s[k + 1]);
      }
    }
  }

  // The document does not depend on the order of the entries exactly when their artifact ids stay
  // distinct under case folding. Validation compares ids as written, so it lets through lists that
  // fail this.
  lemma {:induction false} OrderIndependentIff(revision: string, entries: seq<Entry>)
    requires UniqueBy(entries, ArtifactId)
    ensures (forall p :: multiset(p) == multiset(entries) ==>
               BuildDocument(revision, p) == BuildDocument(revision, entries))
       <==> UniqueBy(entries, FoldedId)
  {
    var sorted := SortBy(entries, FoldedId);
    if UniqueBy(entries, FoldedId) {
      SortByUnique(entries, FoldedId);
      SortByPermutes(entries, FoldedId);
      SortByOrdered(entries, FoldedId);
      forall p | multiset(p) == multiset(entries) ensures SortBy(p, FoldedId) == sorted {
        SortByPermutes(p, FoldedId);
        SortByOrdered(p, FoldedId);
        OrderedUnique(sorted, SortBy(p, FoldedId), FoldedId);
      }
    } else {
      var i, j :| 0 <= i < j < |entries| && FoldedId(entries[i]) == FoldedId(entries[j]);
      var k := FoldedId(entries[i]);
      var same := (e: Entry) => FoldedId(e) == k;
      var p := Reversed(entries);
      ReversedMembers(entries);
      TwoWithKey(entries, i, j, k);
      FilterReversed(entries, same);
      ReversedMembers(Filter(entries, same));
      SortByStable(entries, k);
      SortByStable(p, k);
      assert BuildDocument(revision, p) != BuildDocument(revision, entries);
    }
  }

  // ----- the store -----

  // What a writer does about the file it finds: keep identical bytes, refuse to replace others
  // without leave, and otherwise store its own.
  datatype Placement = Keep | Refuse | Store

  function Place(stored: Option<Bytes>, bytes: Bytes, replace: bool): Placement {
    if stored == Some(bytes) then Keep else if stored.Some? && !replace then Refuse else Store
  }

  function StoredFor(manifests: map<string, Bytes>, revision: string): Option<Bytes> {
    if revision in manifests then Some(manifests[revision]) else None
  }

  function Put(manifests: map<string, Bytes>, revision: string, bytes: Bytes, replace: bool): map<string, Bytes> {
    if Place(StoredFor(manifests, revision), bytes, replace).Store? then manifests[revision := bytes] else manifests
  }

  predicate BlobMatches(sha: Bytes -> string, blobs: map<string, Bytes>, e: Entry) {
    e.storageKey in blobs && |blobs[e.storageKey]| == e.sizeBytes && sha(blobs[e.storageKey]) == e.sha256
  }

  class ManifestStore {
    var manifests: map<string, Bytes>

    constructor ()
      ensures manifests == map[]
    {
      manifests := map[];
    }

    // Writes the manifest of a revision. An existing identical manifest is returned as it is; a
    // different one is a conflict unless the caller may replace it.
    method WriteContentManifest(sha: Bytes -> string, dumps: Document -> Bytes, blobs: map<string, Bytes>,
                                revision: string, entries: seq<Entry>, limits: Limits, replace: bool)
      returns (r: Result<Stored, ManifestError>)
      modifies this
      ensures var document := BuildDocument(revision, entries);
              var bytes := dumps(document);
              && (r.Ok? <==>
                    && ValidLimits(limits) && ValidEntries(entries, limits) && IsAnyCaseUuid4(revision)
                    && (forall e :: e in entries ==> BlobMatches(sha, blobs, e))
                    && !Place(StoredFor(old(manifests), revision), bytes, replace).Refuse?)
              && (r.Ok? ==> r.value == Stored(sha(bytes), |bytes|, document))
              && (r.Ok? ==> manifests == Put(old(manifests), revision, bytes, replace)
                            && manifests == old(manifests)[revision := bytes])
      ensures r.Err? ==> manifests == old(manifests)
      ensures var bytes := dumps(BuildDocument(revision, entries));
              var accepted := ValidLimits(limits) && ValidEntries(entries, limits);
              var named := accepted && IsUuid4(Lower(revision));
              var present := named && forall e :: e in entries ==>
                && e.storageKey in blobs && |blobs[e.storageKey]| == e.sizeBytes
                && sha(blobs[e.storageKey]) == e.sha256;
              var differs := revision in old(manifests) && old(manifests)[revision] != bytes;
              && (r == Err(InvalidLimits) <==> !ValidLimits(limits))
              && (ValidLimits(limits) && 1 <= |entries| <= limits.artifacts && !accepted ==>
                    r.Err? && IsFirstProblem(entries, limits, r.error))
              && (ValidLimits(limits) && entries == [] ==> r == Err(NoEntries))
              && (ValidLimits(limits) && |entries| > limits.artifacts ==> r == Err(TooManyEntries))
              && (accepted && !named <==> r == Err(InvalidRevision))
              && (named && !present <==> r == Err(BlobMismatch))
              && (present && differs && !replace <==> r == Err(Conflict))
              && (present && !(differs && !replace) <==> r.Ok?)
    {
      hide ValidLimits, ValidEntries, IsFirstProblem, BuildDocument, IsUuid4, Lower;
      if !ValidLimits(limits) {
        return Err(InvalidLimits);
      }
      var validated := ValidateSourceEntries(entries, limits);
      if validated.Err? {
        return Err(validated.error);
      }
      if !IsAnyCaseUuid4(revision) {
        return Err(InvalidRevision);
      }
      for i := 0 to |entries|
        invariant forall j :: 0 <= j < i ==> BlobMatches(sha, blobs, entries[j])
      {
        if !BlobMatches(sha, blobs, entries[i]) {
          assert entries[i] in entries;
          return Err(BlobMismatch);
        }
      }
      var document := BuildDocument(revision, entries);
      var bytes := dumps(document);
      if revision in manifests {
        if manifests[revision] == bytes {
          assert manifests[revision := bytes] == manifests;
          return Ok(Stored(sha(manifests[revision]), |manifests[revision]|, document));
        }
        if !replace {
          return Err(Conflict);
        }
      }
      manifests := manifests[revision := bytes];
      return Ok(Stored(sha(bytes), |bytes|, document));
    }
  }

  // ----- immutability -----

  datatype Write = Write(revision: string, bytes: Bytes, replace: bool)

  function AfterWrites(manifests: map<string, Bytes>, writes: seq<Write>): map<string, Bytes>
    decreases |writes|
  {
    if writes == [] then manifests
    else AfterWrites(Put(manifests, writes[0].revision, writes[0].bytes, writes[0].replace), writes[1..])
  }

  // Over any sequence of writes, a stored manifest changes only through a replacing write of its
  // own revision; without one it is the first one written, for good.
  lemma {:induction false} WriteOnce(manifests: map<string, Bytes>, writes: seq<Write>, revision: string)
    requires forall i :: 0 <= i < |writes| && writes[i].revision == revision ==> !writes[i].replace
    ensures revision in manifests ==>
              && revision in AfterWrites(manifests, writes)
              && AfterWrites(manifests, writes)[revision] == manifests[revision]
    ensures revision in AfterWrites(manifests, writes) && revision !in manifests ==>
              exists i :: FirstWrite(writes, revision, i) && AfterWrites(manifests, writes)[revision] == writes[i].bytes
    decreases |writes|
  {
    if writes != [] {
      var next := Put(manifests, writes[0].revision, writes[0].bytes, writes[0].replace);
      WriteOnce(next, writes[1..], revision);
      if revision in AfterWrites(manifests, writes) && revision !in manifests {
        if writes[0].revision == revision {
          assert FirstWrite(writes, revision, 0);
        } else {
          var rest := writes[1..];
          var i :| FirstWrite(rest, revision, i) && AfterWrites(next, rest)[revision] == rest[i].bytes;
          assert FirstWrite(writes, revision, i + 1);
        }
      }
    }
  }

  predicate FirstWrite(writes: seq<Write>, revision: string, i: int) {
    && 0 <= i < |writes| && writes[i].revision == revision
    && forall j :: 0 <= j < i ==> writes[j].revision != revision
  }

  // After every one of the writes the revision still has these bytes.
  ghost predicate Keeps(manifests: map<string, Bytes>, writes: seq<Write>, revision: string, bytes: Bytes) {
    forall n :: 0 <= n <= |writes| ==> StoredFor(AfterWrites(manifests, writes[..n]), revision) == Some(bytes)
  }

  lemma {:induction false} KeepsRest(manifests: map<string, Bytes>, writes: seq<Write>, revision: string, bytes: Bytes)
    requires writes != []
    ensures var next := Put(manifests, writes[0].revision, writes[0].bytes, writes[0].replace);
            Keeps(manifests, writes, revision, bytes)
            <==> StoredFor(manifests, revision) == Some(bytes) && Keeps(next, writes[1..], revision, bytes)
  {
    var next := Put(manifests, writes[0].revision, writes[0].bytes, writes[0].replace);
    assert AfterWrites(manifests, writes[..0]) == manifests;
    forall n | 0 < n <= |writes|
      ensures AfterWrites(manifests, writes[..n]) == AfterWrites(next, writes[1..][..n - 1])
    {
      assert writes[..n][1..] == writes[1..][..n - 1];
    }
    if Keeps(manifests, writes, revision, bytes) {
      forall n | 0 <= n <= |writes[1..]|
        ensures StoredFor(AfterWrites(next, writes[1..][..n]), revision) == Some(bytes)
      {
        assert StoredFor(AfterWrites(manifests, writes[..n + 1]), revision) == Some(bytes);
      }
    }
  }

  // With the flag in play: a stored manifest is kept by every one of a sequence of writes exactly
  // when each write of its revision that may replace it carries the same bytes.
  lemma {:induction false} KeepsIff(manifests: map<string, Bytes>, writes: seq<Write>, revision: string)
    requires revision in manifests
    ensures Keeps(manifests, writes, revision, manifests[revision])
       <==> forall i :: 0 <= i < |writes| && writes[i].revision == revision && writes[i].replace
                        ==> writes[i].bytes == manifests[revision]
    decreases |writes|
  {
    var bytes := manifests[revision];
    if writes == [] {
      assert AfterWrites(manifests, writes[..0]) == manifests;
    } else {
      var next := Put(manifests, writes[0].revision, writes[0].bytes, writes[0].replace);
      KeepsRest(manifests, writes, revision, bytes);
      if StoredFor(next, revision) == Some(bytes) {
        KeepsIff(next, writes[1..], revision);
        assert forall i :: 0 < i < |writes| ==> writes[i] == writes[1..][i - 1];
        assert forall i :: 0 <= i < |writes[1..]| ==> writes[1..][i] == writes[i + 1];
      } else {
        assert AfterWrites(next, writes[1..][..0]) == next;
        assert writes[0].revision == revision && writes[0].replace && writes[0].bytes != bytes;
      }
    }
  }
}
