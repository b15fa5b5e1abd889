// The release checksum manifest: its printer, its parser, and the section of archive verification
// that compares it with the archive members. `sha` is the digest function.
module ChecksumManifest {
  import opened Outcomes
  import opened Text

  type Bytes = seq<bv8>

  const RELEASE_PREFIX := "release/"

  // A dict is a sequence of entries with distinct paths, in insertion order.
  datatype Entry = Entry(path: string, digest: string)
  datatype Member = Member(path: string, bytes: Bytes)

  datatype ParseError = InvalidLine(number: nat) | DuplicatePath(path: string) | UnsafePath(path: string)

  function PathOf(e: Entry): string { e.path }

  function Paths(entries: seq<Entry>): set<string> {
    set e | e in entries :: e.path
  }

  ghost predicate DistinctPaths(entries: seq<Entry>) {
    UniqueBy(entries, PathOf)
  }

  // ----- printing -----

  function LineOf(e: Entry): string {
    e.digest + "  " + e.path
  }

  function Lines(entries: seq<Entry>): string {
    if entries == [] then [] else LineOf(entries[0]) + "\n" + Lines(entries[1..])
  }

  // "\n".join(lines) + "\n", which is a lone line feed when there are no lines.
  function Render(entries: seq<Entry>): string {
    if entries == [] then "\n" else Lines(SortBy(entries, PathOf))
  }

  // ----- parsing -----

  // The line boundaries of str.splitlines.
  predicate IsBreak(c: char) {
    var n := c as int;
    10 <= n <= 13 || 28 <= n <= 30 || n == 0x85 || n == 0x2028 || n == 0x2029
  }

  function SplitLines(s: string): (lines: seq<string>)
    ensures s != [] ==> lines != []
  {
    if s == [] then []
    else if |s| >= 2 && s[0] == '\r' && s[1] == '\n' then [[]] + SplitLines(s[2..])
    else if IsBreak(s[0]) then [[]] + SplitLines(s[1..])
    else if |s| == 1 then [s]
    else
      var rest := SplitLines(s[1..]);
      [[s[0]] + rest[0]] + rest[1..]
  }

  predicate IsSafe(path: string) {
    path != [] && path[0] != '/' && ".." !in Split(path, '/')
  }

  predicate IsSkipped(line: string) {
    line == [] || line[0] == '#'
  }

  // The pattern ^([a-f0-9]{64})\s{2}(.+)$ on a stripped line.
  predicate IsEntryLine(line: string) {
    |line| > 66 && IsSha256(line[..64]) && IsSpace(line[64]) && IsSpace(line[65])
  }

  function EntryOf(line: string): Entry
    requires IsEntryLine(line)
  {
    Entry(line[66..], line[..64])
  }

  function ParseLine(number: nat, rawLine: string, before: seq<Entry>): Result<seq<Entry>, ParseError> {
    var line := Strip(rawLine);
    if IsSkipped(line) then Ok(before)
    else if !IsEntryLine(line) then Err(InvalidLine(number))
    else if EntryOf(line).path in Paths(before) then Err(DuplicatePath(EntryOf(line).path))
    else if !IsSafe(EntryOf(line).path) then Err(UnsafePath(EntryOf(line).path))
    else Ok(before + [EntryOf(line)])
  }

  function ParseLines(number: nat, lines: seq<string>, before: seq<Entry>): Result<seq<Entry>, ParseError>
    decreases |lines|
  {
    if lines == [] then Ok(before)
    else
      var next := ParseLine(number, lines[0], before);
      if next.Err? then next else ParseLines(number + 1, lines[1..], next.value)
  }

  function Parse(payload: string): Result<seq<Entry>, ParseError> {
    ParseLines(1, SplitLines(payload), [])
  }

  // The checks on one line, in their order.
  method ReadLine(number: nat, rawLine: string, digests: seq<Entry>) returns (r: Result<seq<Entry>, ParseError>)
    ensures r == ParseLine(number, rawLine, digests)
  {
    var line := Strip(rawLine);
    if line == [] || line[0] == '#' {
      return Ok(digests);
    }
    if !IsEntryLine(line) {
      return Err(InvalidLine(number));
    }
    var entry := EntryOf(line);
    if entry.path in Paths(digests) {
      return Err(DuplicatePath(entry.path));
    }
    if !IsSafe(entry.path) {
      return Err(UnsafePath(entry.path));
    }
    return Ok(digests + [entry]);
  }

  method ParseChecksumManifest(payload: string) returns (r: Result<seq<Entry>, ParseError>)
    ensures r == Parse(payload)
  {
    var digests: seq<Entry> := [];
    var lines := SplitLines(payload);
    for n := 0 to |lines|
      invariant ParseLines(1, lines, []) == ParseLines(n + 1, lines[n..], digests)
    {
      ghost var rest := lines[n..];
      assert rest[1..] == lines[n + 1..];
      r := ReadLine(n + 1, lines[n], digests);
      if r.Err? {
        return;
      }
      ParseStep(n + 1, rest, digests, r.value);
      digests := r.value;
    }
    return Ok(digests);
  }

  // ----- the round trip -----

  // The paths a manifest can carry: safe, on one line, and not ending in whitespace.
  predicate IsClean(path: string) {
    IsSafe(path) && (forall i :: 0 <= i < |path| ==> !IsBreak(path[i])) && !IsSpace(path[|path| - 1])
  }

  // What every parsed entry looks like, whatever the payload.
  predicate IsParsed(e: Entry) {
    IsSha256(e.digest) && IsClean(e.path)
  }

  lemma {:induction false} FirstLine(line: string, rest: string)
    requires forall i :: 0 <= i < |line| ==> !IsBreak(line[i])
    ensures SplitLines(line + "\n" + rest) == [line] + SplitLines(rest)
  {
    LineEnds(line, "\n", rest);
  }

  // One of the line boundaries, with CR LF as a single one.
  ghost predicate IsBoundary(end: string, rest: string) {
    || end == "\r\n"
    || (|end| == 1 && IsBreak(end[0]) && (end[0] == '\r' ==> rest == [] || rest[0] != '\n'))
  }

  // A line runs to the first boundary, and the lines after the boundary follow.
  lemma {:induction false} LineEnds(line: string, end: string, rest: string)
    requires (forall i :: 0 <= i < |line| ==> !IsBreak(line[i])) && IsBoundary(end, rest)
    ensures SplitLines(line + end + rest) == [line] + SplitLines(rest)
  {
    hide SplitLines, IsBreak;
    Regroup(line, end, rest);
    if line == [] {
      AtBoundary(end, rest);
      assert [] + (end + rest) == end + rest;
    } else {
      LineEnds(line[1..], end, rest);
      Regroup(line[1..], end, rest);
      NotAtBoundary(line, end + rest);
      HeadFirst(line, SplitLines(rest));
    }
  }

  lemma {:induction false} Regroup(a: string, b: string, c: string)
    ensures a + b + c == a + (b + c)
  {
  }

  lemma {:induction false} HeadFirst(line: string, rest: seq<string>)
    requires line != []
    ensures var after := [line[1..]] + rest;
            [[line[0]] + after[0]] + after[1..] == [line] + rest
  {
    assert [line[0]] + line[1..] == line;
  }

  lemma {:induction false} AtBoundary(end: string, rest: string)
    requires IsBoundary(end, rest)
    ensures SplitLines(end + rest) == [[]] + SplitLines(rest)
  {
    var s := end + rest;
    if end == "\r\n" {
      assert s[2..] == rest;
    } else {
      assert s[1..] == rest;
      if |s| >= 2 {
        assert s[1] == rest[0];
      }
    }
  }

  lemma {:induction false} NotAtBoundary(line: string, rest: string)
    requires line != [] && rest != [] && !IsBreak(line[0])
    ensures var after := SplitLines(line[1..] + rest);
            SplitLines(line + rest) == [[line[0]] + after[0]] + after[1..]
  {
    assert (line + rest)[1..] == line[1..] + rest;
  }

  // Text without a boundary is one line, and the boundaries are these ten characters.
  lemma {:induction false} LastLine(line: string)
    requires forall i :: 0 <= i < |line| ==> !IsBreak(line[i])
    ensures SplitLines(line) == if line == [] then [] else [line]
  {
    if |line| > 1 {
      LastLine(line[1..]);
      assert line == [line[0]] + line[1..];
    }
  }

  lemma {:induction false} BreakIs(c: char)
    ensures IsBreak(c) <==>
      c as int in {0x0A, 0x0B, 0x0C, 0x0D, 0x1C, 0x1D, 0x1E, 0x85, 0x2028, 0x2029}
  {
  }

  lemma {:induction false} LineShape(e: Entry)
    requires |e.digest| == 64
    ensures var line := LineOf(e);
            && |line| == 66 + |e.path| && line[..64] == e.digest && line[66..] == e.path
            && line[64] == line[65] == ' '
            && (forall i :: 0 <= i < 64 ==> line[i] == e.digest[i])
            && (forall i :: 66 <= i < |line| ==> line[i] == e.path[i - 66])
  {
  }

  lemma {:induction false} CleanLine(e: Entry)
    requires IsParsed(e)
    ensures Strip(LineOf(e)) == LineOf(e)
    ensures IsEntryLine(LineOf(e)) && EntryOf(LineOf(e)) == e && !IsSkipped(LineOf(e))
  {
    var line := LineOf(e);
    LineShape(e);
    assert IsHexDigit(line[0]) && line[|line| - 1] == e.path[|e.path| - 1];
    StripTight(line);
  }

  lemma {:induction false} CleanLineHasNoBreak(e: Entry)
    requires IsParsed(e)
    ensures forall i :: 0 <= i < |LineOf(e)| ==> !IsBreak(LineOf(e)[i])
  {
    var line := LineOf(e);
    LineShape(e);
    forall i | 0 <= i < |line| ensures !IsBreak(line[i]) {
      if i < 64 {
        assert IsHexDigit(e.digest[i]);
      }
    }
  }

  lemma {:induction false} NewPath(before: seq<Entry>, entries: seq<Entry>)
    requires entries != [] && DistinctPaths(before + entries)
    ensures entries[0].path !in Paths(before)
  {
    forall b | b in before ensures b.path != entries[0].path {
      var i :| 0 <= i < |before| && before[i] == b;
      var all := before + entries;
      assert all[i] == b && all[|before|] == entries[0];
      assert PathOf(all[i]) != PathOf(all[|before|]);
    }
  }

  function LineList(entries: seq<Entry>): seq<string> {
    if entries == [] then [] else [LineOf(entries[0])] + LineList(entries[1..])
  }

  lemma {:induction false} LinesSplit(entries: seq<Entry>)
    requires forall e :: e in entries ==> IsParsed(e)
    ensures SplitLines(Lines(entries)) == LineList(entries)
  {
    if entries != [] {
      CleanLineHasNoBreak(entries[0]);
      FirstLine(LineOf(entries[0]), Lines(entries[1..]));
      LinesSplit(entries[1..]);
    }
  }

  lemma {:induction false} LineParses(number: nat, e: Entry, before: seq<Entry>)
    requires IsParsed(e) && e.path !in Paths(before)
    ensures ParseLine(number, LineOf(e), before) == Ok(before + [e])
  {
    CleanLine(e);
  }

  lemma {:induction false} ParseStep(number: nat, lines: seq<string>, before: seq<Entry>, after: seq<Entry>)
    requires lines != [] && ParseLine(number, lines[0], before) == Ok(after)
    ensures ParseLines(number, lines, before) == ParseLines(number + 1, lines[1..], after)
  {
  }

  lemma {:induction false} MoveFirst(before: seq<Entry>, entries: seq<Entry>)
    requires entries != []
    ensures (before + [entries[0]]) + entries[1..] == before + entries
  {
  }

  lemma {:induction false} LinesParse(number: nat, entries: seq<Entry>, before: seq<Entry>)
    requires forall e :: e in entries ==> IsParsed(e)
    requires DistinctPaths(before + entries)
    ensures ParseLines(number, LineList(entries), before) == Ok(before + entries)
    decreases |entries|
  {
    if entries == [] {
      assert before + [] == before;
    } else {
      var e := entries[0];
      NewPath(before, entries);
      LineParses(number, e, before);
      MoveFirst(before, entries);
      LinesParse(number + 1, entries[1..], before + [e]);
      assert LineList(entries)[1..] == LineList(entries[1..]);
      ParseStep(number, LineList(entries), before, before + [e]);
    }
  }

  lemma {:induction false} LinesHaveNoBreak(s: string)
    ensures forall l, i :: l in SplitLines(s) && 0 <= i < |l| ==> !IsBreak(l[i])
  {
    if |s| >= 2 && s[0] == '\r' && s[1] == '\n' {
      LinesHaveNoBreak(s[2..]);
    } else if s != [] {
      LinesHaveNoBreak(s[1..]);
    }
  }

  lemma {:induction false} StripIsSlice(s: string) returns (from: nat)
    ensures from + |Strip(s)| <= |s| && Strip(s) == s[from..from + |Strip(s)|]
    ensures Strip(s) == [] || !IsSpace(Strip(s)[|Strip(s)| - 1])
  {
    from := |s| - |StripLeft(s)|;
  }

  lemma {:induction false} EntryLineIsParsed(rawLine: string)
    requires forall i :: 0 <= i < |rawLine| ==> !IsBreak(rawLine[i])
    requires IsEntryLine(Strip(rawLine)) && IsSafe(EntryOf(Strip(rawLine)).path)
    ensures IsParsed(EntryOf(Strip(rawLine)))
  {
    var line := Strip(rawLine);
    var from := StripIsSlice(rawLine);
    var path := EntryOf(line).path;
    assert path[|path| - 1] == line[|line| - 1];
    forall i | 0 <= i < |path| ensures !IsBreak(path[i]) {
      assert path[i] == line[i + 66] && line[i + 66] == rawLine[from + (i + 66)];
    }
  }

  lemma {:induction false} AppendDistinct(before: seq<Entry>, e: Entry)
    requires DistinctPaths(before) && e.path !in Paths(before)
    ensures DistinctPaths(before + [e])
  {
    assert forall i :: 0 <= i < |before| ==> before[i] in before && PathOf(before[i]) in Paths(before);
  }

  lemma {:induction false} ParseLinesClean(number: nat, lines: seq<string>, before: seq<Entry>)
    requires forall l, i :: l in lines && 0 <= i < |l| ==> !IsBreak(l[i])
    requires forall e :: e in before ==> IsParsed(e)
    requires DistinctPaths(before)
    ensures var r := ParseLines(number, lines, before);
            r.Ok? ==> DistinctPaths(r.value) && forall e :: e in r.value ==> IsParsed(e)
    decreases |lines|
  {
    if lines != [] {
      var next := ParseLine(number, lines[0], before);
      assert lines[0] in lines;
      if next.Ok? {
        if !IsSkipped(Strip(lines[0])) {
          EntryLineIsParsed(lines[0]);
          AppendDistinct(before, EntryOf(Strip(lines[0])));
        }
        ParseLinesClean(number + 1, lines[1..], next.value);
      }
    }
  }

  // Each line is a digest, two spaces and a path; the lines stand in path order, with a line feed
  // between any two and at the end.
  lemma {:induction false} RenderMeaning(entries: seq<Entry>) returns (sorted: seq<Entry>, lines: seq<string>)
    ensures multiset(sorted) == multiset(entries)
    ensures forall i, j :: 0 <= i < j < |sorted| ==> !StrLess(sorted[j].path, sorted[i].path)
    ensures |lines| == |sorted|
    ensures forall i :: 0 <= i < |sorted| ==> lines[i] == sorted[i].digest + "  " + sorted[i].path
    ensures Render(entries) == (if lines == [] then [] else Join(lines, '\n')) + "\n"
  {
    sorted, lines := SortBy(entries, PathOf), LineList(SortBy(entries, PathOf));
    SortByPermutes(entries, PathOf);
    SortByOrdered(entries, PathOf);
    forall i, j | 0 <= i < j < |sorted| ensures !StrLess(sorted[j].path, sorted[i].path) {
      assert !StrLess(PathOf(sorted[j]), PathOf(sorted[i]));
    }
    SameSize(sorted, entries);
    LinesJoined(sorted);
  }

  lemma {:induction false} LinesJoined(entries: seq<Entry>)
    ensures |LineList(entries)| == |entries|
    ensures forall i :: 0 <= i < |entries| ==>
              LineList(entries)[i] == entries[i].digest + "  " + entries[i].path
    ensures entries != [] ==> Lines(entries) == Join(LineList(entries), '\n') + "\n"
  {
    if entries != [] {
      LinesJoined(entries[1..]);
      var lines := LineList(entries);
      assert lines[1..] == LineList(entries[1..]);
      if |entries| > 1 {
        Regroup(LineOf(entries[0]) + "\n", Join(lines[1..], '\n'), "\n");
      }
    }
  }

  // ----- when a manifest is refused -----

  // 64 lower-case hex digits, two whitespace characters and a path.
  ghost predicate HasEntry(rawLine: string) {
    var line := Strip(rawLine);
    |line| > 66 && (forall c :: c in line[..64] ==> c in "0123456789abcdef") && IsSpace(line[64]) && IsSpace(line[65])
  }

  // An empty line, a comment, or an entry whose path is relative, does not climb and is new.
  ghost predicate LineFine(lines: seq<string>, n: nat)
    requires n < |lines|
  {
    var line := Strip(lines[n]);
    || line == [] || line[0] == '#'
    || (&& HasEntry(lines[n]) && line[66] != '/' && ".." !in Split(line[66..], '/')
        && forall m :: 0 <= m < n && HasEntry(lines[m]) ==> Strip(lines[m])[66..] != line[66..])
  }

  // The entries of the entry lines, in order.
  ghost function EntryList(lines: seq<string>): seq<Entry> {
    if lines == [] then []
    else
      var last := |lines| - 1;
      var line := Strip(lines[last]);
      EntryList(lines[..last]) + if HasEntry(lines[last]) then [Entry(line[66..], line[..64])] else []
  }

  // The first line that is not fine, with its number counted from one and what is wrong with it.
  ghost predicate FirstBad(lines: seq<string>, n: nat, error: ParseError) {
    && n < |lines| && !LineFine(lines, n) && (forall m :: 0 <= m < n ==> LineFine(lines, m))
    && (!HasEntry(lines[n]) ==> error == InvalidLine(n + 1))
    && (HasEntry(lines[n]) ==>
          var path := Strip(lines[n])[66..];
          if exists m :: 0 <= m < n && HasEntry(lines[m]) && Strip(lines[m])[66..] == path
          then error == DuplicatePath(path) else error == UnsafePath(path))
  }

  ghost predicate IsAnswer(lines: seq<string>, r: Result<seq<Entry>, ParseError>) {
    match r
    case Ok(entries) => (forall n :: 0 <= n < |lines| ==> LineFine(lines, n)) && entries == EntryList(lines)
    case Err(error) => exists n :: FirstBad(lines, n, error)
  }

  lemma {:induction false} HasEntryIff(rawLine: string)
    ensures HasEntry(rawLine) <==> IsEntryLine(Strip(rawLine))
    ensures HasEntry(rawLine) ==> |Strip(rawLine)| > 66 && !IsSkipped(Strip(rawLine))
  {
    hide IsSpace, Strip;
    var line := Strip(rawLine);
    if |line| > 66 {
      HexIs(line[..64]);
      if HasEntry(rawLine) {
        assert line[0] in line[..64];
      }
    }
  }

  lemma {:induction false} EarlierPath(lines: seq<string>, path: string)
    ensures path in Paths(EntryList(lines)) <==>
      exists m :: 0 <= m < |lines| && HasEntry(lines[m]) && Strip(lines[m])[66..] == path
  {
    hide HasEntry, Strip;
    if lines != [] {
      var last := |lines| - 1;
      HasEntryIff(lines[last]);
      EarlierPath(lines[..last], path);
      assert forall m :: 0 <= m < last ==> lines[..last][m] == lines[m];
      if HasEntry(lines[last]) && Strip(lines[last])[66..] == path {
        assert EntryList(lines)[|EntryList(lines[..last])|].path == path;
      }
    }
  }

  lemma {:induction false} ParseFrom(lines: seq<string>, n: nat)
    requires n <= |lines| && forall m :: 0 <= m < n ==> LineFine(lines, m)
    ensures IsAnswer(lines, ParseLines(n + 1, lines[n..], EntryList(lines[..n])))
    decreases |lines| - n
  {
    hide Strip, IsSpace, HasEntry, IsEntryLine, Split;
    var before := EntryList(lines[..n]);
    if n == |lines| {
      assert lines[..n] == lines;
    } else {
      var next := ParseLine(n + 1, lines[n], before);
      LineDecides(lines, n);
      NextEntries(lines, n);
      assert lines[n..][1..] == lines[n + 1..];
      if next.Ok? {
        ParseFrom(lines, n + 1);
      } else {
        assert FirstBad(lines, n, next.error);
      }
    }
  }

  lemma {:induction false} NextEntries(lines: seq<string>, n: nat)
    requires n < |lines|
    ensures var line := Strip(lines[n]);
            EntryList(lines[..n + 1])
            == EntryList(lines[..n]) + if HasEntry(lines[n]) then [Entry(line[66..], line[..64])] else []
  {
    assert lines[..n + 1][..n] == lines[..n];
  }

  lemma {:induction false} LineDecides(lines: seq<string>, n: nat)
    requires n < |lines| && forall m :: 0 <= m < n ==> LineFine(lines, m)
    ensures var next := ParseLine(n + 1, lines[n], EntryList(lines[..n]));
            && (next.Ok? <==> LineFine(lines, n))
            && (next.Ok? ==> next.value == EntryList(lines[..n + 1]))
            && (next.Err? ==> FirstBad(lines, n, next.error))
  {
    hide Strip, IsSpace, HasEntry, IsEntryLine, Split;
    HasEntryIff(lines[n]);
    NextEntries(lines, n);
    if HasEntry(lines[n]) {
      var path := Strip(lines[n])[66..];
      EarlierPath(lines[..n], path);
      assert forall m :: 0 <= m < n ==> lines[..n][m] == lines[m];
    }
  }

  // A manifest is accepted exactly when every line is fine, with the entries of its entry lines;
  // otherwise the first bad line is reported.
  lemma {:induction false} ParseMeaning(payload: string)
    ensures Parse(payload).Ok? <==> forall n :: 0 <= n < |SplitLines(payload)| ==> LineFine(SplitLines(payload), n)
    ensures Parse(payload).Ok? ==> Parse(payload).value == EntryList(SplitLines(payload))
    ensures Parse(payload).Err? ==> exists n :: FirstBad(SplitLines(payload), n, Parse(payload).error)
  {
    hide LineFine, FirstBad, SplitLines, Parse;
    ParseIsAnswer(payload);
    if Parse(payload).Err? {
      var n :| FirstBad(SplitLines(payload), n, Parse(payload).error);
      BadLine(SplitLines(payload), n, Parse(payload).error);
    }
  }

  lemma {:induction false} BadLine(lines: seq<string>, n: nat, error: ParseError)
    requires FirstBad(lines, n, error)
    ensures n < |lines| && !LineFine(lines, n)
  {
    hide LineFine;
  }

  lemma {:induction false} ParseIsAnswer(payload: string)
    ensures IsAnswer(SplitLines(payload), Parse(payload))
  {
    hide IsAnswer, ParseLines, SplitLines;
    var lines := SplitLines(payload);
    ParseFrom(lines, 0);
    assert lines[0..] == lines && lines[..0] == [];
  }

  // Parsing a rendered manifest gives back its entries, in path order, exactly when every path is
  // clean.
  lemma {:induction false} RoundTripIff(entries: seq<Entry>)
    requires DistinctPaths(entries) && forall e :: e in entries ==> IsSha256(e.digest)
    ensures Parse(Render(entries)) == Ok(SortBy(entries, PathOf)) <==> forall e :: e in entries ==> IsClean(e.path)
  {
    var sorted := SortBy(entries, PathOf);
    SortedEntries(entries);
    if entries == [] {
      assert SplitLines("\n"[1..]) == [];
      assert SplitLines("\n") == [[]];
    } else {
      if forall e :: e in entries ==> IsClean(e.path) {
        LinesSplit(sorted);
        LinesParse(1, sorted, []);
        assert [] + sorted == sorted;
      }
      LinesHaveNoBreak(Render(entries));
      ParseLinesClean(1, SplitLines(Render(entries)), []);
    }
  }

  lemma {:induction false} SortedEntries(entries: seq<Entry>)
    requires DistinctPaths(entries)
    ensures forall e :: e in SortBy(entries, PathOf) ==> e in entries
    ensures forall e :: e in entries ==> e in SortBy(entries, PathOf)
    ensures DistinctPaths(SortBy(entries, PathOf))
  {
    SameMembers(entries, PathOf);
    SortByUnique(entries, PathOf);
  }

  // ----- comparing with the archive -----

  datatype ChecksumError = MissingFile(path: string) | Mismatch(path: string) | ExtraFile(path: string)

  predicate IsPayload(path: string) {
    !(RELEASE_PREFIX <= path)
  }

  function Find(members: seq<Member>, path: string): Option<Bytes> {
    if members == [] then None
    else if members[0].path == path then Some(members[0].bytes)
    else Find(members[1..], path)
  }

  // One recorded entry holds: it is release evidence, or its file is there with its digest.
  predicate Holds(sha: Bytes -> string, members: seq<Member>, e: Entry) {
    !IsPayload(e.path) ||
    (Find(members, e.path).Some? && sha(Find(members, e.path).value) == e.digest)
  }

  predicate Covered(recorded: seq<Entry>, m: Member) {
    !IsPayload(m.path) || m.path in Paths(recorded)
  }

  function EntryError(sha: Bytes -> string, members: seq<Member>, e: Entry): Option<ChecksumError> {
    if Holds(sha, members, e) then None
    else if Find(members, e.path).None? then Some(MissingFile(e.path))
    else Some(Mismatch(e.path))
  }

  function MemberError(recorded: seq<Entry>, m: Member): Option<ChecksumError> {
    if Covered(recorded, m) then None else Some(ExtraFile(m.path))
  }

  ghost predicate Reported(sha: Bytes -> string, members: seq<Member>, recorded: seq<Entry>, x: ChecksumError) {
    || (exists e :: e in recorded && EntryError(sha, members, e) == Some(x))
    || (exists m :: m in members && MemberError(recorded, m) == Some(x))
  }

  // The problems of the recorded entries in their order.
  ghost function EntryErrors(sha: Bytes -> string, members: seq<Member>, recorded: seq<Entry>): seq<ChecksumError> {
    if recorded == [] then []
    else
      var last := |recorded| - 1;
      var error := EntryError(sha, members, recorded[last]);
      EntryErrors(sha, members, recorded[..last]) + if error.Some? then [error.value] else []
  }

  // The members that are not recorded, in their order.
  ghost function MemberErrors(recorded: seq<Entry>, members: seq<Member>): seq<ChecksumError> {
    if members == [] then []
    else
      var last := |members| - 1;
      var error := MemberError(recorded, members[last]);
      MemberErrors(recorded, members[..last]) + if error.Some? then [error.value] else []
  }

  // The section runs only with a valid package manifest and a non-empty checksum map.
  method ChecksumSection(sha: Bytes -> string, manifestValid: bool, members: seq<Member>, recorded: seq<Entry>)
    returns (errors: seq<ChecksumError>)
    ensures errors == [] <==>
      !manifestValid || recorded == [] ||
      ((forall e :: e in recorded ==> Holds(sha, members, e)) && (forall m :: m in members ==> Covered(recorded, m)))
    ensures forall x :: x in errors <==> manifestValid && recorded != [] && Reported(sha, members, recorded, x)
    ensures manifestValid && recorded != [] ==>
      errors == EntryErrors(sha, members, recorded) + MemberErrors(recorded, SortBy(members, MemberPath))
  {
    errors := [];
    if !manifestValid || recorded == [] {
      return;
    }
    for i := 0 to |recorded|
      invariant errors == EntryErrors(sha, members, recorded[..i])
    {
      assert recorded[..i + 1][..i] == recorded[..i];
      var e := recorded[i];
      if !IsPayload(e.path) {
        continue;
      }
      var actual := Find(members, e.path);
      if actual.None? {
        errors := errors + [MissingFile(e.path)];
      } else if sha(actual.value) != e.digest {
        errors := errors + [Mismatch(e.path)];
      }
    }
    assert recorded[..|recorded|] == recorded;
    ghost var broken := errors;
    var sorted := SortBy(members, MemberPath);
    for i := 0 to |sorted|
      invariant errors == broken + MemberErrors(recorded, sorted[..i])
    {
      assert sorted[..i + 1][..i] == sorted[..i];
      if IsPayload(sorted[i].path) && sorted[i].path !in Paths(recorded) {
        errors := errors + [ExtraFile(sorted[i].path)];
      }
    }
    assert sorted[..|sorted|] == sorted;
    SameMembers(members, MemberPath);
    EntryErrorsAre(sha, members, recorded);
    MemberErrorsAre(recorded, sorted);
    SilentIff(sha, members, recorded, errors);
  }

  lemma {:induction false} EntryErrorsAre(sha: Bytes -> string, members: seq<Member>, recorded: seq<Entry>)
    ensures forall x :: x in EntryErrors(sha, members, recorded) <==>
              exists e :: e in recorded && EntryError(sha, members, e) == Some(x)
  {
    hide EntryError;
    if recorded != [] {
      var last := |recorded| - 1;
      EntryErrorsAre(sha, members, recorded[..last]);
      assert recorded == recorded[..last] + [recorded[last]];
    }
  }

  lemma {:induction false} MemberErrorsAre(recorded: seq<Entry>, members: seq<Member>)
    ensures forall x :: x in MemberErrors(recorded, members) <==>
              exists m :: m in members && MemberError(recorded, m) == Some(x)
  {
    hide MemberError;
    if members != [] {
      var last := |members| - 1;
      MemberErrorsAre(recorded, members[..last]);
      assert members == members[..last] + [members[last]];
    }
  }

  // The bytes of the first member with a path.
  ghost predicate HoldsBytes(members: seq<Member>, path: string, bytes: Bytes) {
    exists i: nat :: FirstAt(members, path, i) && members[i].bytes == bytes
  }

  ghost predicate FirstAt(members: seq<Member>, path: string, i: nat) {
    i < |members| && members[i].path == path && forall j :: 0 <= j < i ==> members[j].path != path
  }

  // Outside release/, a recorded path without a member is missing, one whose bytes have another
  // digest is a mismatch, and a member that is not recorded is extra.
  lemma {:induction false} ReportedMeaning(sha: Bytes -> string, members: seq<Member>, recorded: seq<Entry>,
                                           path: string)
    ensures Reported(sha, members, recorded, MissingFile(path)) <==>
      && !("release/" <= path) && (exists e :: e in recorded && e.path == path)
      && forall m :: m in members ==> m.path != path
    ensures Reported(sha, members, recorded, Mismatch(path)) <==>
      && !("release/" <= path)
      && exists e, bytes ::
        e in recorded && e.path == path && HoldsBytes(members, path, bytes) && sha(bytes) != e.digest
    ensures Reported(sha, members, recorded, ExtraFile(path)) <==>
      && !("release/" <= path) && (exists m :: m in members && m.path == path)
      && forall e :: e in recorded ==> e.path != path
  {
    hide HoldsBytes, Find;
    FindMembers(members, path);
    FindIsFirst(members, path);
  }

  lemma {:induction false} FindIsFirst(members: seq<Member>, path: string)
    ensures forall bytes :: HoldsBytes(members, path, bytes) <==> Find(members, path) == Some(bytes)
  {
    FindMembers(members, path);
    if Find(members, path).Some? {
      var i := FirstPosition(members, path);
      assert HoldsBytes(members, path, members[i].bytes);
      forall k | FirstAt(members, path, k) ensures k == i {
      }
    } else {
      assert forall k :: 0 <= k < |members| ==> members[k].path != path;
    }
  }

  lemma {:induction false} FirstPosition(members: seq<Member>, path: string) returns (i: nat)
    requires Find(members, path).Some?
    ensures FirstAt(members, path, i) && Find(members, path) == Some(members[i].bytes)
  {
    i := 0;
    if members[0].path != path {
      var k := FirstPosition(members[1..], path);
      i := k + 1;
      assert forall j :: 1 <= j < i ==> members[j] == members[1..][j - 1];
    }
  }

  lemma {:induction false} SilentIff(sha: Bytes -> string, members: seq<Member>, recorded: seq<Entry>,
                                     errors: seq<ChecksumError>)
    requires forall x :: x in errors <==> Reported(sha, members, recorded, x)
    ensures errors == [] <==>
      (forall e :: e in recorded ==> Holds(sha, members, e)) && (forall m :: m in members ==> Covered(recorded, m))
  {
    if errors != [] {
      assert errors[0] in errors;
    } else {
      forall e | e in recorded ensures Holds(sha, members, e) {
        if !Holds(sha, members, e) {
          assert Reported(sha, members, recorded, EntryError(sha, members, e).value);
        }
      }
      forall m | m in members ensures Covered(recorded, m) {
        if !Covered(recorded, m) {
          assert Reported(sha, members, recorded, MemberError(recorded, m).value);
        }
      }
    }
  }

  function MemberPath(m: Member): string { m.path }

  // ----- from build to verification -----

  function Digests(sha: Bytes -> string, files: seq<Member>): seq<Entry> {
    if files == [] then [] else [Entry(files[0].path, sha(files[0].bytes))] + Digests(sha, files[1..])
  }

  // The payload of an archive as a function from paths.
  ghost predicate SamePayload(a: seq<Member>, b: seq<Member>) {
    forall path :: IsPayload(path) ==> Find(a, path) == Find(b, path)
  }

  lemma {:induction false} FindMembers(members: seq<Member>, path: string)
    ensures Find(members, path).Some? <==> exists m :: m in members && m.path == path
  {
    if members != [] {
      FindMembers(members[1..], path);
      assert members == [members[0]] + members[1..];
    }
  }

  lemma {:induction false} DigestsMeaning(sha: Bytes -> string, files: seq<Member>)
    requires UniqueBy(files, MemberPath)
    ensures DistinctPaths(Digests(sha, files))
    ensures |Digests(sha, files)| == |files|
    ensures forall i :: 0 <= i < |files| ==> Digests(sha, files)[i] == Entry(files[i].path, sha(files[i].bytes))
  {
    DigestsAt(sha, files);
    var entries := Digests(sha, files);
    forall i, j | 0 <= i < j < |entries| ensures entries[i].path != entries[j].path {
      assert MemberPath(files[i]) != MemberPath(files[j]);
    }
  }

  lemma {:induction false} DigestsAt(sha: Bytes -> string, files: seq<Member>)
    ensures |Digests(sha, files)| == |files|
    ensures forall i :: 0 <= i < |files| ==> Digests(sha, files)[i] == Entry(files[i].path, sha(files[i].bytes))
  {
    if files != [] {
      DigestsAt(sha, files[1..]);
    }
  }

  lemma {:induction false} FindUnique(members: seq<Member>, m: Member)
    requires UniqueBy(members, MemberPath) && m in members
    ensures Find(members, m.path) == Some(m.bytes)
  {
    if members[0] != m {
      assert m in members[1..];
      var i :| 0 <= i < |members[1..]| && members[1..][i] == m;
      assert MemberPath(members[0]) != MemberPath(members[i + 1]);
      FindUnique(members[1..], m);
    }
  }

  lemma {:induction false} DigestEntry(sha: Bytes -> string, files: seq<Member>, e: Entry)
    requires UniqueBy(files, MemberPath) && e in Digests(sha, files)
    ensures Find(files, e.path).Some? && e.digest == sha(Find(files, e.path).value)
  {
    DigestsMeaning(sha, files);
    var i :| 0 <= i < |files| && Digests(sha, files)[i] == e;
    FindUnique(files, files[i]);
  }

  // End to end: a manifest printed for the built files and parsed back by the verifier makes the
  // checksum section silent about the received members exactly when their payload is the built
  // one, path for path and byte for byte; with no files recorded it is silent about anything.
  lemma {:induction false} DetectsEveryChange(sha: Bytes -> string, built: seq<Member>, received: seq<Member>)
    requires UniqueBy(built, MemberPath)
    requires forall m :: m in built ==> IsPayload(m.path) && IsClean(m.path) && IsSha256(sha(m.bytes))
    requires forall m, x :: m in built && sha(x) == sha(m.bytes) ==> x == m.bytes
    ensures var recorded := Parse(Render(Digests(sha, built)));
            && recorded.Ok?
            && (recorded.value == [] <==> built == [])
            && ((&& (forall e :: e in recorded.value ==> Holds(sha, received, e))
                 && (forall m :: m in received ==> Covered(recorded.value, m)))
                <==> SamePayload(built, received))
  {
    var digests := Digests(sha, built);
    DigestsMeaning(sha, built);
    forall e | e in digests ensures IsSha256(e.digest) && IsClean(e.path) {
      var i :| 0 <= i < |built| && digests[i] == e;
      assert built[i] in built;
    }
    RoundTripIff(digests);
    SortedEntries(digests);
    var recorded := SortBy(digests, PathOf);
    SortByPermutes(digests, PathOf);
    assert |multiset(recorded)| == |recorded| && |multiset(digests)| == |digests|;
    if (forall e :: e in recorded ==> Holds(sha, received, e)) && (forall m :: m in received ==> Covered(recorded, m)) {
      MatchIsSame(sha, built, received, recorded);
    }
    if SamePayload(built, received) {
      SameIsMatch(sha, built, received, recorded);
    }
  }

  lemma {:induction false} MatchIsSame(sha: Bytes -> string, built: seq<Member>, received: seq<Member>,
                                       recorded: seq<Entry>)
    requires UniqueBy(built, MemberPath)
    requires forall m :: m in built ==> IsPayload(m.path)
    requires forall m, x :: m in built && sha(x) == sha(m.bytes) ==> x == m.bytes
    requires forall e :: e in recorded <==> e in Digests(sha, built)
    requires forall e :: e in recorded ==> Holds(sha, received, e)
    requires forall m :: m in received ==> Covered(recorded, m)
    ensures SamePayload(built, received)
  {
    DigestsMeaning(sha, built);
    forall path | IsPayload(path) ensures Find(built, path) == Find(received, path) {
      FindMembers(built, path);
      FindMembers(received, path);
      if Find(built, path).Some? {
        var m :| m in built && m.path == path;
        var i :| 0 <= i < |built| && built[i] == m;
        FindUnique(built, m);
        assert Digests(sha, built)[i] in recorded;
        assert Holds(sha, received, Digests(sha, built)[i]);
      } else if Find(received, path).Some? {
        var m :| m in received && m.path == path;
        assert Covered(recorded, m);
        var e :| e in recorded && e.path == path;
        DigestEntry(sha, built, e);
        assert false;
      }
    }
  }

  lemma {:induction false} SameIsMatch(sha: Bytes -> string, built: seq<Member>, received: seq<Member>,
                                       recorded: seq<Entry>)
    requires UniqueBy(built, MemberPath)
    requires forall e :: e in recorded <==> e in Digests(sha, built)
    requires SamePayload(built, received)
    ensures forall e :: e in recorded ==> Holds(sha, received, e)
    ensures forall m :: m in received ==> Covered(recorded, m)
  {
    DigestsMeaning(sha, built);
    forall e | e in recorded ensures Holds(sha, received, e) {
      DigestEntry(sha, built, e);
    }
    forall m | m in received ensures Covered(recorded, m) {
      if IsPayload(m.path) {
        FindMembers(received, m.path);
        FindMembers(built, m.path);
        var b :| b in built && b.path == m.path;
        var i :| 0 <= i < |built| && built[i] == b;
        assert Digests(sha, built)[i] in recorded;
      }
    }
  }
}
