// Splitting normalized text into overlapping chunks with digest-bound ids.
module EvidenceChunking {
  import opened Outcomes
  import opened Text
  import opened Citations

  const CHUNK_MAX := 6000
  const CHUNK_OVERLAP := 500

  datatype Chunk = Chunk(start: nat, end: nat, text: string, chunkId: string)

  // ----- normalization -----

  function ReplaceCrLf(text: string): string {
    if |text| >= 2 && text[0] == '\r' && text[1] == '\n' then ['\n'] + ReplaceCrLf(text[2..])
    else if text == [] then []
    else [text[0]] + ReplaceCrLf(text[1..])
  }

  function ReplaceCr(text: string): string {
    if text == [] then [] else [if text[0] == '\r' then '\n' else text[0]] + ReplaceCr(text[1..])
  }

  function Normalize(text: string): string {
    ReplaceCr(ReplaceCrLf(text))
  }

  lemma {:induction false} NoCarriageReturn(text: string)
    ensures '\r' !in ReplaceCr(text)
  {
    if text != [] {
      NoCarriageReturn(text[1..]);
    }
  }

  lemma {:induction false} ReplaceUnchanged(text: string)
    requires '\r' !in text
    ensures ReplaceCrLf(text) == text && ReplaceCr(text) == text
  {
    if text != [] {
      ReplaceUnchanged(text[1..]);
    }
  }

  // Up to the first carriage return nothing changes, and there a line feed takes its place.
  lemma {:induction false} FirstCarriageReturn(text: string, i: nat)
    requires i < |text| && text[i] == '\r' && '\r' !in text[..i]
    ensures i < |Normalize(text)| && Normalize(text)[i] == '\n'
  {
    if i > 0 {
      assert text[0] in text[..i];
      assert text[1..][..i - 1] == text[..i][1..];
      FirstCarriageReturn(text[1..], i - 1);
      assert ReplaceCrLf(text) == [text[0]] + ReplaceCrLf(text[1..]);
      assert ReplaceCrLf(text)[1..] == ReplaceCrLf(text[1..]);
    }
  }

  // Normalizing leaves no carriage return, so it is idempotent, and it leaves exactly the texts
  // without one unchanged.
  lemma {:induction false} NormalizeMeaning(text: string)
    ensures '\r' !in Normalize(text)
    ensures Normalize(Normalize(text)) == Normalize(text)
    ensures Normalize(text) == text <==> '\r' !in text
  {
    NoCarriageReturn(ReplaceCrLf(text));
    ReplaceUnchanged(Normalize(text));
    if '\r' !in text {
      ReplaceUnchanged(text);
    }
  }

  lemma {:induction false} Regroup(a: string, b: string, c: string)
    ensures a + b + c == a + (b + c)
  {
  }

  lemma {:induction false} TailOfJoin(a: string, b: string)
    ensures |a| >= 1 ==> (a + b)[1..] == a[1..] + b
    ensures |a| >= 2 ==> (a + b)[2..] == a[2..] + b
  {
  }

  // A carriage return and a line feed meet where a and b join.
  predicate SplitsPair(a: string, b: string) {
    a != [] && a[|a| - 1] == '\r' && b != [] && b[0] == '\n'
  }

  lemma {:induction false} CrLfAppend(a: string, b: string)
    requires !SplitsPair(a, b)
    ensures ReplaceCrLf(a + b) == ReplaceCrLf(a) + ReplaceCrLf(b)
    decreases |a|
  {
    TailOfJoin(a, b);
    if a == [] {
      assert a + b == b;
    } else if |a| >= 2 && a[0] == '\r' && a[1] == '\n' {
      CrLfAppend(a[2..], b);
      Regroup("\n", ReplaceCrLf(a[2..]), ReplaceCrLf(b));
    } else {
      CrLfAppend(a[1..], b);
      Regroup([a[0]], ReplaceCrLf(a[1..]), ReplaceCrLf(b));
    }
  }

  lemma {:induction false} CrAppend(a: string, b: string)
    ensures ReplaceCr(a + b) == ReplaceCr(a) + ReplaceCr(b)
  {
    TailOfJoin(a, b);
    if a == [] {
      assert a + b == b;
    } else {
      CrAppend(a[1..], b);
    }
  }

  lemma {:induction false} NormalizeAppend(a: string, b: string)
    requires !SplitsPair(a, b)
    ensures Normalize(a + b) == Normalize(a) + Normalize(b)
  {
    CrLfAppend(a, b);
    CrAppend(ReplaceCrLf(a), ReplaceCrLf(b));
  }

  lemma {:induction false} NormalizeOne(c: char)
    ensures Normalize([c]) == (if c == '\r' then "\n" else [c])
    ensures Normalize("\r\n") == "\n"
  {
    assert ReplaceCrLf([c]) == [c] + ReplaceCrLf([]);
    assert ReplaceCr([c])[1..] == [] && ReplaceCr("\n") == "\n" + ReplaceCr([]);
    assert "\r\n"[2..] == [];
    assert ReplaceCrLf("\r\n") == "\n" + ReplaceCrLf([]);
  }

  // Wherever it stands, a carriage return followed by a line feed becomes one line feed, a
  // carriage return alone becomes a line feed, and any other character stays.
  lemma {:induction false} NormalizeLineEnds(a: string, b: string)
    ensures Normalize(a + "\r\n" + b) == Normalize(a) + "\n" + Normalize(b)
    ensures b == [] || b[0] != '\n' ==> Normalize(a + "\r" + b) == Normalize(a) + "\n" + Normalize(b)
    ensures forall c :: c != '\r' && (c != '\n' || a == [] || a[|a| - 1] != '\r') ==>
              Normalize(a + [c] + b) == Normalize(a) + [c] + Normalize(b)
    ensures Normalize([]) == []
  {
    hide Normalize;
    Between(a, "\r\n", b);
    NormalizeOne('\r');
    if b == [] || b[0] != '\n' {
      Between(a, "\r", b);
    }
    forall c | c != '\r' && (c != '\n' || a == [] || a[|a| - 1] != '\r')
      ensures Normalize(a + [c] + b) == Normalize(a) + [c] + Normalize(b)
    {
      Between(a, [c], b);
      NormalizeOne(c);
    }
    ReplaceUnchanged([]);
    NormalizeMeaning([]);
  }

  lemma {:induction false} Between(a: string, middle: string, b: string)
    requires middle != [] && !SplitsPair(a, middle) && !SplitsPair(middle, b)
    ensures Normalize(a + middle + b) == Normalize(a) + Normalize(middle) + Normalize(b)
  {
    hide Normalize;
    assert !SplitsPair(a + middle, b);
    NormalizeAppend(a + middle, b);
    NormalizeAppend(a, middle);
  }

  ghost predicate PairAt(text: string, i: nat) {
    i + 1 < |text| && text[i] == '\r' && text[i + 1] == '\n'
  }

  ghost function CrLfPairs(text: string): set<nat> {
    set i: nat | i < |text| && PairAt(text, i)
  }

  lemma {:induction false} SamePairs(text: string, c: char)
    requires !SplitsPair(text, [c])
    ensures CrLfPairs(text + [c]) == CrLfPairs(text)
  {
    forall i: nat | i < |text| ensures PairAt(text + [c], i) == PairAt(text, i) {
      if i == |text| - 1 {
        assert (text + [c])[i] == text[i] && (text + [c])[i + 1] == c;
      } else {
        assert (text + [c])[i] == text[i] && (text + [c])[i + 1] == text[i + 1];
      }
    }
  }

  lemma {:induction false} OneMorePair(text: string)
    ensures |text| !in CrLfPairs(text) && CrLfPairs(text + "\r\n") == CrLfPairs(text) + {|text|}
  {
    var longer := text + "\r\n";
    assert longer == (text + "\r") + "\n";
    SamePairs(text, '\r');
    forall i: nat | i < |text| ensures PairAt(longer, i) == PairAt(text + "\r", i) {
      assert longer[i] == (text + "\r")[i] && longer[i + 1] == (text + "\r")[i + 1];
    }
    assert PairAt(longer, |text|) && !PairAt(longer, |text| + 1);
    assert !PairAt(text + "\r", |text|);
  }

  lemma {:induction false} NoPairs()
    ensures CrLfPairs([]) == {}
  {
  }

  lemma {:induction false} LengthWithPair(text: string)
    requires |Normalize(text)| == |text| - |CrLfPairs(text)|
    ensures |Normalize(text + "\r\n")| == |text| + 2 - |CrLfPairs(text + "\r\n")|
  {
    hide Normalize, CrLfPairs;
    NormalizeAppend(text, "\r\n");
    NormalizeOne('\r');
    OneMorePair(text);
  }

  lemma {:induction false} LengthWithOne(text: string, c: char)
    requires !SplitsPair(text, [c]) && |Normalize(text)| == |text| - |CrLfPairs(text)|
    ensures |Normalize(text + [c])| == |text| + 1 - |CrLfPairs(text + [c])|
  {
    hide Normalize, CrLfPairs;
    NormalizeAppend(text, [c]);
    NormalizeOne(c);
    SamePairs(text, c);
  }

  ghost predicate LengthFits(text: string) {
    |Normalize(text)| == |text| - |CrLfPairs(text)|
  }

  lemma {:induction false} LastPair(text: string)
    requires |text| >= 2 && text[|text| - 2] == '\r' && text[|text| - 1] == '\n'
    requires LengthFits(text[..|text| - 2])
    ensures LengthFits(text)
  {
    var front := text[..|text| - 2];
    LengthWithPair(front);
    assert text == front + "\r\n";
  }

  lemma {:induction false} LastOne(text: string)
    requires text != [] && !SplitsPair(text[..|text| - 1], [text[|text| - 1]])
    requires LengthFits(text[..|text| - 1])
    ensures LengthFits(text)
  {
    var front := text[..|text| - 1];
    LengthWithOne(front, text[|text| - 1]);
    assert text == front + [text[|text| - 1]];
  }

  // Normalizing shortens a text by one character for every CR LF pair.
  lemma {:induction false} NormalizedLength(text: string)
    ensures |Normalize(text)| == |text| - |CrLfPairs(text)|
    decreases |text|
  {
    hide Normalize, CrLfPairs;
    var n := |text|;
    if n == 0 {
      NormalizeMeaning([]);
      NoPairs();
    } else if n >= 2 && text[n - 2] == '\r' && text[n - 1] == '\n' {
      NormalizedLength(text[..n - 2]);
      LastPair(text);
    } else {
      NormalizedLength(text[..n - 1]);
      LastOne(text);
    }
  }

  // ----- chunking -----

  predicate IsBlank(text: string) {
    forall i :: 0 <= i < |text| ==> IsSpace(text[i])
  }

  // `not normalized.strip()`: nothing is left when the ends are stripped.
  lemma {:induction false} BlankIff(text: string)
    ensures IsBlank(text) <==> Strip(text) == []
  {
    var left, right := StripMeaning(text);
    hide IsSpace, Strip;
    if Strip(text) == [] {
      assert text == left + right;
    } else {
      assert text[|left|] == Strip(text)[0];
    }
  }

  function Min(a: nat, b: nat): nat {
    if a < b then a else b
  }

  function StartOf(i: nat): (start: nat)
    ensures start == i * (CHUNK_MAX - CHUNK_OVERLAP)
  {
    i * 5500
  }

  // One chunk, or one plus the steps needed to cover what lies beyond the first 6000 characters.
  function ChunkCount(n: nat): nat {
    if n <= 6000 then 1 else 1 + (n - 6000 + 5499) / 5500
  }

  function ChunkAt(sha: string -> string, sourceSha256: string, text: string, i: nat): Chunk
    requires StartOf(i) <= |text|
  {
    var start := StartOf(i);
    var end := Min(start + CHUNK_MAX, |text|);
    Chunk(start, end, text[start..end], DeriveChunkId(sha, sourceSha256, start, end, text[start..end]))
  }

  // The first chunks of a text, each where it belongs.
  ghost predicate ChunksSoFar(sha: string -> string, sourceSha256: string, text: string, chunks: seq<Chunk>) {
    forall i :: 0 <= i < |chunks| ==>
      StartOf(i) <= |text| && chunks[i] == ChunkAt(sha, sourceSha256, text, i)
  }

  ghost predicate IsChunking(sha: string -> string, sourceSha256: string, text: string, chunks: seq<Chunk>) {
    |chunks| == ChunkCount(|text|) && ChunksSoFar(sha, sourceSha256, text, chunks)
  }

  // Chunk i starts at 5500 i; the last one, and only it, reaches the end of the text.
  lemma {:induction false} LastChunkReachesEnd(n: nat, i: nat)
    requires n > CHUNK_MAX
    ensures StartOf(i) + CHUNK_MAX >= n <==> i + 1 >= ChunkCount(n)
  {
    assert ChunkCount(n) == 1 + (n - 6000 + 5499) / 5500;
  }

  method ChunkNormalizedText(sha: string -> string, sourceSha256: string, text: string) returns (chunks: seq<Chunk>)
    ensures IsBlank(Normalize(text)) ==> chunks == []
    ensures !IsBlank(Normalize(text)) ==> IsChunking(sha, sourceSha256, Normalize(text), chunks)
  {
    var normalized := Normalize(text);
    if IsBlank(normalized) {
      return [];
    }
    if |normalized| <= CHUNK_MAX {
      var whole := normalized[0..|normalized|];
      return [Chunk(0, |normalized|, whole, DeriveChunkId(sha, sourceSha256, 0, |normalized|, whole))];
    }
    chunks := [];
    var start := 0;
    var done := false;
    while start < |normalized| && !done
      invariant start == StartOf(if done && chunks != [] then |chunks| - 1 else |chunks|)
      invariant done ==> chunks != [] && |chunks| == ChunkCount(|normalized|)
      invariant !done ==> start < |normalized| && |chunks| < ChunkCount(|normalized|)
      invariant ChunksSoFar(sha, sourceSha256, normalized, chunks)
      decreases !done, |normalized| - start
    {
      var end := Min(start + CHUNK_MAX, |normalized|);
      var chunkText := normalized[start..end];
      var chunk := Chunk(start, end, chunkText, DeriveChunkId(sha, sourceSha256, start, end, chunkText));
      LastChunkReachesEnd(|normalized|, |chunks|);
      OneMoreChunk(sha, sourceSha256, normalized, chunks, chunk);
      chunks := chunks + [chunk];
      if end >= |normalized| {
        done := true;
      } else {
        start := start + (CHUNK_MAX - CHUNK_OVERLAP);
      }
    }
  }

  lemma {:induction false} OneMoreChunk(sha: string -> string, sourceSha256: string, text: string, chunks: seq<Chunk>,
                                        chunk: Chunk)
    requires ChunksSoFar(sha, sourceSha256, text, chunks) && StartOf(|chunks|) <= |text|
    requires chunk == ChunkAt(sha, sourceSha256, text, |chunks|)
    ensures ChunksSoFar(sha, sourceSha256, text, chunks + [chunk])
  {
    var more := chunks + [chunk];
    forall i | 0 <= i < |more|
      ensures StartOf(i) <= |text| && more[i] == ChunkAt(sha, sourceSha256, text, i)
    {
      if i < |chunks| {
        assert more[i] == chunks[i];
      } else {
        assert i == |chunks| && more[i] == chunk;
      }
    }
  }

  // Chunk i starts at 5500 i, ends 6000 characters further on or with the text, and holds what is
  // between; its id is the digest of those values and that text, separated by colons.
  lemma {:induction false} ChunkFields(sha: string -> string, sourceSha256: string, text: string, chunks: seq<Chunk>,
                                       i: nat)
    requires IsChunking(sha, sourceSha256, text, chunks) && i < |chunks|
    ensures var start, end := 5500 * i, if 5500 * i + 6000 < |text| then 5500 * i + 6000 else |text|;
            && start <= end && chunks[i].start == start && chunks[i].end == end && chunks[i].text == text[start..end]
            && chunks[i].chunkId
               == sha(sourceSha256 + ":" + Decimal(start) + ":" + Decimal(end) + ":" + text[start..end])
    ensures |chunks| == 1 || |text| > 5500 * (|chunks| - 2) + 6000
    ensures |text| <= 5500 * (|chunks| - 1) + 6000
  {
    var chunk := chunks[i];
    assert chunk == ChunkAt(sha, sourceSha256, text, i);
    ChunkIdFormat(sha, sourceSha256, chunk.start, chunk.end, chunk.text);
    if |text| > CHUNK_MAX {
      LastChunkReachesEnd(|text|, |chunks| - 1);
      LastChunkReachesEnd(|text|, |chunks| - 2);
    }
  }

  // ----- what a chunking is good for -----

  function Reassembled(chunks: seq<Chunk>): string {
    if chunks == [] then []
    else if |chunks| == 1 then chunks[0].text
    else
      var last := chunks[|chunks| - 1].text;
      Reassembled(chunks[..|chunks| - 1]) + last[Min(CHUNK_OVERLAP, |last|)..]
  }

  // Chunk i starts 500 characters before the end of a full predecessor, repeats those 500
  // characters and goes on.
  ghost predicate Overlaps(chunks: seq<Chunk>, i: nat)
    requires 1 <= i < |chunks|
  {
    var previous, chunk := chunks[i - 1], chunks[i];
    && chunk.start + CHUNK_OVERLAP == previous.end < chunk.end
    && |chunk.text| > CHUNK_OVERLAP && |previous.text| == CHUNK_MAX
    && chunk.text[..CHUNK_OVERLAP] == previous.text[CHUNK_MAX - CHUNK_OVERLAP..]
  }

  lemma {:induction false} SharedText(text: string, a: nat, b: nat, c: nat, d: nat)
    requires a <= b <= c <= d <= |text|
    ensures text[b..d][..c - b] == text[a..c][b - a..]
  {
  }

  lemma {:induction false} ChunkOverlaps(sha: string -> string, sourceSha256: string, text: string, chunks: seq<Chunk>,
                                         i: nat)
    requires 1 <= i < |chunks| && StartOf(i - 1) + CHUNK_MAX < |text|
    requires chunks[i - 1] == ChunkAt(sha, sourceSha256, text, i - 1)
    requires chunks[i] == ChunkAt(sha, sourceSha256, text, i)
    ensures Overlaps(chunks, i)
  {
    var a, b := StartOf(i - 1), StartOf(i);
    SharedText(text, a, b, a + 6000, Min(b + 6000, |text|));
  }

  lemma {:induction false} ChunkFits(sha: string -> string, sourceSha256: string, text: string, chunks: seq<Chunk>,
                                     i: nat)
    requires text != [] && IsChunking(sha, sourceSha256, text, chunks) && i < |chunks|
    ensures 0 < |chunks[i].text| <= CHUNK_MAX
    ensures chunks[i].start < chunks[i].end <= |text| && chunks[i].text == text[chunks[i].start..chunks[i].end]
    ensures i == |chunks| - 1 ==> chunks[i].end == |text|
  {
    assert chunks[i] == ChunkAt(sha, sourceSha256, text, i);
    if |text| > CHUNK_MAX {
      LastChunkReachesEnd(|text|, i);
      if i > 0 {
        LastChunkReachesEnd(|text|, i - 1);
      }
    }
  }

  lemma {:induction false} NeighboursOverlap(sha: string -> string, sourceSha256: string, text: string,
                                             chunks: seq<Chunk>, i: nat)
    requires IsChunking(sha, sourceSha256, text, chunks) && 1 <= i < |chunks|
    ensures Overlaps(chunks, i)
  {
    assert chunks[i - 1] == ChunkAt(sha, sourceSha256, text, i - 1);
    assert chunks[i] == ChunkAt(sha, sourceSha256, text, i);
    LastChunkReachesEnd(|text|, i - 1);
    ChunkOverlaps(sha, sourceSha256, text, chunks, i);
  }

  // The chunks run from the start of the text to its end, none is empty or longer than 6000
  // characters, and neighbours overlap by exactly 500.
  lemma {:induction false} ChunkShape(sha: string -> string, sourceSha256: string, text: string, chunks: seq<Chunk>)
    requires text != [] && IsChunking(sha, sourceSha256, text, chunks)
    ensures |chunks| >= 1 && chunks[0].start == 0 && chunks[|chunks| - 1].end == |text|
    ensures forall i :: 0 <= i < |chunks| ==> 0 < |chunks[i].text| <= CHUNK_MAX
    ensures forall i :: 0 <= i < |chunks| ==>
              chunks[i].start < chunks[i].end <= |text| && chunks[i].text == text[chunks[i].start..chunks[i].end]
    ensures forall i :: 1 <= i < |chunks| ==> Overlaps(chunks, i)
  {
    ChunkFits(sha, sourceSha256, text, chunks, |chunks| - 1);
    assert chunks[0] == ChunkAt(sha, sourceSha256, text, 0);
    forall i | 1 <= i < |chunks| ensures Overlaps(chunks, i) {
      NeighboursOverlap(sha, sourceSha256, text, chunks, i);
    }
    forall i | 0 <= i < |chunks|
      ensures 0 < |chunks[i].text| <= CHUNK_MAX && chunks[i].start < chunks[i].end <= |text|
      ensures chunks[i].text == text[chunks[i].start..chunks[i].end]
    {
      ChunkFits(sha, sourceSha256, text, chunks, i);
    }
  }

  // The first chunk followed by every later chunk minus its first 500 characters is the text.
  lemma {:induction false} Reassembly(sha: string -> string, sourceSha256: string, text: string, chunks: seq<Chunk>)
    requires text != [] && IsChunking(sha, sourceSha256, text, chunks)
    ensures Reassembled(chunks) == text
  {
    ChunkShape(sha, sourceSha256, text, chunks);
    ReassembledPrefix(text, chunks, |chunks|);
    assert chunks[..|chunks|] == chunks;
  }

  lemma {:induction false} GrowPrefix(text: string, a: nat, b: nat, c: nat)
    requires a <= b <= c <= |text|
    ensures text[..b] + text[a..c][b - a..] == text[..c]
  {
  }

  lemma {:induction false} ReassembledStep(chunks: seq<Chunk>, k: nat)
    requires 2 <= k <= |chunks| && |chunks[k - 1].text| >= CHUNK_OVERLAP
    ensures Reassembled(chunks[..k]) == Reassembled(chunks[..k - 1]) + chunks[k - 1].text[CHUNK_OVERLAP..]
  {
    assert chunks[..k][..k - 1] == chunks[..k - 1];
  }

  lemma {:induction false} ReassembledPrefix(text: string, chunks: seq<Chunk>, k: nat)
    requires 1 <= k <= |chunks| && chunks[0].start == 0
    requires forall i :: 0 <= i < |chunks| ==>
               chunks[i].start < chunks[i].end <= |text| && chunks[i].text == text[chunks[i].start..chunks[i].end]
    requires forall i :: 1 <= i < |chunks| ==> Overlaps(chunks, i)
    ensures Reassembled(chunks[..k]) == text[..chunks[k - 1].end]
  {
    if k == 1 {
      assert chunks[..1][0] == chunks[0];
    } else {
      hide Reassembled;
      ReassembledPrefix(text, chunks, k - 1);
      var chunk := chunks[k - 1];
      assert Overlaps(chunks, k - 1);
      ReassembledStep(chunks, k);
      GrowPrefix(text, chunk.start, chunk.start + CHUNK_OVERLAP, chunk.end);
    }
  }

  // Every position of the text lies in some chunk.
  lemma {:induction false} ChunkCovering(sha: string -> string, sourceSha256: string, text: string, chunks: seq<Chunk>,
                                         p: nat) returns (k: nat)
    requires IsChunking(sha, sourceSha256, text, chunks) && p < |text|
    ensures k < |chunks| && chunks[k].start <= p < chunks[k].end
  {
    ChunkShape(sha, sourceSha256, text, chunks);
    k := |chunks| - 1;
    while chunks[k].start > p
      invariant k < |chunks| && p < chunks[k].end
    {
      assert Overlaps(chunks, k);
      k := k - 1;
    }
  }

  // ----- chunks and citations agree -----

  // Every chunk of a normalized source that is indexed under a version-4 id yields a citation
  // that carries the chunk's id and validates.
  lemma {:induction false} ChunkCitationsValidate(sha: string -> string, source: CitableSource,
                                                  sources: map<string, CitableSource>, chunks: seq<Chunk>)
    requires IsUuid4(Lower(source.sourceId)) && IsSha256(source.sha256)
    requires Lower(source.sourceId) in sources && sources[Lower(source.sourceId)] == source
    requires source.text != [] && IsChunking(sha, source.sha256, Normalize(source.text), chunks)
    requires '\r' !in source.text
    ensures forall i :: 0 <= i < |chunks| ==>
              var c := BuildEvidenceCitation(sha, source, chunks[i].start, chunks[i].end);
              c.chunkId == Some(chunks[i].chunkId) && Validate(sha, c, sources).None?
  {
    NormalizeMeaning(source.text);
    ChunkShape(sha, source.sha256, source.text, chunks);
    forall i | 0 <= i < |chunks|
      ensures var c := BuildEvidenceCitation(sha, source, chunks[i].start, chunks[i].end);
              c.chunkId == Some(chunks[i].chunkId) && Validate(sha, c, sources).None?
    {
      BuiltCitationValidatesIff(sha, source, sources, chunks[i].start, chunks[i].end);
    }
  }

  // The chunker normalizes its text and the citation builder does not: their ids agree on every
  // chunk exactly when the source text has no carriage return.
  lemma {:induction false} ChunkIdsAgreeIff(sha: string -> string, source: CitableSource, chunks: seq<Chunk>)
    requires IsSha256(source.sha256)
    requires source.text != [] && IsChunking(sha, source.sha256, Normalize(source.text), chunks)
    requires forall i, x, y :: 0 <= i < |chunks| && sha(x) == sha(y) == chunks[i].chunkId ==> x == y
    ensures (forall i :: 0 <= i < |chunks| ==>
               BuildEvidenceCitation(sha, source, chunks[i].start, chunks[i].end).chunkId == Some(chunks[i].chunkId))
       <==> '\r' !in source.text
  {
    if '\r' in source.text {
      var k := DisagreeingChunk(source, Normalize(source.text), sha, chunks);
      var chunk, excerpt := chunks[k], Slice(source.text, chunks[k].start, chunks[k].end);
      var x := ChunkPayload(source.sha256, chunk.start, chunk.end, excerpt);
      var y := ChunkPayload(source.sha256, chunk.start, chunk.end, chunk.text);
      assert x != y by {
        DifferentPayloads(source.sha256, chunk.start, chunk.end, excerpt, chunk.text);
      }
      assert sha(y) == chunk.chunkId && sha(x) != sha(y);
    } else {
      NormalizeMeaning(source.text);
      ChunkShape(sha, source.sha256, source.text, chunks);
    }
  }

  lemma {:induction false} DifferentPayloads(digest: string, start: nat, end: nat, a: string, b: string)
    requires a != b
    ensures ChunkPayload(digest, start, end, a) != ChunkPayload(digest, start, end, b)
  {
    var prefix := digest + ":" + (Decimal(start) + ":" + (Decimal(end) + ":"));
    assert ChunkPayload(digest, start, end, a) == prefix + a;
    assert ChunkPayload(digest, start, end, b) == prefix + b;
    assert (prefix + a)[|prefix|..] == a && (prefix + b)[|prefix|..] == b;
  }

  // The chunk over the first carriage return holds a line feed where the source does not.
  lemma {:induction false} DisagreeingChunk(source: CitableSource, normalized: string, sha: string -> string,
                                            chunks: seq<Chunk>) returns (k: nat)
    requires '\r' in source.text && normalized == Normalize(source.text)
    requires IsChunking(sha, source.sha256, normalized, chunks)
    ensures k < |chunks| && Slice(source.text, chunks[k].start, chunks[k].end) != chunks[k].text
    ensures chunks[k] == ChunkAt(sha, source.sha256, normalized, k)
  {
    var p := FirstPosition(source.text);
    FirstCarriageReturn(source.text, p);
    k := ChunkCovering(sha, source.sha256, normalized, chunks, p);
    SliceAt(source.text, chunks[k].start, chunks[k].end, p);
    SliceAt(normalized, chunks[k].start, chunks[k].end, p);
  }

  lemma {:induction false} SliceAt(text: string, start: nat, end: nat, p: nat)
    requires start <= p < end && p < |text|
    ensures p - start < |Slice(text, start, end)| && Slice(text, start, end)[p - start] == text[p]
    ensures end <= |text| ==> Slice(text, start, end) == text[start..end]
  {
  }

  lemma {:induction false} FirstPosition(text: string) returns (p: nat)
    requires '\r' in text
    ensures p < |text| && text[p] == '\r' && '\r' !in text[..p]
  {
    p := 0;
    while text[p] != '\r'
      invariant p < |text| && '\r' !in text[..p] && '\r' in text[p..]
      decreases |text| - p
    {
      assert text[p..] == [text[p]] + text[p + 1..];
      assert text[..p + 1] == text[..p] + [text[p]];
      p := p + 1;
    }
  }
}
