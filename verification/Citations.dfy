// Evidence citations: chunk ids derived from a source digest, offsets and excerpt, and the
// validation that compares them. `sha` is the digest function from text to hex digests.
module Citations {
  import opened Outcomes
  import opened Text

  datatype CitableSource = CitableSource(sourceId: string, sha256: string, text: string)

  // A citation as received; None stands for an absent or wrongly typed field, and a chunk id of a
  // wrong type is any text that no digest prints.
  datatype Citation = Citation(
    sourceKind: string, sourceId: Option<string>, sourceSha256: Option<string>,
    chunkId: Option<string>, startOffset: Option<int>, endOffset: Option<int>)

  datatype CitationError =
    | InvalidKind | InvalidDigest | MissingSourceId | NotUuid | UnknownSource | DigestMismatch
    | MissingOffsets | OffsetsOutOfBounds | ChunkMismatch | UnexpectedChunk

  // text[start:end], with offsets past the end clamped.
  function Slice(text: string, start: nat, end: nat): string {
    var e := if end < |text| then end else |text|;
    if start < e then text[start..e] else []
  }

  function IntText(n: int): string {
    if n < 0 then "-" + Decimal(-n) else Decimal(n)
  }

  function ChunkPayload(sourceSha256: string, start: int, end: int, excerpt: string): string {
    sourceSha256 + ":" + (IntText(start) + ":" + (IntText(end) + ":" + excerpt))
  }

  function DeriveChunkId(sha: string -> string, sourceSha256: string, start: int, end: int, excerpt: string): string {
    sha(ChunkPayload(sourceSha256, start, end, excerpt))
  }

  // The digest, the offsets in decimal and the excerpt, separated by colons.
  lemma {:induction false} ChunkIdFormat(sha: string -> string, sourceSha256: string, start: nat, end: nat,
                                         excerpt: string)
    ensures DeriveChunkId(sha, sourceSha256, start, end, excerpt)
         == sha(sourceSha256 + ":" + Decimal(start) + ":" + Decimal(end) + ":" + excerpt)
  {
    assert ChunkPayload(sourceSha256, start, end, excerpt)
        == sourceSha256 + ":" + Decimal(start) + ":" + Decimal(end) + ":" + excerpt;
  }

  // Absent keys are looked up again under the citation's own spelling.
  function FindSource(sources: map<string, CitableSource>, sourceId: string): Option<CitableSource> {
    if Lower(sourceId) in sources then Some(sources[Lower(sourceId)])
    else if sourceId in sources then Some(sources[sourceId])
    else None
  }

  function ValidateEvidence(sha: string -> string, c: Citation, digest: string, sources: map<string, CitableSource>)
    : Option<CitationError>
  {
    if c.sourceId.None? then Some(MissingSourceId)
    else if !IsUuid4(Lower(c.sourceId.value)) then Some(NotUuid)
    else
      var source := FindSource(sources, c.sourceId.value);
      if source.None? then Some(UnknownSource)
      else if source.value.sha256 != digest then Some(DigestMismatch)
      else if c.startOffset.None? || c.endOffset.None? then Some(MissingOffsets)
      else
        var start, end := c.startOffset.value, c.endOffset.value;
        if start < 0 || end <= start || end > |source.value.text| then Some(OffsetsOutOfBounds)
        else if c.chunkId != Some(DeriveChunkId(sha, digest, start, end, source.value.text[start..end]))
        then Some(ChunkMismatch)
        else None
  }

  // None is acceptance.
  function Validate(sha: string -> string, c: Citation, sources: map<string, CitableSource>): Option<CitationError> {
    if c.sourceKind !in {"evidence", "authoritative_reference", "derived_inference"} then Some(InvalidKind)
    else if c.sourceSha256.None? || !IsSha256(c.sourceSha256.value) then Some(InvalidDigest)
    else if c.sourceKind == "evidence" then ValidateEvidence(sha, c, c.sourceSha256.value, sources)
    else if c.chunkId.Some? then Some(UnexpectedChunk)
    else None
  }

  // The source a citation names: the one under its id in lower case, or else under its own spelling.
  ghost predicate Names(sources: map<string, CitableSource>, sourceId: string, source: CitableSource) {
    if Lower(sourceId) in sources then sources[Lower(sourceId)] == source
    else sourceId in sources && sources[sourceId] == source
  }

  // What an evidence citation must satisfy, field by field.
  ghost predicate Cites(sha: string -> string, c: Citation, sources: map<string, CitableSource>, source: CitableSource)
  {
    && c.sourceId.Some? && IsUuid4(Lower(c.sourceId.value)) && Names(sources, c.sourceId.value, source)
    && c.sourceSha256 == Some(source.sha256) && IsSha256(source.sha256)
    && c.startOffset.Some? && c.endOffset.Some?
    && 0 <= c.startOffset.value < c.endOffset.value <= |source.text|
    && c.chunkId == Some(sha(source.sha256 + ":" + Decimal(c.startOffset.value) + ":" + Decimal(c.endOffset.value) + ":"
                             + source.text[c.startOffset.value..c.endOffset.value]))
  }

  // Acceptance for each kind: an evidence citation repeats the digest of the source it names and
  // carries the chunk id of its offsets; the other kinds need a digest and must have no chunk id.
  lemma {:induction false} AcceptedIff(sha: string -> string, c: Citation, sources: map<string, CitableSource>)
    ensures Validate(sha, c, sources).None? <==>
      || (c.sourceKind == "evidence" && exists source :: Cites(sha, c, sources, source))
      || (&& c.sourceKind in {"authoritative_reference", "derived_inference"}
          && c.sourceSha256.Some? && IsSha256(c.sourceSha256.value) && c.chunkId.None?)
  {
    hide IsUuid4, IsSha256, Lower, DeriveChunkId;
    if c.sourceKind == "evidence" {
      if Validate(sha, c, sources).None? {
        var source := FindSource(sources, c.sourceId.value).value;
        ChunkIdFormat(sha, source.sha256, c.startOffset.value, c.endOffset.value,
                      source.text[c.startOffset.value..c.endOffset.value]);
        assert Cites(sha, c, sources, source);
      }
      forall source | Cites(sha, c, sources, source) ensures Validate(sha, c, sources).None? {
        ChunkIdFormat(sha, source.sha256, c.startOffset.value, c.endOffset.value,
                      source.text[c.startOffset.value..c.endOffset.value]);
      }
    }
  }

  // The first failing check names the error, in this order.
  lemma {:induction false} ErrorOrder(sha: string -> string, c: Citation, sources: map<string, CitableSource>)
    ensures var error := Validate(sha, c, sources);
            var known := c.sourceKind in {"evidence", "authoritative_reference", "derived_inference"};
            var digested := known && c.sourceSha256.Some? && IsSha256(c.sourceSha256.value);
            var evidence := digested && c.sourceKind == "evidence";
            var identified := evidence && c.sourceId.Some? && IsUuid4(Lower(c.sourceId.value));
            && (error == Some(InvalidKind) <==> !known)
            && (error == Some(InvalidDigest) <==> known && !digested)
            && (error == Some(UnexpectedChunk) <==> digested && !evidence && c.chunkId.Some?)
            && (error == Some(MissingSourceId) <==> evidence && c.sourceId.None?)
            && (error == Some(NotUuid) <==> evidence && c.sourceId.Some? && !identified)
            && (error == Some(UnknownSource) <==>
                identified && Lower(c.sourceId.value) !in sources && c.sourceId.value !in sources)
            && forall source :: identified && Names(sources, c.sourceId.value, source) ==>
              var agreeing := source.sha256 == c.sourceSha256.value;
              var placed := agreeing && c.startOffset.Some? && c.endOffset.Some?;
              var within := placed && 0 <= c.startOffset.value < c.endOffset.value <= |source.text|;
              && (error == Some(DigestMismatch) <==> !agreeing)
              && (error == Some(MissingOffsets) <==> agreeing && !placed)
              && (error == Some(OffsetsOutOfBounds) <==> placed && !within)
              && (error == Some(ChunkMismatch) <==>
                  within && c.chunkId
                  != Some(DeriveChunkId(sha, source.sha256, c.startOffset.value, c.endOffset.value,
                                        source.text[c.startOffset.value..c.endOffset.value])))
  {
    hide IsUuid4, IsSha256, Lower, DeriveChunkId;
  }

  method ValidateCitations(sha: string -> string, citations: seq<Citation>, sources: map<string, CitableSource>)
    returns (error: Option<CitationError>)
    ensures error.None? <==> forall i :: 0 <= i < |citations| ==> Validate(sha, citations[i], sources).None?
    ensures error.Some? ==>
      exists i :: (&& 0 <= i < |citations| && Validate(sha, citations[i], sources) == error
                   && forall j :: 0 <= j < i ==> Validate(sha, citations[j], sources).None?)
  {
    for i := 0 to |citations|
      invariant forall j :: 0 <= j < i ==> Validate(sha, citations[j], sources).None?
    {
      error := Validate(sha, citations[i], sources);
      if error.Some? {
        return;
      }
    }
    error := None;
  }

  function BuildEvidenceCitation(sha: string -> string, source: CitableSource, start: nat, end: nat): Citation {
    Citation("evidence", Some(Lower(source.sourceId)), Some(source.sha256),
             Some(DeriveChunkId(sha, source.sha256, start, end, Slice(source.text, start, end))),
             Some(start), Some(end))
  }

  // A built citation carries the digest, the id in lower case and the offsets as given, and the
  // digest of those with the text they select; offsets beyond the text select what there is.
  lemma {:induction false} BuiltFields(sha: string -> string, source: CitableSource, start: nat, end: nat)
    ensures var c := BuildEvidenceCitation(sha, source, start, end);
            var from := if start < |source.text| then start else |source.text|;
            var to := if end < |source.text| then end else |source.text|;
            && c.sourceKind == "evidence" && c.sourceId == Some(Lower(source.sourceId))
            && c.sourceSha256 == Some(source.sha256) && c.startOffset == Some(start) && c.endOffset == Some(end)
            && c.chunkId == Some(sha(source.sha256 + ":" + Decimal(start) + ":" + Decimal(end) + ":"
                                     + if from < to then source.text[from..to] else []))
  {
    ChunkIdFormat(sha, source.sha256, start, end, Slice(source.text, start, end));
  }

  // ----- the payload determines its parts -----

  function BeforeColon(s: string): string {
    if s == [] || s[0] == ':' then [] else [s[0]] + BeforeColon(s[1..])
  }

  lemma {:induction false} BeforeColonIs(a: string, x: string)
    requires ':' !in a
    ensures BeforeColon(a + ":" + x) == a
    ensures (a + ":" + x)[|a| + 1..] == x
  {
    if a != [] {
      BeforeColonIs(a[1..], x);
      assert (a + ":" + x)[1..] == a[1..] + ":" + x;
    }
  }

  lemma {:induction false} FirstColon(a: string, x: string, b: string, y: string)
    requires ':' !in a && ':' !in b
    requires a + ":" + x == b + ":" + y
    ensures a == b && x == y
  {
    BeforeColonIs(a, x);
    BeforeColonIs(b, y);
  }

  lemma {:induction false} PayloadInjective(d1: string, s1: nat, e1: nat, t1: string,
                                            d2: string, s2: nat, e2: nat, t2: string)
    requires IsSha256(d1) && IsSha256(d2)
    requires ChunkPayload(d1, s1, e1, t1) == ChunkPayload(d2, s2, e2, t2)
    ensures d1 == d2 && s1 == s2 && e1 == e2 && t1 == t2
  {
    FirstColon(d1, Decimal(s1) + ":" + (Decimal(e1) + ":" + t1), d2, Decimal(s2) + ":" + (Decimal(e2) + ":" + t2));
    FirstColon(Decimal(s1), Decimal(e1) + ":" + t1, Decimal(s2), Decimal(e2) + ":" + t2);
    FirstColon(Decimal(e1), t1, Decimal(e2), t2);
    DecimalInjective(s1, s2);
    DecimalInjective(e1, e2);
  }

  function CitedText(c: Citation, sources: map<string, CitableSource>): string
    requires c.sourceId.Some? && FindSource(sources, c.sourceId.value).Some?
    requires c.startOffset.Some? && c.endOffset.Some?
    requires 0 <= c.startOffset.value <= c.endOffset.value <= |FindSource(sources, c.sourceId.value).value.text|
  {
    FindSource(sources, c.sourceId.value).value.text[c.startOffset.value..c.endOffset.value]
  }

  // Two accepted evidence citations with one chunk id cite the same digest, offsets and excerpt,
  // even when they are checked against different source indexes.
  lemma {:induction false} ChunkIdBinds(sha: string -> string, a: Citation, sourcesA: map<string, CitableSource>,
                                        b: Citation, sourcesB: map<string, CitableSource>)
    requires a.sourceKind == b.sourceKind == "evidence"
    requires Validate(sha, a, sourcesA).None? && Validate(sha, b, sourcesB).None?
    requires a.chunkId == b.chunkId
    requires forall x, y :: sha(x) == sha(y) && Some(sha(x)) == a.chunkId ==> x == y
    ensures a.sourceSha256 == b.sourceSha256
    ensures a.startOffset == b.startOffset && a.endOffset == b.endOffset
    ensures CitedText(a, sourcesA) == CitedText(b, sourcesB)
    ensures forall s, t :: Cites(sha, a, sourcesA, s) && Cites(sha, b, sourcesB, t) ==>
              s.text[a.startOffset.value..a.endOffset.value] == t.text[b.startOffset.value..b.endOffset.value]
  {
    var s1, e1, s2, e2 := a.startOffset.value, a.endOffset.value, b.startOffset.value, b.endOffset.value;
    var x := ChunkPayload(a.sourceSha256.value, s1, e1, CitedText(a, sourcesA));
    var y := ChunkPayload(b.sourceSha256.value, s2, e2, CitedText(b, sourcesB));
    assert sha(x) == sha(y);
    PayloadInjective(a.sourceSha256.value, s1, e1, CitedText(a, sourcesA),
                     b.sourceSha256.value, s2, e2, CitedText(b, sourcesB));
  }

  // A citation built from an indexed source validates exactly when the source's digest and id
  // have the accepted form and the offsets select text. Ids that are not version 4, such as the
  // name-based ones given to sources without provenance, never validate.
  lemma {:induction false} BuiltCitationValidatesIff(sha: string -> string, source: CitableSource,
                                                     sources: map<string, CitableSource>, start: nat, end: nat)
    requires Lower(source.sourceId) in sources && sources[Lower(source.sourceId)] == source
    ensures Validate(sha, BuildEvidenceCitation(sha, source, start, end), sources).None?
       <==> IsSha256(source.sha256) && IsUuid4(Lower(source.sourceId)) && start < end <= |source.text|
  {
    LowerTwice(source.sourceId);
  }
}
