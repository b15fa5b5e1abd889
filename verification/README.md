# Verified models of the ATO service's core protocols

A Dafny 4.11 project beside the service. It models the parts of the repository that carry real
algorithms or protocols and proves what they are for. `dafny verify dfyconfig.toml` checks all of it.

| file | models |
|---|---|
| AuditChain.dfy, AuditLedger.dfy | the HMAC audit chain: appends, the list verifier, the batched verifier; appends from overlapping transactions |
| ChatRetention.dfy | the bounded purge of expired chat turns, messages and idle conversations |
| BlobStore.dfy | content-addressed storage with concurrent calls and crashes |
| RunAdmission.dfy | run admission under an advisory lock; cancellations and workers under row locks |
| RunListing.dfy, PageCursors.dfy | keyset paging of runs and matrix rows, and the opaque cursors it hands out |
| ContextPacking.dfy | token estimates, the input budget and the greedy packer |
| JsonPointer.dfy | JSON pointer resolution (RFC 6901, sections 3, 4 and 5) |
| MigrationHead.dfy | the migration head resolver |
| EvidenceChunking.dfy, Citations.dfy | overlapping chunks, their ids, and the citations that must agree |
| ChecksumManifest.dfy | the release checksum manifest, printed, parsed and checked |
| ContentManifest.dfy, PackageFinalize.dfy | package content manifests, their write-once store, and finalizing a revision |
| Keyset.dfy, Sequences.dfy, Text.dfy, Arithmetic.dfy, Outcomes.dfy | shared: keyset queries, filters, strings, remainders, result types |

Conventions. A database table is a sequence of rows in physical order, which promises nothing; every
ordered read sorts. Timestamps and UUIDs are integers where only their order and identity matter. Hash
functions, the HMAC, JSON serialization and parsing are function parameters. Where a theorem needs them to
be free of collisions it says so, for the values it is about and no others. Exceptions are result values.
Concurrent behaviour is a machine whose steps are the statements of the code; a theorem about it holds of
every run. Loops of the source are loops, proved equal to a specification function whose meaning is then
proved separately.

## Findings

Places where the code does not do what its documentation or naming suggests. Each is a theorem below,
with the exact condition where there is one.

- A run-listing cursor is always 86 bytes of JSON, so its base64 always ends in "=", which the cursor
  pattern rejects: a client collects all runs exactly when they fit one page. A matrix cursor works exactly
  when the item id's length is a multiple of three, so a matrix is collected exactly when every id that
  ends a page has such a length.
- An audit append links to the row with the greatest key, but its timestamp is fixed before it waits for
  the chain's lock. The chain verifies exactly when transactions hold the lock in key order. Two overlapping
  requests can break it for good, and so can one transaction that appends two events with its one timestamp,
  as the approval-expiry sweep (src/ato_service/export_service.py:1190-1245) does: their order is that of
  random ids.
- The closing checkpoint of a verification uses a different rule from the rolling ones, and no checkpoint is
  taken after the first 100. For either reason the last checkpoint can miss the head of the chain. The two
  rules also record the head twice whenever the interval is above one and divides the number of events, below
  that cap; otherwise the reported indices ascend strictly.
- A verification session that reads the table in batches reports on the rows it collected. It misses a row
  committed behind its cursor, so it can pass while the table it leaves fails.
- A cancellation checks the status it loaded before it held the row lock: its locking read
  (src/ato_service/analysis_runs.py:557-558) does not ask for the loaded object to be refreshed, and an
  object-relational session refreshes only on request. Runs that have ended keep their status exactly when
  the checked status is the one read under the lock. Otherwise a cancellation that read a run before a
  worker committed its success overwrites the success.
- A blob call that finds its blob already present returns without a directory sync. What it returns outlives
  everything exactly when calls never overlap, directory syncs never fail, and no crash takes a prefix
  directory: another call may be between its rename and its sync; an earlier call may have failed there and
  the retry returns; and the prefix directory's own entry is never synced. A call's own rename needs only the
  last of the three; one such blob outlives every crash exactly when its prefix directory was written back or
  had outlived a crash before.
- The write-once rule of content manifests is not enforced between the check and the rename. The only caller,
  finalizing a revision, serializes writers by a row lock and passes the replace flag. But the writer runs in
  a thread, and a cancelled request or a lost connection frees the lock while that thread goes on. The stored
  file always has the recorded digest while nothing crashes exactly when no call is abandoned like that, or all
  offer the same bytes; with crashes, exactly when no call is abandoned, directory syncs never fail (a retry
  keeps an identical file without syncing it) and the crash spares the revision's directory, whose parent is
  never synced.
- The manifest document depends on entry order when two artifact ids differ only in letter case.
- The migration head resolver does not notice cycles beside the chain it reports.
- Chunk ids and citation ids agree exactly when the source text has no carriage return, and citations to
  sources with a name-based (version 5) id never validate.
- An empty checksum manifest switches the checksum comparison off.

## Model

| member | source | states |
|---|---|---|
| AuditChain.VerifyEvents | src/ato_service/audit_chain_verify.py:142-279 | The loop over a list reports exactly Verdict: counts, head, checkpoints, first failing check and filter matches |
| AuditChain.Visit | src/ato_service/audit_chain_verify.py:172-263 | One event is checked for order, link and HMAC in that order; on success every counter describes one more event |
| AuditChain.VerifySession | src/ato_service/audit_chain_verify.py:282-470 | Reading keyset batches of any size from a table that changes in any way between batches gives the list verifier's report on the rows collected, apart from the total at a failure; where rows are only appended in key order, those are the key-ordered table as the last batch saw it |
| AuditChain.SessionCoverage | src/ato_service/audit_chain_verify.py:282-327 | Whatever is committed between batches, the rows collected ascend, so no ordering violation is ever reported, and every row that was there throughout is among them |
| Keyset.CollectedInOrder | src/ato_service/audit_chain_verify.py:306-327 | Over a table at rest or growing in key order, batches of any size of at least one collect the whole ordered table as the last batch saw it |
| AuditLedger.SessionMissesLateRow | src/ato_service/audit_chain_verify.py:306-327 | A session passes a table that fails, because the late row was committed behind its cursor |
| AuditChain.VisitBatch | src/ato_service/audit_chain_verify.py:342-427 | One batch advances the walk by its length or stops with the final report |
| AuditChain.VerdictMeaning | src/ato_service/audit_chain_verify.py:172-279 | Passing is exactly an intact chain; a failure at i is minimal: the first i events pass, the first i + 1 fail at i for the same reason |
| AuditChain.ReportMeaning | src/ato_service/audit_chain_verify.py:172-279 | The report on the fields of the events: it stops at the first event whose time falls, or whose id falls at an equal time, whose previous hash is not that of the event before or 64 zeros, or whose hash is malformed or not the HMAC of its own content; it names these apart in that order, with that event's index and id, and counts, heads and filters what came before |
| AuditChain.TruncationPasses | src/ato_service/audit_chain_verify.py:172-279 | Every prefix of a passing list passes, so a cut tail shows only against a retained head hash |
| AuditChain.CheckpointsMeaning | src/ato_service/audit_chain_verify.py:125-139 | Checkpoints name marked positions with their event's id and hash, at most 100, and all of them below the cap |
| AuditChain.CheckpointCount | src/ato_service/audit_chain_verify.py:125-139 | Rolling checkpoints number one plus the length divided by the interval, or the length at interval one, and never more than 100 |
| AuditChain.HeadCheckpoint | src/ato_service/audit_chain_verify.py:248-263 | The last checkpoint of a passing report is the head exactly when the list has one event, or fewer than 100 positions before the last are marked and one of the two modulus rules takes the last |
| AuditChain.CheckpointsAscendIff | src/ato_service/audit_chain_verify.py:252-263 | The reported checkpoint indices ascend strictly except when the closing rule records the head a second time: the interval divides the number of events but not the last index, and fewer than 100 positions are marked |
| AuditChain.RetainedHashPinsHistory | src/ato_service/audit.py:71-168 | Any hash retained from a passing list, its head or a checkpoint, found in a list that passes now, forces the two to agree in every field up to that event, absent a collision or an HMAC equal to the genesis hash |
| AuditChain.TamperEvidence | src/ato_service/audit.py:71-168 | Two non-empty lists that pass with one head hash are the same list in every field |
| AuditChain.Latest | src/ato_service/audit.py:59-68 | The chain tail is a row of the table, and every row is earlier, or as late with an id no greater |
| AuditChain.AuditLog.Append | src/ato_service/audit.py:213-256 | Appends one row with the key and facts requested, the HMAC over them, and as previous hash the one of the latest row by time and then id, or 64 zeros in an empty table; nothing else changes |
| AuditChain.RowsLinkBackwards | src/ato_service/audit.py:215-234 | In the table left by any run of appends, row i is the one linked against the rows before it |
| AuditChain.RowsHold | src/ato_service/audit.py:213-256 | In the table left by any run of appends, row i has the key and facts of request i, its HMAC covers them and the previous hash, and that is the hash of the row latest by time and then id among those before it, or 64 zeros for the first |
| AuditChain.LinkingUpwardsBreaks | src/ato_service/audit_chain_verify.py:191-205 | A row linked to a row of greater key makes the key-ordered table fail |
| AuditChain.AppendThenVerify | src/ato_service/audit.py:182-256 | For every serial run of appends, the key-ordered table verifies exactly when each append is later than every one before it, or as late with a greater id |
| AuditLedger.OverlappingIsSerial | src/ato_service/audit.py:195-256 | Whatever the interleaving of transactions, the committed rows are those of a serial run in the order in which the chain lock was held |
| AuditLedger.CommittedAsInserted | src/ato_service/audit.py:213-256 | Whatever the interleaving, the committed rows are, in commit order, the inserts of the committed transactions, each with the id and facts it was inserted with and the time its transaction began with |
| AuditLedger.OverlappingAppendsVerifyIff | src/ato_service/audit.py:211-256 | The table left by overlapping transactions verifies exactly when, in lock order, times never fall and ids rise at equal times |
| AuditLedger.LateLockBreaksTheChain | src/ato_service/audit.py:207-213 | Two overlapping requests, the earlier of which gets the lock second, leave a table that fails |
| AuditLedger.OneTimestampBreaksTheChain | src/ato_service/export_service.py:1190-1245 | Two appends of one transaction share a timestamp and fail when their random ids descend |
| Keyset.SelectResumes | src/ato_service/audit_chain_verify.py:282-327 | With the cursor on row k of the ordered table the query returns the rows after k |
| Keyset.SelectMeaning | src/ato_service/analysis_runs.py:489-502 | For any cursor the query returns rows beyond it by ascending time and by ascending id at equal times, and a row it leaves out comes after all of them by the same rule |
| DueRows.PickMeaning | src/ato_operator/chat_retention.py:122-145 | A limited pick of due rows holds only due rows, all of them below the limit, and never skips one for a later one |
| ChatRetention.ChatTables.RunPurge | src/ato_operator/chat_retention.py:99-250 | The transaction performs exactly one bounded batch, reports the rows it removed, and on any failure leaves every row as it was |
| ChatRetention.ChatTables.DeleteTurns | src/ato_operator/chat_retention.py:149-184 | Deleting messages and then turns removes the picked turns with all their messages, and the row counts always agree |
| ChatRetention.ChatTables.DeleteConversations | src/ato_operator/chat_retention.py:186-225 | Deletes the picked idle conversations and nothing else |
| ChatRetention.StepIsSafe | src/ato_operator/chat_retention.py:121-225 | A batch keeps the foreign keys and never removes a pending turn, an unexpired message, or a conversation with a turn or a recent update, whatever is locked |
| ChatRetention.OldestFirst | src/ato_operator/chat_retention.py:141-143 | When a batch leaves a deletable turn behind, it removed as many turns as its limit allows, and each expired earlier, or at the same time with a smaller id |
| ChatRetention.IdlestFirst | src/ato_operator/chat_retention.py:186-201 | The same for idle conversations, by their last update and then their id |
| ChatRetention.PurgeAllMeaning | src/ato_operator/chat_retention.py:99-250 | One unlimited purge leaves exactly the turns that are pending, unexpired or have an unexpired message, the messages whose turn is left, and the conversations updated after the cutoff or with a turn left |
| ChatRetention.TurnsRemoved | src/ato_operator/chat_retention.py:158-184 | A turn goes exactly when it was picked, one row per pick, and messages go exactly with their turns |
| ChatRetention.DrainEqualsPurgeAll | src/ato_operator/chat_retention.py:99-250 | Repeating the batch until the limit is not reached ends, for every batch size, in the state of one unlimited purge |
| BlobStore.Store.StoreStream | src/ato_service/blobs.py:53-143 | The answer depends on the content, the limit and what is stored, not on how the source was cut; it never names a file that does not hash to its name; the call is a run of the crash model and cleans up its staging file |
| BlobStore.AnswerMeaning | src/ato_service/blobs.py:60-124 | The refusals in their order, for a limit below one, content over the limit, an empty chunk, no content, and a stored file that does not hash to its name; otherwise the key is the digest's first two characters, a slash and the digest, and the size that of the stored file |
| BlobStore.ContentMeaning | src/ato_service/blobs.py:76-90 | The content is the pieces joined in order up to the first empty one |
| BlobStore.Store.StageSource | src/ato_service/blobs.py:76-90 | The copy loop stages the content and fails exactly for oversized, malformed or empty sources |
| BlobStore.Store.Publish | src/ato_service/blobs.py:89-122 | Sync, then return the existing blob, or the mismatch error if it does not hash to its name, or rename into place and sync the directory |
| BlobStore.StepKeepsInv | src/ato_service/blobs.py:75-124 | Every step of every call, and every crash, keeps the storage invariant, including that a blob not on disk awaits the directory sync of a call that renamed under its prefix |
| BlobStore.BlobsAreContentAddressed | src/ato_service/blobs.py:92-109 | In every state reachable from the empty store each visible and each durable blob hashes to its own name, so the mismatch error never arises |
| BlobStore.PresentIsDurable | src/ato_service/blobs.py:101-112 | A visible blob is on disk whenever every call that renamed under its prefix has synced the directory |
| BlobStore.OwnRenameIsDurable | src/ato_service/blobs.py:114-122 | A call that returns through its own rename leaves its bytes in place through every later run whose crashes spare the prefix directory, and none takes one that was on disk |
| BlobStore.OwnReturnOutlivesIff | src/ato_service/blobs.py:114-124 | Such a blob outlives everything that may follow exactly when, before the return, its prefix directory was written back or had outlived a crash |
| BlobStore.SharedReturnsSafeIff | src/ato_service/blobs.py:101-112 | A blob returned because it was present outlives every later run exactly when calls never overlap, directory syncs never fail and no crash takes a prefix directory |
| BlobStore.OwnReturnsSafeIff | src/ato_service/blobs.py:114-122 | A blob returned through the call's own rename outlives every later run exactly when no crash takes a prefix directory |
| BlobStore.SharedReturnCanBeLost | src/ato_service/blobs.py:101-112 | In each of the other cases a run of two calls, overlapping, a retry, or one after the other, returns a present blob that the next crash takes |
| RunAdmission.AdmissionSafety | src/ato_service/analysis_runs.py:338-427 | Over every interleaving of the statements of admissions, cancellations and workers the active runs stay within the limit, or never grow if they began above it, stale cancellations included |
| RunAdmission.StepKeepsInv | src/ato_service/analysis_runs.py:345-358 | A count read under the lock stays an upper bound until that transaction ends |
| RunAdmission.TerminalIsFinalIff | src/ato_service/analysis_runs.py:545-576 | Over every interleaving runs that have ended keep their status exactly when the status a cancellation checks is read under the row lock |
| RunAdmission.TerminalStaysIff | src/ato_service/analysis_runs.py:545-576 | A given ended run keeps its status through everything that follows exactly when the locking read refreshes, or it is already cancelled, or no open transaction read it before it ended |
| RunAdmission.StaleCancelGoesThrough | src/ato_service/analysis_runs.py:557-576 | Without the refresh a cancellation that read an active run can always finish, whatever was committed meanwhile |
| RunAdmission.StaleCancelOverwritesSuccess | src/ato_service/deterministic_analyzer.py:312-317 | The interleaving in full: cancel reads queued, the worker commits succeeded, cancel overwrites it |
| RunAdmission.RoomIsGranted | src/ato_service/analysis_runs.py:338-427 | Below the limit an undisturbed start_run is admitted and adds one queued run |
| RunAdmission.LegalMeaning | src/ato_service/lifecycle_transitions.py:136-176 | The legal transitions: a queued run may start running, be cancelled or be blocked, a running one may succeed, fail, be cancelled or be blocked, each for its own condition, and exactly the ended states have none |
| RunAdmission.WithoutLockLimitFails | src/ato_service/analysis_runs.py:338-340 | Without the lock two transactions both pass a limit of one |
| RunAdmission.RunTable.StartRun | src/ato_service/analysis_runs.py:341-427 | Admits exactly when fewer queued and running runs than the limit are there, adding one queued run, and otherwise changes nothing |
| RunAdmission.RunTable.CancelRun | src/ato_service/analysis_runs.py:534-576 | Cancels exactly when the checked status is active, where that is the status of the first read unless the locking read refreshes it, and otherwise changes nothing |
| RunListing.ReadPage | src/ato_service/analysis_runs.py:484-510 | Decodes the cursor, reads one row beyond the limit, and returns the page with the encoded cursor of its last row, or the cursor error |
| RunListing.ListRuns | src/ato_service/analysis_runs.py:465-515 | Rejects limits outside 1 to 100, defaults to 50, and returns the page that the string cursor leads to; its runs ascend by request time and then id, and a first page holds the earliest runs, all of them when it has no next cursor |
| RunListing.GetRunMatrix | src/ato_service/analysis_runs.py:599-660 | Refuses bad limits, unknown and unfinished runs in that order, and otherwise returns the page and the count of the rows with the status |
| RunListing.PageMeaning | src/ato_service/analysis_runs.py:489-510 | A page ascends from the cursor by time and then id, has at most the limit, and leaves out only rows beyond its next cursor, which is the key of its last row |
| RunListing.WalkInOrder | src/ato_service/analysis_runs.py:489-515 | Of the query alone, with bare keys handed on: whatever changes between pages, the rows ascend strictly, so no key comes twice, and each was in the table of its page |
| RunListing.WalkMissesNothing | src/ato_service/analysis_runs.py:489-515 | Of the query alone: a finished walk by key has returned every key that was in the table at each of its pages |
| RunListing.FixedTableWalk | src/ato_service/analysis_runs.py:489-515 | Of the query alone: over a table at rest the walk by key takes exactly the pages it needs and collects the sorted table |
| RunListing.FollowIsWalk | src/ato_service/analysis_runs.py:484-515 | A client that follows string cursors collects what the walk by key collects, cut short by the first rejected cursor |
| RunListing.FinishedWalkMissesNothing | src/ato_service/analysis_runs.py:626-660 | A walk by cursor that finishes has every key that was there throughout, once and in order, whatever changed between pages |
| RunListing.RunWalkIff | src/ato_service/analysis_runs.py:465-515 | A client following run cursors gets the first page and then a rejection: all runs exactly when they fit one page |
| RunListing.RestingWalkIff | src/ato_service/analysis_runs.py:484-515 | Over a table at rest a walk by cursor is complete exactly when the cursor of every row that ends a page is accepted back |
| RunListing.MatrixWalkIff | src/ato_service/analysis_runs.py:630-654 | A client following matrix cursors collects the whole matrix exactly when every item id that ends a page has a length that is a multiple of three |
| PageCursors.DecodeEncode | src/ato_service/analysis_runs.py:205-212 | Whole groups of three bytes come back from their base64url text (RFC 4648, section 5) |
| PageCursors.EncodeDecode | src/ato_service/analysis_runs.py:215-219 | Text of the alphabet in whole groups of four is the encoding of what it decodes to |
| PageCursors.EncodeMeaning | src/ato_service/analysis_runs.py:179-181 | Three bytes and their four characters spell the same number in base 256 and base 64; one or two left over are filled with zeros and padded with "=" (RFC 4648, sections 4 and 5) |
| PageCursors.AlphabetIs | src/ato_service/analysis_runs.py:179-181 | The alphabet by code point, capitals, small letters, digits, hyphen, underscore, and its inverse (RFC 4648, section 5) |
| PageCursors.CursorIff | src/ato_service/analysis_runs.py:205-219 | A cursor is printed exactly when it has at most 2048 characters, and its bytes are read exactly when it has 1 to 2048 characters of the alphabet in groups of four and is their encoding |
| PageCursors.CursorDocuments | src/ato_service/analysis_runs.py:187-227 | A cursor yields its item id, or the key of its two texts, exactly when its bytes parse to version 1 with those fields |
| PageCursors.JsonTextMeaning | src/ato_service/analysis_runs.py:179-181 | Text inside the payload is escaped character by character: quotes, backslashes, control characters, and everything outside ASCII as one or two \u escapes |
| PageCursors.PayloadText | src/ato_service/analysis_runs.py:174-209 | The payloads of plain ids and timestamps, byte for byte, with the members in key order |
| PageCursors.PaddingIff | src/ato_service/analysis_runs.py:207-209 | The encoding stays inside the cursor alphabet exactly when no byte is left over (RFC 4648, section 3.2) |
| PageCursors.MatrixCursorRoundTrip | src/ato_service/analysis_runs.py:205-227 | A matrix cursor gives its item id back when the payload length is a multiple of three and is otherwise rejected |
| PageCursors.ItemIdLengthDecides | src/ato_service/db/models.py:1079-1083 | For ids the table admits, that is when the id's length is a multiple of three |
| PageCursors.FormatsAreRunText | src/ato_service/analysis_runs.py:174-184 | A lower-case UUID and a timestamp with microseconds are texts that need no escape, 36 and 27 characters long |
| PageCursors.RunCursorNeverReadable | src/ato_service/analysis_runs.py:174-194 | No run cursor is ever accepted back |
| ContextPacking.PackRankedEntries | src/ato_service/context_budget.py:117-154 | The loop selects the greedy vector's entries, lists the others, and accounts for every token |
| ContextPacking.NextEntry | src/ato_service/context_budget.py:132-145 | An entry ranked last is included exactly when it fits in what the entries before it left, and changes neither their selection nor their cost |
| ContextPacking.GreedyIsOptimal | src/ato_service/context_budget.py:138-145 | With non-negative estimates the choice fits and no choice that fits is lexicographically above it |
| ContextPacking.OptimalIsGreedy | src/ato_service/context_budget.py:138-145 | Nothing else is optimal |
| ContextPacking.GreedyIsMonotone | src/ato_service/context_budget.py:132-145 | A larger budget never gives a lexicographically smaller choice |
| ContextPacking.CompleteIff | src/ato_service/context_budget.py:147-154 | The context is complete exactly when all entries fit together |
| ContextPacking.PartitionsInOrder | src/ato_service/context_budget.py:133-145 | Included and omitted merge back into the input in order |
| ContextPacking.GreedyIsOptimalIff | src/ato_service/context_budget.py:138-145 | For estimates of either sign, the choice is optimal at every budget from any least one up exactly when no negative estimate comes after the running total has exceeded that least budget |
| ContextPacking.BudgetIsLargest | src/ato_service/context_budget.py:80-91 | The budget is the largest count both caps allow, or zero |
| ContextPacking.NoBudgetIff | src/ato_service/context_budget.py:70-82 | Only a target outside (0, 1] is refused |
| ContextPacking.PackedPromptFits | src/ato_service/context_budget.py:52-154 | Estimating, budgeting and packing together keep the prompt within the utilization target and leave the reserved room |
| ContextPacking.TextTokensIsCeiling | src/ato_service/context_budget.py:45-49 | A text costs the fewest four-character tokens that hold it |
| ContextPacking.OnlyEmptyTextIsFree | src/ato_service/context_budget.py:52-67 | Every payload but the empty text costs a token |
| ContextPacking.ContainerTokens | src/ato_service/context_budget.py:52-67 | A list costs what its items cost and an object what its keys and values cost, at least one token each; nulls and scalars cost one |
| JsonPointer.ResolveJsonPointer | src/ato_service/authority_catalog.py:120-157 | The token loop computes Resolved, with the same error in each case |
| JsonPointer.DecodeToken | src/ato_service/authority_catalog.py:373-396 | The escape loop computes Decoded |
| JsonPointer.AcceptedIff | src/ato_service/authority_catalog.py:120-157 | A pointer is accepted exactly when it is empty or starts with a slash, and 0 or 1 follows each tilde (RFC 6901, section 3) |
| JsonPointer.DecodedMeaning | src/ato_service/authority_catalog.py:373-396 | Wherever they stand, ~0 becomes a tilde, ~1 a slash, and every other character stays (RFC 6901, section 4) |
| JsonPointer.DecodesIff | src/ato_service/authority_catalog.py:373-396 | A token decodes exactly when 0 or 1 follows each tilde |
| JsonPointer.StepMeaning | src/ato_service/authority_catalog.py:120-157 | One token against a node: the member with the decoded key or a missing key; the item whose decimal index the token is, a dash, an index out of range or an invalid one; any other node is no container |
| JsonPointer.NoEscapeErrors | src/ato_service/authority_catalog.py:120-157 | A pointer the pattern accepts never reaches a malformed-escape error |
| JsonPointer.Composition | src/ato_service/authority_catalog.py:120-157 | Resolving p + q is resolving q in the result of p, with the same failures |
| JsonPointer.RoundTrip | src/ato_service/authority_catalog.py:120-157 | The printed form of any path to a node is accepted and resolves to that node |
| JsonPointer.ResolvedIsCanonical | src/ato_service/authority_catalog.py:120-157 | Every pointer that resolves is the printed form of exactly one path, to the node it resolves to |
| MigrationHead.LoadRevisions | src/ato_operator/migration_contract.py:24-41 | The map holds the declared revisions, each with its last declaration |
| MigrationHead.HeadIff | src/ato_operator/migration_contract.py:44-58 | For every map, cyclic or not, the answer is h exactly when h is the one revision that no other names as its down_revision |
| MigrationHead.HeadIffLinearHistory | src/ato_operator/migration_contract.py:44-58 | The resolver answers h on an acyclic map exactly when all revisions form one chain from h |
| MigrationHead.HistoryReachesAll | src/ato_operator/migration_contract.py:44-58 | In that chain every revision is reached from h and exactly one has no parent |
| MigrationHead.CycleHidesRevisions | src/ato_operator/migration_contract.py:50-58 | With a cycle beside the chain the resolver still answers |
| EvidenceChunking.ChunkNormalizedText | src/ato_service/evidence_chunking.py:28-80 | Blank text has no chunks; otherwise chunk i covers 6000 characters from 5500 i, and there are one plus the ceiling of (n - 6000) / 5500 of them |
| EvidenceChunking.NormalizeMeaning | src/ato_service/evidence_chunking.py:23-25 | Normalized text has no carriage return, normalizing again changes nothing, and texts without one are unchanged |
| EvidenceChunking.NormalizeLineEnds | src/ato_service/evidence_chunking.py:23-25 | Wherever it stands, a CR LF pair becomes one line feed, a lone carriage return a line feed, and every other character stays |
| EvidenceChunking.NormalizedLength | src/ato_service/evidence_chunking.py:23-25 | The length shrinks by the number of CR LF pairs |
| EvidenceChunking.ChunkFields | src/ato_service/evidence_chunking.py:53-80 | Chunk i starts at 5500 i, ends 6000 further on or with the text, holds the text between, and its id is the digest of source digest, start, end and that text with colons between; the count is the least that reaches the end |
| EvidenceChunking.ChunkShape | src/ato_service/evidence_chunking.py:53-80 | Chunks run to the end of the text, are at most 6000 long, overlap by exactly 500 and each adds text |
| EvidenceChunking.Reassembly | src/ato_service/evidence_chunking.py:53-80 | The first chunk followed by the others minus 500 characters is the text |
| EvidenceChunking.ChunkCitationsValidate | src/ato_service/citation_validation.py:174-194 | Every chunk of a normalized source under a version-4 id yields a citation that carries its id and validates |
| EvidenceChunking.ChunkIdsAgreeIff | src/ato_service/evidence_chunking.py:34-79 | Chunk ids and citation ids agree throughout exactly when the source has no carriage return |
| Citations.ValidateCitations | src/ato_service/citation_validation.py:94-101 | Accepts exactly when every citation is valid and otherwise reports the error of the first that is not |
| Citations.AcceptedIff | src/ato_service/citation_validation.py:104-160 | Any evidence citation is valid exactly when its id is a version-4 UUID that names a source, under its lower-case form or else its own, its digest is that source's and well formed, its offsets select text of it, and its chunk id is the digest of those values; the other two kinds exactly when the digest is well formed and there is no chunk id |
| Citations.ErrorOrder | src/ato_service/citation_validation.py:104-160 | Which error a citation gets, on its fields: the first failing check in the order kind, digest form, id, source, digest, offsets, chunk id |
| Citations.BuiltFields | src/ato_service/citation_validation.py:174-194 | A built citation carries kind, lower-case id, digest and offsets, and the chunk id of the text they select |
| Citations.PayloadInjective | src/ato_service/citation_validation.py:31-33 | The chunk id payload determines digest, offsets and excerpt |
| Citations.ChunkIdBinds | src/ato_service/citation_validation.py:117-150 | Two accepted evidence citations with one chunk id cite the same digest, offsets and excerpt |
| Citations.BuiltCitationValidatesIff | src/ato_service/citation_validation.py:104-194 | A built citation validates exactly when the digest and id have the accepted form and the offsets select text |
| ChecksumManifest.ParseChecksumManifest | src/ato_operator/release_packaging.py:235-252 | The line loop computes Parse, whose answers ParseMeaning gives |
| ChecksumManifest.ParseMeaning | src/ato_operator/release_packaging.py:235-252 | A manifest is accepted exactly when every stripped line is empty, a comment, or 64 lower-case hex digits, two whitespace characters and a relative path without ".." that no earlier entry line has; the entries are then those of the entry lines in order, and otherwise the error is that of the first other line, with its number or path and kind |
| ChecksumManifest.LineEnds | src/ato_operator/release_packaging.py:237 | A line runs to the first of ten boundary characters, and CR LF is one boundary |
| ChecksumManifest.RenderMeaning | src/ato_operator/release_packaging.py:230-232 | One line per entry in path order, digest, two spaces and path, with a line feed between any two and at the end |
| ChecksumManifest.RoundTripIff | src/ato_operator/release_packaging.py:230-252 | Parsing a rendered manifest gives its entries back exactly when every path is safe, on one line and without trailing whitespace |
| ChecksumManifest.ParseLinesClean | src/ato_operator/release_packaging.py:235-252 | Whatever the payload, parsed entries have distinct, clean paths and well-formed digests |
| ChecksumManifest.ChecksumSection | src/ato_operator/release_packaging.py:837-857 | Reports exactly the missing, mismatched and unrecorded payload paths, the recorded ones in their order and then the others in path order, and nothing when it is switched off |
| ChecksumManifest.ReportedMeaning | src/ato_operator/release_packaging.py:837-857 | Outside release/, a recorded path that no member has is missing, one whose member has another digest is a mismatch, and a member that is not recorded is extra |
| ChecksumManifest.DetectsEveryChange | src/ato_operator/release_packaging.py:510-553 | Built, printed, parsed and compared: silence means the received payload is the built one, path for path and byte for byte |
| ContentManifest.ValidateSourceEntries | src/ato_service/content_manifests.py:254-323 | Accepts exactly the lists with well-formed entries, distinct ids and keys, and sizes within the limits, and otherwise reports the first problem of the first bad entry |
| ContentManifest.ProblemMeaning | src/ato_service/content_manifests.py:254-323 | The problem of an entry on its fields: malformed, an id or a storage key of an earlier entry, or sizes so far over the package limit, the first that holds |
| ContentManifest.WellFormedIff | src/ato_service/content_manifests.py:254-323 | Well-formed: a version-4 UUID in either case, 64 hex digits, a key of two of them, a slash and all of them, and a size from one byte to the limit |
| ContentManifest.DocumentMeaning | src/ato_service/content_manifests.py:437-454 | The document has the revision and the same entries by ascending lower-case id |
| ContentManifest.OrderIndependentIff | src/ato_service/content_manifests.py:437-454 | The document is independent of entry order exactly when ids stay distinct under case folding |
| ContentManifest.SortByStable | src/ato_service/content_manifests.py:448 | Sorting keeps the order of entries whose folded ids agree |
| ContentManifest.ManifestStore.WriteContentManifest | src/ato_service/content_manifests.py:86-187 | Succeeds exactly for valid entries, a version-4 revision, blobs under each storage key with the size and digest, and no different manifest unless it may be replaced; stores the document's bytes, and otherwise changes nothing and reports the first of these that fails |
| ContentManifest.WriteOnce | src/ato_service/content_manifests.py:139-150 | Over any sequence of writes without the replace flag a stored manifest never changes, and it is the first one written |
| ContentManifest.KeepsIff | src/ato_service/content_manifests.py:139-187 | Over any sequence of writes, with or without the flag, a stored manifest is kept throughout exactly when every replacing write of its revision carries the same bytes |
| PackageFinalize.AlwaysMatchesIff | src/ato_service/package_revisions.py:1175-1245 | In every run of finalize calls the stored manifest has the recorded digest exactly when: without crashes, calls are serialized and never abandoned while their writer runs, or offer the same bytes; with crashes, they are serialized and never so abandoned, directory syncs never fail and the revision's directory is kept |
| PackageFinalize.RecordedIsFinalIff | src/ato_service/package_revisions.py:1205-1246 | Under the row lock, a revision with a recorded digest never changes again exactly when every writer left behind by an abandoned call is past its rename or carries the stored bytes, and a crash would leave those bytes |
| PackageFinalize.RecordedIsFinal | src/ato_service/package_revisions.py:1205-1246 | With no writer left behind, once the row records a digest neither row nor file changes again and the file has that digest, across later calls and a crash at any point |
| PackageFinalize.OverlapReplaces | src/ato_service/package_revisions.py:1225-1236 | Without serialization, or under the lock with an abandoned writer thread, one call stores its file over the one another has recorded |
| PackageFinalize.RetryKeepsUnsynced | src/ato_service/content_manifests.py:139-146 | A retry after a failed directory sync keeps the identical file, commits, and a crash takes the file |

## Left out

- Append: the field validators (patterns, lengths, secret scanning of metadata) run before the append and are not modelled; the id is a fresh UUID.
- VerifyEvents: the constant genesis and scope fields and the detail text of the report are not modelled, nor is the error for an HMAC key under 32 bytes.
- VerifySession: every batch is one statement; a batch itself sees one state of the table.
- TamperEvidence: the HMAC takes the payload as a record, so canonical JSON, the text form of timestamps and SHA-256 are inside the parameter.
- RunPurge: the closing audit append is reduced to whether it succeeds, and no other transaction changes the selected rows between its statements, as their row locks ensure.
- DrainEqualsPurgeAll: stated for runs in which no row is locked by another session and `now` does not move.
- StoreStream: file permissions, symbolic-link checks and I/O errors other than crashes and failing directory syncs are not modelled; nothing else deletes or writes blobs.
- AdmissionSafety: the limit is one constant; authorization, the idempotency replay, profile checks and job leasing are not modelled.
- MatrixCursorRoundTrip: the JSON parser is a parameter that reads this payload back; timestamps before the year 1000 are not modelled.
- RunListing.ListRuns: authorization, the lookup of the package revision and the row-to-document mapping are not modelled.
- RunListing.MatrixWalkIff: item ids are ordered by integer ranks standing for the database's collation order; the table does not change between pages.
- RunAdmission.RunTable.CancelRun: whether a locking read refreshes an object the session has already loaded is a parameter, since it is the object-relational library's behaviour.
- PackageFinalize: other transitions out of the uploading state, the idempotency replay and the artifact rows are not modelled; each call offers arbitrary bytes.
- InputBudget: the utilization target is a real number, so floating-point rounding of the cap is not modelled.
- ResolveJsonPointer: array indices use ASCII digits only; the other digits that `str.isdigit` accepts are not modelled.
- LoadRevisions: the two regular expressions over script text are not modelled; a merge revision's tuple counts, as in the code, as no down_revision.
- DeriveChunkId: UTF-8 encoding is inside the digest parameter, and boolean offsets, which Python counts as integers, are not modelled.
- ChecksumSection: tar and gzip reading, signatures, secret scanning, the allowlist and the other sections of archive verification are not modelled.
- WriteContentManifest: JSON Schema validation and staging-file errors are not modelled, and the blob area is read as a map.
- build_sealed_citable_sources, redaction of reports and calendar arithmetic for the retention cutoff: plain data mapping.
- HTTP routes, OIDC, sessions, the portal, document builders, preflight probes and migration scripts: I/O, markup or static data.
