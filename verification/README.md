# A verified model of the audit ledger and its neighbours

The audit store (`packages/audit/src`) keeps hash-chained records in exclusive segment files. A writer appends records,
rotates by ledger and month, gives a segment up when a write or a sync fails, and closes a segment with a checkpoint that
is renamed into place. A verifier, written apart from the writer, reads a segment back in 64 KiB chunks, splits it into
lines, recomputes the chain and compares the checkpoint. This project models both halves and proves that they agree on
every file that any serial sequence of calls can leave behind, with a failure at any step and a power cut at any byte that
was not synced. Around that core it models six pure pieces of the repository that promise a round trip, an injection or an
exact count.

`dafny verify dfyconfig.toml` checks the whole project.

## How the model is laid out

- `Text`, `JsonText`, `Json`, `Canonical`, `PrettyJson`: UTF-16 strings and UTF-8, JSON values, `JSON.stringify` with and
  without indentation, and the canonical text a record is hashed by. Each printer is proved uniquely decodable, so the
  assumptions made of `JSON.parse` can be met (`LawfulLibraries`, `Goldens.DependableConsistent`).
- `JsonReader`: a reader written from the grammar of JSON, apart from the printers, that gives back what they print.
- `Chain`, `Verify`, `VerifyLaws`: the chain hash, the chunked scanner and its one-pass specification, and what an accepted
  file tells.
- `SegmentNames`, `SegmentLogs`, `Disk`, `Ledger` (module `AuditLedger`), `LedgerRuns`: file names, what a segment file
  holds at any moment, the disk, the writer class, and whole runs of it.
- `Sanitize`: the attribute sanitizer over object graphs with cycles.
- `Endpoints`, `DocLane`, `Artifacts`, `SessionNames`, `Pointers`, `Still`, `Goldens`: pipe names, lane frames, fold keys
  and root URLs, session names, JSON pointers, still measurement, and blessing and holding stills.

Code that updates state in the source is imperative here: the writer and its segments are classes, the verifier, the
sanitizer, the hash, the frame encoder and the still measurement are methods with loops, and each is proved against a
function of its inputs. The rest is functions and lemmas.

## What is assumed

- Libraries are values (`Chain.Platform`, `Goldens.Libraries`) with laws (`Chain.Lawful`, `Goldens.Dependable`): a digest is
  64 hex digits; what the schema stores is an object that its own line, within the record cap, parses back to, up to key
  order; a small printed JSON file parses back. The laws ask this only of values whose numbers are texts that JavaScript
  prints numbers as (`numeral`). Of those texts they say that they have the shape of a number and at most 32 units, and
  that every count up to 2^53 has its decimal text; a parser is free to refuse every other text, such as a lone minus.
  `LawfulLibraries.LawsConsistent` and `Goldens.DependableConsistent` prove that the laws can hold beside such a refusal.
- SHA-256 is never assumed injective, which no 64-digit hash is. `VerifyLaws.OneLastHashOneHistory` needs only that no two
  of the records it is about are a collision (`Chain.NoCollision`); checkpoint results are stated on digests.
- Incremental hash updates are the hash of the concatenation.
- A disk step (`Disk`) may fail at any point. A write may land any prefix and then fail. A create is exclusive and a rename
  is all or nothing. A process that dies at a step leaves what a run leaves in which that step and all later ones fail. A
  power cut keeps any prefix of a file that is at least its synced bytes.
- Calls on a writer are serial, as its callers must keep them: `append` reads `lastHash` at line 280 of
  `packages/audit/src/index.ts` and sets it at line 317 with awaits between.
- When a writer is made, no checkpoint and no partial checkpoint on disk stands beside a segment that is missing. If one
  did, a new segment could take that name and be refused against it, or not get a checkpoint of its own.
- `Disk.failures` counts the steps that failed. What a writer answers where none does is exact (`AuditLedgerWriter.Answer`).

## Findings

Where the code and its documentation part, the model follows the code.

- `bytes` of a refusal depends on how reads split the file, where a line refuses it: it is then the first place where a
  read ends at or beyond the bytes that settle the verdict (`VerifyLaws.ReadExact`). Two splits agree exactly when these
  places do (`VerifyLaws.SplitsAgree`), and for one file they do not (`VerifyLaws.BytesDependOnReads`). The rest of the
  verdict, and `bytes` of every other answer, depend on the file alone.
- From the year 10000 on a period is a whole year: the month is cut off (`SegmentNames.PeriodExact` gives the exact rule).
- `clipWords` exceeds its bound for every bound below one, except for the empty string at zero (`SessionNames.ClipBound`).
- A still of no pixels counts as steady beside a second draw of another size (`Still.SteadyExact`). It is still refused, as
  blank.
- Two stills share a golden key when colons in a state's name move across the colon between kind and state
  (`Goldens.StillKeyExact`, `Goldens.StillKeysCollide`); the later draw then replaces the earlier one's row, and the earlier
  is held to it (`Goldens.HeldExact`).

## Model

| member | source | states |
|---|---|---|
| `LedgerRuns.Run` | packages/audit/src/index.ts:275-336 | Crash consistency over any serial sequence of appends and closes with any failures: every segment ever opened, up to the scan cap, is recoverable at every cut at or beyond its synced bytes; the log holds exactly the answered records, path by path in order; files of other writers and segments given up or closed before are untouched; a new segment file outside the log is empty. Where no step failed, an append erred only for a cause of its own, every answered record names the last answered one of its ledger and period, every segment of the run that left the map has its checkpoint, and after a close the verifier answers `checkpointed` for each that holds records |
| `LedgerRuns.NextNamesLast` | packages/audit/src/index.ts:280-320 | On the answers alone: of two answered appends to one ledger and period, with no close and nothing that touches them between, the second names the first's `recordHash` |
| `LedgerRuns.SettledCheckpointed` | packages/audit/src/index.ts:387-390 | Where every segment of a run is settled and none is open, the verifier answers `checkpointed` for each that holds records |
| `LedgerRuns.LogRecoverable` | packages/audit/src/verify.ts:99-161 | Any disk that the writer's log describes is recoverable: the verifier's verdict on each cut of each segment is the one the history calls for |
| `SegmentLogs.SegmentVerdict` | packages/audit/src/verify.ts:99-161 | For one segment: valid with all acknowledged records, or with one more, or `partial-line` exactly when a proper non-empty part of a further line is there; never a broken chain, a bad record or a long line; checkpointed exactly when the checkpoint was placed |
| `SegmentLogs.CheckpointAccepted` | packages/audit/src/verify.ts:143-161 | The checkpoint a close writes is the one the verifier recomputes: counts, size, both hashes and the file digest agree |
| `SegmentLogs.CheckpointFits` | packages/audit/src/verify.ts:143 | Every checkpoint the writer can make is under the verifier's 8 KiB cap |
| `SegmentLogs.TamperedRefused` | packages/audit/src/verify.ts:150-159 | A closed segment beside its own checkpoint with any one of the seven compared members replaced by another value is a checkpoint mismatch |
| `AuditLedger.AuditLedgerWriter.constructor` | packages/audit/src/index.ts:256-269 | A new writer has no open segment, is not closed, and keeps the class invariant |
| `AuditLedger.AuditLedgerWriter.Append` | packages/audit/src/index.ts:275-321 | An answer means one more acknowledged record, in a segment of the ledger and month its action and time route to; that segment is open afterwards with the record's hash as its last, and the record follows the one it had before; every other ledger's segment is the one it was. An error acknowledges nothing; a closed writer always refuses; no old segment is continued, no acknowledged record lost, and where no step failed no segment that left the map lacks its checkpoint. Where no step of the disk fails the answer is exactly `Answer`: refused for being closed, for the schema, the time, a value that is no JSON, a line too long or names used up, each exactly on its cause, else the sealed record |
| `AuditLedger.AuditLedgerWriter.AppendRouted` | packages/audit/src/index.ts:278-320 | The same from the route on: without a failed step the record follows the last hash of the segment that serves the period, or starts a new one |
| `AuditLedger.AuditLedgerWriter.AppendTo` | packages/audit/src/index.ts:280-297 | The answered record names the open segment's last hash as its predecessor's and is its last hash afterwards; a refusal for being no JSON or too long leaves the segment as it was; without a failed step there is no other |
| `AuditLedger.AuditLedgerWriter.WriteRecord` | packages/audit/src/index.ts:298-320 | Success, exactly where no step failed, acknowledges this record in this segment; a failed hook, write or sync gives the segment up with a prefix of one line more, and leaves the other ledgers' segments open |
| `AuditLedger.AuditLedgerWriter.WriteSynced` | packages/audit/src/index.ts:298-314 | A prefix of the line lands; it is whole and synced exactly where no step failed |
| `AuditLedger.AuditLedgerWriter.GiveUp` | packages/audit/src/index.ts:301-316 | After a failed write or sync the segment holds its acknowledged lines and a prefix of one further line, and is out of the map |
| `AuditLedger.AuditLedgerWriter.Acknowledge` | packages/audit/src/index.ts:317-320 | After a synced line the fields describe the acknowledged prefix with the record at its end |
| `AuditLedger.Segment.Add` | packages/audit/src/index.ts:315-319 | `firstHash`, `lastHash`, `records`, `bytes` and the running hash move together past one record |
| `AuditLedger.AuditLedgerWriter.WriteAll` | packages/audit/src/index.ts:441-452 | The loop appends a prefix of the line and nothing else; the whole of it exactly where no write failed or made no progress |
| `AuditLedger.AuditLedgerWriter.Abandon` | packages/audit/src/index.ts:478-486 | An abandoned segment leaves the map; the other ledgers keep theirs |
| `AuditLedger.AuditLedgerWriter.SegmentFor` | packages/audit/src/index.ts:383-439 | The segment answered is open, the ledger's only one, and of the asked period; it has the last hash it had, or none when it is new; opening it continues no file, and without a failed step what it replaced has its checkpoint; without a failed step it is refused only where a new one is needed and every name is taken |
| `AuditLedger.AuditLedgerWriter.Rotate` | packages/audit/src/index.ts:387-438 | A ledger whose segment is of another period, or that has none, gets a new one with no last hash, unless a step fails or every name is taken; without a failed step the segment rotated away has its checkpoint |
| `AuditLedger.AuditLedgerWriter.OpenSegment` | packages/audit/src/index.ts:391-438 | The new segment has the first name from the remembered sequence on that no file has, and the next search of that ledger and period starts after it; the search ends within 10,000 names, and is exhausted exactly, where no step fails, when a file stands at every one of them |
| `AuditLedger.AuditLedgerWriter.TryName` | packages/audit/src/index.ts:394-436 | A name is taken only where no file was; where one is, nothing changes |
| `AuditLedger.AuditLedgerWriter.CloseSegment` | packages/audit/src/index.ts:488-545 | Whichever step fails, the segment's entry is as it was or has its checkpoint complete; the close answers well exactly where no step failed, and then a segment with records has its checkpoint; segment files are not touched |
| `AuditLedger.AuditLedgerWriter.WriteCheckpoint` | packages/audit/src/index.ts:503-544 | The checkpoint path holds nothing or the whole, synced content; nothing but it and its partial changes |
| `AuditLedger.AuditLedgerWriter.Retire` | packages/audit/src/index.ts:387-390 | Rotation closes the ledger's segment and keeps every other |
| `AuditLedger.AuditLedgerWriter.Close` | packages/audit/src/index.ts:323-336 | No segment is open afterwards and no append succeeds; it answers well exactly where no step failed; of the segments with records that were open, at most as many lack their checkpoint as steps failed; closing again changes nothing |
| `AuditLedger.EntryTorn` | packages/audit/src/index.ts:298-316 | A prefix of the next line on disk is a state the log can describe |
| `AuditLedger.EntryAcked` | packages/audit/src/index.ts:308-319 | A synced line on disk is the log with one more acknowledged record |
| `AuditLedger.EntryCheckpointed` | packages/audit/src/index.ts:488-545 | Closing leaves a disk that the log describes, with the checkpoint placed or not |
| `Verify.VerifyAuditSegment` | packages/audit/src/verify.ts:71-175 | The answer for every file and every way reads split it, exactly: the one-pass verdict once the reads reach the bytes that settle it, `partial-line` or `unsafe-file` only for an empty or a failed read that they reach before |
| `Verify.ScanFile` | packages/audit/src/verify.ts:92-141 | The read loop's records, digest input, reason and stop position are those of one pass read up to the first boundary that settles it |
| `Verify.ReachedExact` | packages/audit/src/verify.ts:99-105 | Reading up to a target stops at the first place from the target on where a read ends |
| `Verify.StuckExact` | packages/audit/src/verify.ts:99-102 | Reading is cut short, or fails, exactly by an empty, or a throwing, read at a place that the reads before it reach, before the target |
| `VerifyLaws.DecisionExact` | packages/audit/src/verify.ts:110-138 | A file cut to its first `k` bytes is condemned exactly when the whole file is and `k` reaches the bytes that settle it, and then for the same reason |
| `VerifyLaws.ReadToEnd` | packages/audit/src/verify.ts:99-141 | A file that no line condemns is read to its end |
| `VerifyLaws.ReadExact` | packages/audit/src/verify.ts:92-169 | However reads split a file, the verdict is the one-pass verdict, and `bytes` is the file's size, or none after the outer catch, or, where a line refused it, the first read boundary at or beyond the settling bytes |
| `VerifyLaws.ReadsStuck` | packages/audit/src/verify.ts:99-102 | An empty read before the settling bytes reads as a partial line there, one that throws as `unsafe-file` |
| `VerifyLaws.SplitsAgree` | packages/audit/src/verify.ts:112-138 | Two splits of a file that a line refuses give one answer exactly when their first boundaries from the settling bytes on are one |
| `VerifyLaws.BytesDependOnReads` | packages/audit/src/verify.ts:136-138 | One file and two splits with different `bytes` |
| `Verify.DrainLines` | packages/audit/src/verify.ts:110-135 | The inner loop's lines are the one pass's next lines, whatever bytes are still to come |
| `Verify.LineInFront` | packages/audit/src/verify.ts:110-134 | A line can be judged as soon as its newline is seen |
| `Verify.OversizedEitherWay` | packages/audit/src/verify.ts:112-138 | The length test before the newline is seen agrees with the one after |
| `Verify.ScanIsCheckLines` | packages/audit/src/verify.ts:92-141 | One pass over the bytes is splitting at newlines and checking each line in order |
| `Verify.ThroughExact` | packages/audit/src/verify.ts:112-132 | Lines get through exactly when nothing follows the last newline, each is within the cap and parses, and the records chain |
| `VerifyLaws.ValidExact` | packages/audit/src/verify.ts:92-169 | A file under the cap, without a checkpoint, is valid with records `rs` exactly when it is newline-ended lines that read as `rs` and `rs` is a chain |
| `VerifyLaws.RefusedExact` | packages/audit/src/verify.ts:99-141 | A file is refused for a reason exactly when, after some lines that read and chain, the next line or the tail fails for it: too long, not a record, not linked, or unfinished; what parses never ends in `unsafe-file` |
| `VerifyLaws.OneLastHashOneHistory` | packages/audit/src/verify.ts:123-132 | Two accepted files share their last hash exactly when they hold the same records in the same order up to key order, unless two of those records collide |
| `VerifyLaws.TruncationNeedsCheckpoint` | packages/audit/src/verify.ts:143-161 | Every record-boundary prefix of a valid file is valid without a checkpoint; every proper one is refused beside the whole file's checkpoint |
| `VerifyLaws.CheckpointPins` | packages/audit/src/verify.ts:150-159 | One checkpoint agrees with one record count, size, digest, first hash and last hash |
| `VerifyLaws.AnswerExact` | packages/audit/src/verify.ts:130-169 | A valid answer's `firstHash` is its first record's hash and `lastHash` its last one's, or both none without records; `bytes` is the file's size |
| `VerifyLaws.CheckpointVerdicts` | packages/audit/src/verify.ts:143-161 | Beside good lines: no checkpoint leaves the file valid and not checkpointed; one that is too large, does not parse or is no object is exactly an `invalid-checkpoint`; any other either agrees or mismatches |
| `VerifyLaws.CheckpointPinsFile` | packages/audit/src/verify.ts:143-161 | Two files accepted beside one checkpoint have one size, one digest and equally many records |
| `Chain.PreimageUnique` | packages/audit/src/model.ts:40-47 | The hashed bytes determine the previous hash and the canonical text: the parts cannot be moved into one another |
| `Chain.LastHashBinds` | packages/audit/src/model.ts:40-47 | Two chains with one last hash have one history of one length, unless two of their records collide |
| `Chain.HistoryDetermines` | packages/audit/src/model.ts:40-47 | The same bases in the same order give the same hashes, whatever their key order |
| `Chain.LineBodyIsOneLine` | packages/audit/src/index.ts:282-290 | A record's line holds no newline inside, for any strings in it |
| `Canonical.CanonicalExact` | packages/audit/src/model.ts:24-38 | Two values print canonically alike exactly when they are equal as values: objects as maps, any nesting, any key order |
| `Canonical.CanonicalIsCompactNormal` | packages/audit/src/model.ts:24-38 | The canonical text is the compact text of the value with every object's keys sorted |
| `JsonReader.CanonicalRead` | packages/audit/src/model.ts:24-38 | A reader of the JSON grammar, which never calls the printer, makes of canonical text a value with the same meaning, every object's keys in ascending order |
| `Canonical.SortSorted` | packages/audit/src/model.ts:34-35 | Sorting keys gives strictly ascending keys by code unit, section 3.2.3 of RFC 8785, and only the given members |
| `Canonical.BeforeExact` | packages/audit/src/model.ts:34-35 | That order is by the first code unit that differs, and a prefix is before what it starts |
| `Json.CompactUnique` | packages/audit/src/model.ts:24-38 | Unique decodability: in any text that starts with a value's text, the value and where it ends are determined |
| `JsonText.QuoteUnique` | packages/audit/src/model.ts:28 | A printed string determines the string and what follows it |
| `JsonReader.StringRead` | packages/audit/src/model.ts:28 | A reader of quoted strings written from section 7 of RFC 8259 gives every string back from its printed form, whatever follows |
| `JsonReader.EscapeForm` | packages/audit/src/model.ts:28 | A unit stands for itself exactly where the grammar needs no escape and it is no lone surrogate, has a letter exactly where there is one, but for the solidus, and hex digits otherwise |
| `JsonReader.CompactRead` | packages/audit/src/model.ts:24-38 | A grammar reader gives every valid plain value back from its compact text, members in order, and leaves what follows |
| `JsonReader.TextRead` | packages/audit/src/model.ts:24-38 | Compact text is JSON of the value and of nothing more |
| `Text.DecodeEncodePoint` | packages/audit/src/index.ts:290 | The UTF-8 bytes of a code point give it back, decoded as section 3 of RFC 3629 says |
| `LawfulLibraries.LineInjective` | packages/audit/src/index.ts:282-290 | A stored line determines its base, its previous hash and its hash |
| `LawfulLibraries.LawsConsistent` | packages/audit/src/verify.ts:113-124 | The laws assumed of parser, schema and digest can all hold, of a parser that refuses what is no number |
| `SegmentNames.LedgerExact` | packages/audit/src/index.ts:114-119 | Each ledger takes exactly the actions of its families, the last one the rest |
| `SegmentNames.PeriodExact` | packages/audit/src/index.ts:106-108 | Two times share a period exactly when they share year and month, or a year past 9999 |
| `SegmentNames.PeriodShape` | packages/audit/src/index.ts:106-108 | A period is four digits of the year, a dash and two digits of the month; past 9999 a plus sign and six digits of the year |
| `SegmentNames.SafeBootIdExact` | packages/audit/src/index.ts:110-112 | Safe units stay where they were, 64 at most, with an underscore for each other; the id stays as it is exactly when it was a safe name of 1 to 64 units; an empty one is `unknown` |
| `SegmentLogs.SafeBootIdFits` | packages/audit/src/index.ts:110-112 | The boot id a writer makes of any value meets what its names and checkpoints need |
| `SegmentNames.SegmentPathInjective` | packages/audit/src/index.ts:394-395 | A segment's name determines its ledger, period, boot and sequence |
| `SegmentNames.PathKinds` | packages/audit/src/index.ts:503-504 | Segments, checkpoints and partial checkpoints never share a path |
| `Sanitize.SanitizeValue` | packages/audit/src/index.ts:148-194 | Terminates on any graph, computes the specified copy, and restores the ancestor set on every exit; at each position the result is what the walk of the graph ends at there: that value, number, scrubbed string, or the marker for what it is |
| `Sanitize.SanitizeProps` | packages/audit/src/index.ts:177-188 | The property loop keeps the first 32 allowed data properties, in order |
| `Sanitize.CopyBounded` | packages/audit/src/index.ts:158-187 | At most 4 containers nest, each with at most 32 entries, with allowed keys only at every level |
| `Sanitize.EntriesExact` | packages/audit/src/index.ts:163-188 | Nothing that may stay is dropped: the first 32 places of an array, empty and computed ones as sparse, and exactly the first 32 enumerable data properties with allowed keys, in order |
| `Sanitize.CopyAt` | packages/audit/src/index.ts:159-193 | Each position of the copy shows the value at that position of the graph, below exactly the objects on the way: shared nodes are copied |
| `Sanitize.CopyShowsAll` | packages/audit/src/index.ts:154-193 | By position: null, booleans and numbers as they are, strings scrubbed, a marker for what is not finite, of another type, too deep, circular, unreadable or no plain object |
| `Sanitize.CopyStrings` | packages/audit/src/index.ts:154-193 | Any property of all scrubbed strings and of the markers is a property of every string value in a copy |
| `Sanitize.CircularExact` | packages/audit/src/index.ts:158-160 | `[circular]` stands exactly for an object on its own path above the depth cap |
| `Sanitize.SanitizeAuditAttrs` | packages/audit/src/index.ts:196-215 | Nothing, or the longest non-empty prefix of the copy's members whose JSON fits 8 KiB; nothing only where no non-empty prefix fits. Each position shows the graph's value there, and what holds of every scrubbed string and of the markers holds of every string value in the answer |
| `Endpoints.StepBijective` | packages/contracts/src/endpoints.ts:36-39 | One FNV-1a step with a byte is a bijection of 64-bit states, with its inverse |
| `Endpoints.StepExact` | packages/contracts/src/endpoints.ts:36-39 | From the bits: a step is the state that differs from the last exactly where the byte has a bit, times the 64-bit FNV prime, modulo 2^64 |
| `Endpoints.StepTellsBytes` | packages/contracts/src/endpoints.ts:36-39 | From one state two different bytes lead to two different states |
| `Endpoints.SuffixKeepsApart` | packages/contracts/src/endpoints.ts:36-39 | A common suffix never merges two states |
| `Endpoints.Fnv1a64` | packages/contracts/src/endpoints.ts:33-40 | The loop computes the fold of the step over the bytes |
| `Endpoints.OneByteApart` | packages/contracts/src/endpoints.ts:33-41 | Inputs of one length that differ in one byte have different hashes |
| `Endpoints.ScopeExact` | packages/contracts/src/endpoints.ts:40 | A scope is 16 hex digits and tells its state |
| `Endpoints.RootsOneByteApart` | packages/contracts/src/endpoints.ts:59-61 | Data roots whose canonical forms differ in exactly one byte get different 16-digit scopes |
| `Endpoints.CanonicalDataRootForScope` | packages/contracts/src/endpoints.ts:47-56 | The two loops compute the canonical form |
| `Endpoints.CanonicalRootExact` | packages/contracts/src/endpoints.ts:43-56 | The form has no backslash, upper-case ASCII letter or trailing slash, and its fixed points are exactly such strings |
| `Endpoints.SpellingsExact` | packages/contracts/src/endpoints.ts:43-56 | Two spellings have one form exactly when, their slashes at the end aside, they are apart in nothing but ASCII case and the kind of slash |
| `Endpoints.SpellingsAgree` | packages/contracts/src/endpoints.ts:43-56 | Spellings apart in ASCII case, kind of slash and a slash at the end have one form |
| `Endpoints.EndpointExact` | packages/contracts/src/endpoints.ts:67-73 | One pipe name has one scope and one socket file |
| `Endpoints.CellExact` | packages/contracts/src/endpoints.ts:90-98 | A cell's file name tells its socket and instance, and is never the socket's own |
| `DocLane.EncodeLaneFrame` | packages/contracts/src/doclane.ts:53-64 | The buffer filled in place is kind, eight big-endian bytes of the lane id, and payload; it refuses exactly kinds and ids out of range |
| `DocLane.SetBigUint64` | packages/contracts/src/doclane.ts:61 | Eight bytes of the buffer become the value, big-endian; the others stay |
| `DocLane.FrameLayout` | packages/contracts/src/doclane.ts:53-64 | Where the parts stand: the kind first, the lane id's eight bytes from the most significant on, then the payload |
| `DocLane.DecodeEncode` | packages/contracts/src/doclane.ts:53-81 | Decoding an encoded frame gives its kind, lane id and payload back |
| `DocLane.EncodeDecode` | packages/contracts/src/doclane.ts:53-81 | The decoder accepts exactly the encodings, and encoding what it reads gives the same bytes |
| `Artifacts.FoldKeyExact` | packages/contracts/src/artifacts.ts:441-455 | Two parsed rows fold exactly when they take one form and agree on its parts, whatever colons these hold |
| `Artifacts.DnsExact` | packages/contracts/src/artifacts.ts:278-286 | The accepted hosts are exactly the dotted sequences of two or more labels of 1 to 63 allowed units, at most 253 in all (section 2.3.4 of RFC 1035) |
| `Artifacts.ClaimExact` | packages/contracts/src/artifacts.ts:295-318 | A string is accepted with a host and port exactly when it is their printed URL with an optional slash, the host canonical and the port in range |
| `SessionNames.ClipBound` | packages/contracts/src/session-name.ts:10-16 | The bound is kept exactly for positive bounds, and for the empty string at zero |
| `SessionNames.ClipExceedsZero` | packages/contracts/src/session-name.ts:10-16 | One unit cut to none becomes one unit |
| `SessionNames.ClipWellFormed` | packages/contracts/src/session-name.ts:10-16 | Clipping never leaves half a surrogate pair: the result is the whole string, or an ellipsis after the longest well-formed prefix that leaves room for it |
| `SessionNames.CollapseExact` | packages/contracts/src/session-name.ts:19 | The result is words with single spaces and none at the ends, and exactly such strings stay as they are |
| `SessionNames.CollapseJoins` | packages/contracts/src/session-name.ts:19 | The result is exactly the words, in order, with one space between |
| `SessionNames.OneLineIdempotent` | packages/contracts/src/session-name.ts:22 | Making one line of one line changes nothing, for any bound |
| `SessionNames.SessionNameExact` | packages/contracts/src/session-name.ts:42-51 | A name is one line within the bound: the words of the title, else the label in its folder, else the label, else the id; whole exactly where they fit, else clipped |
| `Pointers.UnescapeEscape` | apps/plugin-playground/src/verdict.ts:224-226 | `~1` then `~0` undo the escaping (section 4 of RFC 6901), and an escaped segment has no slash |
| `Pointers.ParsePrinted` | apps/plugin-playground/src/verdict.ts:224-226 | Reading a printed pointer gives its segments back |
| `Pointers.PointerInjective` | apps/plugin-playground/src/verdict.ts:224-226 | Different segment lists print differently |
| `Still.MeasureStill` | apps/plugin-playground/src/still.ts:206-251 | The nested loop counts five pixel sets, for every image size |
| `Still.MeasureWithin` | apps/plugin-playground/src/still.ts:234-247 | `drawn` is at most `box` and `past` at most `beyond` |
| `Still.SteadyExact` | apps/plugin-playground/src/still.ts:219-249 | No pixel is unsteady exactly when the draws are identical, or the first is empty and the sizes differ |
| `Still.EmptyStillPassesAsSteady` | apps/plugin-playground/src/still.ts:249 | An empty still beside a draw of another size counts as steady |
| `Still.FrameExact` | apps/plugin-playground/src/still.ts:156-174 | The frame holds the reach with 16 units to spare, the reach holds the box, the box has the object's size and stands in the middle, the object is centred on the origin |
| `Still.FrameApart` | apps/plugin-playground/src/still.ts:156-174 | In any frame of `stillFrame` at a pixel ratio that is not negative, no pixel is both in the box and beyond the reach |
| `Still.BoxSize` | apps/plugin-playground/src/still.ts:234-247 | `box` is as many columns as have their centres between the box's sides times as many rows; `beyond` is all pixels but those of the reach with one pixel more on every side |
| `Still.WholeBox` | apps/plugin-playground/src/still.ts:156-174 | For whole sizes at a whole pixel ratio, in a still that holds the frame, `box` is the object's size in pixels |
| `Still.BlankExact` | apps/plugin-playground/src/still.ts:195-247 | `drawn` is zero exactly when every pixel with its centre in the box has its three colour bytes within 8 of the mat's, and `past` exactly when every pixel more than one off the reach has |
| `PrettyJson.SqueezePretty` | apps/plugin-playground/src/still.ts:327 | Indented JSON without the white space outside its strings is the compact JSON, at any depth |
| `PrettyJson.PrettyInjective` | apps/plugin-playground/src/still.ts:327 | Indented JSON determines the value |
| `Goldens.BlessedExact` | apps/plugin-playground/src/still.ts:335-344 | A bless names its own host and holds what the run drew; undrawn rows stay exactly in a filtered run over this host's golden |
| `Goldens.ReadWritten` | apps/plugin-playground/src/still.ts:294-328 | Reading a written golden gives the same host and the same row at every key |
| `Goldens.SameFile` | apps/plugin-playground/src/still.ts:319-328 | Goldens are written as the same bytes exactly when they have one host and the same row at every key, in whatever order the rows came |
| `Goldens.FaultExact` | apps/plugin-playground/src/still.ts:294-318 | Each fault exactly: no JSON, else no host, else no stills, else an entry that is not a row; usable exactly without them |
| `Goldens.HeldFault` | apps/plugin-playground/src/still.ts:294-318 | A file that names a host and holds members is faulty for the first that is not a row, or is their golden |
| `Goldens.ReadSound` | apps/plugin-playground/src/still.ts:294-318 | What is read as a golden has each key once, and rows of positive whole sizes and a hex digest |
| `Goldens.FirstNotRowExact` | apps/plugin-playground/src/still.ts:308-315 | A faulty golden is said by its first entry that is not a row |
| `Goldens.JudgeExact` | apps/plugin-playground/src/still.ts:400-458 | Each verdict exactly: unsteady, blank and past the reach on their own counts, in that order; blessed with its own row; with the golden at fault, without a row at the key, with its very row or another, exactly when the still passes a run that does not bless and the golden is so |
| `Goldens.StillRun.Kind` | apps/plugin-playground/src/still.ts:738-789 | Every draw gets its verdict; where the run blesses, its rows are those of the passing draws of all kinds so far, later ones replacing earlier at a key |
| `Goldens.StillRun.Close` | apps/plugin-playground/src/still.ts:793-799 | A run that does not bless leaves nothing; the bytes of one that does read back as this host's golden, with the last passing draw's row at each key over all kinds drawn, and beside them only what a filtered run kept |
| `Goldens.WithRowsTwice` | apps/plugin-playground/src/still.ts:738-789 | Two kinds after one another leave the rows of both lists of draws in one |
| `Goldens.BlessThenRead` | apps/plugin-playground/src/still.ts:294-344 | The golden a run blessed reads back as this host's, with the last passing draw's row at each key, and beside them only what a filtered run kept |
| `Goldens.HeldExact` | apps/plugin-playground/src/still.ts:372-459 | A passing still is held to the blessed golden exactly when the last passing draw at its key had its size and digest |
| `Goldens.BlessThenHold` | apps/plugin-playground/src/still.ts:372-459 | Where keys are drawn once, a still passes against the blessed golden exactly when the bless took it |
| `Goldens.PassingRowGood` | apps/plugin-playground/src/still.ts:283-291 | A still that passes has pixels, so its row is one a golden may hold |
| `Goldens.StillKeyExact` | apps/plugin-playground/src/still.ts:276-277 | Keys agree exactly when the themes and `kind:state` do; without colons in states, exactly when all parts do |
| `Goldens.StillKeysCollide` | apps/plugin-playground/src/still.ts:276-277 | Two different stills with one key |
| `Goldens.DependableConsistent` | apps/plugin-playground/src/still.ts:294-328 | The laws assumed of the parser and the digest can hold, of a parser that refuses what is no number |

## Left out

- The real filesystem: permissions, symbolic links, root shape checks, directory-entry durability and the Windows branches.
  Hooks, `chmod`, file close and directory sync are steps that may fail and leave the files alone.
- A disk that answers EEXIST from a hook or a sync: only an exclusive create answers that a name is taken.
- Paths: `join(root, name)` is the name alone.
- Concurrent appends on one writer; calls are serial.
- SHA-256, `JSON.parse`, the Zod schemas and the patterns for secrets and path aliases: they are parameters.
- Calendar arithmetic: the month of a time is a parameter; times are not negative.
- Numbers are their decimal text, and sizes and counts are unbounded, but for those that are written to a file and read
  back: the size of a segment and the sides of a still are at most 2^53.
- The longest text a JavaScript string can hold: a golden file is never too long to be read as one.
- Objects keep insertion order; JavaScript's order of keys that read as array indexes is not modelled. Canonical text sorts
  its keys, and the keys of stills hold colons, so neither depends on it.
- Values with a `toJSON` method, such as dates in a member the schema passes through, and array holes given to
  `canonicalAuditJson`.
- AuditLedger.AuditLedgerWriter.Append: answers the record alone; the line's length that the source answers beside it is left out.
- Error codes and messages: errors are named after where they arise. The text of a still's verdict is left out too.
- Order of the segments in `close`: any order is allowed, and the first failure in that order is reported.
- A second close of a file handle after a failed one has no effect of its own.
- Still.FrameExact: holds over real numbers, because the rounding of doubles in `stillFrame` is not modelled; nor is it in
  `measureStill`. A reach that is not finite counts as none.
- How stills are drawn: the GPU, console capture, PNG files, and draws that fail; and which states a kind has.
- `initialize`, `openSegments`, `cleanAuditTarget`, `assertSafeIdentity`, JSON lane frames, preview URLs and the wire schemas:
  they would add only easy members.
- The protocols for subscribing, snapshots, deltas and resuming: their code is not part of this model.
