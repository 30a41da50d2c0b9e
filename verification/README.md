# Verified models of go-tangra-common

Dafny models of the parts of this library whose promises range over all inputs or all
runs, with proofs. One module per file:

- `Seqs`, `Bytes`: shared vocabulary (split, join, filter; base 256 and 32-bit lengths).
- `Frame`: the archive's framing, length-prefixed blocks and chunked table streams, with
  the stateful `ChunkWriter` and `ChunkReader` and a byte stream with a cursor.
- `Tables`: what the generated `INSERT ... ON CONFLICT` and `DELETE ... NOT IN` do to a
  table, row by row and set at a time, with SQL's treatment of NULL.
- `Restore`, `Archive`, `DumpRestore`, `TableByTable`: `Restore` inside one transaction,
  `Dump`, and the theorems about whole archives.
- `Der`: the DER encoding of ECDSA signatures.
- `Routes`, `Selection`: path matching, specificity, choice of a rule.
- `Registry`: the router's and the transcoder's registries under module events.
- `EventBus`, `BusSteps`: the event bus as an object, over histories of calls, and under
  every interleaving of its lock steps.
- `Middleware`: retry and chain combinators.
- `Migrations`: versioned migrations of a backup archive and the field helpers.
- `Claims`: canonical claims, signatures, roles, and what a handler is allowed to see.
- `Payload`: the process-wide encryptor and payload wrapping.

Source code that changes state is modelled by classes and methods with loops, each proved
against a function of the inputs or of the old state; the theorems are lemmas about those
functions. Libraries the code calls (JSON, one COPY row's text, base64, AES-GCM, HMAC) are
parameters with their inverse laws as preconditions where a statement needs them.

## Where the code does less than it says

Each of these has a lemma with the exact condition under which the promise holds, or with
the failing case; most have both.

- `chunkReader.Read` passes `io.EOF` through from the length and the data read, so an
  archive cut at a chunk seam reads as complete. With an extra at the end every cut is
  rejected (`TruncatedIsRejected`); without extras exactly the cuts at seams are accepted
  (`TruncatedWithoutExtras`), and FULL_SYNC then empties every later table (`CutDeletes`):
  all of them, when the cut is right behind the header (`CutAfterHeader`).
- Neither `writeBlock` nor `chunkWriter.Write` checks `maxBlock`, although table data is
  said to be chunked and not capped: a longer manifest, extra or row is written and never
  read back (`BlockRoundTrip`, `LongBlock`; `FramedRoundTrip`, `LongChunk`). A dump can be
  read back if and only if it holds none (`DumpReadsBack`).
- FULL_SYNC does not make a table "match the backup exactly" when its unique key admits
  NULL: `FullSyncExact` gives the exact condition, `NullKeyRowSurvives` a row that stays.
  MERGE is idempotent exactly when no staged key contains NULL (`MergeIdempotent`, and
  `MergeTwice` for whole archives; `NullKeyMergedTwice` shows a row doubled).
- `resetSequences` moves a sequence back exactly when it had run ahead of its column
  (`SequenceMayRewind`, `RewoundSequence`), but never below a value in use (`AppliedSequencesAhead`).
- `{name=**}` binds one segment and ignores the rest of the path
  (`NamedWildcardBindsOneSegment`, `MatchThenFill`); a catch-all that is not last can beat
  a literal route (`MisplacedCatchAllWins`; `LiteralWins` says exactly when); the rule
  found by `Handle`'s second scan can differ from the one the parameters came from
  (`RescanMayDisagree`), exactly when the method's first applying rule is not among its
  most specific applying ones (`Lookup`).
- Registering a live module again never closes the old connection
  (`ConnectionsConserved`, `OverwrittenConnection`).
- "Once" handlers run twice when publishes of one type overlap (`OnceMayRunTwice`);
  without overlap they run at most once (`OnceWithoutOverlap`, `OnceMeansOnce`).
  `OnceAtRest` counts the runs exactly, and `OnceTwiceIff` says when a second run can still
  come. A once-handler registered while a single Publish of
  its type is between giving up its read lock and deleting the list is deleted uncalled
  (`OnceMayBeLost`); `OnceLostIff` says exactly when that can happen.
- A retry count below zero reports success without calling the handler; retries compose
  except when both counts are below -1 (`RetryComposes`, `RetryComposesOnlyThere`).
- A migration resumed after a failing step equals an uninterrupted one, however the step is
  repaired, exactly when the failed step left no edit (`ResumeAfterFailure`,
  `HalfDoneStep`).
- Claims with a newline share their canonical message with other claims, and only they do
  (`NewlinesAreAmbiguous`, `TwoClaimsOneMessage`).
- `MigrateAddField` panics on a null array element (`MigrateAddField`); renaming a field to
  a name the item already has, or to itself, loses data (`RenameBack`).
- `EncodeDER` gives zero an empty INTEGER, which is not DER (`EncodedIsStrict`).
- Any mode string other than `off` and `enforce` behaves as `warn`
  (`OnlyEnforceProtects`).

## Model

| member | source | states |
|---|---|---|
| Frame.Source.ReadFull | backup/sqldump/frame.go:31-34 | n bytes or EOF/UnexpectedEOF by how much was left, cursor exact |
| Bytes.FourBytes | backup/sqldump/frame.go:51 | lengths are four bytes, most significant first |
| Frame.WriteBlock | backup/sqldump/frame.go:50-56 | appends the 32-bit big-endian length (mod 2^32) and the bytes |
| Frame.ReadBlock | backup/sqldump/frame.go:59-72 | reads exactly what TakeBlock says of the stream, all error cases included |
| Frame.BlockRoundTrip | backup/sqldump/frame.go:50-72 | a block is read back, whatever follows it, if and only if it is at most maxBlock long |
| Frame.BlockReads | backup/sqldump/frame.go:59-72 | the reader accepts exactly a length of at most maxBlock followed by that many bytes |
| Frame.LongBlock | backup/sqldump/frame.go:50-72 | a longer one, below 2^32 bytes, is written and refused as too large |
| Frame.ChunkWriter.Write | backup/sqldump/frame.go:81-92 | appends one chunk, nothing for an empty slice |
| Frame.ChunkWriter.Close | backup/sqldump/frame.go:95-97 | appends the zero-length terminator |
| Frame.ChunkReader.Read | backup/sqldump/frame.go:108-132 | delivers a prefix of what is pending and removes exactly it; EOF and errors come exactly where the stream has them; the rest of the buffer is untouched; unread plus buffered bytes shrink |
| Frame.ChunkReader.ReadWith | backup/sqldump/frame.go:108-132 | any sequence of buffer sizes, empty ones included, yields the same bytes in order and stops at the same place |
| Frame.ChunkReader.ReadAll | backup/sqldump/frame.go:108-132 | a consumer with any non-empty buffers terminates and gets the whole table or the bytes before the error |
| Frame.ChunkReader.Drain | backup/sqldump/frame.go:136-147 | terminates on every input and leaves the cursor where a full read would |
| Frame.FramedRoundTrip | backup/sqldump/frame.go:81-132 | however the data is cut into Writes, reading gives the concatenation and stops right after the terminator if and only if no Write is above maxBlock; otherwise it delivers the Writes before the first such one and fails |
| Frame.LongChunk | backup/sqldump/frame.go:81-132 | a Write above maxBlock is written and refused by the reader |
| Frame.WriteThenRead | backup/sqldump/frame.go:81-132 | the same on the objects, for any Writes, oversized ones included, and any Read sizes |
| Frame.CutTable | backup/sqldump/frame.go:108-132 | a cut inside a table is an error or a clean-looking end with nothing unread; a later cut is invisible |
| Frame.CutBlock | backup/sqldump/frame.go:59-72 | a cut inside a block is always an error: EOF at its start or right behind its length, UnexpectedEOF elsewhere |
| Frame.CutFramed | backup/sqldump/frame.go:108-132 | a cut table reads cleanly exactly at a seam and then delivers exactly the Writes wholly before it |
| Tables.Intersect | backup/sqldump/restore.go:208-220 | order-preserving intersection (filterPresent is the same function) |
| Tables.Diff | backup/sqldump/restore.go:222-234 | order-preserving difference |
| Tables.PlanPartitions | backup/sqldump/restore.go:118-124 | shared columns are the intersection; conflict key and SET list split them with no overlap |
| Tables.UpsertClosed | backup/sqldump/restore.go:159-170 | row-by-row processing equals the set-at-a-time reference: each live row refreshed by its partner, partnerless staged rows appended |
| Tables.MergeEffect | backup/sqldump/restore.go:159-170 | the upsert merges: rows with keys absent from the backup stay; matching rows take the backup's shared columns and keep their others; the other backup rows go in with the table's defaults in the columns they lack |
| Tables.UpsertKeys | backup/sqldump/restore.go:159-170 | the unique index stays intact and holds every staged non-null key |
| Tables.UpsertFails | backup/sqldump/restore.go:159-170 | the statement fails if and only if it would update one row twice |
| Tables.MergeIdempotent | backup/sqldump/restore.go:159-170 | after any upsert that succeeded a second one succeeds too, and changes nothing if and only if no staged key contains NULL |
| Tables.UpsertPermutes | backup/sqldump/restore.go:159-170 | with equal columns the result is the backup plus the unmatched live rows, as multisets |
| Tables.FullSyncExact | backup/sqldump/restore.go:172-180 | FULL_SYNC leaves the backup plus the ambiguous live rows, so it equals the backup if and only if no live row is ambiguous |
| Tables.NullsMakeAmbiguous | backup/sqldump/restore.go:172-180 | only NULLs in key columns make a row ambiguous |
| Tables.FullSyncKeys | backup/sqldump/restore.go:172-180 | under schema drift and without NULL keys the remaining keys are exactly the backup's |
| Tables.FullSyncRows | backup/sqldump/restore.go:159-180 | under schema drift and without NULL keys exactly one row is left for every backup row: its live partner with the shared columns overlaid, or the row with defaults |
| Tables.SyncedMeans | backup/sqldump/restore.go:159-180 | what those rows are, column by column |
| Tables.DeletedCount | backup/sqldump/restore.go:172-180 | the delete takes exactly the live rows whose key is definitely not in the backup |
| Tables.NullKeyMergedTwice | backup/sqldump/restore.go:159-170 | a backup row with a NULL key is inserted by every MERGE |
| Tables.NullKeyRowSurvives | backup/sqldump/restore.go:172-180 | a live row with a NULL key that FULL_SYNC neither updates nor deletes |
| Restore.LoadInvertsCopy | backup/sqldump/restore.go:112-115 | COPY out then COPY in of at least one column gives the rows back; rows are found by their newlines |
| Restore.LinesMean | backup/sqldump/restore.go:112-115 | a stream is cut at every newline; what follows the last one is a line unless empty |
| Restore.LoadMeans | backup/sqldump/restore.go:112-115 | loading succeeds if and only if every line decodes into one value for each column, and stages one row per line with the values by position |
| Restore.ResetSequencesLoop | backup/sqldump/restore.go:186-199 | the loop over serial columns sets each to GREATEST(COALESCE(MAX, 0), 1) |
| Restore.SequencesPastRows | backup/sqldump/restore.go:184-199 | the next value of every reset sequence is above every value in its column |
| Restore.OtherSequencesStay | backup/sqldump/restore.go:184-199 | sequences of no serial column are untouched |
| Restore.AppliedSequencesAhead | backup/sqldump/restore.go:126-132 | every applied table ends with its sequences ahead of its rows |
| Restore.SequenceMayRewind | backup/sqldump/restore.go:184-199 | a serial column's sequence moves back if and only if its old value was above 1 and above every value in the column |
| Restore.RewoundSequence | backup/sqldump/restore.go:184-199 | a sequence at 10 over values up to 3 is set to 3 |
| Restore.ReadHeader | backup/sqldump/frame.go:30-47 | magic, block and manifest checks in order, each with its error |
| Restore.HeaderMeans | backup/sqldump/frame.go:30-47 | a header is read if and only if the stream begins with TNGSQLD1 and a block holding a manifest; any other first eight bytes are a bad magic |
| Restore.RestoreOneTable | backup/sqldump/restore.go:87-134 | drain, stage, load, plan, merge and reset for one table, equal to RestoreTable on the unread bytes; what that is, is said by SkippedKeepsRows, KeylessReplaced, MergeRestores, FullSyncRestores and ReportsCount |
| Restore.RestoreAllTables | backup/sqldump/restore.go:59-68 | the table loop with results and warnings |
| Restore.WarningsMean | backup/sqldump/restore.go:59-68 | one warning per table with a note, in order |
| Restore.ReadExtras | backup/sqldump/restore.go:70-77 | the extras loop |
| Restore.Restore | backup/sqldump/restore.go:33-83 | success if and only if RestoreArchive succeeds and the transaction begins and commits; any error leaves the database unchanged |
| Archive.SortNames | backup/sqldump/dump.go:49-52 | the extras' names, each once, in order |
| Archive.LexMeans | backup/sqldump/dump.go:49-52 | the order: character by character, a prefix first |
| Archive.CollectMetas | backup/sqldump/dump.go:42-48 | metadata of exactly the listed tables that are not excluded, as often as listed and in that order, or an error exactly when one of them is missing |
| Archive.Dump | backup/sqldump/dump.go:24-78 | the manifest lists exactly the listed tables that are not excluded, in order, with sorted extras; the bytes written are header, framed tables and extras; a missing table writes nothing |
| Archive.RestoreSeparates | backup/sqldump/restore.go:59-97 | interleaved reading and applying equals reading everything first, so drained and loaded tables decode alike |
| Archive.DecodingIgnoresTarget | backup/sqldump/restore.go:59-97 | two successful restores of one archive agree on manifest, extras and end, whatever the targets |
| Archive.TablesRoundTrip | backup/sqldump/dump.go:58-69 | every table's stream is read back and the next begins where it ended, if and only if no Write of any table is above maxBlock |
| Archive.ExtrasRoundTrip | backup/sqldump/dump.go:71-75 | every extra is read back under its name, if and only if none is above maxBlock |
| Archive.DumpReadsBack | backup/sqldump/dump.go:24-78 | a dump can be read back, in full, if and only if its manifest, Writes and extras are all within maxBlock |
| Archive.OversizedIsRefused | backup/sqldump/restore.go:33-83 | a dump with an oversized piece is refused in every mode on every target |
| Archive.TruncatedIsRejected | backup/sqldump/restore.go:59-82 | an archive with an extra, cut anywhere before its end, is rejected in every mode on every target |
| Archive.LongManifest | backup/sqldump/frame.go:18-47 | a manifest longer than maxBlock, below 2^32 bytes, is written and refused by the reader |
| Archive.TruncatedWithoutExtras | backup/sqldump/restore.go:59-82 | without extras a cut archive decodes if and only if the cut is at a seam; Restore then commits exactly the Writes wholly before the cut, and an empty stream for every later table |
| DumpRestore.FullSyncTable | backup/sqldump/restore.go:137-182 | on equal schemas the merge succeeds, keeps the table valid, and equals the backup if and only if there is no key or no ambiguous row |
| DumpRestore.ApplyDumpedTable | backup/sqldump/restore.go:87-134 | the same from the COPY stream of a dumped table, touching no other table |
| DumpRestore.DumpThenFullSync | backup/sqldump/dump.go:24-78 | dump then FULL_SYNC restore leaves every dumped table with exactly the dumped rows, other tables alone, and returns the same extras |
| DumpRestore.DumpAndRestore | backup/sqldump/restore.go:33-83 | the same law on the stateful Dump and Restore: it succeeds if and only if every piece is within maxBlock; then every listed table that is not excluded has the dumped rows and every other table is as it was, and otherwise nothing has changed |
| TableByTable.ApplyPointwise | backup/sqldump/restore.go:59-68 | tables do not affect each other: restoring several is restoring each alone, and works if and only if each does |
| TableByTable.MergeTwiceTable | backup/sqldump/restore.go:87-134 | one table merged twice from one stream, sequences included: the second time works, and changes nothing if and only if there is no usable key or no staged key contains NULL |
| TableByTable.MergeRestores | backup/sqldump/restore.go:137-170 | restoring an archive by MERGE under any schema drift merges every table that has a usable key |
| TableByTable.MergeTwice | backup/sqldump/restore.go:33-83 | restoring one archive twice by MERGE gives the same extras, and the same database if and only if every table is repeatable in that sense |
| TableByTable.FullSyncRestores | backup/sqldump/restore.go:137-182 | restoring an archive by FULL_SYNC under any schema drift, without NULL keys, leaves every keyed table with exactly one row for every backup row, column by column, so with the backup's keys |
| TableByTable.SkippedKeepsRows | backup/sqldump/restore.go:90-156 | a listed table that is absent, shares no column, or under MERGE shares no key column keeps exactly its rows and is reported as skipped with that reason |
| TableByTable.KeylessReplaced | backup/sqldump/restore.go:141-153 | FULL_SYNC of a table without a shared key leaves one row per backup row: its values in the shared columns, defaults in the others |
| TableByTable.RestoreWorks | backup/sqldump/restore.go:87-182 | a readable archive is restored if and only if every table is absent or can be staged and loaded and its statements go through |
| TableByTable.ReportsCount | backup/sqldump/restore.go:159-181 | the row and delete counts reported of a keyed table |
| TableByTable.CutAfterHeader | backup/sqldump/restore.go:33-83 | an archive without extras cut right behind its header is restored by FULL_SYNC if and only if every table the target has can be staged and has its key among the shared columns, or no key or no column shared |
| TableByTable.CutDeletes | backup/sqldump/restore.go:172-180 | an archive without extras, cut at a seam and restored by FULL_SYNC, leaves every later table committed empty |
| Der.EncodeDER | middleware/audit/crypto.go:112-136 | the bytes appended step by step |
| Der.DecodeAccepts | middleware/audit/crypto.go:139-180 | on any bytes, DecodeDER accepts exactly a 0x30 header, two INTEGERs with one-byte lengths and anything behind them, with at least 8 bytes and the announced length, and returns the two numbers |
| Der.DerRoundTrip | middleware/audit/crypto.go:112-180 | decoding inverts encoding, with any trailing bytes, if and only if contents fit one-byte lengths and at least 8 bytes are there |
| Der.EncodedIsStrict | middleware/audit/crypto.go:112-136 | the output is minimal short-form DER if and only if neither number is zero and the content is at most 127 bytes |
| Der.StrictIsCanonical | middleware/audit/crypto.go:139-180 | strict DER decodes to positive numbers whose encoding it is |
| Der.P256Signatures | middleware/audit/crypto.go:112-180 | all r, s below 2^256 encode to strict DER of at most 72 bytes and decode to themselves |
| Routes.MatchPath | gateway/transcoder/descriptor_parser.go:359-395 | the loop computes the recursive match, wildcard quirks included |
| Routes.MatchesExactly | gateway/transcoder/descriptor_parser.go:359-395 | which paths match: literal segments agree up to the first catch-all, there is a segment for each and one for the catch-all, and the counts agree unless the pattern has `**` |
| Routes.PartsOf | gateway/transcoder/descriptor_parser.go:360-361 | trimming slashes is dropping empty segments at both ends |
| Routes.FillThenMatch | gateway/transcoder/descriptor_parser.go:359-395 | a filled pattern without catch-all matches and returns exactly the values |
| Routes.MatchThenFill | gateway/transcoder/descriptor_parser.go:359-395 | putting the values back rebuilds the trimmed path if and only if a catch-all took the rest or the segment counts agree |
| Routes.NamedWildcardBindsOneSegment | gateway/transcoder/descriptor_parser.go:377-388 | for every name and path `/{name=**}` binds the first segment only, unless the name is itself `**` |
| Routes.ListedRouteIsServed | gateway/dynamic_router.go:163-179 | a filled route is split back to its module and matched with its values |
| Routes.ModuleSplit | gateway/dynamic_router.go:163-179 | on every path: the id is what stands between prefix and next slash, the rest begins with it |
| Selection.CalculateSpecificity | gateway/transcoder/descriptor_parser.go:341-355 | the counter loop computes the score |
| Selection.FewestParametersWin | gateway/transcoder/descriptor_parser.go:341-355 | among star-free matches of a path, more specific means fewer parameters |
| Selection.LiteralWins | gateway/transcoder/descriptor_parser.go:341-355 | when a literal match beats another match of the path, exactly, by segment, parameter and star counts; always if that one has a parameter and no catch-all before its end |
| Selection.MisplacedCatchAllWins | gateway/transcoder/descriptor_parser.go:341-395 | `/{**}/b/c` matches `/x` and outscores `/x` |
| Selection.PickBest | gateway/transcoder/descriptor_parser.go:329-334 | the first of the matches with the greatest specificity |
| Selection.FoldMeans | gateway/transcoder/descriptor_parser.go:310 | verbs fold together if and only if their upper-case forms are equal |
| Selection.FindMethodByHTTP | gateway/transcoder/descriptor_parser.go:304-337 | for every iteration order: found if and only if some rule applies; the match is the first of greatest specificity in that order, with its rule's parameters, and within its method none of the earlier applying rules is as specific; with upper-case verbs, only rules with the request's verb count |
| Selection.Rescan | gateway/transcoder/transcoder.go:236-244 | the first applying rule, if any |
| Selection.Lookup | gateway/transcoder/transcoder.go:219-244 | the second scan always finds a rule, with the request's verb, and it is the rule the parameters came from if and only if the method's first applying rule is as specific as any other of them |
| Selection.RescanMayDisagree | gateway/transcoder/transcoder.go:236-244 | rules `/{x}` and `/a` on path `/a`: the scan settles on the first, the parameters come from the second |
| Selection.GetModuleRoutes | gateway/dynamic_router.go:206-226 | one route per rule, in order, with names and the full pattern; an error exactly for an unknown module |
| Selection.RoutesListed | gateway/dynamic_router.go:213-224 | for every method one route per rule, in order, with the fields of rule and method, and nothing else |
| Selection.ListedRouteIsFound | gateway/dynamic_router.go:206-226 | every listed route stands for a rule that applies to every filling of it |
| Registry.DynamicRouter.RegisterModule | gateway/transcoder/transcoder.go:119-144 | stores the connection or changes nothing |
| Registry.DynamicRouter.UnregisterModule | gateway/transcoder/transcoder.go:148-165 | removes and closes the connection if there is one |
| Registry.DynamicRouter.HandleModuleEvent | gateway/dynamic_router.go:59-98 | the effect of each event on both registries |
| Registry.EventEffect | gateway/dynamic_router.go:59-98 | what each event does to every module's routing, by the event's fields |
| Registry.RoutedByLastWord | gateway/dynamic_router.go:59-98 | after every run both registries agree, a module is routed if and only if its last registration is later than its last unregistration, with that endpoint |
| Registry.FailureChangesNothing | gateway/dynamic_router.go:71-80 | a failed update, wherever it comes in a run, leaves the run's outcome as without it |
| Registry.ConnectionsConserved | gateway/transcoder/transcoder.go:119-165 | opened connections are closed, in use, or overwritten and never closed |
| Registry.OverwrittenConnection | gateway/transcoder/transcoder.go:119-144 | a module registered twice leaves one of two connections open and unused |
| EventBus.DefaultEventBus.Subscribe | eventbus/eventbus.go:55-66 | appends unless closed |
| EventBus.DefaultEventBus.SubscribeOnce | eventbus/eventbus.go:75-86 | appends to the once-list unless closed |
| EventBus.DefaultEventBus.Unsubscribe | eventbus/eventbus.go:89-104 | removes the first handler with the same address, or reports failure and changes nothing |
| EventBus.RegularListIsActive | eventbus/eventbus.go:55-104 | in every history the regular list of a type is exactly its accepted subscriptions not closed away and not taken by an Unsubscribe with their address (the oldest first), in subscription order |
| EventBus.RegularCalls | eventbus/eventbus.go:107-139 | every such subscription is called once by every Publish of its type that finds it in force, and by nothing else |
| EventBus.PublishCalls | eventbus/eventbus.go:117-139 | a Publish calls the subscriptions in force, oldest first, and then the pending once-registrations, oldest first |
| EventBus.DefaultEventBus.Publish | eventbus/eventbus.go:107-152 | calls regular then once-handlers in order and drops the once-list |
| EventBus.DefaultEventBus.Close | eventbus/eventbus.go:170-184 | empties both maps, once |
| EventBus.DefaultEventBus.GetSubscriberCount | eventbus/eventbus.go:187-192 | for every history that leads to this state: subscriptions minus successful unsubscriptions plus pending once-registrations, zero after Close |
| EventBus.OnceListIsPending | eventbus/eventbus.go:75-152 | the once-list is exactly the registrations not yet met by a Publish or Close, each once, oldest first |
| EventBus.OnceMeansOnce | eventbus/eventbus.go:55-192 | in every history a once-registration is called once if a Publish of its type follows before any Close, and never otherwise |
| EventBus.SubscriberCount | eventbus/eventbus.go:55-192 | the lists hold as many entries as the history's net subscriptions and pending once-registrations |
| BusSteps.InvAlways | eventbus/eventbus.go:55-184 | every interleaving keeps: the lock names its holders, a writer is alone, readers see the bus unchanged, a closed bus is empty |
| BusSteps.BusChangesUnderLock | eventbus/eventbus.go:55-184 | only the holder of the write lock changes the lists, with no reader present |
| BusSteps.Safety | eventbus/eventbus.go:107-152 | mutual exclusion, no lock held outside a call, closed means empty |
| BusSteps.ClosedForever | eventbus/eventbus.go:170-184 | once closed, closed and empty for the rest of every run |
| BusSteps.PublishRunsItsSnapshot | eventbus/eventbus.go:107-139 | every first read lock belongs to one Publish, which has called exactly the handlers subscribed at that moment, in order, or is still running and has called a prefix of them |
| BusSteps.OnceMayRunTwice | eventbus/eventbus.go:134-148 | an interleaving that calls one once-registration twice |
| BusSteps.OnceMayBeLost | eventbus/eventbus.go:141-148 | an interleaving with a single Publish that deletes a listed once-registration uncalled |
| BusSteps.OnceLostIff | eventbus/eventbus.go:134-148 | a listed registration has a continuation that loses it if and only if it is uncalled, a Publish of its type is past its last call with the delete ahead, none is about to call it, and the bus is not being closed |
| BusSteps.OnceKept | eventbus/eventbus.go:134-148 | listed while no Publish of its type is past its last call: ever after still listed, called, or on a closed bus |
| BusSteps.LostForever | eventbus/eventbus.go:134-148 | a lost registration is never called or listed again |
| BusSteps.OnceWithoutOverlap | eventbus/eventbus.go:134-148 | no once-registration is called twice while no two publishes of one type overlap |
| BusSteps.OnceCountsLocks | eventbus/eventbus.go:117-139 | in every interleaving the calls made of a once-registration plus those running Publishes still owe equal the first read locks taken while it was listed |
| BusSteps.OnceAtRest | eventbus/eventbus.go:134-148 | with no Publish running, called at most once if and only if at most one Publish took its read lock while it was listed |
| BusSteps.OnceTwiceIff | eventbus/eventbus.go:107-148 | a listed registration has a continuation in which it has been called twice if and only if it already was or the write lock is not yet held to take its list away |
| Middleware.RetryHandle | eventbus/middleware.go:69-86 | the loop computes Retry on every handler, state and count |
| Middleware.RetryCalls | eventbus/middleware.go:69-86 | the handler is called until its first success, at most max + 1 times; the last call's error is returned; below zero it is not called |
| Middleware.RetryComposes | eventbus/middleware.go:69-86 | Retry(m) of Retry(n) is Retry((m+1)(n+1)-1), same calls and same result |
| Middleware.RetryComposesOnlyThere | eventbus/middleware.go:69-86 | the law fails when both counts are below -1 |
| Middleware.ChainLoop | eventbus/middleware.go:105-112 | the backward loop computes the chain |
| Middleware.ChainOfOne | eventbus/middleware.go:105-112 | one middleware is applied to the handler, none leaves it alone |
| Middleware.ChainComposes | eventbus/middleware.go:105-112 | chaining a concatenation composes the chains |
| Migrations.RunMigrations | backup/migration.go:40-68 | version = source + applied on every exit; mismatch and downgrade exactly when they hold; otherwise the ladder's outcome |
| Migrations.ValidateAccepts | backup/restore.go:58-70 | the same module and a version from 1 to the current one, and which fault otherwise |
| Migrations.ValidatedMigration | backup/restore.go:58-70 | after Validate only a missing or failing step can stop a run, and it names the version reached |
| Migrations.ClimbIsComposition | backup/migration.go:54-67 | success if and only if all steps exist and succeed; the result is their composition in order |
| Migrations.ResumeAfterMissing | backup/migration.go:54-59 | resuming after registering the missing step equals one uninterrupted run |
| Migrations.ResumeAfterFailure | backup/migration.go:60-64 | after a failing step, resuming equals an uninterrupted run for every repair of that step and later ones if and only if the failed step left no edit |
| Migrations.HalfDoneStep | backup/migration.go:60-64 | a failing step that left an edit, and a repair for which the two runs differ |
| Migrations.MigrateAddField | backup/migration.go:72-95 | every item gains the field unless it had it; same count; untouched on error; an error only when JSON fails; panics exactly on a null item |
| Migrations.MigrateRenameField | backup/migration.go:98-122 | in every item the field moves to its new name and the rest stays; same count; untouched on error, which only JSON causes |
| Migrations.MigrateRemoveField | backup/migration.go:125-146 | every item loses the field and nothing else; same count; untouched on error, which only JSON causes |
| Migrations.RenameBack | backup/migration.go:109-114 | renaming back restores an item if and only if it did not have the new name |
| Claims.ParseInvertsFormat | grpcx/claims_signing.go:36-79 | parsing a formatted int64 gives it back |
| Claims.ParseMeans | grpcx/claims_signing.go:75-79 | the expiry is read from digits with at most one sign, within 64 bits |
| Claims.ParseRejects | grpcx/claims_signing.go:75-79 | nothing else is read as a number |
| Claims.FormatExamples | grpcx/claims_signing.go:36-48 | numbers are written in decimal and signatures in lower-case hex |
| Claims.CanonicalInjective | grpcx/claims_signing.go:36-39 | newline-free claims and int64 expiries are told apart by the canonical message |
| Claims.NewlinesAreAmbiguous | grpcx/claims_signing.go:36-39 | other claims or another int64 expiry share a message if and only if some claim contains a newline |
| Claims.TwoClaimsOneMessage | grpcx/claims_signing.go:36-39 | two claim sets with one message |
| Claims.SignThenVerify | grpcx/claims_signing.go:44-94 | what is signed verifies until it expires |
| Claims.VerifiedHeaders | grpcx/claims_signing.go:36-94 | a request verifies if and only if there is a secret, the expiry has not passed and the signature header is the hex MAC of the four claim headers and the expiry, one per line |
| Claims.TamperingNeedsCollision | grpcx/claims_signing.go:66-94 | one signature accepted for two claim sets or expiries is a MAC collision |
| Claims.GetRoles | grpcx/metadata.go:75-100 | the index loop is split on comma, drop empties |
| Claims.RolesRoundTrip | grpcx/metadata.go:75-100 | reading inverts joining for comma-free non-empty roles |
| Claims.RolesOfJoin | grpcx/metadata.go:75-100 | any string of comma-free pieces is read as its non-empty pieces |
| Claims.AdminByRole | grpcx/metadata.go:107-116 | an administrator is who has `platform:admin` or `super:admin` among the pieces of the roles header |
| Claims.TenantByHeader | grpcx/metadata.go:34-46 | the tenant is the header's decimal number if below 2^32, and 0 for anything else |
| Claims.HasUserClaims | grpcx/claims_signing.go:53-60 | true if and only if some signed key has a non-empty first value |
| Claims.StripUserClaims | grpcx/claims_signing.go:108-120 | removes the six keys and nothing else |
| Claims.Server | middleware/claims/claims.go:70-131 | the context passed on: without its six assertion keys and otherwise the same if the resolved mode is enforce, there are claims and they do not verify, and unchanged in every other case |
| Claims.SignedPasses | middleware/claims/claims.go:113-115 | what was signed reaches the handler unchanged in every mode until it expires, tenant and administrator included |
| Claims.VisibleIffVerified | middleware/claims/claims.go:96-131 | no claims, or another mode: unchanged; in enforce mode claims are visible if and only if they verify |
| Claims.EnforceProtects | middleware/claims/claims.go:96-131 | in enforce mode any visible claim is covered by an unexpired signature over exactly the values read |
| Claims.EnforceAdminAndTenant | middleware/claims/claims.go:96-131 | so a reported administrator or tenant was verified |
| Claims.OnlyEnforceProtects | middleware/claims/claims.go:98-129 | in every other mode an unsigned administrator passes |
| Payload.Process.InitGlobalEncryptor | crypto/encryptor.go:13-25 | the first call decides the key; its error alone is reported |
| Payload.Process.EncryptPayload | crypto/payload.go:17-45 | wraps under the effective key, and goes on record |
| Payload.WhatIsStored | crypto/encryptor.go:13-54 | in every recorded run, what is stored: `enc:` and the base64 of nonce and ciphertext under the first initialisation's key if that enabled encryption with one, else the JSON text; with the flag and the two task fields and nothing else |
| Payload.Process.DecryptPayload | crypto/payload.go:49-76 | unwraps under the effective key, with each error case, and goes on record |
| Payload.UnwrappedForeign | crypto/payload.go:49-76 | unflagged maps are returned as they are; flagged ones without a text, or with one that is no ciphertext behind `enc:`, are errors |
| Payload.DecryptInvertsEncrypt | crypto/aes_gcm.go:48-130 | decryption inverts encryption through prefix, base64 and nonce split |
| Payload.UnwrapInvertsWrap | crypto/payload.go:17-76 | unwrapping after any further initialisations gives the JSON normal form back, and the wrapped map carries task_id and task_type |
| Payload.WrappedAnyTimeUnwrapsLater | crypto/payload.go:17-76 | in every recorded run of calls, every later DecryptPayload of a wrapped payload returns its JSON normal form |

## Left out

- PostgreSQL, pgx, catalogue queries and SQL quoting: each statement is modelled by its effect; column types, casts, constraints other than one unique key, and volatile defaults such as nextval are not.
- I/O errors other than a short stream, context cancellation and logging.
- Tables.Upsert: one unique key per table; a conflict target that covers only part of it is modelled as an error.
- TableByTable.MergeTwice: the manifest lists every table once.
- Frame.FramedRoundTrip: Writes of 2^32 bytes and more, whose length wraps; the lengths of PostgreSQL messages are signed 32-bit numbers.
- Archive.DumpReadsBack: manifests and extras of 2^32 bytes and more, whose length wraps too.
- Selection.FindMethodByHTTP: case folding is ASCII only.
- EventBus.DefaultEventBus.Publish: handlers do not call back into the bus; SubscribeAsync, PublishAsync and GetEventTypes are not modelled.
- BusSteps: liveness, writer preference of sync.RWMutex and panics in handlers.
- Middleware.RetryHandle: delays; the timeout, logging, recovery and metrics middlewares are not modelled.
- Claims.HasUserClaims: metadata keys are taken in lower case, as grpc delivers them.
- `cert`, `registration`, `grpcx/module_dialer.go`, `middleware/mtls`: file, network and x509 work with one-branch decisions.
- `gateway/transcoder/request_builder.go` and `response_transformer.go`: protobuf reflection and library marshalling.
- The internals of hashes, ciphers, HMAC, ECDSA, gzip, JSON and base64.
- `utils/slice`, `metrics`, `viewer`, `service`, `task` and generated code.
