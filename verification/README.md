# Verified model of the archive catalog's core

The repository keeps a catalog of where every file of an archive is stored. This project models the parts
of it whose correctness is hardest to see, in Dafny, and proves what they promise:

- **The event log** (`LogLines`, `LogDisk`, `EventFormat`, `LogCrash`, `LogSteps`, `LogWriter`, `TailRead`,
  `LogVerify`, `LogCheckpoint`, `LogRecords`, `EventStore`, `LogHistory`, `LogReader`). An append-only, hash-chained stream
  of JSON lines in segment files. A full segment is closed by publishing its manifest; a checkpoint file
  describes a closed prefix and is announced by an event. `EventStore.Store` is the writer, its disk is a field
  whose bytes are durable or not, and every durability step may be the last one before a stop. A crash
  (`CrashesTo`) may take any suffix of unsynced bytes, an unlinked segment, and every manifest and checkpoint
  that was not synced. `LogHistory` puts writer calls, interruptions and crashes together into whole runs.
- **Policy evaluation** (`PolicyAssess`, `PolicyEvaluate`, `PolicyFacts`, `PolicyRun`). Which copies of a file qualify, whether
  the file meets its policy and survives every single loss, until when that answer holds, and the one-pass
  evaluation of a whole catalog into cached rollups.
- **The annex import job** (`AnnexImport`). A spool, a checkpoint beside it, and a job that can be limited,
  stopped and resumed at any point.
- **Attachment planning** (`AttachmentPlan`, `AttachmentFacts`). The access state of requested files, and the greedy order in which
  to attach offline devices.
- **Causal frontiers** (`Frontier`) and **content conflicts** (`ContentConflict`). When one catalog state follows
  another, which files are new since then and how they are read page by page, and when origins disagree about a path.
- **File discovery** (`Discovery`, `WalkFacts`). The recursive walk on an explicit stack, with its order-independent fingerprint.
- **Copies and scans** (`CompactProjection`, `ScanFinalization`). How observations, verification failures, absences
  and completed scans change the copies, places and checks of the catalog, under the unique index on active paths.

`Wrappers` holds `Option` and `Result`. `dafny verify dfyconfig.toml` checks everything.

## How to read it

Code that updates fields is a class with the same fields; its methods are proved against specification functions
and predicates, and the lemmas beside them say what those mean. What an outcome says of the fields, times and rows it
is made from is stated again without those functions: in `LogRecords` for the written lines, the manifests and the
crashes, in `PolicyFacts`, `AttachmentFacts` and `WalkFacts`, and in the lemmas named `…Exactly` elsewhere. The main
results of each part:

| part | main results |
|---|---|
| event log | `LogHistory.InterruptedAppend`, `LogHistory.AcknowledgedSurvives`, `LogCrash.CrashKeepsDurable`, `EventStore.Store.AppendBatches`, `EventStore.Store.CreateCheckpoint`, `LogVerify.HashChainBinding`, `LogHistory.NeverVerifiesAgain`, `LogReader.ReadBatch`, `LogReader.FollowDelivers`, `LogRecords.EventsHeld` |
| policy | `PolicyFacts.QualifiesExactly`, `PolicyFacts.VerdictExactly`, `PolicyEvaluate.SatisfiedToleratesLoss`, `PolicyEvaluate.MoreCopiesStaySatisfied`, `PolicyEvaluate.VerdictAgesExactly`, `PolicyRun.StreamAndEvaluate` with `PolicyRun.GroupingExact`, `PolicyRun.CacheJustified` |
| annex import | `AnnexImport.ImportJob.RunAtMost` with `AnnexImport.SummaryTallies`, `AnnexImport.RunAttempts`, `AnnexImport.FramedInjective` |
| attachment | `AttachmentPlan.AccessSession.MakePlan` with `AttachmentPlan.GreedyBound`, `AttachmentFacts.PlanStepIs`, `AttachmentFacts.StateExactly`, `AttachmentPlan.GroupedExactly` |
| frontiers and conflicts | `Frontier.ValidateSuccessorOf`, `Frontier.ChainKeeps`, `Frontier.ReadFeed`, `Frontier.ConsecutiveReads`, `ContentConflict.ConcurrentAnyOrder` |
| discovery | `Discovery.RunToEnd` with `WalkFacts.WalkExactly`, `Discovery.FingerprintOrderless` |
| copies and scans | `CompactProjection.Catalog.ObserveCopy`, `CompactProjection.Catalog.ProjectAbsentEntry`, `ScanFinalization.ScanFinalizer.FinalizeScan` |

What the log assumes of JSON and of the hash is stated once, in `EventFormat.LogFormat`: `Faithful` (an event is
written on one line, parsing gives back what was written, and no proper prefix of a JSON object is JSON text, which
section 4 of RFC 8259 gives) and, only where a theorem names it, `CollisionFree`.

## Model

| member | source | states |
|---|---|---|
| `LogLines.SplitFile` | src/event_store.rs:840-928 | Reading back what was written: splitting terminated lines plus a remainder gives back exactly those lines and that remainder. |
| `LogLines.SplitPrefix` | src/event_store.rs:1394-1489 | Every prefix of a segment file is some of its first lines and a prefix of the next piece: all the ways a file can be torn. |
| `LogLines.SplitReadPrefix` | src/event_store.rs:1006-1224 | The lines a forward reader has seen are the first lines of the whole file. |
| `LogLines.NextLine` | src/event_store.rs:840-928 | One `read_until`: it returns the next line of the file, or its unterminated remainder, and never skips a byte. |
| `TailRead.FindLineStart` | src/event_store.rs:2290-2353 | The chunked backward search stops just after the previous newline, or at the start or the lower bound with no newline in between. |
| `TailRead.ReadLastLine` | src/event_store.rs:2290-2353 | Reading backwards succeeds exactly on a terminated file whose last line fits the limit, and gives the line forward splitting gives. |
| `TailRead.LastLineUnique` | src/event_store.rs:2290-2353 | A file has one last line. |
| `EventFormat.ValidateEvent` | src/event_store.rs:765-825 | Succeeds exactly on a valid event at its chain position; a wrong sequence number or predecessor is a chain error, anything else an invalid event. |
| `EventFormat.CheckLine` | src/event_store.rs:757-825 | A line is accepted exactly when it fits the length limit, parses and is valid where it stands. |
| `EventFormat.ScanSegment` | src/event_store.rs:840-928 | The forward scan succeeds exactly on a newline-terminated, valid, chained file (empty only where allowed), and reports its first and last event, count, size and hash. |
| `EventFormat.ChainConcat` | src/event_store.rs:1745-1836 | Scanning segment by segment, passing on the tail hash, checks exactly the chain of the concatenated stream. |
| `EventFormat.CheckpointRecordsExact` | src/event_store.rs:840-928 | The collected checkpoint records are exactly the records of the checkpoint lines. |
| `LogCrash.CrashKeepsDurable` | src/event_store.rs:1394-1489 | Whatever a crash takes, the store invariant holds after it, the stream is cut only at its end and never below what was durable, and nothing durable becomes less durable. |
| `LogSteps.CreateStep` | src/event_store.rs:1507-1616 | Creating the next segment file keeps the invariant and changes no event. |
| `LogSteps.WritePartStep` | src/event_store.rs:1507-1616 | After any part of a line was written, the next writer sees the old stream, or the old stream and that whole event. |
| `LogSteps.WriteNewlineStep` | src/event_store.rs:1507-1616 | The newline completes exactly that one event. |
| `LogSteps.SyncTailStep` | src/event_store.rs:1632-1652 | Syncing the segment or its directory changes no event and only adds durability. |
| `LogSteps.TruncateStep` | src/event_store.rs:1394-1489 | Cutting off a broken remainder loses no event. |
| `LogSteps.PublishStep` | src/event_store.rs:1692-1743 | Publishing the manifest of a synced, settled segment closes it and changes no event. |
| `LogSteps.SyncManifestsStep` | src/event_store.rs:1692-1743 | Syncing the manifest directory makes every manifest durable and changes nothing else. |
| `LogWriter.PrepareBatch` | src/event_store.rs:1507-1554 | A batch is accepted exactly when every request is well formed and every line fits; otherwise `InvalidInput`, before anything is written. Each accepted event has its request's type, payload, time, references and id, the store's actor and host, its number, and the hash of the event before. |
| `LogWriter.RequestedCarries` | src/event_store.rs:1507-1556 | Events that are each as requested, one after the other, are exactly the prepared lines with their hashes. |
| `LogWriter.PreparedValid` | src/event_store.rs:1507-1556 | The prepared lines, one a request, are a valid chain continuing whatever precedes them, and no prefix of them is JSON. |
| `LogWriter.PreparedConcat` | src/event_store.rs:446-482 | Preparing a batch in two parts, the second chained after the first, gives the same lines as preparing it at once. |
| `LogRecords.PreparedEvents` | src/event_store.rs:1519-1556 | Parsing the prepared lines gives, field by field, the events of the requests, each naming its predecessor. |
| `LogRecords.EventsHeld` | src/event_store.rs:1519-1556 | A stream a batch was appended to holds, from there on, the events of its requests field by field. |
| `LogRecords.AcceptableExactly` | src/event_store.rs:1618-1630 | A batch is refused exactly for a request without type or with a payload that is no object, or for an event that is too long. |
| `LogRecords.VerifiedEvents` | src/event_store.rs:765-825 | Every event of a verified store is complete, fits, is numbered by its place and names the hash of the one before. |
| `LogRecords.VerifiedManifests` | src/event_store.rs:2093-2115 | Every manifest of a verified store gives the file, first and last number and event id, last hash, count, size and hash of its segment. |
| `LogRecords.ShapeExactly` | src/event_store.rs:1324-1392 | Exactly which manifests a reader takes for well formed. |
| `LogRecords.ReportsExactly` | src/event_store.rs:1745-1836 | The report of a verified store has one entry for every segment, with its first and last number, its count and its manifest. |
| `LogRecords.CrashMayCut` | src/event_store.rs:1632-1652 | A crash may cut the unsynced bytes of the last segment anywhere. |
| `LogRecords.CrashMayTake` | src/event_store.rs:1692-1743 | It may take a segment, a manifest or a checkpoint whose directory entry was not synced. |
| `LogRecords.UnsyncedUndone` | src/event_store.rs:1692-1743 | Until it is synced, a crash can undo a new segment, a published manifest and a published checkpoint. |
| `LogRecords.WrittenUndone` | src/event_store.rs:1586-1599 | Until they are synced, a crash can undo written bytes. |
| `EventStore.Store.EnsureOpen` | src/event_store.rs:1558-1573 | Opening the next segment when none is open, finished or interrupted, appends nothing and keeps writer state and disk in step. |
| `EventStore.Store.WriteEvent` | src/event_store.rs:1586-1599 | Writing one line, finished or torn at any byte, appends that event or nothing; finished, the writer state follows. |
| `EventStore.Store.SyncOpenSegment` | src/event_store.rs:1632-1652 | Finished, the whole stream is durable; interrupted, no event changes. |
| `EventStore.Store.PublishManifest` | src/event_store.rs:1692-1743 | A manifest is published once; an existing one must be equal; the disk after an interruption is one of three. |
| `EventStore.Store.CloseOpenSegment` | src/event_store.rs:1654-1690 | Closing changes no event; finished, the segment has its manifest and everything is durable. |
| `EventStore.Store.RecoverOpenTail` | src/event_store.rs:1394-1489 | Recovery succeeds only on a readable tail, cuts a broken last line or terminates a whole one, and on a damaged tail leaves the disk alone. |
| `EventStore.Store.InspectWriterState` | src/event_store.rs:1226-1322 | On a store where the invariant holds, inspection fails only by interruption, and otherwise rebuilds the writer state that matches the disk, with the stream exactly what was recoverable. |
| `EventStore.Store.InspectAndRollOver` | src/event_store.rs:1491-1505 | The start of every append: a full open segment, and no other, is closed; afterwards the open one has room. |
| `EventStore.Store.AppendPrepared` | src/event_store.rs:1558-1605 | One event is appended or not, at every interruption; the segment is closed exactly when this event fills it. |
| `EventStore.Store.AppendBatchToState` | src/event_store.rs:1507-1616 | All or nothing before writing; then a prefix of the batch at every interruption, and on success exactly the batch, durable. |
| `EventStore.Store.AppendBatchLocked` | src/event_store.rs:1491-1505 | The same from any store where the invariant holds, with the exact condition under which the batch is refused. |
| `EventStore.Store.VerifySegment` | src/event_store.rs:1745-1836 | One segment is accepted exactly when it scans and its recomputed manifest is the stored one. |
| `EventStore.Store.VerifyLog` | src/event_store.rs:1745-1836 | Verification succeeds exactly on a verified disk, and reports every segment and every checkpoint record. |
| `EventStore.Store.VerifyCheckpoints` | src/event_store.rs:1838-1884 | Succeeds exactly when checkpoint events and files correspond one to one and every file is exact. |
| `EventStore.Store.Verify` | src/event_store.rs:521-523 | Full verification succeeds exactly when the log verifies and its checkpoints do. |
| `EventStore.Store.PublishCheckpoint` | src/event_store.rs:2027-2053 | A checkpoint file is never rewritten; an equal one is accepted, a different one refused; an interruption leaves it absent, present or durable. |
| `EventStore.Store.ReadManifestLastEvent` | src/event_store.rs:2264-2288 | On a verified store it reads the last event of the stream. |
| `EventStore.Store.CompletePendingCheckpoint` | src/event_store.rs:1981-2025 | Publishes the missing file of a checkpoint event at a closed tail and nothing else; finished, nothing is pending. |
| `EventStore.Store.CreateCheckpointLocked` | src/event_store.rs:1934-1979 | From every store where the invariant holds it only appends, at most its one event; with the checkpoint invariant it fails only by interruption, on an empty stream, or when its event does not fit; on success the checkpoint is published and the whole store verifies. |
| `EventStore.Store.CreateCheckpoint` | src/event_store.rs:517-519 | The same as one writer step of a run; a new file covers the whole stream the call began with. |
| `EventStore.CheckpointEventIs` | src/event_store.rs:1948-1960 | The checkpoint event names its own number, the file to come, the actor and host of the store, and its predecessor; it refers to nothing. |
| `EventStore.Store.OpenStore` | src/event_store.rs:372-401 | Opening appends nothing, recovers, and completes a pending checkpoint: afterwards the log verifies, and with the checkpoint invariant the checkpoints do. |
| `EventStore.Store.AppendBatch` | src/event_store.rs:437-444 | Finished or interrupted it is one writer step; `Ok` means exactly the batch was appended and is durable, and both the stream and the returned records hold, field by field, the events requested. Only full segments are closed and none stays open. Reserved and empty batches are refused untouched. |
| `EventStore.Store.Append` | src/event_store.rs:430-435 | The same for one event, whose record is the line written, with every field of the request and of the store's configuration. |
| `EventStore.Store.AppendBatches` | src/event_store.rs:446-482 | Many batches on one writer state write the same lines as their concatenation, which hold the requested events field by field; segments are closed exactly as for one batch; a refusal leaves exactly the batches before the refused one; the statistics are exact. |
| `EventStore.Store.AppendEach` | src/event_store.rs:446-482 | The loop over the batches: at every interruption a prefix of their lines, at a refusal exactly the batches before, and with checkpoints tracked every error explained. |
| `LogVerify.CheckpointSegmentsThrough` | src/event_store.rs:2131-2174 | Finds exactly the closed prefix that ends at the sequence number, if there is one. |
| `LogVerify.BuildCheckpoint` | src/event_store.rs:2196-2217 | Succeeds exactly for a checkpoint event at the verified tail of a closed prefix, and builds its checkpoint. |
| `LogVerify.ValidateCheckpoint` | src/event_store.rs:1886-1932 | Accepts exactly the checkpoint of the event, field by field. |
| `LogVerify.IsCheckpointOfUnique` | src/event_store.rs:1886-1932 | An event has at most one valid checkpoint. |
| `LogVerify.CheckpointFields` | src/event_store.rs:2196-2217 | A checkpoint has version, stream, event id, time, number and hash of its event, and lists path, manifest and hash of every segment of the prefix, in order. |
| `LogVerify.VerifiedChain` | src/event_store.rs:1745-1836 | A verified store holds one chain of events across all its segments. |
| `LogVerify.VerifiedNamesPredecessor` | src/event_store.rs:765-825 | In it, event i has number i + 1 and names the hash of event i, also across segments. |
| `LogVerify.ChainBinding` | src/event_store.rs:765-825 | Under a collision-free hash, length and tail hash determine a chain. |
| `LogVerify.HashChainBinding` | src/event_store.rs:1745-1836 | Two verified stores with the same length and tail hash hold the same bytes of every event. |
| `LogVerify.InvVerified` | src/event_store.rs:1226-1322 | A recovered store always verifies. |
| `LogCheckpoint.CheckpointInvAppended` | src/event_store.rs:1507-1616 | Appending ordinary events, finished or not, keeps the checkpoint invariant once nothing is pending. |
| `LogCheckpoint.CheckpointInvCreated` | src/event_store.rs:1934-1979 | Writing the checkpoint event keeps it at every interruption that does not leave the event in an open tail. |
| `LogCheckpoint.CheckpointInvPublished` | src/event_store.rs:2027-2053 | Publishing the pending file keeps it. |
| `LogCheckpoint.CheckpointInvSynced` | src/event_store.rs:2027-2053 | Syncing the checkpoint directory keeps it, and leaves nothing pending once the last file exists. |
| `LogCheckpoint.FullVerifyExactly` | src/event_store.rs:1838-1884 | With nothing pending, full verification succeeds if and only if no checkpoint event lies in the open tail. |
| `LogCheckpoint.CheckpointIndependent` | src/event_store.rs:1838-1884 | Checkpoint files change nothing about the stream, its durability or its verification. |
| `LogCheckpoint.FilesPublished` | src/event_store.rs:2027-2053 | Publishing the checkpoint of the last event rewrites no file, and the new one covers the whole stream. |
| `LogHistory.RunKeepsDurable` | src/event_store.rs:333-348 | Over every run of calls, interruptions and crashes the invariant holds throughout, and durable events stay in place for ever. |
| `LogHistory.AcknowledgedSurvives` | src/event_store.rs:437-444 | What an acknowledged append wrote is in the stream after every later step and crash. |
| `LogHistory.InterruptedAppend` | src/event_store.rs:1507-1616 | Interrupt an append anywhere, crash, reopen: the stream is the durable part or more, then a prefix of the batch; every closed segment is byte for byte as before; the store verifies. |
| `LogHistory.CheckpointInvCrashed` | src/event_store.rs:1981-2025 | A crash keeps the checkpoint invariant unless it brings a checkpoint event back into an open tail. |
| `LogHistory.RunKeepsCheckpoints` | src/event_store.rs:1981-2025 | Over every run that never leaves a checkpoint event in an open tail, the checkpoint invariant holds throughout. |
| `LogHistory.RepublishedSame` | src/event_store.rs:1981-2025 | A checkpoint file lost in a crash is published again with the same contents. |
| `LogHistory.CreateWindow` | src/event_store.rs:1934-1979 | The crash window: from every fully published store, an interruption between event line and manifest leaves a log that verifies and checkpoints that do not. |
| `LogHistory.WindowHealed` | src/event_store.rs:1654-1690 | If the open segment is closed before anything else is appended, the checkpoint is an ordinary pending one again. |
| `LogHistory.BuriedStays` | src/event_store.rs:1981-2025 | A checkpoint event without a file that another durable event follows stays so over every step. |
| `LogHistory.BuriedRefused` | src/event_store.rs:1838-1884 | Such a store never passes checkpoint verification. |
| `LogHistory.WindowBuried` | src/event_store.rs:437-444 | After the crash window, the next acknowledged append brings the store there. |
| `LogHistory.NeverVerifiesAgain` | src/event_store.rs:1838-1884 | From there no run of calls, interruptions and crashes makes the checkpoints verify again. |
| `LogReader.StreamSegments` | src/event_store.rs:954-1004 | Lists every segment with its manifest, and cannot fail on a verified store. |
| `LogReader.FirstSegment` | src/event_store.rs:1006-1224 | Skips exactly the segments the manifests show to end before the wanted event. |
| `LogReader.StartIn` | src/event_store.rs:1006-1224 | A reader starts at the saved offset when the cursor names this segment, else at the segment's start; a wrong offset is an error. |
| `LogReader.ReadSegment` | src/event_store.rs:1006-1224 | Reading on through one segment extends the window exactly, or stops with the finished batch, or finds the cursor's hash wrong; from a wrong hash it stops at the next line, and accepts it where there is none. |
| `LogReader.ReadBatch` | src/event_store.rs:484-515 | On a verified store, a cursor that does not seek to a wrong place is accepted exactly when its hash agrees with the stream or it seeks to the end of the open segment, and the batch is exactly the window after it within both limits (never less than one event). |
| `LogReader.TailHashUnchecked` | src/event_store.rs:1126-1133 | At the end of the open segment of any verified store, a seeking cursor is accepted whatever hash it carries. |
| `LogReader.PastEndAccepted` | src/event_store.rs:1006-1224 | A plain cursor beyond the end of any verified store is accepted, and answered with an empty batch at the end. |
| `LogReader.EndReportedLate` | src/event_store.rs:1200-1203 | Read with a limit of exactly its length, a stream is returned whole but not marked as ended; the next batch is empty and is. |
| `LogReader.SampleReads` | src/event_store.rs:1006-1224 | A store of one event that accepts a wrong hash at its end, and a cursor past it. |
| `LogReader.SampleEnd` | src/event_store.rs:1200-1203 | The same store, read with a limit of one event: the end is reported late. |
| `LogReader.WindowUnique` | src/event_store.rs:1006-1224 | Start and limits determine the window. |
| `LogReader.SeekEqualsScan` | src/event_store.rs:1006-1224 | Seeking to a saved offset reads exactly what scanning from the segment start reads. |
| `LogReader.NextCursorValid` | src/event_store.rs:484-515 | The returned cursor is valid, moves on by the events returned, and stands still only at the end. |
| `LogReader.CursorKept` | src/event_store.rs:484-515 | Appending, rolling over and publishing leave every cursor valid. |
| `LogReader.FollowDelivers` | src/event_store.rs:484-515 | Following from the start delivers exactly the stream, in order, with no gap and no repeat, whatever the limits and whatever is appended between reads. |
| `PolicyAssess.Assessor.CheckFreshness` | src/policy.rs:1879-1911 | One freshness check adds exactly its finding and lowers the expiry exactly as specified, or fails on overflow. |
| `PolicyAssess.Assessor.AssessCopy` | src/policy.rs:1716-1871 | A copy is assessed exactly by its plan of findings and freshness checks, and the shared expiry becomes the least seen. |
| `PolicyAssess.PlanStable` | src/policy.rs:1879-1911 | Without future timestamps, a plan gives the same answer until the first expiry it found. |
| `PolicyAssess.FutureUncertain` | src/policy.rs:1879-1911 | A future timestamp always leaves an uncertain finding. |
| `PolicyAssess.PlanSucceeds` | src/policy.rs:1879-1911 | A plan fails only if an expiry exceeds the clock's range. |
| `PolicyAssess.PlanAges` | src/policy.rs:1716-1871 | Before the first expiry, exactly which findings of a copy disappear: those of timestamps that were in the future and no longer are. |
| `PolicyFacts.QualifiesExactly` | src/policy.rs:1716-1871 | A copy qualifies, without any reason, if and only if its identity, state and result, its location, trust and site, the checks of its device, its encryption and each of its times are in order. |
| `PolicyFacts.DoubtfulExactly` | src/policy.rs:1716-1871 | A copy is uncertain if and only if something is missing, unknown or stale that new information could supply. |
| `PolicyFacts.ReasonsExactly` | src/policy.rs:1716-1871 | Every reason given is one of the copy's own defects, and every defect is given as a reason. |
| `PolicyFacts.CountsAs` | src/policy.rs:1828-1871 | A qualifying copy is recorded with its own device, site and location, as offsite, offline and encrypted exactly when it is, and in exactly the loss domains it lies in. |
| `PolicyFacts.AssessedWhen` | src/policy.rs:1879-1911 | An assessment fails exactly when one of the copy's expiries exceeds 64 bits. |
| `PolicyFacts.ExpiresExactly` | src/policy.rs:1879-1911 | It holds until the first of the times it rests on expires. |
| `PolicyEvaluate.EvaluateFile` | src/policy.rs:1573-1714 | The loop over copies, requirements and losses computes the specified evaluation. |
| `PolicyEvaluate.LossSimulationExact` | src/policy.rs:1930-1980 | The finitely many simulated losses decide exactly the survival of every device, service, site and risk domain there is. |
| `PolicyEvaluate.RequirementsExact` | src/policy.rs:1573-1714 | No failed requirement is listed exactly when the distinct-count requirements are met. |
| `PolicyEvaluate.SatisfiedExactly` | src/policy.rs:1573-1714 | Satisfied if and only if the identity is usable, the requirements are met and every single loss is survived. |
| `PolicyEvaluate.SatisfiedToleratesLoss` | src/policy.rs:1573-1714 | A satisfied file survives any single loss, so its qualifying copies span two sites and two storage domains. |
| `PolicyEvaluate.MoreCopiesStaySatisfied` | src/policy.rs:1573-1714 | Adding copies never makes a file unsatisfied. |
| `PolicyEvaluate.EvaluateSucceeds` | src/policy.rs:1573-1714 | Evaluation fails only if an expiry exceeds the clock's range. |
| `PolicyEvaluate.VerdictStable` | src/policy.rs:1573-1714 | Until the first expiry, satisfied stays satisfied, violated stays violated, and without future timestamps nothing changes. |
| `PolicyEvaluate.VerdictAgesExactly` | src/policy.rs:1573-1714 | What every verdict becomes before the first expiry, exactly, from what is known now: so which uncertain ones change, and to what. |
| `PolicyEvaluate.FutureNotStable` | src/policy.rs:1879-1911 | A concrete file whose uncertain verdict changes within its validity. |
| `PolicyFacts.ExaminedExactly` | src/policy.rs:1587-1609 | The qualifying copies listed are, in order, exactly those that count, the others exactly the rest, each with its reasons. |
| `PolicyFacts.ListedExactly` | src/policy.rs:1584-1621 | The same for the evaluation; while the content is not known, no copy qualifies and all are uncertain. |
| `PolicyFacts.VerdictExactly` | src/policy.rs:1573-1714 | The verdict from the copies' fields alone: satisfied exactly when the content is known, the copies that count are enough and no single loss takes them all; else uncertain exactly when identity or some copy is in doubt. |
| `PolicyFacts.FailedExactly` | src/policy.rs:1573-1714 | Exactly the requirements the copies that count do not meet are listed, with the numbers required and found. |
| `PolicyFacts.LossesExactly` | src/policy.rs:1930-1980 | Exactly the domains of copies that count are simulated; what remains is the number of copies outside, and a loss is permanent exactly when there is none. |
| `PolicyFacts.EvaluateWhen` | src/policy.rs:1573-1714 | An evaluation fails exactly when an expiry of one of its copies exceeds 64 bits. |
| `PolicyFacts.EvaluationExpires` | src/policy.rs:1573-1714 | It holds until the first of the times any copy rests on expires. |
| `PolicyRun.PolicyRunner.EvaluateAndStoreFile` | src/policy.rs:1494-1571 | One file updates exactly its policy's counters, findings and expiry. |
| `PolicyRun.PolicyRunner.StreamAndEvaluate` | src/policy.rs:1339-1447 | The one-pass loop over the joined rows equals evaluating every grouped file, including its first error. |
| `PolicyRun.PolicyRunner.FinishEvaluations` | src/policy.rs:2028-2098 | Succeeds exactly when every policy saw the files it expected and each of its numbers is below 2^63. |
| `PolicyRun.GroupingExact` | src/policy.rs:1339-1447 | Grouping the rows of the join gives back exactly the files with exactly their copies. |
| `PolicyRun.RunBalanced` | src/policy.rs:1494-1571 | Every counter of every policy is the number, or the bytes, of the files of its kind. |
| `PolicyRun.RunBytes` | src/policy.rs:1514-1535 | The byte counts are the sums of the known sizes of the policy's files, and of those not satisfied, cut off at the largest 64-bit integer; files without a size are counted apart. |
| `PolicyRun.RunExpires` | src/policy.rs:1520-1521 | A run holds until the first expiry of one of the policy's files. |
| `PolicyRun.RunFinds` | src/policy.rs:1533-1571 | The findings are exactly those of the files that are not satisfied, under the evaluation of their policy. |
| `PolicyRun.RunComplete` | src/policy.rs:2028-2098 | With the expected counts of the same files, finishing is refused only by a number that does not fit. |
| `PolicyRun.SampleTooLarge` | src/policy.rs:2028-2098 | Two files of 2^62 bytes: evaluated completely, but the total does not fit and finishing is refused. |
| `PolicyRun.FinishedUsable` | src/policy.rs:1076-1143 | A finished evaluation is reported usable exactly until its first expiry. |
| `PolicyRun.UsableExactly` | src/policy.rs:1076-1143 | A stored evaluation is usable if and only if it is complete, its counts agree, its policy input, version and rules are the current ones, the policy is active, and it has not expired. |
| `PolicyRun.ReasonHolds` | src/policy.rs:1076-1143 | The reason given for an unusable one is true of it. |
| `PolicyRun.RerunAgrees` | src/policy.rs:1339-1447 | Evaluating a policy again before its first expiry loses no satisfied and no violated file. |
| `PolicyRun.CacheJustified` | src/policy.rs:1076-1143 | A cached rollup reported valid agrees with evaluating the same facts again at that time. |
| `AnnexImport.ImportJob.SaveCheckpoint` | src/annex.rs:1539-1561 | The checkpoint is the old or the new one, and never describes more spool than is durable. |
| `AnnexImport.ImportJob.ProcessEntry` | src/annex.rs:676-717 | One entry adds exactly its item and its category (`SummaryTallies` and `ItemsAre` say which). |
| `AnnexImport.ImportJob.ImportEntry` | src/annex.rs:676-717 | One entry with its item and, exactly when the count of entries is a multiple of the batch size, a checkpoint; a stop leaves the old checkpoint or this one. |
| `AnnexImport.ImportJob.Prepare` | src/annex.rs:590-651 | Cuts the spool back to what the checkpoint describes, from every state a stop can leave. |
| `AnnexImport.ImportJob.ReadIndex` | src/annex.rs:658-735 | The loop keeps spool, counters and checkpoint at the same entry boundary, to the end, the limit or a stop; no checkpoint that was due is missing. |
| `AnnexImport.ImportJob.RunAtMost` | src/annex.rs:411-827 | From every state a stop can leave, a run never loses entries done, appends at most the one final batch, applies what was appended before anything else, and completes when not limited or stopped. Each counter of its summary is the number of index entries of that kind; a finished run has appended the start items, the item of every entry that names a key, and the closing items. |
| `AnnexImport.RunAttempts` | src/annex.rs:411-827 | Any sequence of limited and stopped runs appends at most one batch, exactly the one a single run would have appended, also when stopped between append and apply. |
| `AnnexImport.CountersAddUp` | src/annex.rs:1924-1936 | At every boundary each entry seen is ignored or in exactly one category. |
| `AnnexImport.SummaryTallies` | src/annex.rs:1924-1936 | Each counter is the number of merged index entries of its category, or of those that name no key. |
| `AnnexImport.PartTallies` | src/annex.rs:1924-1936 | The same for an import that has read a part of the entries. |
| `AnnexImport.EntriesAre` | src/annex.rs:663-667 | The entries read are the merged ones of the index, in their order. |
| `AnnexImport.ItemsAre` | src/annex.rs:676-717 | Exactly the entries that name a key have an item in the spool, in order, each on its own line. |
| `AnnexImport.SpoolIs` | src/annex.rs:411-827 | What a finished import appends, item by item. |
| `AnnexImport.FramedInjective` | src/annex.rs:2703-2710 | Different lists of pieces never hash the same bytes. |
| `AnnexImport.LittleEndianInjective` | src/annex.rs:2703-2710 | Within its width, the length prefix determines the length. |
| `AnnexImport.LittleEndianValue` | src/annex.rs:2703-2710 | The bytes of a length are its digits to base 256, the least significant first. |
| `AttachmentPlan.OnceExact` | src/app_integration.rs:520-586 | Requests are taken once each, none lost. |
| `AttachmentPlan.OncePrefix` | src/app_integration.rs:520-586 | Each id keeps the place at which it was first requested. |
| `AttachmentPlan.AccessSession.LoadRequest` | src/app_integration.rs:520-586 | Succeeds exactly on a well-formed, non-empty request, and keeps each id once in first-seen order. |
| `AttachmentPlan.GroupedExactly` | src/app_integration.rs:670-743 | Grouping by object fails exactly when two requested files share an object but not their external identity. |
| `AttachmentPlan.SampleClash` | src/app_integration.rs:670-743 | Two files of one object under two annex keys: each can be requested, both together cannot. |
| `AttachmentPlan.GroupedWeights` | src/app_integration.rs:670-743 | The weight of a state in the grouped table is the number of requested files in that state. |
| `AttachmentPlan.AccessSession.InstallContentAccess` | src/app_integration.rs:670-743 | Installs the grouped table, or fails exactly on such a clash. |
| `AttachmentPlan.AccessSession.FileAccess` | src/app_integration.rs:745-817 | The state read through the table is the state the catalog gives the file. |
| `AttachmentPlan.AccessSession.AccessPage` | src/app_integration.rs:745-817 | A page is exactly the next requests, in order, each with its state. |
| `AttachmentPlan.AccessSession.Summarize` | src/app_integration.rs:819-872 | The summary counts exactly the states the pages show, and adds up to the request. |
| `AttachmentPlan.AccessSession.BestDevice` | src/app_integration.rs:1023-1174 | Picks a device covering most of what is left, the least on a tie, or shows that none covers anything. |
| `AttachmentPlan.AccessSession.MakePlan` | src/app_integration.rs:1023-1174 | The plan is greedy and covers exactly the files that need an attachment; the remainder is exactly those without a known copy. |
| `AttachmentPlan.GreedyConserves` | src/app_integration.rs:1023-1174 | Covered and remaining always add up to what was asked. |
| `AttachmentPlan.GreedyBound` | src/app_integration.rs:1023-1174 | Each step covers at least a k-th of what is left, for any k devices that would cover it all. |
| `AttachmentPlan.GreedyNonincreasing` | src/app_integration.rs:1023-1174 | Later steps never cover more. |
| `AttachmentPlan.GreedyDistinct` | src/app_integration.rs:1023-1174 | No device appears twice. |
| `AttachmentFacts.StateExactly` | src/app_integration.rs:670-743 | The state of a request, from files, claims, locations and devices alone: accessible exactly when a present claim for its content lies at an active location on an active device with an accessible root, to be attached exactly when only the root is missing. |
| `AttachmentFacts.CopiesExactly` | src/app_integration.rs:706-739 | The joins over claims, locations and devices find a copy exactly when there is such a claim. |
| `AttachmentFacts.ClashExactly` | src/app_integration.rs:670-743 | Two requests clash exactly when they have one object under two annex keys. |
| `AttachmentFacts.SummaryExactly` | src/app_integration.rs:819-872 | Each number of the summary is the number of requests in its state. |
| `AttachmentFacts.UselessClaims` | src/app_integration.rs:710-737 | A claim that is not present, or lies at an inactive location or on an inactive or unknown device, makes no difference to any state or summary. |
| `AttachmentFacts.UselessForPlan` | src/app_integration.rs:1048-1060 | Nor to the plan. |
| `AttachmentFacts.AddedClaim` | src/app_integration.rs:706-739 | A present claim for a requested file on an active device makes it accessible or attachable; accessible exactly when its root is, or when it was. |
| `AttachmentFacts.CoveredIsGain` | src/app_integration.rs:1045-1066 | What a device covers is the number of requested files without an accessible copy, with one on this device and none on a device before it. |
| `AttachmentFacts.PlanStepIs` | src/app_integration.rs:1045-1070 | So each step of a plan gives exactly that number, no other device would give more, and of equals the first is taken. |
| `AttachmentFacts.PlanEnds` | src/app_integration.rs:1045-1174 | When a plan ends, no device would give any more. |
| `Frontier.Validate` | src/frontier.rs:101-149 | Accepts exactly the valid frontiers; adjacent comparisons decide the whole order. |
| `Frontier.ValidExactly` | src/frontier.rs:101-149 | What a valid frontier is, field by field. |
| `Frontier.IdentifiersExactly` | src/frontier.rs:240-261 | Hashes and origin ids are their prefix and 64 lower-case hexadecimal digits. |
| `Frontier.LessExactly` | src/frontier.rs:101-149 | Identifiers are ordered by their first difference, a proper prefix first. |
| `Frontier.BinarySearch` | src/frontier.rs:166-238 | On a sorted list, finds exactly what is there. |
| `Frontier.ValidateSuccessorOf` | src/frontier.rs:166-238 | Accepts exactly the successors, and reports exactly the moved and the new origins. |
| `Frontier.AddedOrigins` | src/frontier.rs:166-238 | Exactly the origins the base does not list. |
| `Frontier.AdvancedExact` | src/frontier.rs:166-238 | An origin is reported advanced exactly when the base lists it with another sequence number. |
| `Frontier.AddedExact` | src/frontier.rs:166-238 | An origin is reported added exactly when only the later frontier lists it. |
| `Frontier.ChainKeeps` | src/frontier.rs:166-238 | Along any chain of successors no origin disappears or goes back, equal numbers mean equal tails, and archive and genesis stay. |
| `Frontier.FrontierIsAtOrBefore` | src/app_integration.rs:1194-1204 | On sorted origins, decides exactly the order of frontiers. |
| `Frontier.ChainAtOrBefore` | src/app_integration.rs:1194-1204 | Every later frontier of a chain is reachable from every earlier one. |
| `Frontier.IntroducedFiles` | src/app_integration.rs:191-293 | One page: exactly the next introduced files in path order, up to the limit, with a token exactly when more follow, for this collection, base and state and the last file given; a limit outside 1 to 1000, an unreachable base and a token of another read are refused. |
| `Frontier.ReadFeed` | src/app_integration.rs:213-293 | Following the tokens to the end gives exactly the introduced files in path order, none missing and none twice, whatever the page size. |
| `Frontier.FeedUnique` | src/app_integration.rs:227-241 | Path order and contents determine the feed, so every page size gives the same one. |
| `Frontier.IntroducedExact` | src/app_integration.rs:227-241 | A file is introduced exactly when the base does not cover its origin event. |
| `Frontier.CoveredExactly` | src/app_integration.rs:227-241 | A frontier covers a record exactly when it lists the record's origin at that number or a later one. |
| `Frontier.KeyExactly` | src/app_integration.rs:227-241 | The feed is ordered by encoding, then path, then file id. |
| `Frontier.ConsecutiveReads` | src/app_integration.rs:191-293 | Consecutive reads along a chain never report a file id twice, and between them miss none, since the record that introduced a file never changes. |
| `Discovery.FileDiscovery.RecordNamespace` | src/discovery.rs:247-279 | Adds exactly one record to count and combined digest. |
| `Discovery.FileDiscovery.Next` | src/discovery.rs:289-416 | One step of the explicit stack yields exactly the next item of the recursive walk, with its records and counts. |
| `Discovery.RunToEnd` | src/discovery.rs:289-416 | Running to the end is the recursive walk: same items, same order, same fingerprint, counters that count the items, and no more open directories than the tree is deep, plus the root. |
| `Discovery.WalkShuffled` | src/discovery.rs:289-416 | Enumeration order, at every level, changes neither which items nor which records there are. |
| `Discovery.XorOrderless` | src/discovery.rs:209-217 | The combined digest depends only on which records there are. |
| `Discovery.FingerprintOrderless` | src/discovery.rs:209-217 | So count and fingerprint are the same however directories are enumerated. |
| `WalkFacts.WalkExactly` | src/discovery.rs:289-416 | A walk reports, and fingerprints, exactly what the tree holds below directories that are not hidden and on the root's file system. |
| `WalkFacts.HiddenExactly` | src/discovery.rs:226-245 | Hidden is what has ledger or repository metadata in its whole path, or lies at or below an excluded path. |
| `WalkFacts.EntryExactly` | src/discovery.rs:289-416 | What one entry is reported as, what is recorded of it, and which directories are opened. |
| `WalkFacts.StatsExactly` | src/discovery.rs:289-416 | Each counter is the number of items of its sort. |
| `CompactProjection.IndexMeansUniquePaths` | src/compact_projection.sql:67-67 | The unique index on location and path key means no two active copies at one path. |
| `CompactProjection.ReviveExactly` | src/compact_projection.sql:67-67 | Bringing a superseded copy back is refused exactly when another copy is active at its key. |
| `CompactProjection.RefusedExactly` | src/compact_projection.rs:273-339 | When observing a copy meets the index, exactly. |
| `CompactProjection.Catalog.AppendCheck` | src/compact_projection.rs:228-259 | Check history only grows; a check that says nothing of presence leaves the latest presence. |
| `CompactProjection.Catalog.ObserveCopy` | src/compact_projection.rs:273-339 | Supersedes exactly the other identities at the path, inserts or updates this one, and refuses exactly as stated, changing nothing. Every field of the observed copy, and every other copy, is given from the observation and the row before. |
| `CompactProjection.Catalog.FailCopy` | src/compact_projection.rs:794-911 | Records the failure on the copy and its history; refused exactly when the copy was superseded and its path is taken. |
| `CompactProjection.RevivalRefused` | src/compact_projection.rs:794-911 | Valid tables in which marking a superseded copy corrupt is refused; without its rival the same copy becomes active again. |
| `CompactProjection.Catalog.MarkCopyMissing` | src/compact_projection.rs:573-653 | One copy and every alias bound to it become missing on one new check. |
| `CompactProjection.Catalog.ProjectAbsence` | src/compact_projection.rs:573-653 | Exactly the targeted copies and their aliases become missing, history grows, and no target is left. |
| `CompactProjection.NoTargetsLeft` | src/compact_projection.rs:573-653 | Afterwards the same absence has nothing to do. |
| `CompactProjection.AbsenceIsLocal` | src/compact_projection.rs:573-653 | Copies elsewhere, other copies of the content, and what is known of integrity are untouched. |
| `CompactProjection.AbsenceExactly` | src/compact_projection.rs:581-610 | Which copies an absent entry is about, from their rows alone. |
| `CompactProjection.AbsenceRecords` | src/compact_projection.rs:573-620 | Exactly those become missing, on a new check of their owner at that time; exactly the paths that show one are no longer present; nothing else changes but latest presences. |
| `CompactProjection.HintsExactly` | src/compact_projection.rs:621-652 | An availability hint goes exactly when it names the entry's store and no copy is held there or in the worktree any more. |
| `CompactProjection.Catalog.UpsertIdentity` | src/compact_projection.rs:353-429 | Refused exactly when a new identity's key belongs to another one; otherwise one row changes, and no content is resolved or unresolved. |
| `CompactProjection.Catalog.UpsertFile` | src/compact_projection.rs:161-182 | Refused exactly when another active file holds the path; otherwise exactly one row is written. |
| `CompactProjection.FileRefusedExactly` | src/compact_projection.rs:161-182 | The file is refused exactly when another active file has the path it keeps, or the path it would get. |
| `CompactProjection.Catalog.SettledSays` | src/compact_projection.rs:390-429 | After an absent entry its key and file say what the entry says: the file is active, with the content and the state of the key, and no copy is left to go missing. |
| `CompactProjection.Catalog.ProjectAbsentEntry` | src/compact_projection.rs:353-429 | Projects an absent entry completely, and reported again, at any later time, changes nothing at all. |
| `ScanFinalization.LookupExact` | src/compact_projection.rs:1015-1089 | The flags computed through temporary tables are the direct per-copy conditions. |
| `ScanFinalization.ScanFinalizer.PresenceCheck` | src/compact_projection.rs:925-973 | At most one new check a place and presence; among checks of the same presence the latest is never set back. |
| `ScanFinalization.ScanFinalizer.MissPath` | src/compact_projection.rs:1126-1130 | A missed path: its row, its check, and what the check does to the latest presence. |
| `ScanFinalization.ScanFinalizer.SeePath` | src/compact_projection.rs:1157-1161 | The same for a path seen present. |
| `ScanFinalization.ScanFinalizer.MissCopy` | src/compact_projection.rs:1131-1136 | A missing candidate becomes missing even if superseded, unless its path is taken: then, and only then, it is refused. |
| `ScanFinalization.ScanFinalizer.SeeCopy` | src/compact_projection.rs:1162-1167 | A copy found present: its row, its owner's check, and nothing else. |
| `ScanFinalization.ScanFinalizer.ScanTargets` | src/compact_projection.rs:976-1011 | Every target of a phase exactly once, in order of id, page by page, although the rows change under the query. |
| `ScanFinalization.ScanFinalizer.TreatPage` | src/compact_projection.rs:976-1011 | One page: all its targets, in order, with nothing else of the phase touched. |
| `ScanFinalization.ScanFinalizer.PrepareScanCopyTargets` | src/compact_projection.rs:1015-1089 | The prepared targets are exactly the copies concerned, with exactly their flags. |
| `ScanFinalization.ScanFinalizer.RecordMissing` | src/compact_projection.rs:1119-1155 | The steps every scan takes; refused exactly when a superseded candidate cannot be revived. |
| `ScanFinalization.ScanFinalizer.FinalizeScan` | src/compact_projection.rs:1091-1198 | The final row of every place and copy, and one check a place and presence; for each place and copy, its latest check is older than before exactly when a condition on the tables before the call holds. Refused exactly when a superseded candidate cannot be revived. Copies elsewhere, missing or superseded ones, and paths that do not concern the scan stay as they were unless named missing; who is stamped, missing, seen or found present is given from the rows alone. |
| `ScanFinalization.RowsEnd` | src/compact_projection.rs:1118-1168 | Every row's end, from the phases' own results. |
| `ScanFinalization.LeftAlone` | src/compact_projection.rs:1118-1168 | A copy that is neither reported missing nor one the scan may find is unchanged; a path that does not concern the scan keeps all but its latest presence, and that too unless it owns a copy that does. |
| `ScanFinalization.RecordsEnd` | src/compact_projection.rs:1118-1168 | Exactly which places and copies are stamped, missing, seen and found present, from files, places and copies alone. |
| `ScanFinalization.CoveredExactly` | src/compact_projection.rs:1034-1044 | A copy is covered exactly when a file of the collection has its path at the location, present or not. |
| `ScanFinalization.FoundExactly` | src/compact_projection.rs:1045-1080 | It is found exactly when a stamped, present path at the location has its path, or links its annexed content. |
| `ScanFinalization.PresenceTimeExactly` | src/compact_projection.rs:925-973 | Which check stays the latest of its presence: the earlier one if newer, or if this batch observed the content itself. |
| `ScanFinalization.LatestsEnd` | src/compact_projection.rs:925-973 | The freshness of every place and every copy after a whole finalization, exactly, from the tables before it. |
| `ScanFinalization.SharedSetBack` | src/compact_projection.rs:1162-1167 | A copy sharing its owner's latest check is set back only together with its owner. |
| `ScanFinalization.ClockRunsBack` | src/compact_projection.rs:1126-1167 | Valid tables on which a finalization succeeds and sets a place, and the copy it owns, back from time 100 to time 60. |
| `ScanFinalization.StillOnce` | src/compact_projection.rs:925-973 | Recording one more check keeps one check a place and presence. |
| `ContentConflict.ConflictStays` | src/compact_projection.rs:655-792 | Once in conflict, a path stays in conflict and without content, whatever contents are observed later, exactly as long as no annex entry of another state is projected for it. |
| `ContentConflict.ContentProjected` | src/compact_projection.rs:655-792 | A content observation conflicts exactly with a path in conflict, or with other content set by a record its observer had not accepted; else it resolves the path. |
| `ContentConflict.AnnexProjected` | src/compact_projection.rs:401-429 | An annex entry gives the path the content and state of its key; an absent one that says nothing new changes nothing. |
| `ContentConflict.ConcurrentExactly` | src/compact_projection.rs:655-792 | Any number of observers who did not know of each other end in conflict exactly when two of them saw different contents. |
| `ContentConflict.ConcurrentAnyOrder` | src/compact_projection.rs:655-792 | In whatever order they are replayed, the path ends in the same state with the same content. |
| `ContentConflict.AnnexSettles` | src/compact_projection.rs:401-429 | A conflict that an unresolved annex entry of the path removes, so that the next observer decides alone. |
| `ContentConflict.CausalHistoryResolves` | src/compact_projection.rs:655-792 | A history in which every observer knew of the one before resolves to the last content. |

## Findings

Where the code does less than its documentation, tests or comments suggest, the model follows the code, gives an
input (the lemma in brackets after **Input**), and proves when the property does hold.

- **A checkpoint cut off between its event and its manifest** (src/event_store.rs:1934-1979). The event is left in an
  open segment, where `complete_pending_checkpoint_locked` does not look (src/event_store.rs:1983-1985). The log still
  verifies but `verify` fails (`CreateWindow`); with nothing else pending, it fails exactly then (`FullVerifyExactly`).
  Closing the segment before anything else is appended repairs it (`WindowHealed`); the next acknowledged append ends
  that chance (`WindowBuried`), since a checkpoint file can be published only while its event is the last of the
  stream, and from then on no sequence of calls and crashes makes the checkpoints verify (`NeverVerifiesAgain`).
  No event is ever lost by this: `InterruptedAppend`, `AcknowledgedSurvives` and the unconditional clauses of
  `CreateCheckpoint` hold in and after the window. **Input**: every fully published store (`CreateWindow`).
- **Uncertain verdicts are not stable** (src/policy.rs:1879-1911). A timestamp in the future makes a copy uncertain
  without contributing an expiry, so the verdict can change while the evaluation still counts as valid.
  **Input**: a copy verified at time 7 and evaluated at time 5 (`FutureNotStable`). Satisfied and violated verdicts
  cannot change (`VerdictStable`); what each uncertain verdict becomes is determined by `VerdictAgesExactly`.
- **Superseded copies come back** (src/compact_projection.rs:794-911 and 1131-1136). A verification failure or a missed
  scan sets the state of a copy without asking whether it was superseded. If another copy is active at its path the
  unique index refuses the update and the whole call fails; otherwise the superseded copy is active again. Both
  happen exactly as `ReviveExactly`, `FailCopy`, `MissCopy` and `ReviveRefused` in `FinalizeScan` say.
  **Input**: a path with a superseded copy, with and without its successor (`RevivalRefused`).
- **Freshness can move backward over a whole finalization** (src/compact_projection.rs:1126-1167). `presence_check`
  keeps the later of two checks of the same presence, but a place recorded missing and then present in one
  finalization has lost its older, fresher presence by the time it is compared. That happens to a place whose path is
  missed, or that owns a copy made missing, when its path is also seen or it owns a copy found present through an
  alias, and it was known present later than the scan started (`PlaceSetBack`). It also happens to a copy whose own
  latest check is later than the one its owner ends with (`CopySetBack`). Both conditions are about the tables before
  the call (`Expected` computes the rows they need). When they hold freshness moves backward, otherwise it does not
  (`FinalizeScan`, `LatestsEnd`). **Input**: two aliases of one annex key (`ClockRunsBack`).
- **A clash of identities stops a whole session** (src/app_integration.rs:670-743). Two requested files that share an
  object but not their external identity violate the temporary table's key, and the access session cannot be
  installed; exactly then (`GroupedExactly`). **Input**: two files of one object under two annex keys (`SampleClash`).
- **Numbers that do not fit the database** (src/policy.rs:2028-2098). A complete evaluation is refused exactly when a
  counter or the expiry exceeds a signed 64-bit integer (`RunComplete`). **Input**: two files of 2^62 bytes
  (`SampleTooLarge`).
- **Hashes no line is compared with** (src/event_store.rs:1126-1133). A seeking cursor at the end of the open segment is
  accepted whatever hash it carries, because a reader that finds nothing to read compares nothing; anywhere else in the
  stream a wrong hash is refused, by the preceding manifest or by the next line (`ReadBatch`, `Unchecked`). Once another
  event follows, the same cursor is refused. **Input**: every store with an event in an open segment
  (`TailHashUnchecked`), and one such store (`SampleReads`).
- **Cursors past the end** (src/event_store.rs:1006-1224). A plain cursor beyond the stream is accepted with an empty
  batch at the end of the stream; its hash is not looked at. **Input**: every store (`PastEndAccepted`), and one
  (`SampleReads`).
- **The end is reported late** (src/event_store.rs:1200-1203). A batch that reaches the event limit exactly at the end
  of the stream is not marked as the end; the next one, empty, is (`IsRead`). **Input**: every stream read with its own
  length as the limit (`EndReportedLate`), and one (`SampleEnd`).
- **An annex entry ends a conflict** (src/compact_projection.rs:179 and 401-429). A content observation keeps a path in
  conflict, but an annex entry for the same file writes its own state and content without looking at them; the conflict
  lasts exactly until the first such entry (`ConflictStays`). **Input**: two concurrent observations, an unresolved
  entry, and a third observation that then decides alone (`AnnexSettles`).

## Left out

What members in the table do not promise:

- EventStore.Store.AppendBatches: sequence numbers and offsets are unbounded; the overflow errors of 64-bit sequence numbers are not modelled.
- EventStore.Store.VerifyLog: digests are opaque strings, so the syntax of a digest field is not checked, and duplicate JSON keys are left to the parser.
- EventStore.Store.ReadManifestLastEvent: which error it gives on a store that does not verify is not stated.
- LogReader.ReadBatch: what it returns for a store that does not verify, or for a seeking cursor that does not point just past its event, is not stated beyond the refusal of bad arguments.
- LogReader.StreamSegments: directory listings are taken in ascending order, as the code sorts them.
- AnnexImport.ImportJob.RunAtMost: the source repository is taken not to change between runs, so the comparison of stored snapshots and the error for a changed source are not modelled; cancelled jobs are not either.
- AnnexImport.ImportJob.ProcessEntry: the item of an entry is a function of the entry; the timing fields the real item carries, and with them differences between two runs of the same entry, are not modelled.
- ScanFinalization.ScanFinalizer.FinalizeScan: the comparison of the recorded candidates with the reported count, the refusal of candidates of a scan that is not complete, and the scan's own row are not modelled.
- Frontier.IntroducedFiles: the upkeep of the projection at the current state and the undecodable tokens are not modelled.
- AttachmentPlan.AccessSession.MakePlan: the locations listed within a step and which accessible copy is offered are not modelled.
- Discovery.FileDiscovery.Next: the tree is a value, so input and output errors, concurrent changes and the validation of the root are not modelled.
- ContentConflict.ConcurrentAnyOrder: agreement of replay orders is stated for observations of which none knew of another; histories that mix concurrent and causal observations are not compared.

What the model as a whole leaves out:

- Temporary files, locks and directory entries of the log: reduced to whether a file's bytes, its link, a manifest or a checkpoint is durable.
- File names: a segment is named by its first sequence number, a checkpoint by its id.
- The clock, fresh identifiers and where an operation is interrupted: parameters.
- Serialization, parsing and hashing: functions with the properties named above; canonical bytes of frontiers likewise.
- Read statistics and progress callbacks.
- Policy recommendations, the paging of policy results, display names, JSON rendering and the order of findings.
- Conversion of database integers on reading policies, verification times and sequence numbers.
- Annex job configuration, blob reading and the JSON of single items; the log append of a finished import is one atomic step.
- Mount discovery, session tokens and paths of the access interface.
- Display text and remote ids of the projection, the rows of entries that are present, and the count check of missing candidates; error texts are a field of the check row.
- The older projection, the command line, the web interface, migration and backup: they would add easy members, or repeat what is modelled here.
