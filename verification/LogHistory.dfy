/** Whole runs of the event store: any number of writer calls, each possibly interrupted, and crashes. */
module LogHistory {
  import opened Wrappers
  import opened LogLines
  import opened EventFormat
  import opened LogDisk
  import opened LogCrash
  import opened LogSteps
  import opened LogWriter
  import opened LogVerify
  import opened LogCheckpoint

  /** `Wrote` is a writer call, finished or not, that set out to append `lines`. */
  datatype Step = Wrote(lines: seq<Bytes>) | Crashed

  /** What every public writer operation promises, and what a crash may do. */
  ghost predicate StepOk(f: LogFormat, d: Disk, step: Step, d': Disk) {
    match step
    case Wrote(lines) => WriterStep(f, d, d', lines)
    case Crashed => CrashesTo(d, d')
  }

  ghost predicate IsRun(f: LogFormat, disks: seq<Disk>, steps: seq<Step>) {
    && |disks| == |steps| + 1
    && forall i :: 0 <= i < |steps| ==> StepOk(f, disks[i], steps[i], disks[i + 1])
  }

  /** The events of `d` that no crash can remove. */
  function DurablePart(f: LogFormat, d: Disk): seq<Bytes> {
    if DurableCount(d) <= |Recovered(f, d)| then Recovered(f, d)[..DurableCount(d)] else []
  }

  lemma DurableInside(f: LogFormat, d: Disk)
    requires Inv(f, d)
    ensures DurableCount(d) <= |Recovered(f, d)|
  {
    hide Split, Stream, ClosedOk, TailPieces, PiecesRecovered, TailRecovered, TailDurable;
    RecoveredByPieces(f, d);
    if Open(d).Some? { DurableWithin(f, Open(d).value); }
  }

  lemma PrefixOfPrefix<T>(a: seq<T>, n: nat, b: seq<T>)
    requires n <= |a| && (a <= b || (b <= a && n <= |b|))
    ensures n <= |b| && a[..n] == b[..n]
  {
    if a <= b { assert a == b[..|a|]; } else { assert b == a[..|b|]; }
  }

  lemma StepDurable(f: LogFormat, d: Disk, step: Step, d': Disk)
    requires Inv(f, d) && StepOk(f, d, step, d')
    ensures Inv(f, d') && DurableCount(d) <= DurableCount(d')
    ensures DurablePart(f, d) <= DurablePart(f, d')
  {
    hide Split, Stream, Inv, CheckpointInv, Recovered, DurableCount, CrashesTo, ClosedKept, TailClear;
    if step.Crashed? {
      CrashKeepsDurable(f, d, d');
    }
    DurablePartGrows(f, d, d');
  }

  lemma DurablePartGrows(f: LogFormat, d: Disk, d': Disk)
    requires Inv(f, d) && Inv(f, d') && DurableCount(d) <= DurableCount(d')
    requires Recovered(f, d) <= Recovered(f, d') || Recovered(f, d') <= Recovered(f, d)
    ensures DurablePart(f, d) <= DurablePart(f, d')
  {
    hide Inv, Recovered, DurableCount;
    DurableInside(f, d);
    DurableInside(f, d');
    PrefixOfPrefix(Recovered(f, d), DurableCount(d), Recovered(f, d'));
    assert Recovered(f, d')[..DurableCount(d')][..DurableCount(d)] == Recovered(f, d')[..DurableCount(d)];
  }

  /** Over every run, the invariant holds at every point and durable events stay, in place, for ever. */
  lemma {:induction false} RunKeepsDurable(f: LogFormat, disks: seq<Disk>, steps: seq<Step>, i: nat, j: nat)
    requires IsRun(f, disks, steps) && Inv(f, disks[0]) && i <= j <= |steps|
    ensures Inv(f, disks[i]) && Inv(f, disks[j])
    ensures DurablePart(f, disks[i]) <= DurablePart(f, disks[j]) <= Recovered(f, disks[j])
    decreases j, i
  {
    hide Inv, StepOk, DurablePart, DurableCount, Recovered;
    if j == 0 {
      PartOfStream(f, disks[0]);
    } else if i == j {
      RunKeepsDurable(f, disks, steps, j - 1, j - 1);
      StepDurable(f, disks[j - 1], steps[j - 1], disks[j]);
      PartOfStream(f, disks[j]);
    } else {
      RunKeepsDurable(f, disks, steps, i, j - 1);
      StepDurable(f, disks[j - 1], steps[j - 1], disks[j]);
      PartOfStream(f, disks[j]);
    }
  }

  lemma PartOfStream(f: LogFormat, d: Disk)
    ensures DurablePart(f, d) <= Recovered(f, d)
    ensures DurableCount(d) == |Recovered(f, d)| ==> DurablePart(f, d) == Recovered(f, d)
  {
    hide Recovered, DurableCount;
  }

  /** An append acknowledged with `Ok` at step `i` is in the stream after every later step and crash. */
  lemma AcknowledgedSurvives(f: LogFormat, disks: seq<Disk>, steps: seq<Step>, i: nat, j: nat)
    requires IsRun(f, disks, steps) && Inv(f, disks[0]) && i < j <= |steps| && steps[i].Wrote?
    requires Recovered(f, disks[i + 1]) == Recovered(f, disks[i]) + steps[i].lines
    requires DurableCount(disks[i + 1]) == |Recovered(f, disks[i + 1])|
    ensures Recovered(f, disks[i]) + steps[i].lines <= Recovered(f, disks[j])
  {
    hide Inv, StepOk, DurablePart, DurableCount, Recovered;
    RunKeepsDurable(f, disks, steps, i + 1, j);
    PartOfStream(f, disks[i + 1]);
  }

  /** These segment files are still there, byte for byte. */
  ghost predicate SegmentsKept(segments: seq<SegmentFile>, d: Disk) {
    forall i :: 0 <= i < |segments| ==> KeptAt(segments[i], i, d)
  }

  predicate KeptAt(s: SegmentFile, i: nat, d: Disk) {
    i < |d.segments| && d.segments[i].first == s.first && d.segments[i].bytes == s.bytes
  }

  lemma CrashKeepsSegments(f: LogFormat, d: Disk, d': Disk)
    requires Inv(f, d) && CrashesTo(d, d')
    ensures SegmentsKept(Closed(d), d')
  {
    hide Split, Stream, CrashesTo, Recovered, DurableCount, Inv, Closed, Open, SegmentsKept, FilesClosed;
    CrashKeepsDurable(f, d, d');
    ClosedOpen(d);
    ClosedOpen(d');
    if Open(d).None? {
      InvFilesClosed(f, d);
      ClosedSegmentsStay(f, d, d');
      assert d.segments == Closed(d);
    }
    PrefixKept(Closed(d), d');
  }

  lemma PrefixKept(segments: seq<SegmentFile>, d: Disk)
    requires segments <= d.segments
    ensures SegmentsKept(segments, d)
  {
  }

  lemma ReopenKeepsSegments(f: LogFormat, segments: seq<SegmentFile>, d: Disk, d': Disk)
    requires Inv(f, d) && Appended(f, d, d', []) && Settled(d')
    requires SegmentsKept(segments, d) && forall i :: 0 <= i < |segments| ==> RestOf(segments[i]) == []
    ensures SegmentsKept(segments, d')
  {
    hide Split, Stream, Inv, Recovered, DurableCount, TailKept;
    forall i | 0 <= i < |segments|
      ensures KeptAt(segments[i], i, d')
    {
      assert KeptAt(segments[i], i, d);
      if i < |Closed(d)| {
        assert Closed(d)[i] == Closed(d')[i];
      } else {
        TailBytesKept(f, d, d');
      }
    }
  }

  /** A terminated open tail that nothing is appended to keeps its bytes. */
  lemma TailBytesKept(f: LogFormat, d: Disk, d': Disk)
    requires Appended(f, d, d', []) && Settled(d') && Open(d).Some? && RestOf(Open(d).value) == []
    ensures |Closed(d)| < |d'.segments| && d'.segments[|Closed(d)|].first == Open(d).value.first
    ensures d'.segments[|Closed(d)|].bytes == Open(d).value.bytes
  {
    hide Split, FileOf, Stream, Inv, DurableCount, Recovered, PendingLine;
    var i, s, s' := |Closed(d)|, Open(d).value, d'.segments[|Closed(d)|];
    assert d'.segments[..i] == Closed(d) && d'.segments[..i + 1] == d'.segments[..i] + [s'];
    StreamSnoc(Closed(d), s');
    StreamPrefix(d'.segments, i + 1);
    ClosedOpen(d);
    SettledRecovered(f, d);
    SettledRecovered(f, d');
    assert Recovered(f, d) + [] == Recovered(f, d);
    assert |Stream(d'.segments[..i + 1])| <= |Stream(d'.segments)|;
    assert LinesOf(s') == LinesOf(s);
    SettledRest(f, d', i);
    assert s'.bytes == FileOf(LinesOf(s')) + RestOf(s') && s.bytes == FileOf(LinesOf(s)) + RestOf(s);
  }

  lemma SettledRest(f: LogFormat, d: Disk, i: nat)
    requires Inv(f, d) && Settled(d) && i < |d.segments|
    ensures RestOf(d.segments[i]) == []
  {
    hide Split, FileOf, Stream, GoodStream, TailOk;
    if i < |Closed(d)| {
      assert Closed(d)[i] == d.segments[i];
      assert IsClosed(f, Closed(d)[i], d.manifests[Closed(d)[i].first].manifest);
    }
  }

  lemma ClosedRests(f: LogFormat, d: Disk)
    requires Inv(f, d)
    ensures forall i :: 0 <= i < |Closed(d)| ==> RestOf(Closed(d)[i]) == []
  {
    hide Split, FileOf, Stream, GoodStream, TailOk, Closed;
    forall i | 0 <= i < |Closed(d)| ensures RestOf(Closed(d)[i]) == [] {
      assert IsClosed(f, Closed(d)[i], d.manifests[Closed(d)[i].first].manifest);
    }
  }

  /** An append interrupted anywhere, a crash cutting any unsynced bytes, and a reopening: what was durable
      of the old stream, at most the new events after it, on closed segments that did not change, and which
      verify. When the old stream was all durable it is all there, followed by a prefix of the new events. */
  lemma InterruptedAppend(f: LogFormat, d0: Disk, d1: Disk, d2: Disk, d3: Disk, lines: seq<Bytes>)
    requires Inv(f, d0)
    requires Appended(f, d0, d1, lines) && CrashesTo(d1, d2) && Appended(f, d2, d3, []) && Settled(d3)
    ensures DurablePart(f, d0) <= Recovered(f, d3) <= Recovered(f, d0) + lines
    ensures DurableCount(d0) == |Recovered(f, d0)| ==> Recovered(f, d0) <= Recovered(f, d3)
    ensures SegmentsKept(Closed(d0), d3)
    ensures Verified(f, d3) && Stream(d3.segments) == Recovered(f, d3)
    ensures Chain(f, Stream(d3.segments), 1, None)
    ensures forall i :: 0 <= i < |d3.segments| - 1 ==> d3.segments[i].first in d3.manifests
  {
    hide Split, Stream, Inv, Recovered, DurableCount, DurablePart, CrashesTo, Chain, Verified, TailKept, Closed, Open, RestOf;
    CrashKeepsDurable(f, d1, d2);
    assert Recovered(f, d2) + [] == Recovered(f, d2) && Recovered(f, d3) == Recovered(f, d2);
    DurablePartGrows(f, d0, d1);
    DurablePartGrows(f, d1, d2);
    PartOfStream(f, d0);
    PartOfStream(f, d2);
    CrashKeepsSegments(f, d1, d2);
    assert SegmentsKept(Closed(d0), d2);
    ClosedRests(f, d0);
    ReopenKeepsSegments(f, Closed(d0), d2, d3);
    InvVerified(f, d3);
    VerifiedChain(f, d3);
    SettledRecovered(f, d3);
    InvLayout(f, d3);
  }

  lemma SettledRecovered(f: LogFormat, d: Disk)
    requires Settled(d)
    ensures Recovered(f, d) == Stream(d.segments)
  {
    hide Split, Stream;
    assert Stream(d.segments) + [] == Stream(d.segments);
  }

  // ----- checkpoints -----

  /** A crash keeps the checkpoint invariant, unless it brings a checkpoint event back into an open tail. */
  lemma CheckpointInvCrashed(f: LogFormat, d: Disk, d': Disk)
    requires Inv(f, d) && CheckpointInv(f, d) && CrashesTo(d, d') && TailClear(f, d')
    ensures CheckpointInv(f, d')
  {
    hide Split, Stream, CheckpointRecords, RecordTracked, DistinctRecords, TailClear, Inv;
    CrashKeepsDurable(f, d, d');
    if |Closed(d')| == |Closed(d)| {
      assert Closed(d') == Closed(d);
      CrashSameClosed(f, d, d');
    } else {
      CrashLostManifest(f, d, d');
    }
  }

  lemma CrashSameClosed(f: LogFormat, d: Disk, d': Disk)
    requires Inv(f, d) && Tracked(f, d) && CrashesTo(d, d') && Closed(d') == Closed(d)
    ensures Tracked(f, d')
  {
    hide Split, Stream, CheckpointRecords, RecordTracked, DistinctRecords, Inv;
    if Open(d).None? {
      InvFilesClosed(f, d);
      ClosedSegmentsStay(f, d, d');
    }
    var rs := ClosedRecords(f, d);
    forall i | 0 <= i < |rs| ensures RecordTracked(f, d', rs[i]) {
      RecordTrackedKept(f, d, d', rs[i]);
    }
  }

  lemma InvFilesClosed(f: LogFormat, d: Disk)
    requires Inv(f, d) && Open(d).None?
    ensures FilesClosed(f, d.segments, d.manifests)
  {
  }

  /** When the last manifest is lost, its segment reopens; no checkpoint event was in it. */
  lemma CrashLostManifest(f: LogFormat, d: Disk, d': Disk)
    requires Inv(f, d) && Tracked(f, d) && CrashesTo(d, d') && TailClear(f, d')
    requires Open(d).Some? ==> Closed(d') == Closed(d)
    requires Closed(d') <= Closed(d) && |Closed(d')| != |Closed(d)|
    ensures Tracked(f, d')
  {
    hide Split, FileOf, Stream, CheckpointRecords, DistinctRecords, Inv, IsCheckpointLine, IsCheckpointOf, Chain;
    InvFilesClosed(f, d);
    ClosedSegmentsStay(f, d, d');
    var n := |d.segments|;
    var init, last := d.segments[..n - 1], d.segments[n - 1];
    assert Closed(d') == init && Open(d') == Some(last);
    LostSegment(f, d);
    NoRecords(f, LinesOf(last));
    CheckpointRecordsConcat(f, Stream(init), LinesOf(last));
    var rs := ClosedRecords(f, d);
    assert ClosedRecords(f, d') == rs by { assert rs == ClosedRecords(f, d') + []; }
    forall i | 0 <= i < |rs| ensures RecordTracked(f, d', rs[i]) {
      assert RecordTracked(f, d, rs[i]);
      GoodPrefix(f, Stream(init), LinesOf(last));
      RecordPositions(f, Stream(init), i);
      EarlierRecord(f, d, d', rs[i]);
    }
  }

  lemma LostSegment(f: LogFormat, d: Disk)
    requires Inv(f, d) && Open(d).None? && |d.segments| > 0
    ensures var n := |d.segments|;
            && |LinesOf(d.segments[n - 1])| > 0 && RestOf(d.segments[n - 1]) == []
            && Stream(d.segments) == Stream(d.segments[..n - 1]) + LinesOf(d.segments[n - 1])
            && TailRecovered(f, d.segments[n - 1]) == LinesOf(d.segments[n - 1])
            && GoodStream(f, Stream(d.segments[..n - 1]) + LinesOf(d.segments[n - 1]))
  {
    hide ClosedOk, Stream, LinesOf, RestOf, TailRecovered, GoodStream;
    LastClosed(f, d.segments, d.manifests);
  }

  lemma LastClosed(f: LogFormat, segments: seq<SegmentFile>, manifests: map<nat, ManifestFile>)
    requires ClosedOk(f, segments, manifests) && |segments| > 0
    ensures var n := |segments|;
            && |LinesOf(segments[n - 1])| > 0 && RestOf(segments[n - 1]) == []
            && Stream(segments) == Stream(segments[..n - 1]) + LinesOf(segments[n - 1])
            && TailRecovered(f, segments[n - 1]) == LinesOf(segments[n - 1])
            && GoodStream(f, Stream(segments[..n - 1]) + LinesOf(segments[n - 1]))
  {
    hide Split, FileOf, GoodStream, Stream, Placed, NoOrphan;
    var n, s := |segments|, segments[|segments| - 1];
    assert segments == segments[..n - 1] + [s];
    StreamSnoc(segments[..n - 1], s);
    assert IsClosed(f, s, manifests[s.first].manifest);
    assert LinesOf(s) + [] == LinesOf(s);
  }

  /** A record before the last segment keeps its boundary and its durable file. */
  lemma EarlierRecord(f: LogFormat, d: Disk, d': Disk, r: EventRecord)
    requires RecordTracked(f, d, r) && Open(d).None? && |d.segments| > 0 && d'.segments == d.segments
    requires Closed(d') == d.segments[..|d.segments| - 1] && CrashesTo(d, d')
    requires r.envelope.seqNo <= |Stream(Closed(d'))| < |Stream(d.segments)|
    ensures RecordTracked(f, d', r)
  {
    hide Split, Stream, Cover, CheckpointIdOf;
    assert !IsTailEvent(d, r) && FileDurable(f, d, r);
    var k: nat :| EndsAt(d, k, r.envelope.seqNo);
    assert k <= |Closed(d')| by { assert d.segments[..|d.segments|] == d.segments; }
    assert EndsAt(d', k, r.envelope.seqNo);
    var c := d.checkpoints[CheckpointIdOf(f, r).value].checkpoint;
    assert IsCheckpointOf(f, d, r, c);
    var m: nat :| EndsAt(d, m, r.envelope.seqNo) && c == CheckpointFor(f, r, Cover(f, d.segments[..m]));
    assert m <= |Closed(d')| by { assert d.segments[..|d.segments|] == d.segments; }
    assert EndsAt(d', m, r.envelope.seqNo);
  }

  /** Over every run that never leaves a checkpoint event in an open tail, the checkpoint invariant holds throughout. */
  lemma {:induction false} RunKeepsCheckpoints(f: LogFormat, disks: seq<Disk>, steps: seq<Step>, j: nat)
    requires IsRun(f, disks, steps) && Inv(f, disks[0]) && CheckpointInv(f, disks[0]) && j <= |steps|
    requires forall i :: 0 <= i <= |steps| ==> TailClear(f, disks[i])
    ensures Inv(f, disks[j]) && CheckpointInv(f, disks[j])
  {
    hide Inv, CheckpointInv, TailClear, CrashesTo, Appended, DurableCount, DurablePart;
    if j > 0 {
      RunKeepsCheckpoints(f, disks, steps, j - 1);
      assert StepOk(f, disks[j - 1], steps[j - 1], disks[j]);
      StepDurable(f, disks[j - 1], steps[j - 1], disks[j]);
      if steps[j - 1].Crashed? {
        CheckpointInvCrashed(f, disks[j - 1], disks[j]);
      }
    }
  }

  /** A checkpoint file lost in a crash is published again with the same contents. */
  lemma RepublishedSame(f: LogFormat, d: Disk, d': Disk, r: EventRecord, c: Checkpoint, c': Checkpoint)
    requires Inv(f, d) && Open(d).None? && IsCheckpointOf(f, d, r, c)
    requires CrashesTo(d, d') && Open(d').None? && IsCheckpointOf(f, d', r, c')
    ensures c' == c
  {
    hide Split, Stream, Inv, Cover, IsCheckpointOf, Verified;
    CrashKeepsDurable(f, d, d');
    InvFilesClosed(f, d);
    ClosedSegmentsStay(f, d, d');
    InvVerified(f, d');
    IsCheckpointOfKept(f, d, d', r, c);
    IsCheckpointOfUnique(f, d', r, c, c');
  }

  /** The crash window of `create_checkpoint`: from every fully published store, interrupting it after
      the event line and before the manifest leaves a store whose log verifies but whose checkpoints do not. */
  lemma CreateWindow(f: LogFormat, v: WriterView, d: Disk, line: Bytes)
    requires Matches(f, v, d) && v.open.None? && Tracked(f, d) && AllPublished(f, d)
    requires EventFits(f, d, line, f.hash(line)) && IsCheckpointLine(f, line)
    ensures var created := Created(d, v.nextSeq);
            var written := SetTail(created, WithBytes(LastOf(created.segments), LastOf(created.segments).bytes + line));
            var window := SetTail(written, WithBytes(LastOf(written.segments), LastOf(written.segments).bytes + [NEWLINE]));
            && Appended(f, d, window, [line]) && Settled(window) && Verified(f, window)
            && Open(window).Some? && !TailClear(f, window) && !CheckpointsOk(f, window)
            && Recovered(f, window) == Recovered(f, d) + [line] && window.checkpoints == d.checkpoints
  {
    hide Split, FileOf, Stream, Inv, Recovered, Matches, Appended, EventFits, Tracked, CheckpointsOk, Verified,
         IsCheckpointLine, AllPublished;
    var v1 := v.(open := Some(OpenSegment(v.nextSeq, 0)));
    var v2 := v1.(open := Some(OpenSegment(v.nextSeq, 1)), nextSeq := v1.nextSeq + 1, previousHash := Some(f.hash(line)));
    var created := Created(d, v.nextSeq);
    var written := SetTail(created, WithBytes(LastOf(created.segments), LastOf(created.segments).bytes + line));
    var window := SetTail(written, WithBytes(LastOf(written.segments), LastOf(written.segments).bytes + [NEWLINE]));
    MatchedCreate(f, v, d, v1);
    assert [NEWLINE][..1] == [NEWLINE];
    FitsAfterCreate(f, d, created, line);
    MatchedAttached(f, v1, created);
    TailAttached(created, LastOf(written.segments), v1, v1);
    TailAttached(written, LastOf(window.segments), v1, v2);
    MatchedWrite(f, v1, created, written, window, v2, line, 1);
    AppendedLater(f, d, created, window, line);
    MatchedSettled(f, v2, window);
    InvVerified(f, window);
    CreatedEmpty(f, v, d);
    WindowTail(f, created, window, line);
    TailRecordUnpublished(f, window, 0);
  }

  lemma CreatedEmpty(f: LogFormat, v: WriterView, d: Disk)
    requires Matches(f, v, d) && v.open.None?
    ensures Open(Created(d, v.nextSeq)).Some? && LinesOf(Open(Created(d, v.nextSeq)).value) == []
  {
    hide Split, Stream, Inv;
    CreatedShape(f, d, v.nextSeq);
  }

  lemma FitsAfterCreate(f: LogFormat, d: Disk, d': Disk, line: Bytes)
    requires EventFits(f, d, line, f.hash(line)) && Stream(d'.segments) == Stream(d.segments)
    ensures EventFits(f, d', line, f.hash(line))
  {
    hide Stream;
  }

  lemma MatchedAttached(f: LogFormat, v: WriterView, d: Disk)
    requires Matches(f, v, d)
    ensures Attached(v, d)
  {
  }

  lemma MatchedSettled(f: LogFormat, v: WriterView, d: Disk)
    requires Matches(f, v, d)
    ensures Inv(f, d) && Settled(d)
  {
  }

  lemma AppendedLater(f: LogFormat, d0: Disk, d1: Disk, d2: Disk, line: Bytes)
    requires Appended(f, d0, d1, []) && Recovered(f, d1) == Recovered(f, d0) && Appended(f, d1, d2, [line])
    ensures Appended(f, d0, d2, [line])
  {
    hide Inv, Recovered, DurableCount, ClosedKept;
    ClosedKeptTrans(d0, d1, d2);
  }

  lemma WindowTail(f: LogFormat, created: Disk, window: Disk, line: Bytes)
    requires Open(created).Some? && Open(window).Some? && Closed(window) == Closed(created)
    requires LinesOf(Open(created).value) == [] && Settled(window) && IsCheckpointLine(f, line)
    requires Stream(window.segments) == Stream(created.segments) + [line]
    ensures LinesOf(Open(window).value) == [line] && !TailClear(f, window)
  {
    hide Split, Stream, IsCheckpointLine;
    ClosedOpen(created);
    ClosedOpen(window);
    var closed, tail := Stream(Closed(created)), LinesOf(Open(window).value);
    assert closed + [] == closed;
    assert closed + tail == closed + [line];
    assert tail == (closed + tail)[|closed|..] == (closed + [line])[|closed|..] == [line];
    assert TailRecovered(f, Open(window).value)[0] == line;
  }

  // ----- a checkpoint event that other events follow -----

  /** The way back from the window: if the open segment is closed before anything else is appended, the
      checkpoint is an ordinary pending one, which the next opening of the store publishes. */
  lemma WindowHealed(f: LogFormat, d: Disk, window: Disk, d': Disk, line: Bytes)
    requires CheckpointInv(f, d) && AllPublished(f, d) && FreshCheckpointLine(f, d, line)
    requires Appended(f, d, window, [line]) && Recovered(f, window) == Recovered(f, d) + [line]
    requires Appended(f, window, d', []) && Open(d').None?
    requires window.checkpoints == d.checkpoints && d'.checkpoints == window.checkpoints
    ensures CheckpointInv(f, d')
  {
    hide Inv, Recovered, Appended, CheckpointInv, AllPublished, FreshCheckpointLine;
    AppendedTrans(f, d, window, d', [line], []);
    assert [line] + [] == [line];
    CheckpointInvCreated(f, d, d', line);
  }

  /** The event at position `n` asks for a checkpoint file, a durable event follows it, and no file ends with it. */
  ghost predicate Buried(f: LogFormat, d: Disk, n: nat) {
    && n + 1 < DurableCount(d) <= |Recovered(f, d)| && IsCheckpointLine(f, Recovered(f, d)[n])
    && forall id :: id in d.checkpoints ==> d.checkpoints[id].checkpoint.eventLastSeq != n + 1
  }

  lemma BuriedStays(f: LogFormat, d: Disk, step: Step, d': Disk, n: nat)
    requires Inv(f, d) && StepOk(f, d, step, d') && Buried(f, d, n)
    ensures Inv(f, d') && Buried(f, d', n)
  {
    hide Split, Stream, Inv, CheckpointInv, Recovered, DurableCount, ClosedKept, TailClear, IsCheckpointLine;
    StepDurable(f, d, step, d');
    DurableInside(f, d');
    assert DurablePart(f, d)[n] == DurablePart(f, d')[n];
  }

  /** What is durable lies in complete lines. */
  lemma DurableComplete(f: LogFormat, d: Disk)
    requires Inv(f, d)
    ensures DurableCount(d) <= |Stream(d.segments)| && Stream(d.segments) <= Recovered(f, d)
  {
    hide Split, Stream, ClosedOk, TailPieces;
    ClosedOpen(d);
    if Open(d).Some? {
      var s := Open(d).value;
      if s.synced <= |s.bytes| {
        LinesOfPrefix(s.bytes, s.synced, |s.bytes|);
        assert s.bytes[..|s.bytes|] == s.bytes;
      }
    }
  }

  lemma BuriedRefused(f: LogFormat, d: Disk, n: nat)
    requires Inv(f, d) && Buried(f, d, n)
    ensures !CheckpointsOk(f, d)
  {
    hide Split, Inv, Recovered, DurableCount, Stream, CheckpointRecords, IsCheckpointOf, IsCheckpointLine;
    DurableComplete(f, d);
    var lines := Stream(d.segments);
    assert lines[n] == Recovered(f, d)[n];
    RecordAt(f, d, n);
    var rs := CheckpointRecords(f, lines);
    var i :| 0 <= i < |rs| && rs[i].envelope.seqNo == n + 1;
    if CheckpointsOk(f, d) {
      var c := d.checkpoints[CheckpointIdOf(f, rs[i]).value].checkpoint;
      assert IsCheckpointOf(f, d, rs[i], c);
      CheckpointFields(f, d, rs[i], c);
      assert false;
    }
  }

  lemma InvChain(f: LogFormat, d: Disk)
    requires Inv(f, d)
    ensures Chain(f, Stream(d.segments), 1, None)
  {
    hide Split, Stream, Chain, Torn, Canonical, Placed, FilesClosed, NoOrphan;
    ClosedOpen(d);
    if Open(d).Some? {
      ChainConcat(f, Stream(Closed(d)), LinesOf(Open(d).value), 1, None);
    }
  }

  lemma RecordAt(f: LogFormat, d: Disk, n: nat)
    requires Inv(f, d) && n < |Stream(d.segments)| && IsCheckpointLine(f, Stream(d.segments)[n])
    ensures var rs := CheckpointRecords(f, Stream(d.segments)); exists i :: 0 <= i < |rs| && rs[i].envelope.seqNo == n + 1
  {
    hide Split, Stream, Inv, CheckpointRecords;
    InvChain(f, d);
    var lines := Stream(d.segments);
    CheckpointRecordsExact(f, lines);
    assert LineOk(f, lines[n], 1 + n, PreviousAt(f, lines, n, None));
    assert RecordOf(f, lines[n]) in CheckpointRecords(f, lines);
  }

  lemma FilesBelow(f: LogFormat, d: Disk)
    requires Tracked(f, d)
    ensures forall id :: id in d.checkpoints ==> d.checkpoints[id].checkpoint.eventLastSeq <= |Stream(d.segments)|
  {
    hide Stream, CheckpointRecords, IsCheckpointOf;
    var rs := ClosedRecords(f, d);
    forall id | id in d.checkpoints ensures d.checkpoints[id].checkpoint.eventLastSeq <= |Stream(d.segments)| {
      var i :| 0 <= i < |rs| && CheckpointIdOf(f, rs[i]) == Some(id);
      assert RecordTracked(f, d, rs[i]);
      CheckpointFields(f, d, rs[i], d.checkpoints[id].checkpoint);
      var k: nat :| EndsAt(d, k, rs[i].envelope.seqNo);
      StreamPrefix(d.segments, k);
    }
  }

  /** After the crash window of `create_checkpoint`, the next acknowledged append is past the point of no return. */
  lemma WindowBuried(f: LogFormat, d: Disk, window: Disk, d': Disk, line: Bytes, lines: seq<Bytes>)
    requires Inv(f, d) && Tracked(f, d) && window.checkpoints == d.checkpoints && IsCheckpointLine(f, line)
    requires Recovered(f, window) == Recovered(f, d) + [line]
    requires Appended(f, window, d', lines) && d'.checkpoints == window.checkpoints
    requires DurableCount(d') == |Recovered(f, d')| > |Recovered(f, window)|
    ensures Buried(f, d', |Recovered(f, d)|)
  {
    hide Stream, Inv, Recovered, DurableCount, Tracked, ClosedKept, IsCheckpointLine;
    FilesBelow(f, d);
    DurableComplete(f, d);
    assert Recovered(f, d')[|Recovered(f, d)|] == Recovered(f, window)[|Recovered(f, d)|] == line;
  }

  /** Once another event durably follows a checkpoint event without a file, no run makes the checkpoints verify again. */
  lemma {:induction false} NeverVerifiesAgain(f: LogFormat, disks: seq<Disk>, steps: seq<Step>, n: nat, j: nat)
    requires IsRun(f, disks, steps) && Inv(f, disks[0]) && Buried(f, disks[0], n) && j <= |steps|
    ensures Inv(f, disks[j]) && Buried(f, disks[j], n) && !CheckpointsOk(f, disks[j])
  {
    hide Inv, StepOk, Buried, CheckpointsOk;
    if j > 0 {
      NeverVerifiesAgain(f, disks, steps, n, j - 1);
      BuriedStays(f, disks[j - 1], steps[j - 1], disks[j], n);
    }
    BuriedRefused(f, disks[j], n);
  }
}
