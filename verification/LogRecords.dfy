/** What the written events, the manifests and the segment boundaries say, field by field. */
module LogRecords {
  import opened Wrappers
  import opened LogLines
  import opened EventFormat
  import opened LogDisk
  import opened LogCrash
  import opened LogSteps
  import opened LogWriter
  import opened LogVerify
  import opened LogCheckpoint

  // ----- events -----

  /** From position `from` on, the stream holds the events of these requests, each naming its predecessor. */
  ghost predicate HoldsEvents(f: LogFormat, config: StoreConfig, requests: seq<EventRequest>, stream: seq<Bytes>, from: nat) {
    && |stream| == from + |requests|
    && forall i :: 0 <= i < |requests| ==>
         && f.parse(stream[from + i]).Some?
         && IsEventOf(f.parse(stream[from + i]).value, config, requests[i], from + i + 1,
                      if from + i == 0 then None else Some(f.hash(stream[from + i - 1])))
  }

  /** The records are those events, with the hashes of their lines. */
  ghost predicate HoldsRecords(f: LogFormat, records: seq<EventRecord>, stream: seq<Bytes>, from: nat) {
    && |stream| == from + |records|
    && forall i :: 0 <= i < |records| ==>
         f.parse(stream[from + i]) == Some(records[i].envelope) && records[i].eventHash == f.hash(stream[from + i])
  }

  lemma {:induction false} PreparedEvents(f: LogFormat, config: StoreConfig, requests: seq<EventRequest>, first: nat, before: Option<Digest>)
    requires f.Faithful()
    ensures var lines := Prepared(f, config, requests, first, before);
            && |lines| == |requests|
            && forall i :: 0 <= i < |lines| ==>
                 && f.parse(lines[i]).Some?
                 && IsEventOf(f.parse(lines[i]).value, config, requests[i], first + i, PreviousAt(f, lines, i, before))
  {
    hide IsEventOf, EnvelopeFor, Prepared, LogFormat.NoJsonPrefix;
    if |requests| == 0 {
      PreparedNothing(f, config, first, before);
      assert requests == [];
    } else {
      var n := |requests| - 1;
      PreparedEvents(f, config, requests[..n], first, before);
      PreparedUnfold(f, config, requests, first, before);
      EnvelopeIs(config, requests[n], first + n, TailHash(f, Prepared(f, config, requests[..n], first, before), before));
    }
  }

  /** A batch appended behind a stream. */
  lemma EventsHeld(f: LogFormat, config: StoreConfig, requests: seq<EventRequest>, before: seq<Bytes>)
    requires f.Faithful()
    ensures var lines := Prepared(f, config, requests, 1 + |before|, TailHash(f, before, None));
            HoldsEvents(f, config, requests, before + lines, |before|)
  {
    hide IsEventOf, Prepared;
    var lines := Prepared(f, config, requests, 1 + |before|, TailHash(f, before, None));
    PreparedEvents(f, config, requests, 1 + |before|, TailHash(f, before, None));
    forall i | 0 <= i < |lines|
      ensures (before + lines)[|before| + i] == lines[i]
              && PreviousAt(f, lines, i, TailHash(f, before, None)) ==
                 if |before| + i == 0 then None else Some(f.hash((before + lines)[|before| + i - 1]))
    {
    }
  }

  lemma RecordsHeld(f: LogFormat, records: seq<EventRecord>, before: seq<Bytes>, lines: seq<Bytes>)
    requires |records| == |lines| && forall i :: 0 <= i < |records| ==> f.parse(lines[i]).Some? && records[i] == RecordOf(f, lines[i])
    ensures HoldsRecords(f, records, before + lines, |before|)
  {
  }

  /** What is refused: a request without a type or with a payload that is no object, or an event too long. */
  lemma AcceptableExactly(f: LogFormat, config: StoreConfig, requests: seq<EventRequest>, first: nat, before: Option<Digest>)
    ensures var lines := Prepared(f, config, requests, first, before);
            Acceptable(f, config, requests, first, before) <==>
            && (forall i :: 0 <= i < |requests| ==>
                  requests[i].eventType != "" && (requests[i].payload.CheckpointPayload? || requests[i].payload.OtherObject?))
            && (forall i :: 0 <= i < |lines| ==> |lines[i]| <= f.maxEventBytes)
  {
    hide Prepared;
    var lines := Prepared(f, config, requests, first, before);
    forall q: EventRequest ensures RequestOk(q) <==> q.eventType != "" && (q.payload.CheckpointPayload? || q.payload.OtherObject?) {}
    if forall i :: 0 <= i < |lines| ==> |lines[i]| <= f.maxEventBytes {
      forall line | line in lines ensures |line| <= f.maxEventBytes { var i :| 0 <= i < |lines| && lines[i] == line; }
    } else {
      var i :| 0 <= i < |lines| && |lines[i]| > f.maxEventBytes;
      assert lines[i] in lines;
    }
  }

  /** Every event of a verified store is complete, fits, and carries its number and its predecessor's hash. */
  lemma VerifiedEvents(f: LogFormat, d: Disk, i: nat)
    requires Verified(f, d) && i < |Stream(d.segments)|
    ensures var lines := Stream(d.segments);
            && |lines[i]| <= f.maxEventBytes && f.parse(lines[i]).Some?
            && var e := f.parse(lines[i]).value;
               && e.v == 1 && e.streamId == "stream_primary" && e.seqNo == i + 1
               && e.previousEventHash == (if i == 0 then None else Some(f.hash(lines[i - 1])))
               && e.eventType != "" && e.actorId != "" && e.hostId != ""
               && (e.payload.CheckpointPayload? || e.payload.OtherObject?)
               && "evt_" <= e.eventId && f.isUlid(e.eventId[4..])
  {
    hide Stream, Verified;
    VerifiedChain(f, d);
    assert LineOk(f, Stream(d.segments)[i], 1 + i, PreviousAt(f, Stream(d.segments), i, None));
  }

  // ----- manifests -----

  /** The manifest of a verified segment describes exactly its file. */
  lemma VerifiedManifests(f: LogFormat, d: Disk, i: nat)
    requires Verified(f, d) && i < |d.segments| && d.segments[i].first in d.manifests
    ensures var s, m, lines := d.segments[i], d.manifests[d.segments[i].first].manifest, LinesOf(d.segments[i]);
            && |lines| > 0 && f.parse(lines[0]).Some? && f.parse(lines[|lines| - 1]).Some?
            && m.manifestV == 1 && m.streamId == "stream_primary" && m.segmentFile == SegmentPath(s.first)
            && m.firstSeq == s.first == f.parse(lines[0]).value.seqNo
            && m.lastSeq == f.parse(lines[|lines| - 1]).value.seqNo
            && m.firstEventId == f.parse(lines[0]).value.eventId
            && m.lastEventId == f.parse(lines[|lines| - 1]).value.eventId
            && m.lastEventHash == f.hash(lines[|lines| - 1])
            && m.eventCount == |lines| && m.segmentSizeBytes == |s.bytes| && m.segmentHash == f.hash(s.bytes)
  {
    hide Split, Stream;
    var s, lines := d.segments[i], LinesOf(d.segments[i]);
    assert SegmentVerified(f, d, i);
    var before := TailHash(f, Stream(d.segments[..i]), None);
    assert LineOk(f, lines[0], s.first + 0, PreviousAt(f, lines, 0, before));
    assert LineOk(f, lines[|lines| - 1], s.first + (|lines| - 1), PreviousAt(f, lines, |lines| - 1, before));
  }

  /** What every reader of manifests refuses. */
  lemma ShapeExactly(f: LogFormat, m: Manifest, first: nat, size: nat)
    ensures ManifestShapeOk(f, m, first, size) <==>
            && m.manifestV == 1 && m.streamId == "stream_primary" && m.segmentFile == SegmentPath(first)
            && m.firstSeq == first <= m.lastSeq && m.eventCount == m.lastSeq - m.firstSeq + 1
            && "evt_" <= m.firstEventId && f.isUlid(m.firstEventId[4..])
            && "evt_" <= m.lastEventId && f.isUlid(m.lastEventId[4..])
            && m.segmentSizeBytes == size
  {
  }

  // ----- crashes -----

  /** A crash may cut the unsynced bytes of the last segment anywhere. */
  lemma CrashMayCut(d: Disk, n: nat)
    requires |d.segments| > 0 && LastOf(d.segments).synced <= n <= |LastOf(d.segments).bytes|
    ensures var s := LastOf(d.segments);
            CrashesTo(d, d.(segments := d.segments[..|d.segments| - 1] + [SegmentFile(s.first, s.bytes[..n], n, true)]))
  {
  }

  /** It may take a segment whose directory entry was not synced, and any manifest and checkpoint that was not. */
  lemma CrashMayTake(d: Disk, manifest: nat, checkpoint: string)
    ensures CrashesTo(d, d)
    ensures |d.segments| > 0 && !LastOf(d.segments).linked ==> CrashesTo(d, d.(segments := d.segments[..|d.segments| - 1]))
    ensures manifest in d.manifests && !d.manifests[manifest].durable ==> CrashesTo(d, d.(manifests := d.manifests - {manifest}))
    ensures checkpoint in d.checkpoints && !d.checkpoints[checkpoint].durable ==>
              CrashesTo(d, d.(checkpoints := d.checkpoints - {checkpoint}))
  {
  }

  /** Whatever is not synced yet a crash can undo: a new segment, a published manifest or checkpoint. */
  lemma UnsyncedUndone(f: LogFormat, d: Disk, first: nat, m: Manifest, c: Checkpoint)
    ensures CrashesTo(Created(d, first), d)
    ensures m.firstSeq !in d.manifests ==> CrashesTo(Published(f, d, m), d)
    ensures c.checkpointId !in d.checkpoints ==> CrashesTo(CheckpointAdded(d, c), d)
  {
    assert Created(d, first).segments[..|d.segments|] == d.segments;
  }

  /** And so it can undo written bytes. */
  lemma WrittenUndone(d: Disk, data: Bytes)
    requires |d.segments| > 0 && LastOf(d.segments).linked && LastOf(d.segments).synced == |LastOf(d.segments).bytes|
    ensures CrashesTo(SetTail(d, WithBytes(LastOf(d.segments), LastOf(d.segments).bytes + data)), d)
  {
    hide CrashesTo;
    var s := LastOf(d.segments);
    var written := SetTail(d, WithBytes(s, s.bytes + data));
    CrashMayCut(written, |s.bytes|);
    assert (s.bytes + data)[..|s.bytes|] == s.bytes;
    assert written.segments[..|d.segments| - 1] + [s] == d.segments;
  }

  // ----- reports -----

  /** The report of a verified store: one entry for every segment, with its last event and its manifest. */
  lemma ReportsExactly(f: LogFormat, d: Disk, report: Report, i: nat)
    requires Verified(f, d) && ReportsOn(f, d, report)
    ensures report.lastSeq == |Stream(d.segments)|
    ensures report.lastEventHash == if Stream(d.segments) == [] then None else Some(f.hash(LastOf(Stream(d.segments))))
    ensures |report.segments| == |d.segments|
    ensures i < |d.segments| ==>
              var s, lines, r := d.segments[i], LinesOf(d.segments[i]), report.segments[i];
              && r.firstSeq == s.first && r.eventCount == |lines|
              && (lines == [] ==> r.lastSeq == None)
              && (lines != [] ==> f.parse(LastOf(lines)).Some? && r.lastSeq == Some(f.parse(LastOf(lines)).value.seqNo))
              && (if s.first in d.manifests then r.manifest == Some(d.manifests[s.first].manifest) else r.manifest == None)
  {
    hide Split, Stream, Verified;
    if i < |d.segments| && LinesOf(d.segments[i]) != [] { LastEventAt(f, d, i); }
  }

  lemma LastEventAt(f: LogFormat, d: Disk, i: nat)
    requires Verified(f, d) && i < |d.segments| && LinesOf(d.segments[i]) != []
    ensures var lines := LinesOf(d.segments[i]);
            f.parse(LastOf(lines)).Some? && f.parse(LastOf(lines)).value.seqNo == d.segments[i].first + |lines| - 1
  {
    hide Split, Stream, TailHash, Chain;
    var s, lines := d.segments[i], LinesOf(d.segments[i]);
    assert SegmentVerified(f, d, i);
    var before := TailHash(f, Stream(d.segments[..i]), None);
    ChainLine(f, lines, |lines| - 1, s.first, before);
  }

  // ----- roll-over -----

  /** No segment closed between `d0` and `d` holds less than `full` events. */
  ghost predicate ClosedFull(full: nat, d0: Disk, d: Disk) {
    forall i :: |Closed(d0)| <= i < |Closed(d)| ==> |LinesOf(Closed(d)[i])| >= full
  }

  /** Only full segments are closed, and a call that succeeds leaves none of them open. */
  ghost predicate RolledOver(full: nat, d0: Disk, d: Disk, ok: bool) {
    ClosedFull(full, d0, d) && (ok && Open(d).Some? ==> |LinesOf(Open(d).value)| < full)
  }

  /** The open segment is not full. */
  ghost predicate HasRoom(full: nat, v: WriterView) { v.open.Some? ==> v.open.value.eventCount < full }

  lemma RoomOnDisk(f: LogFormat, full: nat, v: WriterView, d: Disk)
    requires Matches(f, v, d) && HasRoom(full, v)
    ensures Open(d).Some? ==> |LinesOf(Open(d).value)| < full
  {
    hide Inv, Split, Stream;
  }

  lemma SameFull(full: nat, d0: Disk, d: Disk)
    requires Closed(d) == Closed(d0)
    ensures ClosedFull(full, d0, d)
  {
  }

  lemma RolledOverNothing(full: nat, d: Disk)
    ensures RolledOver(full, d, d, false)
  {
  }

  lemma RolledOverFrom(full: nat, d0: Disk, d1: Disk, d2: Disk, ok: bool)
    requires Closed(d1) == Closed(d0) && RolledOver(full, d1, d2, ok)
    ensures RolledOver(full, d0, d2, ok)
  {
    hide LinesOf;
  }

  /** A call that stops here has closed only full segments. */
  lemma ClosingFull(full: nat, d0: Disk, d: Disk)
    ensures ClosedFull(full, d0, d) ==> RolledOver(full, d0, d, false)
  {
  }

  lemma FullFrom(full: nat, d0: Disk, d1: Disk, d2: Disk)
    requires Closed(d1) == Closed(d0) && ClosedFull(full, d1, d2)
    ensures ClosedFull(full, d0, d2)
  {
    hide LinesOf;
  }

  lemma FullSame(full: nat, d0: Disk, d1: Disk, d2: Disk)
    requires ClosedFull(full, d0, d1) && Closed(d2) == Closed(d1)
    ensures ClosedFull(full, d0, d2)
  {
    hide LinesOf;
  }

  lemma FullThen(full: nat, d0: Disk, d1: Disk, d2: Disk)
    requires ClosedFull(full, d0, d1) && ClosedFull(full, d1, d2) && Closed(d1) <= Closed(d2)
    ensures ClosedFull(full, d0, d2)
  {
    hide Closed, LinesOf;
    forall i | |Closed(d0)| <= i < |Closed(d2)| ensures |LinesOf(Closed(d2)[i])| >= full {
      if i < |Closed(d1)| { assert Closed(d2)[i] == Closed(d1)[i]; }
    }
  }

  lemma FullAppended(f: LogFormat, full: nat, d0: Disk, d1: Disk, d2: Disk, lines: seq<Bytes>)
    requires ClosedFull(full, d0, d1) && Appended(f, d1, d2, lines) && ClosedFull(full, d1, d2)
    ensures ClosedFull(full, d0, d2)
  {
    hide Inv, LinesOf, Recovered, DurableCount, Closed, ClosedFull;
    FullThen(full, d0, d1, d2);
  }

  /** The open segment is full, and stays or is closed. */
  lemma SegmentFull(f: LogFormat, full: nat, v: WriterView, d0: Disk, d1: Disk, d2: Disk)
    requires Matches(f, v, d1) && v.open.Some? && v.open.value.eventCount >= full
    requires Appended(f, d1, d2, []) && |d2.segments| == |d1.segments| && Closed(d0) == Closed(d1)
    ensures ClosedFull(full, d0, d2)
  {
    hide Inv, LinesOf, Stream, Recovered, DurableCount, Closed, ClosedFull;
    FullClosed(full, d1, d2);
    SameFull(full, d0, d1);
    FullThen(full, d0, d1, d2);
  }

  /** Closing a full segment. */
  lemma FullClosed(full: nat, d0: Disk, d: Disk)
    requires ClosedKept(d0, d) && |d.segments| == |d0.segments|
    requires Open(d0).Some? && |LinesOf(Open(d0).value)| >= full
    ensures ClosedFull(full, d0, d)
  {
    hide LinesOf;
  }
}
