/** Event envelopes, their hash chain, and the forward scan of one segment file.

    Serialization and hashing are parameters (`LogFormat`); what the log relies on is
    stated once, in `LogFormat.Faithful`. */
module EventFormat {
  import opened Wrappers
  import opened LogLines

  type Digest = string

  const ENVELOPE_VERSION: nat := 1
  const STREAM_ID := "stream_primary"
  const CHECKPOINT_CREATED := "checkpoint_created"

  datatype EventReferences = EventReferences(
    jobId: Option<string>, objectId: Option<string>, fileRefId: Option<string>, copyClaimId: Option<string>,
    locationId: Option<string>, deviceId: Option<string>, siteId: Option<string>)

  /** Relative paths are determined by a first sequence number or a checkpoint id. */
  datatype RelativePath = SegmentPath(first: nat) | ManifestPath(first: nat) | CheckpointPath(id: string)

  /** A payload is a JSON object, possibly of the checkpoint shape, or some other JSON value. */
  datatype Payload =
    | CheckpointPayload(checkpointId: string, checkpointPath: RelativePath, eventLastSeq: nat)
    | OtherObject(text: string)
    | NotAnObject(text: string)

  datatype Envelope = Envelope(
    v: nat, streamId: string, seqNo: nat, eventId: string, eventType: string, timeMs: nat,
    actorId: string, hostId: string, references: EventReferences,
    previousEventHash: Option<Digest>, payload: Payload)

  datatype EventRecord = EventRecord(envelope: Envelope, eventHash: Digest)

  datatype StoreError =
    | InvalidLayout | InvalidEvent | HashChain | InvalidManifest | InvalidCheckpoint | InvalidInput
    | InjectedFailure

  /** The JSON and hash functions the log is built on, and its line-length limit. */
  datatype LogFormat = LogFormat(
    encode: Envelope -> Bytes,
    isJson: Bytes -> bool,
    parse: Bytes -> Option<Envelope>,
    hash: Bytes -> Digest,
    isUlid: string -> bool,
    maxEventBytes: nat)
  {
    /** What RFC 8259 and the serializer give: one line per event, parsing inverts encoding,
        and no proper prefix of an encoded object is itself JSON text (section 4). */
    ghost predicate Faithful() {
      && (forall e :: IsLine(encode(e)))
      && (forall e :: parse(encode(e)) == Some(e))
      && (forall line :: parse(line).Some? ==> isJson(line))
      && (forall e :: NoJsonPrefix(encode(e)))
    }

    predicate NoJsonPrefix(line: Bytes) {
      forall k :: 0 <= k < |line| ==> !isJson(line[..k])
    }

    predicate IsPrefixedUlid(id: string, prefix: string) {
      prefix <= id && isUlid(id[|prefix|..])
    }

    ghost predicate CollisionFree() {
      forall a, b :: hash(a) == hash(b) ==> a == b
    }
  }

  predicate ValidEvent(f: LogFormat, e: Envelope, expectedSeq: nat, expectedPrevious: Option<Digest>) {
    && e.v == ENVELOPE_VERSION
    && e.streamId == STREAM_ID
    && e.seqNo == expectedSeq
    && e.previousEventHash == expectedPrevious
    && e.eventType != "" && e.actorId != "" && e.hostId != "" && !e.payload.NotAnObject?
    && f.IsPrefixedUlid(e.eventId, "evt_")
  }

  /** `validate_event`, with the error class of each check. */
  method ValidateEvent(f: LogFormat, e: Envelope, expectedSeq: nat, expectedPrevious: Option<Digest>)
    returns (r: Option<StoreError>)
    ensures r.None? <==> ValidEvent(f, e, expectedSeq, expectedPrevious)
    ensures r.Some? ==> r.value == HashChain || r.value == InvalidEvent
    ensures r == Some(HashChain) <==>
            e.v == ENVELOPE_VERSION && e.streamId == STREAM_ID &&
            (e.seqNo != expectedSeq || e.previousEventHash != expectedPrevious)
  {
    if e.v != ENVELOPE_VERSION || e.streamId != STREAM_ID {
      return Some(InvalidEvent);
    }
    if e.seqNo != expectedSeq || e.previousEventHash != expectedPrevious {
      return Some(HashChain);
    }
    if e.eventType == "" || e.actorId == "" || e.hostId == "" || e.payload.NotAnObject? {
      return Some(InvalidEvent);
    }
    if !f.IsPrefixedUlid(e.eventId, "evt_") {
      return Some(InvalidEvent);
    }
    return None;
  }

  predicate LineOk(f: LogFormat, line: Bytes, seqNo: nat, previous: Option<Digest>) {
    && |line| <= f.maxEventBytes
    && f.parse(line).Some?
    && ValidEvent(f, f.parse(line).value, seqNo, previous)
  }

  /** The hash the line at position `i` must name: its predecessor's. */
  function PreviousAt(f: LogFormat, lines: seq<Bytes>, i: nat, before: Option<Digest>): Option<Digest>
    requires i <= |lines|
  {
    if i == 0 then before else Some(f.hash(lines[i - 1]))
  }

  function TailHash(f: LogFormat, lines: seq<Bytes>, before: Option<Digest>): Option<Digest> {
    PreviousAt(f, lines, |lines|, before)
  }

  /** `lines` are valid consecutive events from sequence number `first`, chained after `before`. */
  ghost predicate Chain(f: LogFormat, lines: seq<Bytes>, first: nat, before: Option<Digest>) {
    forall i :: 0 <= i < |lines| ==> LineOk(f, lines[i], first + i, PreviousAt(f, lines, i, before))
  }

  lemma ChainEmpty(f: LogFormat, first: nat, before: Option<Digest>)
    ensures Chain(f, [], first, before)
  {
  }

  lemma PreviousInConcat(f: LogFormat, a: seq<Bytes>, b: seq<Bytes>, before: Option<Digest>)
    ensures forall i :: 0 <= i < |a| ==> (a + b)[i] == a[i] && PreviousAt(f, a + b, i, before) == PreviousAt(f, a, i, before)
    ensures forall i :: 0 <= i < |b| ==>
              (a + b)[|a| + i] == b[i] && PreviousAt(f, a + b, |a| + i, before) == PreviousAt(f, b, i, TailHash(f, a, before))
    ensures TailHash(f, a + b, before) == TailHash(f, b, TailHash(f, a, before))
  {
  }

  lemma ChainSplits(f: LogFormat, a: seq<Bytes>, b: seq<Bytes>, first: nat, before: Option<Digest>)
    requires Chain(f, a + b, first, before)
    ensures Chain(f, a, first, before) && Chain(f, b, first + |a|, TailHash(f, a, before))
  {
    hide LineOk, PreviousAt, TailHash;
    var ab, mid := a + b, TailHash(f, a, before);
    PreviousInConcat(f, a, b, before);
    forall i | 0 <= i < |a| ensures LineOk(f, a[i], first + i, PreviousAt(f, a, i, before)) {
      assert LineOk(f, ab[i], first + i, PreviousAt(f, ab, i, before));
    }
    forall i | 0 <= i < |b| ensures LineOk(f, b[i], first + |a| + i, PreviousAt(f, b, i, mid)) {
      assert LineOk(f, ab[|a| + i], first + (|a| + i), PreviousAt(f, ab, |a| + i, before));
    }
  }

  lemma ChainJoins(f: LogFormat, a: seq<Bytes>, b: seq<Bytes>, first: nat, before: Option<Digest>)
    requires Chain(f, a, first, before) && Chain(f, b, first + |a|, TailHash(f, a, before))
    ensures Chain(f, a + b, first, before)
  {
    hide LineOk, PreviousAt, TailHash;
    var ab, mid := a + b, TailHash(f, a, before);
    PreviousInConcat(f, a, b, before);
    forall i | 0 <= i < |ab| ensures LineOk(f, ab[i], first + i, PreviousAt(f, ab, i, before)) {
      if i < |a| {
        assert LineOk(f, a[i], first + i, PreviousAt(f, a, i, before));
      } else {
        var j := i - |a|;
        assert i == |a| + j;
        assert LineOk(f, b[j], first + |a| + j, PreviousAt(f, b, j, mid));
      }
    }
  }

  /** Scanning segment by segment is scanning the concatenation. */
  lemma {:induction false} ChainConcat(f: LogFormat, a: seq<Bytes>, b: seq<Bytes>, first: nat, before: Option<Digest>)
    ensures Chain(f, a + b, first, before) <==>
            Chain(f, a, first, before) && Chain(f, b, first + |a|, TailHash(f, a, before))
    ensures TailHash(f, a + b, before) == TailHash(f, b, TailHash(f, a, before))
  {
    hide Chain, TailHash;
    PreviousInConcat(f, a, b, before);
    if Chain(f, a + b, first, before) {
      ChainSplits(f, a, b, first, before);
    }
    if Chain(f, a, first, before) && Chain(f, b, first + |a|, TailHash(f, a, before)) {
      ChainJoins(f, a, b, first, before);
    }
  }

  lemma ChainSnoc(f: LogFormat, lines: seq<Bytes>, line: Bytes, first: nat, before: Option<Digest>)
    ensures Chain(f, lines + [line], first, before) <==>
            Chain(f, lines, first, before) && LineOk(f, line, first + |lines|, TailHash(f, lines, before))
    ensures TailHash(f, lines + [line], before) == Some(f.hash(line))
  {
    ChainConcat(f, lines, [line], first, before);
    assert PreviousAt(f, [line], 0, TailHash(f, lines, before)) == TailHash(f, lines, before);
    if LineOk(f, line, first + |lines|, TailHash(f, lines, before)) {
      assert Chain(f, [line], first + |lines|, TailHash(f, lines, before));
    }
    if Chain(f, [line], first + |lines|, TailHash(f, lines, before)) {
      assert LineOk(f, [line][0], first + |lines| + 0, PreviousAt(f, [line], 0, TailHash(f, lines, before)));
    }
  }

  lemma ChainPrefix(f: LogFormat, lines: seq<Bytes>, k: nat, first: nat, before: Option<Digest>)
    requires k <= |lines| && Chain(f, lines, first, before)
    ensures Chain(f, lines[..k], first, before)
    ensures Chain(f, lines[k..], first + k, PreviousAt(f, lines, k, before))
  {
    hide Chain;
    assert lines[..k] + lines[k..] == lines;
    ChainConcat(f, lines[..k], lines[k..], first, before);
  }

  /** The records of the events in `lines` (all of which parse). */
  function RecordOf(f: LogFormat, line: Bytes): EventRecord
    requires f.parse(line).Some?
  {
    EventRecord(f.parse(line).value, f.hash(line))
  }

  predicate IsCheckpointLine(f: LogFormat, line: Bytes) {
    f.parse(line).Some? && f.parse(line).value.eventType == CHECKPOINT_CREATED
  }

  function CheckpointRecords(f: LogFormat, lines: seq<Bytes>): (records: seq<EventRecord>) {
    if |lines| == 0 then []
    else
      var last := lines[|lines| - 1];
      CheckpointRecords(f, lines[..|lines| - 1]) +
      (if IsCheckpointLine(f, last) then [RecordOf(f, last)] else [])
  }

  lemma CheckpointRecordsSnoc(f: LogFormat, lines: seq<Bytes>, line: Bytes)
    ensures CheckpointRecords(f, lines + [line]) ==
            CheckpointRecords(f, lines) + if IsCheckpointLine(f, line) then [RecordOf(f, line)] else []
  {
    assert (lines + [line])[..|lines|] == lines;
  }

  lemma {:induction false} CheckpointRecordsConcat(f: LogFormat, a: seq<Bytes>, b: seq<Bytes>)
    ensures CheckpointRecords(f, a + b) == CheckpointRecords(f, a) + CheckpointRecords(f, b)
    decreases |b|
  {
    if b == [] {
      assert a + b == a;
    } else {
      var init, last := b[..|b| - 1], b[|b| - 1];
      CheckpointRecordsConcat(f, a, init);
      assert a + b == (a + init) + [last] && b == init + [last];
      CheckpointRecordsSnoc(f, a + init, last);
      CheckpointRecordsSnoc(f, init, last);
    }
  }

  /** Membership: exactly the records of the checkpoint lines. */
  lemma {:induction false} CheckpointRecordsExact(f: LogFormat, lines: seq<Bytes>)
    ensures forall r :: r in CheckpointRecords(f, lines) <==>
            exists i :: 0 <= i < |lines| && IsCheckpointLine(f, lines[i]) && r == RecordOf(f, lines[i])
    decreases |lines|
  {
    if lines != [] {
      var init, last := lines[..|lines| - 1], lines[|lines| - 1];
      CheckpointRecordsExact(f, init);
      assert lines == init + [last];
      forall r ensures r in CheckpointRecords(f, lines) <==>
          exists i :: 0 <= i < |lines| && IsCheckpointLine(f, lines[i]) && r == RecordOf(f, lines[i])
      {
        if r in CheckpointRecords(f, init) {
          var i :| 0 <= i < |init| && IsCheckpointLine(f, init[i]) && r == RecordOf(f, init[i]);
          assert lines[i] == init[i];
        }
        if i :| 0 <= i < |lines| && IsCheckpointLine(f, lines[i]) && r == RecordOf(f, lines[i]) {
          if i < |init| {
            assert init[i] == lines[i];
          }
        }
      }
    }
  }

  datatype SegmentScan = SegmentScan(
    firstSeq: nat, lastSeq: Option<nat>, firstEventId: Option<string>, lastEventId: Option<string>,
    lastEventHash: Option<Digest>, eventCount: nat, sizeBytes: nat, contentHash: Digest,
    checkpointEvents: seq<EventRecord>)

  function EventIdOf(f: LogFormat, line: Bytes): string {
    match f.parse(line) case Some(e) => e.eventId case None => ""
  }

  function FirstId(f: LogFormat, lines: seq<Bytes>): Option<string> {
    if |lines| == 0 then None else Some(EventIdOf(f, lines[0]))
  }

  function LastId(f: LogFormat, lines: seq<Bytes>): Option<string> {
    if |lines| == 0 then None else Some(EventIdOf(f, lines[|lines| - 1]))
  }

  /** What a successful scan of a segment reports. */
  function ScanOf(f: LogFormat, lines: seq<Bytes>, first: nat, size: nat, contentHash: Digest): SegmentScan {
    SegmentScan(first, if |lines| == 0 then None else Some(first + |lines| - 1), FirstId(f, lines), LastId(f, lines),
                TailHash(f, lines, None), |lines|, size, contentHash, CheckpointRecords(f, lines))
  }

  ghost predicate Scannable(f: LogFormat, bytes: Bytes, first: nat, before: Option<Digest>, allowEmpty: bool) {
    && Split(bytes).rest == []
    && Chain(f, Split(bytes).lines, first, before)
    && (allowEmpty || Split(bytes).lines != [])
  }

  lemma BadLine(f: LogFormat, bytes: Bytes, lines: seq<Bytes>, line: Bytes, first: nat, before: Option<Digest>)
    requires lines + [line] <= Split(bytes).lines
    requires !LineOk(f, line, first + |lines|, TailHash(f, lines, before))
    ensures !Chain(f, Split(bytes).lines, first, before)
  {
    var all := Split(bytes).lines;
    assert all[..|lines| + 1] == lines + [line];
    if Chain(f, all, first, before) {
      ChainPrefix(f, all, |lines| + 1, first, before);
      ChainSnoc(f, lines, line, first, before);
      assert false;
    }
  }

  /** Length, JSON shape and chain position of one line. */
  method CheckLine(f: LogFormat, line: Bytes, expectedSeq: nat, previous: Option<Digest>)
    returns (r: Result<Envelope, StoreError>)
    ensures r.Ok? <==> LineOk(f, line, expectedSeq, previous)
    ensures r.Ok? ==> f.parse(line) == Some(r.value)
    ensures r.Err? ==> r.error == HashChain || r.error == InvalidEvent
    ensures r == Err(HashChain) <==>
            |line| <= f.maxEventBytes && f.parse(line).Some? &&
            var e := f.parse(line).value;
            e.v == ENVELOPE_VERSION && e.streamId == STREAM_ID && (e.seqNo != expectedSeq || e.previousEventHash != previous)
  {
    if |line| > f.maxEventBytes {
      return Err(InvalidEvent);
    }
    var envelope := f.parse(line);
    if envelope.None? {
      return Err(InvalidEvent);
    }
    var invalid := ValidateEvent(f, envelope.value, expectedSeq, previous);
    if invalid.Some? {
      return Err(invalid.value);
    }
    return Ok(envelope.value);
  }

  method ScanResult(f: LogFormat, first: nat, expectedSeq: nat, firstId: Option<string>, lastId: Option<string>,
                    previousHash: Option<Digest>, size: nat, contentHash: Digest, checkpoints: seq<EventRecord>,
                    ghost lines: seq<Bytes>, ghost before: Option<Digest>)
    returns (scan: SegmentScan)
    requires expectedSeq == first + |lines| && previousHash == TailHash(f, lines, before)
    requires firstId == FirstId(f, lines) && lastId == LastId(f, lines)
    requires checkpoints == CheckpointRecords(f, lines)
    ensures scan == ScanOf(f, lines, first, size, contentHash)
  {
    var count := expectedSeq - first;
    scan := SegmentScan(first, if count > 0 then Some(expectedSeq - 1) else None, firstId, lastId,
                        if count > 0 then previousHash else None, count, size, contentHash, checkpoints);
  }

  lemma StartScan(f: LogFormat, bytes: Bytes, first: nat, before: Option<Digest>)
    ensures ReadSoFar(bytes, 0, []) && Chain(f, [], first, before) && CheckpointRecords(f, []) == []
    ensures TailHash(f, [], before) == before && FirstId(f, []) == None && LastId(f, []) == None
  {
    assert bytes[..0] == [];
  }

  lemma ScanStep(f: LogFormat, lines: seq<Bytes>, line: Bytes, first: nat, before: Option<Digest>)
    requires Chain(f, lines, first, before) && LineOk(f, line, first + |lines|, TailHash(f, lines, before))
    ensures f.parse(line).Some? && Chain(f, lines + [line], first, before)
    ensures TailHash(f, lines + [line], before) == Some(f.hash(line))
    ensures FirstId(f, lines + [line]) == if |lines| == 0 then Some(EventIdOf(f, line)) else FirstId(f, lines)
    ensures LastId(f, lines + [line]) == Some(EventIdOf(f, line))
    ensures CheckpointRecords(f, lines + [line]) ==
            CheckpointRecords(f, lines) + if IsCheckpointLine(f, line) then [RecordOf(f, line)] else []
  {
    hide Chain, ValidEvent, CheckpointRecords;
    ChainSnoc(f, lines, line, first, before);
    CheckpointRecordsSnoc(f, lines, line);
  }

  /** `scan_segment`: succeeds exactly on a newline-terminated, valid, chained file. */
  method ScanSegment(f: LogFormat, bytes: Bytes, first: nat, before: Option<Digest>, allowEmpty: bool)
    returns (r: Result<SegmentScan, StoreError>)
    ensures r.Ok? <==> Scannable(f, bytes, first, before, allowEmpty)
    ensures r.Ok? ==> r.value == ScanOf(f, Split(bytes).lines, first, |bytes|, f.hash(bytes))
    ensures r.Err? ==> r.error != InjectedFailure
  {
    hide Chain, CheckpointRecords, Split, ReadSoFar, ValidEvent, LineOk, ScanOf, TailHash, FirstId, LastId;
    StartScan(f, bytes, first, before);
    var offset: nat := 0;
    var expectedSeq, previousHash := first, before;
    var firstId: Option<string>, lastId: Option<string> := None, None;
    var checkpoints: seq<EventRecord> := [];
    ghost var lines: seq<Bytes> := [];
    while offset < |bytes|
      invariant offset <= |bytes| && ReadSoFar(bytes, offset, lines)
      invariant Chain(f, lines, first, before)
      invariant expectedSeq == first + |lines| && previousHash == TailHash(f, lines, before)
      invariant firstId.None? <==> |lines| == 0
      invariant firstId == FirstId(f, lines) && lastId == LastId(f, lines)
      invariant checkpoints == CheckpointRecords(f, lines)
    {
      var line, terminated, next := NextLine(bytes, offset, lines);
      if !terminated {
        return Err(InvalidEvent);
      }
      var checked := CheckLine(f, line, expectedSeq, previousHash);
      if checked.Err? {
        BadLine(f, bytes, lines, line, first, before);
        return Err(checked.error);
      }
      var hash := f.hash(line);
      if firstId.None? {
        firstId := Some(checked.value.eventId);
      }
      lastId := Some(checked.value.eventId);
      if checked.value.eventType == CHECKPOINT_CREATED {
        checkpoints := checkpoints + [EventRecord(checked.value, hash)];
      }
      ScanStep(f, lines, line, first, before);
      previousHash := Some(hash);
      expectedSeq := expectedSeq + 1;
      lines := lines + [line];
      offset := next;
    }
    ReadAll(bytes, lines);
    if expectedSeq == first && !allowEmpty {
      return Err(InvalidLayout);
    }
    var scan := ScanResult(f, first, expectedSeq, firstId, lastId, previousHash, |bytes|, f.hash(bytes), checkpoints,
                           lines, before);
    return Ok(scan);
  }
}
