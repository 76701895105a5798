/** The streaming reader: bounded batches from a cursor, by seeking or by scanning. */
module LogReader {
  import opened Wrappers
  import opened LogLines
  import opened EventFormat
  import opened LogDisk
  import opened LogCrash
  import opened LogSteps
  import opened LogWriter
  import opened LogVerify

  datatype EventCursor = EventCursor(
    appliedSeq: nat, appliedHash: Option<Digest>, segmentFirst: Option<nat>, nextOffset: nat)

  datatype PositionedEvent = PositionedEvent(record: EventRecord, segmentFirst: nat, nextOffset: nat)

  datatype EventBatch = EventBatch(events: seq<PositionedEvent>, nextCursor: EventCursor, eof: bool)

  datatype StreamSegment = StreamSegment(file: SegmentFile, manifest: Option<Manifest>)

  const START := EventCursor(0, None, None, 0)

  /** What `read_batch` accepts before it looks at the disk. */
  predicate WellFormed(c: EventCursor) {
    if c.appliedSeq == 0 then c == START else c.appliedHash.Some?
  }

  predicate Seeks(c: EventCursor) { c.segmentFirst.Some? && c.nextOffset > 0 }

  /** Segment `i` holds event `seqNo`, which ends at byte `offset`. */
  ghost predicate EndsAtOffset(d: Disk, i: nat, seqNo: nat, first: nat, offset: nat) {
    && i < |d.segments| && d.segments[i].first == first <= seqNo < first + |LinesOf(d.segments[i])|
    && offset == |FileOf(LinesOf(d.segments[i])[..seqNo - first + 1])|
  }

  ghost predicate Positioned(d: Disk, seqNo: nat, first: nat, offset: nat) {
    exists i: nat :: EndsAtOffset(d, i, seqNo, first, offset)
  }

  /** A seeking cursor must point just past its event; a plain one may say anything. */
  ghost predicate Placeable(d: Disk, c: EventCursor) {
    WellFormed(c) && (Seeks(c) ==> Positioned(d, c.appliedSeq, c.segmentFirst.value, c.nextOffset))
  }

  /** The cursor's hash is the hash of the event it names, if the stream reaches that far. */
  ghost predicate Agrees(f: LogFormat, lines: seq<Bytes>, c: EventCursor) {
    0 < c.appliedSeq <= |lines| ==> c.appliedHash == Some(f.hash(lines[c.appliedSeq - 1]))
  }

  ghost predicate ValidCursor(f: LogFormat, d: Disk, c: EventCursor) {
    && Placeable(d, c) && c.appliedSeq <= |Stream(d.segments)| && Agrees(f, Stream(d.segments), c)
  }

  function BytesOf(lines: seq<Bytes>): nat { |FileOf(lines)| }

  /** The longest run of lines from `from` within both limits, but never less than one line. */
  ghost predicate IsWindow(lines: seq<Bytes>, from: nat, end: nat, maxEvents: nat, maxBytes: nat) {
    && from <= end <= |lines| && end - from <= maxEvents
    && (end - from > 1 ==> BytesOf(lines[from..end]) <= maxBytes)
    && (end < |lines| && end - from < maxEvents ==> end > from && BytesOf(lines[from..end + 1]) > maxBytes)
  }

  /** `e` is the event at stream position `j`, with where it ends. */
  ghost predicate EventAt(f: LogFormat, d: Disk, lines: seq<Bytes>, j: nat, e: PositionedEvent) {
    && j < |lines| && f.parse(lines[j]).Some? && e.record == RecordOf(f, lines[j])
    && Positioned(d, j + 1, e.segmentFirst, e.nextOffset)
  }

  function CursorAfter(c: EventCursor, events: seq<PositionedEvent>): EventCursor {
    if |events| == 0 then c
    else
      var last := events[|events| - 1];
      EventCursor(last.record.envelope.seqNo, Some(last.record.eventHash), Some(last.segmentFirst), last.nextOffset)
  }

  ghost predicate EventsFrom(f: LogFormat, d: Disk, lines: seq<Bytes>, from: nat, events: seq<PositionedEvent>) {
    forall j :: 0 <= j < |events| ==> EventAt(f, d, lines, from + j, events[j])
  }

  /** What one call returns. */
  ghost predicate IsRead(f: LogFormat, d: Disk, c: EventCursor, maxEvents: nat, maxBytes: nat, b: EventBatch) {
    var lines := Stream(d.segments);
    && b.nextCursor == CursorAfter(c, b.events)
    && if c.appliedSeq > |lines| then |b.events| == 0 && b.eof
       else
         var end := c.appliedSeq + |b.events|;
         && IsWindow(lines, c.appliedSeq, end, maxEvents, maxBytes)
         && EventsFrom(f, d, lines, c.appliedSeq, b.events)
         && (b.eof <==> end == |lines| && |b.events| < maxEvents)
  }

  // ----- what a batch means -----

  lemma {:induction false} BytesMonotone(lines: seq<Bytes>, from: nat, a: nat, b: nat)
    requires from <= a <= b <= |lines|
    ensures BytesOf(lines[from..a]) <= BytesOf(lines[from..b])
  {
    FileOfMonotone(lines[from..b], a - from);
    assert lines[from..b][..a - from] == lines[from..a];
  }

  /** The limits and the start determine the window. */
  lemma WindowUnique(lines: seq<Bytes>, from: nat, a: nat, b: nat, maxEvents: nat, maxBytes: nat)
    requires IsWindow(lines, from, a, maxEvents, maxBytes) && IsWindow(lines, from, b, maxEvents, maxBytes)
    ensures a == b
  {
    hide FileOf;
    if a < b { BytesMonotone(lines, from, a + 1, b); }
    if b < a { BytesMonotone(lines, from, b + 1, a); }
  }

  lemma PositionUnique(f: LogFormat, d: Disk, seqNo: nat, first: nat, offset: nat, first': nat, offset': nat)
    requires Verified(f, d) && Positioned(d, seqNo, first, offset) && Positioned(d, seqNo, first', offset')
    ensures first == first' && offset == offset'
  {
    hide Split, FileOf, Stream, Verified;
    var i: nat :| EndsAtOffset(d, i, seqNo, first, offset);
    var j: nat :| EndsAtOffset(d, j, seqNo, first', offset');
    if i < j { SegmentsApart(f, d, i, j); }
    if j < i { SegmentsApart(f, d, j, i); }
  }

  lemma SegmentStart(f: LogFormat, d: Disk, i: nat)
    requires Verified(f, d) && i < |d.segments|
    ensures d.segments[i].first == 1 + |Stream(d.segments[..i])|
    ensures Stream(d.segments[..i + 1]) == Stream(d.segments[..i]) + LinesOf(d.segments[i])
  {
    hide Split, FileOf, Stream, Scannable, IsClosed;
    assert SegmentVerified(f, d, i);
    assert d.segments[..i + 1] == d.segments[..i] + [d.segments[i]];
    StreamSnoc(d.segments[..i], d.segments[i]);
  }

  lemma SegmentsApart(f: LogFormat, d: Disk, i: nat, j: nat)
    requires Verified(f, d) && i < j < |d.segments|
    ensures d.segments[i].first + |LinesOf(d.segments[i])| <= d.segments[j].first
  {
    hide Split, FileOf, Stream, Verified;
    SegmentStart(f, d, i);
    SegmentStart(f, d, j);
    StreamPrefix(d.segments[..j], i + 1);
    assert d.segments[..j][..i + 1] == d.segments[..i + 1];
  }

  /** Seeking to a saved offset reads exactly what scanning from the segment start reads. */
  lemma SeekEqualsScan(f: LogFormat, d: Disk, c: EventCursor, c': EventCursor, maxEvents: nat, maxBytes: nat,
                       b: EventBatch, b': EventBatch)
    requires Verified(f, d) && c.appliedSeq == c'.appliedSeq
    requires IsRead(f, d, c, maxEvents, maxBytes, b) && IsRead(f, d, c', maxEvents, maxBytes, b')
    ensures b.events == b'.events && b.eof == b'.eof
  {
    hide Split, FileOf, Stream, Verified, IsWindow, Positioned;
    var lines, from := Stream(d.segments), c.appliedSeq;
    if from <= |lines| {
      WindowUnique(lines, from, from + |b.events|, from + |b'.events|, maxEvents, maxBytes);
      forall j | 0 <= j < |b.events| ensures b.events[j] == b'.events[j] {
        assert EventAt(f, d, lines, from + j, b.events[j]) && EventAt(f, d, lines, from + j, b'.events[j]);
        PositionUnique(f, d, from + j + 1, b.events[j].segmentFirst, b.events[j].nextOffset,
                       b'.events[j].segmentFirst, b'.events[j].nextOffset);
      }
    }
  }

  lemma VerifiedSeqNo(f: LogFormat, d: Disk, j: nat)
    requires Verified(f, d) && j < |Stream(d.segments)|
    ensures f.parse(Stream(d.segments)[j]).Some? && f.parse(Stream(d.segments)[j]).value.seqNo == j + 1
  {
    hide Stream, Verified;
    VerifiedNamesPredecessor(f, d, j);
  }

  /** The next cursor is valid and, unless the end was reached, further on. */
  lemma NextCursorValid(f: LogFormat, d: Disk, c: EventCursor, maxEvents: nat, maxBytes: nat, b: EventBatch)
    requires Verified(f, d) && ValidCursor(f, d, c) && IsRead(f, d, c, maxEvents, maxBytes, b) && maxEvents > 0
    ensures ValidCursor(f, d, b.nextCursor) && b.nextCursor.appliedSeq == c.appliedSeq + |b.events|
    ensures |b.events| == 0 ==> b.nextCursor == c && b.eof && c.appliedSeq == |Stream(d.segments)|
    ensures b.eof ==> b.nextCursor.appliedSeq == |Stream(d.segments)|
  {
    hide Split, FileOf, Stream, Verified, Positioned;
    var lines, n := Stream(d.segments), |b.events|;
    if n > 0 {
      assert EventAt(f, d, lines, c.appliedSeq + (n - 1), b.events[n - 1]);
      VerifiedSeqNo(f, d, c.appliedSeq + n - 1);
    }
  }

  /** Appending, rolling over and publishing leave every cursor valid. */
  lemma CursorKept(f: LogFormat, d: Disk, d': Disk, c: EventCursor, lines: seq<Bytes>)
    requires Verified(f, d) && Verified(f, d') && Appended(f, d, d', lines) && ValidCursor(f, d, c)
    ensures ValidCursor(f, d', c) && Stream(d.segments) <= Stream(d'.segments)
  {
    hide Split, FileOf, Stream, Verified, Inv, ClosedKept, Positioned, DurableCount;
    VerifiedSettled(f, d);
    VerifiedSettled(f, d');
    if Seeks(c) { PositionKept(d, d', c.appliedSeq, c.segmentFirst.value, c.nextOffset); }
    assert Stream(d.segments) == Stream(d'.segments)[..|Stream(d.segments)|];
  }

  lemma PositionKept(d: Disk, d': Disk, seqNo: nat, first: nat, offset: nat)
    requires ClosedKept(d, d') && Positioned(d, seqNo, first, offset)
    ensures Positioned(d', seqNo, first, offset)
  {
    hide Split, FileOf, Stream;
    var i: nat :| EndsAtOffset(d, i, seqNo, first, offset);
    if i < |Closed(d)| {
      assert d'.segments[i] == Closed(d')[i] == Closed(d)[i] == d.segments[i];
    } else {
      var had, has := LinesOf(d.segments[i]), LinesOf(d'.segments[i]);
      assert had <= has;
      assert has[..seqNo - first + 1] == had[..seqNo - first + 1];
    }
    assert EndsAtOffset(d', i, seqNo, first, offset);
  }

  /** One read of a follower: the disk it saw, its cursor, its limits and the result. */
  datatype Read = Read(disk: Disk, cursor: EventCursor, maxEvents: nat, maxBytes: nat, batch: EventBatch)

  ghost predicate ReadOk(f: LogFormat, r: Read) {
    && Verified(f, r.disk) && r.maxEvents > 0 && r.maxBytes > 0
    && IsRead(f, r.disk, r.cursor, r.maxEvents, r.maxBytes, r.batch)
  }

  ghost predicate Grew(f: LogFormat, d: Disk, d': Disk) {
    exists lines :: Appended(f, d, d', lines)
  }

  /** A follower: each read starts where the one before ended, while the store may grow in between. */
  ghost predicate Follows(f: LogFormat, calls: seq<Read>) {
    && (forall i :: 0 <= i < |calls| ==> ReadOk(f, calls[i]))
    && (forall i :: 0 <= i < |calls| - 1 ==>
          && calls[i + 1].cursor == calls[i].batch.nextCursor
          && Grew(f, calls[i].disk, calls[i + 1].disk))
  }

  function RecordsOf(events: seq<PositionedEvent>): seq<EventRecord> {
    seq(|events|, i requires 0 <= i < |events| => events[i].record)
  }

  function Delivered(calls: seq<Read>): seq<EventRecord> {
    if |calls| == 0 then []
    else Delivered(calls[..|calls| - 1]) + RecordsOf(calls[|calls| - 1].batch.events)
  }

  ghost predicate AreRecords(f: LogFormat, records: seq<EventRecord>, lines: seq<Bytes>) {
    && |records| == |lines|
    && forall i :: 0 <= i < |records| ==> f.parse(lines[i]).Some? && records[i] == RecordOf(f, lines[i])
  }

  /** Following from the start delivers exactly the stream, in order, with no gap and no repeat,
      whatever the limits, and whatever is appended, rolled over or checkpointed between reads. */
  lemma {:induction false} FollowDelivers(f: LogFormat, calls: seq<Read>)
    requires |calls| > 0 && Follows(f, calls) && calls[0].cursor == START
    ensures var last := calls[|calls| - 1]; var lines := Stream(last.disk.segments);
            && ValidCursor(f, last.disk, last.cursor) && ValidCursor(f, last.disk, last.batch.nextCursor)
            && last.batch.nextCursor.appliedSeq == |Delivered(calls)| <= |lines|
            && AreRecords(f, Delivered(calls), lines[..|Delivered(calls)|])
            && (last.batch.eof ==> |Delivered(calls)| == |lines|)
  {
    hide Stream, Verified, ValidCursor, IsRead, Appended, Positioned;
    var n := |calls| - 1;
    var last, init := calls[n], calls[..n];
    var lines := Stream(last.disk.segments);
    assert ReadOk(f, last);
    if n == 0 {
      StartValid(f, last.disk);
      assert init == [];
      assert AreRecords(f, Delivered(init), lines[..0]);
    } else {
      assert Follows(f, init) by {
        forall i | 0 <= i < n ensures init[i] == calls[i] && ReadOk(f, init[i]) {}
      }
      FollowDelivers(f, init);
      var earlier := calls[n - 1];
      assert ReadOk(f, earlier) && earlier == init[n - 1];
      assert last.cursor == earlier.batch.nextCursor;
      var added :| Appended(f, earlier.disk, last.disk, added);
      CursorKept(f, earlier.disk, last.disk, last.cursor, added);
      assert Stream(earlier.disk.segments)[..|Delivered(init)|] == lines[..|Delivered(init)|];
    }
    NextCursorValid(f, last.disk, last.cursor, last.maxEvents, last.maxBytes, last.batch);
    ReadDelivers(f, last, Delivered(init));
  }

  lemma StartValid(f: LogFormat, d: Disk)
    ensures ValidCursor(f, d, START)
  {
  }

  lemma ReadDelivers(f: LogFormat, r: Read, before: seq<EventRecord>)
    requires ReadOk(f, r) && ValidCursor(f, r.disk, r.cursor) && |before| == r.cursor.appliedSeq
    requires AreRecords(f, before, Stream(r.disk.segments)[..|before|])
    ensures var all := before + RecordsOf(r.batch.events);
            |all| <= |Stream(r.disk.segments)| && AreRecords(f, all, Stream(r.disk.segments)[..|all|])
  {
    hide Stream, Verified, Positioned, FileOf;
    var lines, all := Stream(r.disk.segments), before + RecordsOf(r.batch.events);
    forall i | 0 <= i < |all| ensures f.parse(lines[..|all|][i]).Some? && all[i] == RecordOf(f, lines[..|all|][i]) {
      if i < |before| {
        assert lines[..|before|][i] == lines[i];
      } else {
        assert EventAt(f, r.disk, lines, |before| + (i - |before|), r.batch.events[i - |before|]);
      }
    }
  }

  // ----- the reader itself -----

  /** `stream_segments`. */
  method StreamSegments(f: LogFormat, d: Disk) returns (r: Result<seq<StreamSegment>, StoreError>)
    ensures r.Ok? ==> |r.value| == |d.segments|
    ensures r.Ok? ==> forall i :: 0 <= i < |d.segments| ==> r.value[i] == StreamSegment(d.segments[i], ManifestAt(d, d.segments[i]))
    ensures Verified(f, d) ==> r.Ok?
    ensures r.Err? ==> r.error != InvalidInput && r.error != InjectedFailure
  {
    hide Split, FileOf, Stream, Verified, ManifestShapeOk;
    ghost var ready := Verified(f, d);
    if ready { NoOrphans(f, d); NoSegments(f, d.segments); }
    if exists k :: k in d.manifests.Keys && forall i :: 0 <= i < |d.segments| ==> d.segments[i].first != k {
      return Err(InvalidLayout);
    }
    var result: seq<StreamSegment> := [];
    var expected := 1;
    for i := 0 to |d.segments|
      invariant |result| == i
      invariant forall j :: 0 <= j < i ==> result[j] == StreamSegment(d.segments[j], ManifestAt(d, d.segments[j]))
      invariant ready ==> expected == 1 + |Stream(d.segments[..i])|
                          || (i > 0 && i == |d.segments| && d.segments[i - 1].first !in d.manifests)
    {
      var s := d.segments[i];
      if ready { SegmentStart(f, d, i); SegmentManifest(f, d, i); }
      if s.first != expected {
        return Err(InvalidLayout);
      }
      if s.first in d.manifests {
        var m := d.manifests[s.first].manifest;
        if !ManifestShapeOk(f, m, s.first, |s.bytes|) {
          return Err(InvalidManifest);
        }
        expected := m.lastSeq + 1;
        result := result + [StreamSegment(s, Some(m))];
      } else {
        if i + 1 != |d.segments| {
          return Err(InvalidLayout);
        }
        result := result + [StreamSegment(s, None)];
      }
    }
    return Ok(result);
  }

  lemma NoOrphans(f: LogFormat, d: Disk)
    requires Verified(f, d)
    ensures forall k :: k in d.manifests.Keys ==> exists i :: 0 <= i < |d.segments| && d.segments[i].first == k
  {
    hide SegmentVerified;
  }

  lemma SegmentManifest(f: LogFormat, d: Disk, i: nat)
    requires Verified(f, d) && i < |d.segments|
    ensures i + 1 < |d.segments| ==> d.segments[i].first in d.manifests
    ensures d.segments[i].first in d.manifests ==>
              var m := d.manifests[d.segments[i].first].manifest;
              && ManifestShapeOk(f, m, d.segments[i].first, |d.segments[i].bytes|)
              && m.lastSeq == |Stream(d.segments[..i + 1])| >= d.segments[i].first
              && TailHash(f, Stream(d.segments[..i + 1]), None) == Some(m.lastEventHash)
    ensures Scannable(f, d.segments[i].bytes, d.segments[i].first, TailHash(f, Stream(d.segments[..i]), None), true)
  {
    hide Split, FileOf, Stream, Chain, ManifestShapeOk;
    var s := d.segments[i];
    assert SegmentVerified(f, d, i);
    SegmentStart(f, d, i);
    if s.first in d.manifests {
      ManifestForShape(f, s, TailHash(f, Stream(d.segments[..i]), None));
      TailHashConcat(f, Stream(d.segments[..i]), LinesOf(s));
    }
  }

  predicate CanContain(s: StreamSegment, target: nat) {
    target >= s.file.first && (s.manifest.Some? ==> target <= s.manifest.value.lastSeq)
  }

  /** The first segment that can hold the target event. */
  method FirstSegment(f: LogFormat, segments: seq<StreamSegment>, from: nat, ghost d: Disk) returns (k: nat)
    requires |segments| == |d.segments|
    requires forall i :: 0 <= i < |segments| ==> segments[i] == StreamSegment(d.segments[i], ManifestAt(d, d.segments[i]))
    ensures k <= |segments|
    ensures Verified(f, d) ==> StartsAt(d, from, k)
  {
    hide Split, FileOf, Stream, Verified, ManifestShapeOk, Scannable;
    k := 0;
    if Verified(f, d) { NoSegments(f, d.segments); }
    while k < |segments| && !CanContain(segments[k], from + 1)
      invariant 0 <= k <= |segments|
      invariant Verified(f, d) ==> |Stream(d.segments[..k])| <= from
      invariant Verified(f, d) ==> forall i :: 0 <= i < k ==> d.segments[i].first in d.manifests
    {
      if Verified(f, d) { SegmentStart(f, d, k); SegmentManifest(f, d, k); }
      k := k + 1;
    }
    if Verified(f, d) && k < |segments| { SegmentManifest(f, d, k); }
  }

  /** Everything before segment `k` is closed and already applied; segment `k`, if closed, is not. */
  ghost predicate StartsAt(d: Disk, from: nat, k: nat) {
    && k <= |d.segments| && |Stream(d.segments[..k])| <= from
    && (forall i :: 0 <= i < k ==> d.segments[i].first in d.manifests)
    && (k < |d.segments| && d.segments[k].first in d.manifests ==> from < |Stream(d.segments[..k + 1])|)
  }

  /** The reader has passed the first `at` lines of the stream without being stopped. */
  ghost predicate SoFar(f: LogFormat, d: Disk, c: EventCursor, maxEvents: nat, maxBytes: nat, b: EventBatch, bytes: nat, at: nat) {
    var lines, from := Stream(d.segments), c.appliedSeq;
    && at <= |lines|
    && |b.events| == (if at > from then at - from else 0) && |b.events| < maxEvents
    && (at >= from ==> bytes == BytesOf(lines[from..at])) && (at < from ==> bytes == 0)
    && (|b.events| > 1 ==> bytes <= maxBytes)
    && EventsFrom(f, d, lines, from, b.events)
    && b.nextCursor == CursorAfter(c, b.events) && b.eof
    && (0 < from <= at ==> Agrees(f, lines, c))
  }

  /** A stopped reader: more lines follow, or the event limit is reached. */
  lemma SoFarStart(f: LogFormat, d: Disk, c: EventCursor, maxEvents: nat, maxBytes: nat, at: nat)
    requires at <= c.appliedSeq && at <= |Stream(d.segments)| && maxEvents > 0
    requires at == c.appliedSeq > 0 ==> Agrees(f, Stream(d.segments), c)
    ensures SoFar(f, d, c, maxEvents, maxBytes, EventBatch([], c, true), 0, at)
  {
    hide Stream;
    if at == c.appliedSeq {
      assert Stream(d.segments)[at..at] == [];
    }
  }

  lemma SoFarSkip(f: LogFormat, d: Disk, c: EventCursor, maxEvents: nat, maxBytes: nat, b: EventBatch, bytes: nat, at: nat, at': nat)
    requires SoFar(f, d, c, maxEvents, maxBytes, b, bytes, at) && at <= at' <= c.appliedSeq && at' <= |Stream(d.segments)|
    requires at' == c.appliedSeq > 0 ==> Agrees(f, Stream(d.segments), c)
    ensures SoFar(f, d, c, maxEvents, maxBytes, b, bytes, at')
  {
    hide Stream;
    if at' == c.appliedSeq {
      assert Stream(d.segments)[at'..at'] == [];
      assert at == at' ==> bytes == BytesOf(Stream(d.segments)[at..at]);
    }
  }

  lemma WindowBytes(lines: seq<Bytes>, from: nat, at: nat)
    requires from <= at < |lines|
    ensures BytesOf(lines[from..at + 1]) == BytesOf(lines[from..at]) + |lines[at]| + 1
  {
    assert lines[from..at + 1] == lines[from..at] + [lines[at]];
    FileOfSnoc(lines[from..at], lines[at]);
  }

  /** Taking one more event. */
  lemma SoFarTake(f: LogFormat, d: Disk, c: EventCursor, maxEvents: nat, maxBytes: nat, b: EventBatch, bytes: nat, at: nat,
                  e: PositionedEvent)
    requires SoFar(f, d, c, maxEvents, maxBytes, b, bytes, at) && c.appliedSeq <= at < |Stream(d.segments)|
    requires EventAt(f, d, Stream(d.segments), at, e)
    requires |b.events| == 0 || bytes + |Stream(d.segments)[at]| + 1 <= maxBytes
    ensures var events := b.events + [e]; var b' := EventBatch(events, CursorAfter(c, events), true);
            && (|events| < maxEvents ==>
                  SoFar(f, d, c, maxEvents, maxBytes, b', bytes + |Stream(d.segments)[at]| + 1, at + 1))
            && (|events| == maxEvents ==> IsRead(f, d, c, maxEvents, maxBytes, b'.(eof := false)))
  {
    hide Stream, FileOf, EventAt;
    var lines, from := Stream(d.segments), c.appliedSeq;
    var events := b.events + [e];
    WindowBytes(lines, from, at);
    forall j | 0 <= j < |events| ensures EventAt(f, d, lines, from + j, events[j]) {
      if j < |b.events| {
        assert EventAt(f, d, lines, from + j, b.events[j]);
      }
    }
  }

  /** Stopping because the next event would exceed the byte limit. */
  lemma SoFarFull(f: LogFormat, d: Disk, c: EventCursor, maxEvents: nat, maxBytes: nat, b: EventBatch, bytes: nat, at: nat)
    requires SoFar(f, d, c, maxEvents, maxBytes, b, bytes, at) && c.appliedSeq <= at < |Stream(d.segments)|
    requires |b.events| > 0 && bytes + |Stream(d.segments)[at]| + 1 > maxBytes
    ensures IsRead(f, d, c, maxEvents, maxBytes, b.(eof := false))
  {
    hide Stream, FileOf, EventAt;
    WindowBytes(Stream(d.segments), c.appliedSeq, at);
  }

  lemma SoFarEnd(f: LogFormat, d: Disk, c: EventCursor, maxEvents: nat, maxBytes: nat, b: EventBatch, bytes: nat)
    requires SoFar(f, d, c, maxEvents, maxBytes, b, bytes, |Stream(d.segments)|)
    ensures IsRead(f, d, c, maxEvents, maxBytes, b) && Agrees(f, Stream(d.segments), c)
  {
    hide Stream, FileOf, EventAt;
  }

  /** The next line of segment `i`, in the stream and on the disk. */
  lemma LineInStream(f: LogFormat, d: Disk, i: nat, done: seq<Bytes>, line: Bytes, offset: nat)
    requires Verified(f, d) && i < |d.segments| && done + [line] <= LinesOf(d.segments[i])
    requires ReadSoFar(d.segments[i].bytes, offset, done + [line])
    ensures var before := Stream(d.segments[..i]); var at := |before| + |done|; var lines := Stream(d.segments);
            && at < |lines| && lines[at] == line && d.segments[i].first + |done| == at + 1
            && LineOk(f, line, at + 1, TailHash(f, done, TailHash(f, before, None)))
            && EventAt(f, d, lines, at, PositionedEvent(RecordOf(f, line), d.segments[i].first, offset))
  {
    hide Split, FileOf, Stream, Chain, Verified, LineOk;
    var s, before := d.segments[i], Stream(d.segments[..i]);
    var all := LinesOf(s);
    SegmentStart(f, d, i);
    SegmentManifest(f, d, i);
    StreamPrefix(d.segments, i + 1);
    assert Stream(d.segments)[|before| + |done|] == (before + all)[|before| + |done|] == all[|done|] == (done + [line])[|done|];
    assert all[..|done| + 1] == done + [line];
    ChainPrefix(f, all, |done| + 1, s.first, TailHash(f, before, None));
    ChainSnoc(f, done, line, s.first, TailHash(f, before, None));
    LineParses(f, line, s.first + |done|, TailHash(f, done, TailHash(f, before, None)));
    TruncationPoint(s.bytes, offset, done + [line]);
    assert EndsAtOffset(d, i, s.first + |done|, s.first, offset);
  }

  lemma LineParses(f: LogFormat, line: Bytes, seqNo: nat, previous: Option<Digest>)
    requires LineOk(f, line, seqNo, previous)
    ensures f.parse(line).Some? && f.parse(line).value.seqNo == seqNo
  {
  }

  /** Reading one segment from the scan or seek position. */
  datatype Progress = Progress(batch: EventBatch, bytes: nat, stopped: bool)

  /** Where a reader starts in a segment. */
  method StartIn(f: LogFormat, s: SegmentFile, c: EventCursor, previousManifestHash: Option<Digest>)
    returns (r: Result<(nat, nat, Option<Digest>), StoreError>, ghost done: seq<Bytes>)
    ensures r.Ok? ==> ReadSoFar(s.bytes, r.value.0, done)
    ensures r.Ok? ==>
              if SeeksIn(s, c) then r.value == (c.nextOffset, c.appliedSeq + 1, c.appliedHash) && done == Split(s.bytes[..c.nextOffset]).lines
              else r.value == (0, s.first, previousManifestHash) && done == []
    ensures r.Err? ==> r.error == InvalidLayout && SeeksIn(s, c)
    ensures r.Err? ==> c.nextOffset > |s.bytes| || s.bytes[c.nextOffset - 1] != NEWLINE
  {
    done := [];
    if !SeeksIn(s, c) {
      NothingRead(s.bytes);
      return Ok((0, s.first, previousManifestHash)), done;
    }
    if c.nextOffset > |s.bytes| {
      return Err(InvalidLayout), done;
    }
    if s.bytes[c.nextOffset - 1] != NEWLINE {
      return Err(InvalidLayout), done;
    }
    done := Split(s.bytes[..c.nextOffset]).lines;
    EndsInNewline(s.bytes[..c.nextOffset]);
    return Ok((c.nextOffset, c.appliedSeq + 1, c.appliedHash)), done;
  }

  lemma EndsInNewline(bytes: Bytes)
    requires |bytes| > 0 && bytes[|bytes| - 1] == NEWLINE
    ensures Split(bytes) == Parts(Split(bytes).lines, [])
  {
  }

  predicate SeeksIn(s: SegmentFile, c: EventCursor) {
    c.segmentFirst == Some(s.first) && c.nextOffset > 0 && c.appliedSeq + 1 > s.first
  }

  /** A seek lands exactly after the applied event. */
  lemma SeekLands(f: LogFormat, d: Disk, i: nat, c: EventCursor)
    requires Verified(f, d) && i < |d.segments| && Placeable(d, c) && SeeksIn(d.segments[i], c)
    ensures var s := d.segments[i]; var n := c.appliedSeq - s.first + 1;
            && n <= |LinesOf(s)| && c.nextOffset <= |s.bytes| && s.bytes[c.nextOffset - 1] == NEWLINE
            && Split(s.bytes[..c.nextOffset]).lines == LinesOf(s)[..n]
            && |Stream(d.segments[..i])| + n == c.appliedSeq <= |Stream(d.segments)|
            && Stream(d.segments)[c.appliedSeq - 1] == LinesOf(s)[n - 1]
  {
    hide Split, FileOf, Stream, Chain, Verified;
    var s := d.segments[i];
    var j: nat :| EndsAtOffset(d, j, c.appliedSeq, s.first, c.nextOffset);
    if i < j { SegmentsApart(f, d, i, j); SegmentManifest(f, d, i); SegmentStart(f, d, i); }
    if j < i { SegmentsApart(f, d, j, i); SegmentManifest(f, d, j); SegmentStart(f, d, j); }
    var n := c.appliedSeq - s.first + 1;
    LinesBefore(s.bytes, n);
    SegmentStart(f, d, i);
    StreamPrefix(d.segments, i + 1);
    var before, all := Stream(d.segments[..i]), LinesOf(s);
    assert Stream(d.segments)[|before| + (n - 1)] == (before + all)[|before| + (n - 1)] == all[n - 1];
  }

  lemma LinesBefore(bytes: Bytes, n: nat)
    requires 0 < n <= |Split(bytes).lines|
    ensures var k := |FileOf(Split(bytes).lines[..n])|;
            0 < k <= |bytes| && bytes[k - 1] == NEWLINE && Split(bytes[..k]).lines == Split(bytes).lines[..n]
  {
    hide Split, FileOf;
    var lines, rest := Split(bytes).lines, Split(bytes).rest;
    var head := lines[..n];
    FileOfMonotone(lines, n);
    assert bytes[..|FileOf(head)|] == FileOf(head) + [];
    SplitFile(head, []);
    assert head[..n - 1] + [head[n - 1]] == head;
    FileOfSnoc(head[..n - 1], head[n - 1]);
  }

  /** When the reader's promises apply: a verified store, and a cursor that does not seek to a wrong place. */
  ghost predicate Readable(f: LogFormat, d: Disk, c: EventCursor) {
    Verified(f, d) && Placeable(d, c)
  }

  /** A seeking cursor at the end of the open segment: nothing is read that its hash could be compared with. */
  ghost predicate Unchecked(d: Disk, c: EventCursor) {
    Seeks(c) && c.appliedSeq == |Stream(d.segments)| && c.segmentFirst.value !in d.manifests
  }

  /** A cursor whose own hash, if the reader starts from it, is right. */
  ghost predicate Trusted(f: LogFormat, d: Disk, c: EventCursor) {
    Readable(f, d, c) && (Seeks(c) ==> Agrees(f, Stream(d.segments), c))
  }

  /** A reader that starts in this segment from a wrong hash. */
  ghost predicate Misread(f: LogFormat, d: Disk, i: nat, seg: StreamSegment, c: EventCursor) {
    && Readable(f, d, c) && !Agrees(f, Stream(d.segments), c) && i < |d.segments|
    && seg == StreamSegment(d.segments[i], ManifestAt(d, d.segments[i])) && SeeksIn(seg.file, c)
  }

  ghost predicate SegmentReady(f: LogFormat, d: Disk, i: nat, seg: StreamSegment, c: EventCursor, maxEvents: nat, maxBytes: nat,
                               b: EventBatch, bytes: nat, previousHash: Option<Digest>)
  {
    && Trusted(f, d, c) && i < |d.segments| && seg == StreamSegment(d.segments[i], ManifestAt(d, d.segments[i]))
    && previousHash == TailHash(f, Stream(d.segments[..i]), None)
    && SoFar(f, d, c, maxEvents, maxBytes, b, bytes, |Stream(d.segments[..i])|)
  }

  /** Loop state inside segment `i`: the lines `done` of the file are behind the reader. */
  ghost predicate InSegment(f: LogFormat, d: Disk, i: nat, c: EventCursor, maxEvents: nat, maxBytes: nat,
                            b: EventBatch, bytes: nat, done: seq<Bytes>, expected: nat, previous: Option<Digest>)
  {
    && i < |d.segments| && done <= LinesOf(d.segments[i]) && expected == d.segments[i].first + |done|
    && previous == TailHash(f, done, TailHash(f, Stream(d.segments[..i]), None))
    && SoFar(f, d, c, maxEvents, maxBytes, b, bytes, |Stream(d.segments[..i])| + |done|)
  }

  lemma EnterSegment(f: LogFormat, d: Disk, i: nat, seg: StreamSegment, c: EventCursor, maxEvents: nat, maxBytes: nat,
                     b: EventBatch, bytes: nat, previousHash: Option<Digest>)
    requires SegmentReady(f, d, i, seg, c, maxEvents, maxBytes, b, bytes, previousHash)
    ensures SeeksIn(seg.file, c) ==>
              && c.nextOffset <= |seg.file.bytes| && seg.file.bytes[c.nextOffset - 1] == NEWLINE
              && InSegment(f, d, i, c, maxEvents, maxBytes, b, bytes, Split(seg.file.bytes[..c.nextOffset]).lines,
                           c.appliedSeq + 1, c.appliedHash)
    ensures !SeeksIn(seg.file, c) ==>
              InSegment(f, d, i, c, maxEvents, maxBytes, b, bytes, [], seg.file.first, previousHash)
  {
    hide Split, FileOf, Stream, Verified, SoFar, Positioned;
    if SeeksIn(seg.file, c) {
      SeekLands(f, d, i, c);
      SoFarSkip(f, d, c, maxEvents, maxBytes, b, bytes, |Stream(d.segments[..i])|, c.appliedSeq);
    }
  }

  lemma NotTorn(f: LogFormat, d: Disk, i: nat, lines: seq<Bytes>, rest: Bytes)
    requires Verified(f, d) && i < |d.segments| && Split(d.segments[i].bytes) == Parts(lines, rest)
    ensures rest == []
  {
    hide Split, FileOf, Stream, Chain;
    assert SegmentVerified(f, d, i);
  }

  lemma SegmentRead(f: LogFormat, d: Disk, i: nat, c: EventCursor, maxEvents: nat, maxBytes: nat,
                    b: EventBatch, bytes: nat, done: seq<Bytes>, expected: nat, previous: Option<Digest>)
    requires Verified(f, d) && InSegment(f, d, i, c, maxEvents, maxBytes, b, bytes, done, expected, previous)
    requires done == LinesOf(d.segments[i])
    ensures SoFar(f, d, c, maxEvents, maxBytes, b, bytes, |Stream(d.segments[..i + 1])|)
    ensures d.segments[i].first in d.manifests ==> expected == d.manifests[d.segments[i].first].manifest.lastSeq + 1
  {
    hide Split, FileOf, Stream, Verified, SoFar, Scannable, ManifestShapeOk;
    SegmentStart(f, d, i);
    SegmentManifest(f, d, i);
  }

  /** One line passed: skipped while not beyond the cursor, taken otherwise. */
  lemma LinePassed(f: LogFormat, d: Disk, i: nat, c: EventCursor, maxEvents: nat, maxBytes: nat,
                   b: EventBatch, bytes: nat, done: seq<Bytes>, expected: nat, previous: Option<Digest>,
                   line: Bytes, next: nat)
    requires Verified(f, d) && InSegment(f, d, i, c, maxEvents, maxBytes, b, bytes, done, expected, previous)
    requires done + [line] <= LinesOf(d.segments[i]) && ReadSoFar(d.segments[i].bytes, next, done + [line])
    ensures LineOk(f, line, expected, previous) && f.parse(line).value.seqNo == expected
    ensures expected == c.appliedSeq ==>
              (Agrees(f, Stream(d.segments), c) <==> c.appliedHash == Some(f.hash(line)))
    ensures expected <= c.appliedSeq && (expected == c.appliedSeq ==> c.appliedHash == Some(f.hash(line))) ==>
              InSegment(f, d, i, c, maxEvents, maxBytes, b, bytes, done + [line], expected + 1, Some(f.hash(line)))
    ensures expected > c.appliedSeq ==>
              && Agrees(f, Stream(d.segments), c)
              && (|b.events| > 0 && bytes + |line| + 1 > maxBytes ==> IsRead(f, d, c, maxEvents, maxBytes, b.(eof := false)))
              && (|b.events| == 0 || bytes + |line| + 1 <= maxBytes ==>
                    var events := b.events + [PositionedEvent(RecordOf(f, line), d.segments[i].first, next)];
                    var b' := EventBatch(events, CursorAfter(c, events), true);
                    && (|events| == maxEvents ==> IsRead(f, d, c, maxEvents, maxBytes, b'.(eof := false)))
                    && (|events| < maxEvents ==>
                          InSegment(f, d, i, c, maxEvents, maxBytes, b', bytes + |line| + 1, done + [line],
                                    expected + 1, Some(f.hash(line)))))
    ensures |b.events| < maxEvents && b.eof
  {
    hide Split, FileOf, Stream, Verified, SoFar, IsRead, EventAt, ReadSoFar, Chain;
    var at, lines := |Stream(d.segments[..i])| + |done|, Stream(d.segments);
    LineInStream(f, d, i, done, line, next);
    TailSnoc(f, done, line, TailHash(f, Stream(d.segments[..i]), None));
    SoFarFacts(f, d, c, maxEvents, maxBytes, b, bytes, at);
    if expected <= c.appliedSeq {
      if expected == c.appliedSeq ==> c.appliedHash == Some(f.hash(line)) {
        SoFarSkip(f, d, c, maxEvents, maxBytes, b, bytes, at, at + 1);
      }
    } else if |b.events| > 0 && bytes + |line| + 1 > maxBytes {
      SoFarFull(f, d, c, maxEvents, maxBytes, b, bytes, at);
    } else {
      SoFarTake(f, d, c, maxEvents, maxBytes, b, bytes, at,
                PositionedEvent(RecordOf(f, line), d.segments[i].first, next));
    }
  }

  lemma SoFarFacts(f: LogFormat, d: Disk, c: EventCursor, maxEvents: nat, maxBytes: nat, b: EventBatch, bytes: nat, at: nat)
    requires SoFar(f, d, c, maxEvents, maxBytes, b, bytes, at)
    ensures |b.events| < maxEvents && b.eof && at <= |Stream(d.segments)|
    ensures at >= c.appliedSeq ==> Agrees(f, Stream(d.segments), c)
  {
    hide Stream;
  }

  /** A misreader lands after its event; it finds the next line not to follow, or nothing to read. */
  lemma EnterMisread(f: LogFormat, d: Disk, i: nat, seg: StreamSegment, c: EventCursor)
    requires Misread(f, d, i, seg, c)
    ensures Verified(f, d) && i < |d.segments| && seg.file == d.segments[i] && SeeksIn(seg.file, c)
    ensures c.nextOffset <= |seg.file.bytes| && seg.file.bytes[c.nextOffset - 1] == NEWLINE
    ensures var n := c.appliedSeq - seg.file.first + 1;
            && 0 < n <= |LinesOf(seg.file)| && Split(seg.file.bytes[..c.nextOffset]).lines == LinesOf(seg.file)[..n]
            && |Stream(d.segments[..i])| + n == c.appliedSeq
            && |Stream(d.segments[..i + 1])| == |Stream(d.segments[..i])| + |LinesOf(seg.file)|
    ensures c.appliedHash != TailHash(f, Stream(d.segments[..i]) + Split(seg.file.bytes[..c.nextOffset]).lines, None)
  {
    hide Split, FileOf, Stream, Verified, Positioned;
    SeekLands(f, d, i, c);
    SegmentStart(f, d, i);
  }

  lemma MisreadLine(f: LogFormat, d: Disk, i: nat, seg: StreamSegment, c: EventCursor, done: seq<Bytes>, line: Bytes, next: nat)
    requires Misread(f, d, i, seg, c) && c.nextOffset <= |seg.file.bytes| && done == Split(seg.file.bytes[..c.nextOffset]).lines
    requires done + [line] <= LinesOf(d.segments[i]) && ReadSoFar(d.segments[i].bytes, next, done + [line])
    ensures |line| <= f.maxEventBytes && f.parse(line).Some?
    ensures var e := f.parse(line).value; e.v == ENVELOPE_VERSION && e.streamId == STREAM_ID && e.previousEventHash != c.appliedHash
    ensures c.appliedSeq < |Stream(d.segments[..i + 1])|
  {
    hide Split, FileOf, Stream, Verified, ReadSoFar, Positioned, Agrees, SeeksIn, EventAt;
    EnterMisread(f, d, i, seg, c);
    LineInStream(f, d, i, done, line, next);
    TailHashConcat(f, Stream(d.segments[..i]), done);
  }

  lemma MisreadEnd(f: LogFormat, d: Disk, i: nat, seg: StreamSegment, c: EventCursor, done: seq<Bytes>)
    requires Misread(f, d, i, seg, c) && c.nextOffset <= |seg.file.bytes| && done == Split(seg.file.bytes[..c.nextOffset]).lines == LinesOf(d.segments[i])
    ensures c.appliedSeq == |Stream(d.segments[..i + 1])|
    ensures seg.manifest.Some? ==> seg.manifest.value.lastSeq == c.appliedSeq
  {
    hide Split, FileOf, Stream, Verified, Positioned, Agrees, SeeksIn, ManifestShapeOk, Scannable;
    EnterMisread(f, d, i, seg, c);
    SegmentManifest(f, d, i);
  }

  /** The body of `read_batch_locked`'s outer loop. */
  method ReadSegment(f: LogFormat, seg: StreamSegment, c: EventCursor, maxEvents: nat, maxBytes: nat,
                     b0: EventBatch, bytes0: nat, previousHash: Option<Digest>, ghost d: Disk, ghost i: nat)
    returns (r: Result<Progress, StoreError>)
    ensures r.Err? ==> r.error != InvalidInput
    ensures SegmentReady(f, d, i, seg, c, maxEvents, maxBytes, b0, bytes0, previousHash) ==>
              && (r.Err? ==> r.error == HashChain && !Agrees(f, Stream(d.segments), c))
              && (r.Ok? && r.value.stopped ==>
                    IsRead(f, d, c, maxEvents, maxBytes, r.value.batch) && Agrees(f, Stream(d.segments), c))
              && (r.Ok? && !r.value.stopped ==>
                    SoFar(f, d, c, maxEvents, maxBytes, r.value.batch, r.value.bytes, |Stream(d.segments[..i + 1])|))
    ensures Misread(f, d, i, seg, c) ==>
              && (c.appliedSeq < |Stream(d.segments[..i + 1])| ==> r == Err(HashChain))
              && (c.appliedSeq == |Stream(d.segments[..i + 1])| ==> r == Ok(Progress(b0, bytes0, false)))
  {
    hide Split, FileOf, Stream, Verified, SoFar, IsRead, Agrees, Placeable, InSegment, ReadSoFar, LineOk, SeeksIn, Misread;
    ghost var ready := SegmentReady(f, d, i, seg, c, maxEvents, maxBytes, b0, bytes0, previousHash);
    ghost var misread := Misread(f, d, i, seg, c);
    if ready { EnterSegment(f, d, i, seg, c, maxEvents, maxBytes, b0, bytes0, previousHash); }
    if misread { EnterMisread(f, d, i, seg, c); }
    var s := seg.file;
    var start, done := StartIn(f, s, c, previousHash);
    if start.Err? {
      return Err(start.error);
    }
    var offset, expected, previous := start.value.0, start.value.1, start.value.2;
    var b: EventBatch, bytes: nat := b0, bytes0;
    ReadWithin(s.bytes, offset, done);
    while offset < |s.bytes|
      invariant offset <= |s.bytes| && ReadSoFar(s.bytes, offset, done)
      invariant ready ==> InSegment(f, d, i, c, maxEvents, maxBytes, b, bytes, done, expected, previous)
      invariant misread ==> b == b0 && bytes == bytes0 && expected == c.appliedSeq + 1 && previous == c.appliedHash
      invariant misread ==> offset == c.nextOffset && done == Split(s.bytes[..offset]).lines
      decreases |s.bytes| - offset
    {
      var line, terminated, next := NextLine(s.bytes, offset, done);
      if !terminated {
        if ready || misread { NotTorn(f, d, i, done, line); }
        return Err(InvalidEvent);
      }
      if ready { LinePassed(f, d, i, c, maxEvents, maxBytes, b, bytes, done, expected, previous, line, next); }
      if misread { MisreadLine(f, d, i, seg, c, done, line, next); }
      var checked := CheckLine(f, line, expected, previous);
      if checked.Err? {
        return Err(checked.error);
      }
      var envelope, hash := checked.value, f.hash(line);
      if envelope.seqNo == c.appliedSeq && c.appliedHash != Some(hash) {
        return Err(HashChain);
      }
      if envelope.seqNo > c.appliedSeq {
        if |b.events| > 0 && bytes + |line| + 1 > maxBytes {
          return Ok(Progress(b.(eof := false), bytes, true));
        }
        bytes := bytes + |line| + 1;
        var events := b.events + [PositionedEvent(EventRecord(envelope, hash), s.first, next)];
        b := EventBatch(events, EventCursor(envelope.seqNo, Some(hash), Some(s.first), next), b.eof);
        assert b.nextCursor == CursorAfter(c, events);
        if |b.events| == maxEvents {
          return Ok(Progress(b.(eof := false), bytes, true));
        }
      }
      offset, previous, expected := next, Some(hash), expected + 1;
      done := done + [line];
    }
    ReadAll(s.bytes, done);
    if ready { SegmentRead(f, d, i, c, maxEvents, maxBytes, b, bytes, done, expected, previous); }
    if misread { MisreadEnd(f, d, i, seg, c, done); }
    if seg.manifest.Some? && expected != seg.manifest.value.lastSeq + 1 {
      return Err(InvalidManifest);
    }
    return Ok(Progress(b, bytes, false));
  }

  lemma ReadWithin(bytes: Bytes, offset: nat, lines: seq<Bytes>)
    requires ReadSoFar(bytes, offset, lines)
    ensures offset <= |bytes|
  {
  }

  /** The preceding manifest speaks for the cursor's event when that is its last one. */
  lemma PrecedingHash(f: LogFormat, d: Disk, c: EventCursor, k: nat)
    requires Verified(f, d) && StartsAt(d, c.appliedSeq, k) && k > 0
    ensures d.segments[k - 1].first in d.manifests
    ensures var m := d.manifests[d.segments[k - 1].first].manifest;
            && m.lastSeq == |Stream(d.segments[..k])|
            && TailHash(f, Stream(d.segments[..k]), None) == Some(m.lastEventHash)
            && (m.lastSeq == c.appliedSeq ==>
                  (Agrees(f, Stream(d.segments), c) <==> c.appliedHash == Some(m.lastEventHash)))
  {
    hide Split, FileOf, Stream, Verified, ManifestShapeOk, Scannable;
    SegmentManifest(f, d, k - 1);
    var head := Stream(d.segments[..k]);
    StreamPrefix(d.segments, k);
    assert head[|head| - 1] == Stream(d.segments)[|head| - 1];
  }

  lemma PrefixShorter(segments: seq<SegmentFile>, k: nat, i: nat)
    requires k <= i <= |segments|
    ensures |Stream(segments[..k])| <= |Stream(segments[..i])|
  {
    hide Split, Stream;
    StreamPrefix(segments[..i], k);
    assert segments[..i][..k] == segments[..k];
  }

  lemma ClosedChecked(f: LogFormat, d: Disk, c: EventCursor, k: nat)
    requires Readable(f, d, c) && StartsAt(d, c.appliedSeq, k) && |Stream(d.segments[..k])| == c.appliedSeq
    ensures !Unchecked(d, c)
  {
    hide Split, FileOf, Stream, Verified;
    if Unchecked(d, c) {
      var i: nat :| EndsAtOffset(d, i, c.appliedSeq, c.segmentFirst.value, c.nextOffset);
      SegmentStart(f, d, i);
      PrefixShorter(d.segments, k, i);
      assert false;
    }
  }

  /** Where a reader with a wrong hash starts: the preceding manifest speaks against it, or it misreads one segment. */
  lemma MisreadStart(f: LogFormat, d: Disk, c: EventCursor, k: nat)
    requires Readable(f, d, c) && Seeks(c) && !Agrees(f, Stream(d.segments), c) && StartsAt(d, c.appliedSeq, k)
    requires k > 0 ==> |Stream(d.segments[..k])| != c.appliedSeq
    ensures k < |d.segments| && Misread(f, d, k, StreamSegment(d.segments[k], ManifestAt(d, d.segments[k])), c)
    ensures c.appliedSeq <= |Stream(d.segments[..k + 1])| && c.segmentFirst.value == d.segments[k].first
    ensures c.appliedSeq == |Stream(d.segments[..k + 1])| <==> Unchecked(d, c)
    ensures Unchecked(d, c) ==> k + 1 == |d.segments|
  {
    hide Split, FileOf, Stream, Verified;
    var i: nat :| EndsAtOffset(d, i, c.appliedSeq, c.segmentFirst.value, c.nextOffset);
    NoSegments(f, d.segments);
    SegmentStart(f, d, i);
    StreamPrefix(d.segments, i + 1);
    if k < |d.segments| { StreamPrefix(d.segments, k + 1); SegmentStart(f, d, k); SegmentManifest(f, d, k); }
    assert d.segments[..|d.segments|] == d.segments;
    if i < k { SegmentsApart(f, d, i, k); }
    if k < i { SegmentsApart(f, d, k, i); }
  }

  /** `read_batch`. On a verified store, a cursor that does not seek to a wrong place is accepted exactly when its
      hash agrees with the stream, or it seeks to the end of the open segment; the batch is the window after it. */
  method ReadBatch(f: LogFormat, d: Disk, c: EventCursor, maxEvents: nat, maxBytes: nat)
    returns (r: Result<EventBatch, StoreError>)
    ensures r == Err(InvalidInput) <==> maxEvents == 0 || maxBytes == 0 || !WellFormed(c)
    ensures maxEvents > 0 && maxBytes > 0 && Readable(f, d, c) ==>
              && (r.Ok? <==> Agrees(f, Stream(d.segments), c) || Unchecked(d, c))
              && (r.Ok? ==> IsRead(f, d, c, maxEvents, maxBytes, r.value))
              && (r.Err? ==> r.error == HashChain)
  {
    hide Split, FileOf, Stream, Verified, SoFar, IsRead, Agrees, StartsAt, Misread, Positioned;
    if maxEvents == 0 || maxBytes == 0 || !WellFormed(c) {
      return Err(InvalidInput);
    }
    ghost var ready := Trusted(f, d, c);
    ghost var wrong := Readable(f, d, c) && !ready;
    var listed := StreamSegments(f, d);
    if listed.Err? {
      return Err(listed.error);
    }
    var segments := listed.value;
    var k := FirstSegment(f, segments, c.appliedSeq, d);
    var b, bytes := EventBatch([], c, true), 0;
    if (ready || wrong) && k > 0 { PrecedingHash(f, d, c, k); }
    if c.appliedSeq > 0 && k > 0 && segments[k - 1].manifest.Some? {
      var m := segments[k - 1].manifest.value;
      if m.lastSeq == c.appliedSeq && c.appliedHash != Some(m.lastEventHash) {
        if ready || wrong { ClosedChecked(f, d, c, k); }
        return Err(HashChain);
      }
    }
    var previousHash := if k == 0 then None
                        else if segments[k - 1].manifest.Some? then Some(segments[k - 1].manifest.value.lastEventHash) else None;
    if ready { StartReading(f, d, c, maxEvents, maxBytes, k); }
    if wrong { MisreadStart(f, d, c, k); }
    for i := k to |segments|
      invariant ready ==> SoFar(f, d, c, maxEvents, maxBytes, b, bytes, |Stream(d.segments[..i])|)
      invariant ready ==> i == |segments| || previousHash == TailHash(f, Stream(d.segments[..i]), None)
      invariant wrong ==> b == EventBatch([], c, true) && bytes == 0 && (i > k ==> Unchecked(d, c) && i == |segments|)
    {
      var read := ReadSegment(f, segments[i], c, maxEvents, maxBytes, b, bytes, previousHash, d, i);
      if read.Err? {
        return Err(read.error);
      }
      b, bytes := read.value.batch, read.value.bytes;
      if read.value.stopped {
        return Ok(b);
      }
      if ready { NextPreviousHash(f, d, i); }
      if segments[i].manifest.Some? {
        previousHash := Some(segments[i].manifest.value.lastEventHash);
      }
    }
    assert d.segments[..|segments|] == d.segments;
    if ready { SoFarEnd(f, d, c, maxEvents, maxBytes, b, bytes); }
    if wrong { NothingLeft(f, d, c, maxEvents, maxBytes); }
    return Ok(b);
  }

  // ----- where the reader says less than a caller may expect -----

  /** A cursor at the end of the open segment is accepted whatever hash it carries. */
  lemma TailHashUnchecked(f: LogFormat, d: Disk, hash: Digest, maxEvents: nat, maxBytes: nat)
    requires Verified(f, d) && |d.segments| > 0 && LastOf(d.segments).first !in d.manifests && LinesOf(LastOf(d.segments)) != []
    requires maxEvents > 0
    ensures var s, lines := LastOf(d.segments), Stream(d.segments);
            var c := EventCursor(|lines|, Some(hash), Some(s.first), |s.bytes|);
            && Readable(f, d, c) && Unchecked(d, c) && IsRead(f, d, c, maxEvents, maxBytes, EventBatch([], c, true))
            && (Some(hash) != TailHash(f, lines, None) ==> !Agrees(f, lines, c))
  {
    hide Split, FileOf, Stream, Verified, Scannable, ManifestShapeOk;
    var s, n := LastOf(d.segments), |d.segments|;
    var c := EventCursor(|Stream(d.segments)|, Some(hash), Some(s.first), |s.bytes|);
    SegmentStart(f, d, n - 1);
    SegmentManifest(f, d, n - 1);
    assert d.segments[..n] == d.segments;
    NotTorn(f, d, n - 1, LinesOf(s), Split(s.bytes).rest);
    WholeFile(s.bytes);
    LinesBefore(s.bytes, |LinesOf(s)|);
    assert EndsAtOffset(d, n - 1, c.appliedSeq, s.first, c.nextOffset);
    NothingLeft(f, d, c, maxEvents, maxBytes);
  }

  lemma WholeFile(bytes: Bytes)
    requires Split(bytes).rest == []
    ensures bytes == FileOf(Split(bytes).lines) && Split(bytes).lines[..|Split(bytes).lines|] == Split(bytes).lines
  {
    hide FileOf;
    assert FileOf(Split(bytes).lines) + [] == FileOf(Split(bytes).lines);
  }

  /** A plain cursor beyond the end is accepted, and answered as if it stood at the end. */
  lemma PastEndAccepted(f: LogFormat, d: Disk, seqNo: nat, hash: Digest, maxEvents: nat, maxBytes: nat)
    requires Verified(f, d) && seqNo > |Stream(d.segments)|
    ensures var c := EventCursor(seqNo, Some(hash), None, 0);
            && Readable(f, d, c) && Agrees(f, Stream(d.segments), c)
            && forall b :: IsRead(f, d, c, maxEvents, maxBytes, b) ==> b == EventBatch([], c, true)
  {
    hide Stream, Verified;
  }

  /** A batch of exactly the whole stream does not say so; the next one does. */
  lemma EndReportedLate(f: LogFormat, d: Disk, b: EventBatch, b': EventBatch)
    requires Verified(f, d) && |Stream(d.segments)| > 0
    requires var lines := Stream(d.segments); IsRead(f, d, START, |lines|, BytesOf(lines), b)
    requires var lines := Stream(d.segments); IsRead(f, d, b.nextCursor, |lines|, BytesOf(lines), b')
    ensures |b.events| == |Stream(d.segments)| && !b.eof && |b'.events| == 0 && b'.eof
  {
    hide Split, FileOf, Stream, Verified, Positioned;
    var lines, n := Stream(d.segments), |b.events|;
    assert lines[0..|lines|] == lines;
    if n < |lines| { BytesMonotone(lines, 0, n + 1, |lines|); }
    NextCursorValid(f, d, START, |lines|, BytesOf(lines), b);
  }

  // A store with one event, in an open segment.

  const SAMPLE_LINE: Bytes := [123, 125]

  const SAMPLE_EVENT := Envelope(ENVELOPE_VERSION, STREAM_ID, 1, "evt_1", "noted", 0, "actor", "host",
                                 EventReferences(None, None, None, None, None, None, None), None, OtherObject("{}"))

  const SAMPLE_FORMAT := LogFormat((e: Envelope) => SAMPLE_LINE, (b: Bytes) => b == SAMPLE_LINE,
                                   (b: Bytes) => if b == SAMPLE_LINE then Some(SAMPLE_EVENT) else None,
                                   (b: Bytes) => if b == SAMPLE_LINE then "right" else "other", (s: string) => true, 100)

  const SAMPLE_STORE := Disk([SegmentFile(1, SAMPLE_LINE + [NEWLINE], 3, true)], map[], map[])

  lemma SampleVerified()
    ensures Verified(SAMPLE_FORMAT, SAMPLE_STORE) && Stream(SAMPLE_STORE.segments) == [SAMPLE_LINE]
    ensures LinesOf(LastOf(SAMPLE_STORE.segments)) == [SAMPLE_LINE]
  {
    var s := LastOf(SAMPLE_STORE.segments);
    FileOfNone();
    FileOfSnoc([], SAMPLE_LINE);
    assert FileOf([SAMPLE_LINE]) + [] == s.bytes;
    SplitFile([SAMPLE_LINE], []);
    assert SAMPLE_STORE.segments[..0] == [] && SAMPLE_STORE.segments == [] + [s];
    StreamSnoc([], s);
    assert SegmentVerified(SAMPLE_FORMAT, SAMPLE_STORE, 0);
  }

  /** The sample store shows both surprises: a wrong hash at its end, and a cursor past it, are answered alike. */
  lemma SampleReads()
    ensures var c := EventCursor(1, Some("wrong"), Some(1), 3);
            && Readable(SAMPLE_FORMAT, SAMPLE_STORE, c) && !Agrees(SAMPLE_FORMAT, [SAMPLE_LINE], c) && Unchecked(SAMPLE_STORE, c)
            && IsRead(SAMPLE_FORMAT, SAMPLE_STORE, c, 1, 1, EventBatch([], c, true))
    ensures var c := EventCursor(2, Some("wrong"), None, 0);
            && Readable(SAMPLE_FORMAT, SAMPLE_STORE, c) && Agrees(SAMPLE_FORMAT, [SAMPLE_LINE], c)
            && IsRead(SAMPLE_FORMAT, SAMPLE_STORE, c, 1, 1, EventBatch([], c, true))
  {
    hide Stream, Split, FileOf, Verified, Readable, Agrees, Unchecked, IsRead;
    SampleVerified();
    TailHashUnchecked(SAMPLE_FORMAT, SAMPLE_STORE, "wrong", 1, 1);
    var c := EventCursor(2, Some("wrong"), None, 0);
    PastEndAccepted(SAMPLE_FORMAT, SAMPLE_STORE, 2, "wrong", 1, 1);
    NothingLeft(SAMPLE_FORMAT, SAMPLE_STORE, c, 1, 1);
  }

  /** Reading its one event with a limit of one event, and then on. */
  lemma SampleEnd(b: EventBatch, b': EventBatch)
    requires IsRead(SAMPLE_FORMAT, SAMPLE_STORE, START, 1, 3, b) && IsRead(SAMPLE_FORMAT, SAMPLE_STORE, b.nextCursor, 1, 3, b')
    ensures |b.events| == 1 && !b.eof && |b'.events| == 0 && b'.eof
  {
    hide Stream, Split, FileOf, Verified, IsRead;
    SampleVerified();
    FileOfNone();
    FileOfSnoc([], SAMPLE_LINE);
    assert [] + [SAMPLE_LINE] == [SAMPLE_LINE] && BytesOf([SAMPLE_LINE]) == 3;
    EndReportedLate(SAMPLE_FORMAT, SAMPLE_STORE, b, b');
  }

  lemma NothingLeft(f: LogFormat, d: Disk, c: EventCursor, maxEvents: nat, maxBytes: nat)
    requires c.appliedSeq >= |Stream(d.segments)| && maxEvents > 0
    ensures IsRead(f, d, c, maxEvents, maxBytes, EventBatch([], c, true))
  {
    hide Stream;
  }

  lemma NextPreviousHash(f: LogFormat, d: Disk, i: nat)
    requires Verified(f, d) && i < |d.segments|
    ensures i + 1 < |d.segments| ==> d.segments[i].first in d.manifests
    ensures d.segments[i].first in d.manifests ==>
              TailHash(f, Stream(d.segments[..i + 1]), None) == Some(d.manifests[d.segments[i].first].manifest.lastEventHash)
  {
    hide Split, FileOf, Stream, Verified, ManifestShapeOk, Scannable;
    SegmentManifest(f, d, i);
  }

  lemma StartReading(f: LogFormat, d: Disk, c: EventCursor, maxEvents: nat, maxBytes: nat, k: nat)
    requires Verified(f, d) && StartsAt(d, c.appliedSeq, k) && maxEvents > 0
    requires k > 0 && |Stream(d.segments[..k])| == c.appliedSeq > 0 ==> Agrees(f, Stream(d.segments), c)
    ensures SoFar(f, d, c, maxEvents, maxBytes, EventBatch([], c, true), 0, |Stream(d.segments[..k])|)
    ensures k == 0 ==> TailHash(f, Stream(d.segments[..k]), None) == None
  {
    hide Split, FileOf, Stream, Verified, SoFar;
    NoSegments(f, d.segments);
    assert d.segments[..0] == [];
    StreamPrefix(d.segments, k);
    SoFarStart(f, d, c, maxEvents, maxBytes, |Stream(d.segments[..k])|);
  }
}
