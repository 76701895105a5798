/** The writer: opening, recovering, appending to and closing segments.

    Every durability step may be the last one before the process stops (`MaybeFail`), and
    an interrupted write may leave any part of its data (`tear`). */
module LogWriter {
  import opened Wrappers
  import opened LogLines
  import opened EventFormat
  import opened LogDisk
  import opened LogCrash
  import opened LogSteps

  datatype RawConfig = RawConfig(rolloverEvents: nat, actorId: string, hostId: string)
  {
    predicate Valid() { rolloverEvents > 0 && actorId != "" && hostId != "" }
  }

  type StoreConfig = c: RawConfig | c.Valid() witness RawConfig(100_000, "local-user", "local-host")

  /** A request, with the ULID and clock reading it is stamped with when it is appended. */
  datatype EventRequest = EventRequest(
    eventType: string, payload: Payload, references: EventReferences, ulid: string, timeMs: nat)

  datatype OpenSegment = OpenSegment(first: nat, eventCount: nat)

  datatype WriterView = WriterView(
    closed: seq<Manifest>, open: Option<OpenSegment>, nextSeq: nat, previousHash: Option<Digest>)

  class WriterState {
    var closed: seq<Manifest>
    var open: Option<OpenSegment>
    var nextSeq: nat
    var previousHash: Option<Digest>

    constructor (closed: seq<Manifest>, open: Option<OpenSegment>, nextSeq: nat, previousHash: Option<Digest>)
      ensures View() == WriterView(closed, open, nextSeq, previousHash)
    {
      this.closed, this.open, this.nextSeq, this.previousHash := closed, open, nextSeq, previousHash;
    }

    function View(): WriterView
      reads this
    {
      WriterView(closed, open, nextSeq, previousHash)
    }
  }

  /** The writer state names the segment files that are really there, the open one last. */
  ghost predicate Attached(v: WriterView, d: Disk) {
    match v.open
    case Some(o) => Open(d).Some? && Open(d).value.first == o.first && AllBelow(Closed(d), d.manifests, o.first)
    case None => Open(d).None? && AllBelow(d.segments, d.manifests, v.nextSeq)
  }

  ghost predicate AllBelow(segments: seq<SegmentFile>, manifests: map<nat, ManifestFile>, bound: nat) {
    && (forall i :: 0 <= i < |segments| ==> segments[i].first < bound)
    && (forall k :: k in manifests ==> k < bound)
  }

  ghost predicate ClosedListed(closed: seq<Manifest>, d: Disk) {
    && |closed| == |Closed(d)|
    && forall i :: 0 <= i < |closed| ==>
         Closed(d)[i].first in d.manifests && closed[i] == d.manifests[Closed(d)[i].first].manifest
  }

  ghost predicate ManifestsDurable(d: Disk) {
    forall k :: k in d.manifests ==> d.manifests[k].durable
  }

  /** The writer state agrees with a valid, settled disk. */
  ghost predicate Matches(f: LogFormat, v: WriterView, d: Disk) {
    && Inv(f, d) && Settled(d) && Attached(v, d) && ManifestsDurable(d)
    && ClosedListed(v.closed, d)
    && (v.open.Some? ==> v.open.value.eventCount == |LinesOf(Open(d).value)|)
    && v.nextSeq == 1 + |Stream(d.segments)|
    && v.previousHash == TailHash(f, Stream(d.segments), None)
  }

  function EnvelopeFor(config: StoreConfig, q: EventRequest, seqNo: nat, previous: Option<Digest>): Envelope {
    Envelope(ENVELOPE_VERSION, STREAM_ID, seqNo, "evt_" + q.ulid, q.eventType, q.timeMs,
             config.actorId, config.hostId, q.references, previous, q.payload)
  }

  /** `e` is the event a request asks for, at its place in the chain. */
  ghost predicate IsEventOf(e: Envelope, config: StoreConfig, q: EventRequest, seqNo: nat, previous: Option<Digest>) {
    && e.v == 1 && e.streamId == "stream_primary" && e.seqNo == seqNo && e.previousEventHash == previous
    && e.eventId == "evt_" + q.ulid && e.eventType == q.eventType && e.timeMs == q.timeMs
    && e.actorId == config.actorId && e.hostId == config.hostId
    && e.references == q.references && e.payload == q.payload
  }

  lemma EnvelopeIs(config: StoreConfig, q: EventRequest, seqNo: nat, previous: Option<Digest>)
    ensures IsEventOf(EnvelopeFor(config, q, seqNo, previous), config, q, seqNo, previous)
  {
  }

  lemma IsEnvelope(e: Envelope, config: StoreConfig, q: EventRequest, seqNo: nat, previous: Option<Digest>)
    requires IsEventOf(e, config, q, seqNo, previous)
    ensures e == EnvelopeFor(config, q, seqNo, previous)
  {
  }

  /** The lines a batch of requests becomes, each naming the hash of the one before. */
  function Prepared(f: LogFormat, config: StoreConfig, requests: seq<EventRequest>,
                    first: nat, before: Option<Digest>): seq<Bytes>
  {
    if |requests| == 0 then []
    else
      var earlier := Prepared(f, config, requests[..|requests| - 1], first, before);
      earlier + [f.encode(EnvelopeFor(config, LastOf(requests), first + |requests| - 1, TailHash(f, earlier, before)))]
  }

  lemma {:induction false} PreparedLength(f: LogFormat, config: StoreConfig, requests: seq<EventRequest>,
                                          first: nat, before: Option<Digest>)
    ensures |Prepared(f, config, requests, first, before)| == |requests|
  {
    if |requests| > 0 {
      PreparedLength(f, config, requests[..|requests| - 1], first, before);
    }
  }

  predicate RequestOk(q: EventRequest) { q.eventType != "" && !q.payload.NotAnObject? }

  predicate Acceptable(f: LogFormat, config: StoreConfig, requests: seq<EventRequest>,
                       first: nat, before: Option<Digest>)
  {
    && (forall i :: 0 <= i < |requests| ==> RequestOk(requests[i]))
    && forall line :: line in Prepared(f, config, requests, first, before) ==> |line| <= f.maxEventBytes
  }

  ghost predicate Stamped(f: LogFormat, requests: seq<EventRequest>) {
    forall i :: 0 <= i < |requests| ==> f.isUlid(requests[i].ulid)
  }

  lemma EnvelopeValid(f: LogFormat, config: StoreConfig, q: EventRequest, seqNo: nat, previous: Option<Digest>)
    requires RequestOk(q) && f.isUlid(q.ulid)
    ensures ValidEvent(f, EnvelopeFor(config, q, seqNo, previous), seqNo, previous)
  {
    assert EnvelopeFor(config, q, seqNo, previous).eventId[|"evt_"|..] == q.ulid;
  }

  lemma EncodedOk(f: LogFormat, config: StoreConfig, q: EventRequest, seqNo: nat, previous: Option<Digest>)
    requires f.Faithful() && RequestOk(q) && f.isUlid(q.ulid)
    ensures var line := f.encode(EnvelopeFor(config, q, seqNo, previous));
            && (|line| <= f.maxEventBytes ==> LineOk(f, line, seqNo, previous))
            && IsLine(line) && f.NoJsonPrefix(line)
  {
    hide ValidEvent;
    EnvelopeValid(f, config, q, seqNo, previous);
  }

  /** Prepared lines are valid events, chained onto whatever precedes them. */
  lemma {:induction false} PreparedValid(f: LogFormat, config: StoreConfig, requests: seq<EventRequest>,
                                         first: nat, before: Option<Digest>)
    requires f.Faithful() && Stamped(f, requests) && Acceptable(f, config, requests, first, before)
    ensures |Prepared(f, config, requests, first, before)| == |requests|
    ensures Chain(f, Prepared(f, config, requests, first, before), first, before)
    ensures Canonical(f, Prepared(f, config, requests, first, before))
    ensures AllLines(Prepared(f, config, requests, first, before))
  {
    hide Chain, LineOk, TailHash, EnvelopeFor, Prepared, LogFormat.Faithful, LogFormat.NoJsonPrefix;
    if |requests| == 0 {
      PreparedNothing(f, config, first, before);
      ChainEmpty(f, first, before);
      assert requests == [];
    } else {
      var init, last := requests[..|requests| - 1], requests[|requests| - 1];
      var earlier, all := Prepared(f, config, init, first, before), Prepared(f, config, requests, first, before);
      var seqNo, previous := first + |init|, TailHash(f, earlier, before);
      var line := f.encode(EnvelopeFor(config, last, seqNo, previous));
      PreparedUnfold(f, config, requests, first, before);
      assert all == earlier + [line];
      assert line in all;
      PreparedValid(f, config, init, first, before);
      EncodedOk(f, config, last, seqNo, previous);
      ChainSnoc(f, earlier, line, first, before);
    }
  }

  /** A prefix of the requests prepares the same prefix of the lines. */
  lemma {:induction false} PreparedPrefix(f: LogFormat, config: StoreConfig, requests: seq<EventRequest>, k: nat,
                                          first: nat, before: Option<Digest>)
    requires k <= |requests|
    ensures Prepared(f, config, requests[..k], first, before) <= Prepared(f, config, requests, first, before)
    decreases |requests|
  {
    if k == |requests| {
      assert requests[..k] == requests;
    } else {
      PreparedPrefix(f, config, requests[..|requests| - 1], k, first, before);
      assert requests[..|requests| - 1][..k] == requests[..k];
    }
  }

  /** Preparing a batch in two parts. */
  lemma {:induction false} PreparedConcat(f: LogFormat, config: StoreConfig, a: seq<EventRequest>, b: seq<EventRequest>,
                                          first: nat, before: Option<Digest>)
    ensures var la := Prepared(f, config, a, first, before);
            Prepared(f, config, a + b, first, before) ==
            la + Prepared(f, config, b, first + |a|, TailHash(f, la, before))
    decreases |b|
  {
    hide Prepared, Chain, EnvelopeFor;
    var la := Prepared(f, config, a, first, before);
    if |b| == 0 {
      PreparedNothing(f, config, first + |a|, TailHash(f, la, before));
      assert a + b == a;
    } else {
      var init, last := b[..|b| - 1], b[|b| - 1];
      PreparedConcat(f, config, a, init, first, before);
      var lb := Prepared(f, config, init, first + |a|, TailHash(f, la, before));
      assert (a + b)[..|a + b| - 1] == a + init && LastOf(a + b) == last;
      assert TailHash(f, la + lb, before) == TailHash(f, lb, TailHash(f, la, before)) by {
        ChainConcat(f, la, lb, first, before);
      }
      PreparedUnfold(f, config, a + b, first, before);
      PreparedUnfold(f, config, b, first + |a|, TailHash(f, la, before));
      var line := f.encode(EnvelopeFor(config, last, first + |a| + |b| - 1, TailHash(f, la + lb, before)));
      assert la + (lb + [line]) == la + lb + [line];
    }
  }

  lemma PreparedNothing(f: LogFormat, config: StoreConfig, first: nat, before: Option<Digest>)
    ensures Prepared(f, config, [], first, before) == []
  {
  }

  lemma PreparedUnfold(f: LogFormat, config: StoreConfig, requests: seq<EventRequest>, first: nat, before: Option<Digest>)
    requires |requests| > 0
    ensures var earlier := Prepared(f, config, requests[..|requests| - 1], first, before);
            Prepared(f, config, requests, first, before) == earlier +
              [f.encode(EnvelopeFor(config, LastOf(requests), first + |requests| - 1, TailHash(f, earlier, before)))]
  {
  }

  /** What the closed segments say about the hash a new segment continues from. */
  lemma ClosedTailHash(f: LogFormat, closed: seq<Manifest>, d: Disk)
    requires Inv(f, d) && ClosedListed(closed, d)
    ensures TailHash(f, Stream(Closed(d)), None) ==
            if |closed| == 0 then None else Some(LastOf(closed).lastEventHash)
    ensures |closed| > 0 ==> LastOf(closed).lastSeq == |Stream(Closed(d))|
  {
    hide Split, FileOf, Chain;
    var segments := Closed(d);
    if |closed| > 0 {
      var last := LastOf(segments);
      assert last == segments[|segments| - 1];
      assert IsClosed(f, last, LastOf(closed));
      assert Stream(segments) == Stream(segments[..|segments| - 1]) + LinesOf(last);
      assert last.first == 1 + |Stream(segments[..|segments| - 1])|;
    }
  }

  /** A serialized event that continues the stream on the disk. */
  ghost predicate EventFits(f: LogFormat, d: Disk, line: Bytes, hash: Digest) {
    && IsLine(line) && f.NoJsonPrefix(line) && hash == f.hash(line)
    && LineOk(f, line, 1 + |Stream(d.segments)|, TailHash(f, Stream(d.segments), None))
  }

  lemma FitsHash(f: LogFormat, d: Disk, line: Bytes, hash: Digest)
    requires EventFits(f, d, line, hash)
    ensures hash == f.hash(line) && EventFits(f, d, line, f.hash(line))
  {
  }

  lemma CreatedAttached(d: Disk, v: WriterView)
    requires Open(d).None? && AllBelow(d.segments, d.manifests, v.nextSeq)
    requires v.open.Some? && v.open.value.first == v.nextSeq
    ensures Attached(v, Created(d, v.nextSeq))
  {
    hide Split, Stream;
    var d' := Created(d, v.nextSeq);
    assert d'.segments[..|d'.segments| - 1] == d.segments;
  }

  lemma MatchedNothing(f: LogFormat, v: WriterView, d: Disk)
    requires Matches(f, v, d)
    ensures Appended(f, d, d, [])
  {
    hide Inv;
    AppendedNothing(f, d);
  }

  lemma MatchedCreate(f: LogFormat, v: WriterView, d: Disk, v': WriterView)
    requires Matches(f, v, d) && v.open.None? && v' == v.(open := Some(OpenSegment(v.nextSeq, 0)))
    ensures var d' := Created(d, v.nextSeq);
            && Matches(f, v', d') && Appended(f, d, d', [])
            && Stream(d'.segments) == Stream(d.segments) && Recovered(f, d') == Recovered(f, d)
  {
    hide Split, Stream, Chain, ClosedOk, TailPieces;
    CreateStep(f, d, v.nextSeq);
    CreatedAttached(d, v');
  }

  lemma MatchedWritePart(f: LogFormat, v: WriterView, d: Disk, line: Bytes, m: nat)
    requires Matches(f, v, d) && v.open.Some? && EventFits(f, d, line, f.hash(line)) && m <= |line|
    ensures var d' := SetTail(d, WithBytes(LastOf(d.segments), LastOf(d.segments).bytes + line[..m]));
            Appended(f, d, d', [line]) && Closed(d') == Closed(d) && Open(d').Some? && Open(d).Some?
  {
    hide Split, Stream, Inv;
    WritePartStep(f, d, line, m);
  }

  lemma MatchedWrite(f: LogFormat, v: WriterView, d0: Disk, d1: Disk, d2: Disk, v': WriterView, line: Bytes, n: nat)
    requires Matches(f, v, d0) && v.open.Some? && EventFits(f, d0, line, f.hash(line)) && n <= 1
    requires d1 == SetTail(d0, WithBytes(LastOf(d0.segments), LastOf(d0.segments).bytes + line))
    requires d2 == SetTail(d1, WithBytes(LastOf(d1.segments), LastOf(d1.segments).bytes + [NEWLINE][..n]))
    requires Attached(v', d2)
    requires v' == v.(open := Some(OpenSegment(v.open.value.first, v.open.value.eventCount + 1)),
                      nextSeq := v.nextSeq + 1, previousHash := Some(f.hash(line)))
    ensures Appended(f, d0, d2, [line]) && Closed(d2) == Closed(d0) && Open(d2).Some?
    ensures n == 1 ==>
              && Matches(f, v', d2)
              && Stream(d2.segments) == Stream(d0.segments) + [line] && Recovered(f, d2) == Recovered(f, d0) + [line]
  {
    hide Split, Stream, Inv, Recovered, EventFits;
    TerminatedStep(f, d0, d1, d2, line, n);
    if n == 1 {
      WrittenMatches(f, d0, d2, v, v', line);
    }
  }

  lemma NotManifested(v: WriterView, d: Disk)
    requires Attached(v, d) && v.open.Some?
    ensures v.open.value.first !in d.manifests && |d.segments| > 0
    ensures Open(d) == Some(LastOf(d.segments)) && LastOf(d.segments).first == v.open.value.first
  {
  }

  lemma TailAttached(d: Disk, s: SegmentFile, v: WriterView, v': WriterView)
    requires Attached(v, d) && v.open.Some? && s.first == LastOf(d.segments).first
    requires v'.open.Some? && v'.open.value.first == v.open.value.first
    ensures Attached(v', SetTail(d, s))
  {
    hide Split, Stream;
    SetTailShape(d, s);
  }

  /** After the line is fully written, the newline either is not there yet or ends the event. */
  lemma TerminatedStep(f: LogFormat, d0: Disk, d1: Disk, d2: Disk, line: Bytes, n: nat)
    requires Inv(f, d0) && Open(d0).Some? && Settled(d0) && EventFits(f, d0, line, f.hash(line)) && n <= 1
    requires d1 == SetTail(d0, WithBytes(LastOf(d0.segments), LastOf(d0.segments).bytes + line))
    requires d2 == SetTail(d1, WithBytes(LastOf(d1.segments), LastOf(d1.segments).bytes + [NEWLINE][..n]))
    ensures Appended(f, d0, d2, [line]) && Closed(d2) == Closed(d0) && Open(d2).Some?
    ensures n == 1 ==>
              && Settled(d2) && Closed(d2) == Closed(d0) && d2.manifests == d0.manifests && Open(d2).Some?
              && Stream(d2.segments) == Stream(d0.segments) + [line]
              && Recovered(f, d2) == Recovered(f, d0) + [line]
              && LinesOf(Open(d2).value) == LinesOf(Open(d0).value) + [line]
              && Open(d2).value.first == Open(d0).value.first
  {
    hide Split, FileOf, Stream, Chain, ClosedOk, TailPieces, Torn, ClosedKept, EarlierManifestsDurable;
    WritePartStep(f, d0, line, |line|);
    assert line[..|line|] == line;
    assert Open(d1).value == LastOf(d1.segments);
    ClosedOpen(d0);
    ClosedOpen(d1);
    RecoveredByPieces(f, d0);
    if n == 1 {
      assert [NEWLINE][..n] == [NEWLINE];
      WriteNewlineStep(f, d1);
      assert PiecesRecovered(f, LinesOf(Open(d0).value), []) == LinesOf(Open(d0).value);
      AppendedChain(f, d0, d1, d2, line);
    } else {
      assert [NEWLINE][..n] == [];
      assert LastOf(d1.segments).bytes + [] == LastOf(d1.segments).bytes;
      assert d2.segments == d1.segments;
    }
  }

  lemma AppendedChain(f: LogFormat, d0: Disk, d1: Disk, d2: Disk, line: Bytes)
    requires Appended(f, d0, d1, [line]) && Appended(f, d1, d2, [line])
    requires Recovered(f, d2) == Recovered(f, d0) + [line]
    ensures Appended(f, d0, d2, [line])
  {
    hide Inv, Recovered, DurableCount, ClosedKept;
    ClosedKeptTrans(d0, d1, d2);
  }

  lemma WrittenMatches(f: LogFormat, d0: Disk, d2: Disk, v: WriterView, v': WriterView, line: Bytes)
    requires Matches(f, v, d0) && v.open.Some? && Inv(f, d2) && Settled(d2) && Open(d2).Some?
    requires Closed(d2) == Closed(d0) && d2.manifests == d0.manifests
    requires Stream(d2.segments) == Stream(d0.segments) + [line]
    requires LinesOf(Open(d2).value) == LinesOf(Open(d0).value) + [line]
    requires Open(d2).value.first == Open(d0).value.first
    requires v' == v.(open := Some(OpenSegment(v.open.value.first, v.open.value.eventCount + 1)),
                      nextSeq := v.nextSeq + 1, previousHash := Some(f.hash(line)))
    ensures Matches(f, v', d2)
  {
    hide Split, FileOf, Stream, Inv;
  }

  /** Matching survives any step that keeps the stream, the closed files and the open file's place. */
  lemma SameMatches(f: LogFormat, d0: Disk, d1: Disk, v: WriterView)
    requires Matches(f, v, d0) && Inv(f, d1) && Settled(d1) && Attached(v, d1)
    requires Closed(d1) == Closed(d0) && d1.manifests == d0.manifests
    requires Open(d1).Some? == Open(d0).Some?
    requires Open(d0).Some? ==> LinesOf(Open(d1).value) == LinesOf(Open(d0).value)
    requires Stream(d1.segments) == Stream(d0.segments)
    ensures Matches(f, v, d1)
  {
    hide Split, FileOf, Stream, Inv;
  }

  lemma MatchedSync(f: LogFormat, v: WriterView, d: Disk, linked: bool)
    requires Matches(f, v, d) && v.open.Some? && (LastOf(d.segments).linked ==> linked)
    ensures var d' := SetTail(d, LastOf(d.segments).(synced := |LastOf(d.segments).bytes|, linked := linked));
            && Matches(f, v, d') && Appended(f, d, d', [])
            && Stream(d'.segments) == Stream(d.segments) && Recovered(f, d') == Recovered(f, d)
            && Open(d').Some? && Open(d').value.synced == |Open(d').value.bytes| && Open(d').value.linked == linked
            && Open(d).Some? && Closed(d') == Closed(d)
  {
    hide Split, Stream, Inv, Recovered;
    var s := LastOf(d.segments).(synced := |LastOf(d.segments).bytes|, linked := linked);
    SyncTailStep(f, d, linked);
    TailAttached(d, s, v, v);
    SameMatches(f, d, SetTail(d, s), v);
  }

  function ManifestFromScan(scan: SegmentScan): Option<Manifest> {
    if scan.lastSeq.Some? && scan.firstEventId.Some? && scan.lastEventId.Some? && scan.lastEventHash.Some? then
      Some(Manifest(MANIFEST_VERSION, STREAM_ID, SegmentPath(scan.firstSeq), scan.firstSeq, scan.lastSeq.value,
                    scan.firstEventId.value, scan.lastEventId.value, scan.lastEventHash.value,
                    scan.eventCount, scan.sizeBytes, scan.contentHash))
    else None
  }

  lemma ScanManifest(f: LogFormat, lines: seq<Bytes>, first: nat, size: nat, contentHash: Digest)
    ensures |lines| > 0 ==>
              ManifestFromScan(ScanOf(f, lines, first, size, contentHash)) ==
              Some(ManifestFor(f, first, lines, size, contentHash))
    ensures |lines| == 0 ==> ManifestFromScan(ScanOf(f, lines, first, size, contentHash)) == None
    ensures ScanOf(f, lines, first, size, contentHash).eventCount == |lines|
    ensures ScanOf(f, lines, first, size, contentHash).firstSeq == first
  {
  }

  function PublishedSynced(f: LogFormat, d: Disk, m: Manifest): Disk {
    var d' := Published(f, d, m);
    d'.(manifests := ManifestsSynced(d'.manifests))
  }

  lemma ClosedAttached(f: LogFormat, d: Disk, v: WriterView, m: Manifest, closed: seq<Manifest>)
    requires Attached(v, d) && v.open.Some? && m.firstSeq == v.open.value.first && m.firstSeq <= m.lastSeq
    ensures Attached(WriterView(closed, None, m.lastSeq + 1, Some(m.lastEventHash)), PublishedSynced(f, d, m))
  {
    hide Split, Stream;
    var d' := PublishedSynced(f, d, m);
    forall i | 0 <= i < |d.segments| ensures d'.segments[i].first < m.lastSeq + 1 {
      if i < |d.segments| - 1 {
        assert Closed(d)[i] == d.segments[i];
      }
    }
  }

  lemma MatchedPublish(f: LogFormat, v: WriterView, d: Disk)
    requires Matches(f, v, d) && v.open.Some? && v.open.value.eventCount > 0
    requires Open(d).value.linked && Open(d).value.synced == |Open(d).value.bytes|
    ensures |LinesOf(Open(d).value)| > 0
    ensures var s := Open(d).value;
            var m := ManifestFor(f, s.first, LinesOf(s), |s.bytes|, f.hash(s.bytes));
            && Open(Published(f, d, m)).None? && Open(PublishedSynced(f, d, m)).None?
            && Appended(f, d, Published(f, d, m), []) && Appended(f, d, PublishedSynced(f, d, m), [])
            && (var d' := PublishedSynced(f, d, m);
                && Stream(d'.segments) == Stream(d.segments) && Recovered(f, d') == Recovered(f, d)
                && FullyDurable(d')
                && Matches(f, WriterView(v.closed + [m], None, m.lastSeq + 1, Some(m.lastEventHash)), d'))
  {
    hide Split, Stream, ClosedOk, TailPieces, Recovered, ManifestFor, EarlierManifestsDurable;
    var s := Open(d).value;
    var m := ManifestFor(f, s.first, LinesOf(s), |s.bytes|, f.hash(s.bytes));
    var d1, d2 := Published(f, d, m), PublishedSynced(f, d, m);
    PublishStep(f, d);
    SyncManifestsStep(f, d1);
    AppendedSame2(f, d, d1, d2);
    ManifestNumbers(f, s);
    ClosedOpen(d);
    ClosedAttached(f, d, v, m, v.closed + [m]);
    assert |LinesOf(s)| > 0;
    TailHashConcat(f, Stream(Closed(d)), LinesOf(s));
    ListedMore(v.closed, d, d2, s, m);
    assert s.first == 1 + |Stream(Closed(d))|;
    assert TailHash(f, Stream(d.segments), None) == Some(m.lastEventHash);
  }

  lemma AppendedSame2(f: LogFormat, d0: Disk, d1: Disk, d2: Disk)
    requires Appended(f, d0, d1, []) && Appended(f, d1, d2, []) && Recovered(f, d1) == Recovered(f, d0)
    ensures Appended(f, d0, d2, [])
  {
    hide Inv, Recovered, DurableCount, Closed;
    var none: seq<Bytes> := [];
    assert Recovered(f, d0) + none == Recovered(f, d0) && none + none == none;
    AppendedTrans(f, d0, d1, d2, none, none);
  }

  lemma ManifestNumbers(f: LogFormat, s: SegmentFile)
    requires |LinesOf(s)| > 0
    ensures var m := ManifestFor(f, s.first, LinesOf(s), |s.bytes|, f.hash(s.bytes));
            && m.firstSeq == s.first && m.lastSeq == s.first + |LinesOf(s)| - 1
            && m.lastEventHash == f.hash(LastOf(LinesOf(s)))
  {
  }

  lemma ListedMore(closed: seq<Manifest>, d: Disk, d': Disk, s: SegmentFile, m: Manifest)
    requires ClosedListed(closed, d) && Open(d) == Some(s) && Closed(d') == d.segments
    requires s.first !in d.manifests && s.first in d'.manifests && d'.manifests[s.first].manifest == m
    requires forall k :: k in d.manifests ==> k in d'.manifests && d'.manifests[k].manifest == d.manifests[k].manifest
    ensures ClosedListed(closed + [m], d')
  {
    hide Split, Stream;
    var all := closed + [m];
    forall i | 0 <= i < |all|
      ensures Closed(d')[i].first in d'.manifests && all[i] == d'.manifests[Closed(d')[i].first].manifest
    {
      if i < |closed| {
        assert Closed(d')[i] == Closed(d)[i];
      } else {
        assert Closed(d')[i] == s;
      }
    }
  }

  /** What a scan of the matched open segment returns. */
  lemma MatchedScan(f: LogFormat, v: WriterView, d: Disk)
    requires Matches(f, v, d) && v.open.Some?
    ensures var s := Open(d).value;
            Scannable(f, s.bytes, s.first, TailHash(f, Stream(Closed(d)), None), true)
  {
    hide Split, Stream, ClosedOk, Torn;
  }

  lemma CloseFacts(f: LogFormat, v: WriterView, d: Disk, priorHash: Option<Digest>)
    requires Matches(f, v, d) && v.open.Some?
    requires priorHash == if |v.closed| == 0 then None else Some(LastOf(v.closed).lastEventHash)
    ensures var s := Open(d).value;
            && s == LastOf(d.segments) && s.first == v.open.value.first
            && v.open.value.eventCount == |LinesOf(s)|
            && Scannable(f, s.bytes, s.first, priorHash, true)
            && (v.open.value.eventCount > 0 ==> Scannable(f, s.bytes, s.first, priorHash, false))
  {
    hide Split, Stream, Inv, Chain;
    ClosedTailHash(f, v.closed, d);
    MatchedScan(f, v, d);
  }

  /** What recovery accepts in an unmanifested tail: valid lines, then a broken piece or one whole event. */
  ghost predicate TailReadable(f: LogFormat, bytes: Bytes, first: nat, before: Option<Digest>) {
    var lines, rest := Split(bytes).lines, Split(bytes).rest;
    && Chain(f, lines, first, before)
    && |rest| <= f.maxEventBytes
    && (rest != [] && f.isJson(rest) ==> LineOk(f, rest, first + |lines|, TailHash(f, lines, before)))
  }

  /** The bytes recovery leaves: a broken piece is cut off, a whole event gets its newline. */
  function RecoveredBytes(f: LogFormat, bytes: Bytes): Bytes {
    var lines, rest := Split(bytes).lines, Split(bytes).rest;
    if rest == [] then bytes else if f.isJson(rest) then bytes + [NEWLINE] else FileOf(lines)
  }

  lemma InvTailReadable(f: LogFormat, d: Disk)
    requires Inv(f, d) && Open(d).Some?
    ensures var s := Open(d).value;
            TailReadable(f, s.bytes, s.first, TailHash(f, Stream(Closed(d)), None))
  {
    hide Split, FileOf, Stream, ClosedOk, Chain;
  }

  /** The states recovery passes through. */
  ghost predicate RecoveryState(f: LogFormat, d: Disk, d': Disk) {
    |d.segments| > 0 &&
    var s := LastOf(d.segments); var bytes := RecoveredBytes(f, s.bytes);
    || d' == d
    || (RestOf(s) != [] && f.isJson(RestOf(s)) && d' == SetTail(d, s.(bytes := bytes)))
    || (RestOf(s) != [] && d' == SetTail(d, s.(bytes := bytes, synced := |bytes|)))
  }

  ghost predicate RecoveryDone(f: LogFormat, d: Disk, d': Disk) {
    |d.segments| > 0 &&
    var s := LastOf(d.segments); var bytes := RecoveredBytes(f, s.bytes);
    if RestOf(s) == [] then d' == d else d' == SetTail(d, s.(bytes := bytes, synced := |bytes|))
  }

  /** Recovery keeps exactly the recoverable stream. */
  lemma RecoveryKeeps(f: LogFormat, d: Disk, d': Disk)
    requires Inv(f, d) && Open(d).Some? && RecoveryState(f, d, d')
    ensures Appended(f, d, d', [])
    ensures RecoveryDone(f, d, d') ==>
              && Settled(d') && Open(d').Some? && Open(d').value.first == Open(d).value.first
              && Closed(d') == Closed(d) && d'.manifests == d.manifests
              && Recovered(f, d') == Recovered(f, d) && Stream(d'.segments) == Recovered(f, d)
  {
    hide Split, FileOf, Stream, Inv, Chain, Torn, AllLines;
    var s := LastOf(d.segments);
    assert s == Open(d).value;
    ClosedOpen(d);
    RecoveredByPieces(f, d);
    if RestOf(s) == [] {
      AppendedNothing(f, d);
      assert LinesOf(s) + [] == LinesOf(s);
    } else if f.isJson(RestOf(s)) {
      CompleteKeeps(f, d, d');
    } else {
      TruncateStep(f, d);
      if d' == d {
        AppendedNothing(f, d);
      }
    }
  }

  lemma CompleteKeeps(f: LogFormat, d: Disk, d': Disk)
    requires Inv(f, d) && Open(d).Some? && RecoveryState(f, d, d')
    requires RestOf(Open(d).value) != [] && f.isJson(RestOf(Open(d).value))
    ensures Appended(f, d, d', [])
    ensures RecoveryDone(f, d, d') ==>
              && Settled(d') && Open(d').Some? && Open(d').value.first == Open(d).value.first
              && Closed(d') == Closed(d) && d'.manifests == d.manifests
              && Recovered(f, d') == Recovered(f, d) && Stream(d'.segments) == Recovered(f, d)
  {
    hide Split, FileOf, Stream, ClosedOk, Chain, AllLines, LineOk, EarlierManifestsDurable;
    var s := Open(d).value;
    var line := RestOf(s);
    var d1 := SetTail(d, WithBytes(s, s.bytes + [NEWLINE]));
    ClosedOpen(d);
    TailHashConcat(f, Stream(Closed(d)), LinesOf(s));
    WriteNewlineStep(f, d);
    assert Recovered(f, d) == Stream(d.segments) + [line];
    AppendedSame(f, d, d1);
    SyncTailStep(f, d1, Open(d1).value.linked);
    AppendedNothing(f, d);
    var d2 := SetTail(d1, Open(d1).value.(synced := |Open(d1).value.bytes|));
    AppendedSame2(f, d, d1, d2);
    var bytes := RecoveredBytes(f, s.bytes);
    assert bytes == s.bytes + [NEWLINE];
    SetTailTwice(d, WithBytes(s, bytes), s.(bytes := bytes, synced := |bytes|));
    assert Open(d1).value == WithBytes(s, bytes);
    assert d2 == SetTail(d, s.(bytes := bytes, synced := |bytes|));
    if RecoveryDone(f, d, d') {
      assert d' == d2;
      assert Stream(d2.segments) == Recovered(f, d);
      SyncedSettled(d1, d2);
    }
  }

  lemma SyncedSettled(d1: Disk, d2: Disk)
    requires Settled(d1) && Open(d1).Some? && Open(d2).Some? && Open(d2).value.bytes == Open(d1).value.bytes
    ensures Settled(d2)
  {
    hide Split;
  }

  lemma SetTailTwice(d: Disk, a: SegmentFile, b: SegmentFile)
    requires |d.segments| > 0
    ensures SetTail(SetTail(d, a), b) == SetTail(d, b)
  {
  }

  predicate ManifestShapeOk(f: LogFormat, m: Manifest, first: nat, actualSize: nat) {
    && m.manifestV == MANIFEST_VERSION && m.streamId == STREAM_ID && m.segmentFile == SegmentPath(first)
    && m.firstSeq == first && m.eventCount != 0 && m.lastSeq == first + m.eventCount - 1
    && f.IsPrefixedUlid(m.firstEventId, "evt_") && f.IsPrefixedUlid(m.lastEventId, "evt_")
    && m.segmentSizeBytes == actualSize
  }

  /** The manifest of a scanned segment always has the right shape. */
  lemma ManifestForShape(f: LogFormat, s: SegmentFile, before: Option<Digest>)
    requires |LinesOf(s)| > 0 && Chain(f, LinesOf(s), s.first, before)
    ensures ManifestShapeOk(f, ManifestFor(f, s.first, LinesOf(s), |s.bytes|, f.hash(s.bytes)), s.first, |s.bytes|)
  {
    hide Split;
    var lines := LinesOf(s);
    assert LineOk(f, lines[0], s.first + 0, PreviousAt(f, lines, 0, before));
    assert LineOk(f, lines[|lines| - 1], s.first + (|lines| - 1), PreviousAt(f, lines, |lines| - 1, before));
  }

  lemma NothingRead(bytes: Bytes)
    ensures ReadSoFar(bytes, 0, [])
  {
    assert bytes[..0] == [];
  }

  lemma RecoverRestMeans(f: LogFormat, bytes: Bytes, lines: seq<Bytes>, rest: Bytes, first: nat, before: Option<Digest>)
    requires Split(bytes) == Parts(lines, rest) && rest != [] && Chain(f, lines, first, before)
    ensures TailReadable(f, bytes, first, before) <==>
            |rest| <= f.maxEventBytes &&
            (f.isJson(rest) ==> LineOk(f, rest, first + |lines|, TailHash(f, lines, before)))
  {
    hide Split, FileOf;
  }

  lemma TruncationPoint(bytes: Bytes, lineStart: nat, lines: seq<Bytes>)
    requires ReadSoFar(bytes, lineStart, lines)
    ensures bytes[..lineStart] == FileOf(lines) && lineStart == |FileOf(lines)|
  {
    hide FileOf;
    assert FileOf(lines) + [] == FileOf(lines);
  }

  lemma SameTail(d: Disk)
    requires |d.segments| > 0
    ensures SetTail(d, LastOf(d.segments)) == d
    ensures SetTail(d, WithBytes(LastOf(d.segments), LastOf(d.segments).bytes)) == d
  {
    assert d.segments[..|d.segments| - 1] + [LastOf(d.segments)] == d.segments;
  }

  predicate AllFirstsBelow(segments: seq<SegmentFile>, bound: nat) {
    forall i :: 0 <= i < |segments| ==> segments[i].first < bound
  }

  lemma InvLayout(f: LogFormat, d: Disk)
    requires Inv(f, d)
    ensures LayoutOk(d)
  {
    hide Split, Stream, GoodStream, Placed, TailOk, IsClosed;
    forall k | k in d.manifests.Keys ensures exists i :: 0 <= i < |d.segments| && d.segments[i].first == k {
      var i :| 0 <= i < |Closed(d)| && Closed(d)[i].first == k;
      assert d.segments[i].first == k;
    }
  }

  lemma ShapeAdvances(f: LogFormat, m: Manifest, first: nat, size: nat)
    requires ManifestShapeOk(f, m, first, size)
    ensures m.lastSeq >= first
  {
  }

  lemma InvClosedAt(f: LogFormat, d: Disk, i: nat)
    requires Inv(f, d) && i < |Closed(d)|
    ensures i < |d.segments| && d.segments[i].first == 1 + |Stream(d.segments[..i])|
    ensures d.segments[i].first in d.manifests
    ensures var m := d.manifests[d.segments[i].first].manifest;
            && ManifestShapeOk(f, m, d.segments[i].first, |d.segments[i].bytes|)
            && m.lastSeq == |Stream(d.segments[..i + 1])|
            && TailHash(f, Stream(d.segments[..i + 1]), None) == Some(m.lastEventHash)
  {
    hide ManifestShapeOk, Stream, ClosedOk, TailOk;
    assert Closed(d)[i] == d.segments[i] && Closed(d)[..i] == d.segments[..i] && Closed(d)[..i + 1] == d.segments[..i + 1];
    ClosedOkAt(f, Closed(d), d.manifests, i);
  }

  lemma ClosedOkAt(f: LogFormat, segments: seq<SegmentFile>, manifests: map<nat, ManifestFile>, i: nat)
    requires ClosedOk(f, segments, manifests) && i < |segments|
    ensures segments[i].first == 1 + |Stream(segments[..i])| && segments[i].first in manifests
    ensures var m := manifests[segments[i].first].manifest;
            && ManifestShapeOk(f, m, segments[i].first, |segments[i].bytes|)
            && m.lastSeq == |Stream(segments[..i + 1])|
            && TailHash(f, Stream(segments[..i + 1]), None) == Some(m.lastEventHash)
  {
    hide Split, FileOf, Chain, ManifestShapeOk, Canonical, Stream;
    var s := segments[i];
    assert segments[..i + 1] == segments[..i] + [s];
    assert IsClosed(f, s, manifests[s.first].manifest);
    StreamSnoc(segments[..i], s);
    ChainAt(f, segments, i);
    ManifestForShape(f, s, TailHash(f, Stream(segments[..i]), None));
    TailHashConcat(f, Stream(segments[..i]), LinesOf(s));
  }

  /** Each segment of a chained stream is a chain continuing the segments before it. */
  lemma ChainAt(f: LogFormat, segments: seq<SegmentFile>, i: nat)
    requires Chain(f, Stream(segments), 1, None) && i < |segments|
    ensures Chain(f, LinesOf(segments[i]), 1 + |Stream(segments[..i])|, TailHash(f, Stream(segments[..i]), None))
  {
    hide Split, FileOf, Chain, Stream;
    var before, lines := Stream(segments[..i]), LinesOf(segments[i]);
    assert segments[..i + 1] == segments[..i] + [segments[i]];
    StreamSnoc(segments[..i], segments[i]);
    StreamPrefix(segments, i + 1);
    ChainPrefix(f, Stream(segments), |before + lines|, 1, None);
    assert Stream(segments)[..|before + lines|] == before + lines;
    ChainConcat(f, before, lines, 1, None);
  }

  lemma InspectedClosed(f: LogFormat, d0: Disk, d: Disk, v: WriterView)
    requires Inv(f, d) && Open(d).None? && ManifestsDurable(d) && Attached(v, d) && v.open.None?
    requires ClosedListed(v.closed, d)
    requires v.nextSeq == 1 + |Stream(d.segments)| && v.previousHash == TailHash(f, Stream(d.segments), None)
    ensures Matches(f, v, d) && Recovered(f, d) == Stream(d.segments)
  {
    hide Split, Stream, Inv;
  }

  lemma InvTailAt(f: LogFormat, d: Disk)
    requires Inv(f, d) && Open(d).Some?
    ensures Open(d).value.first == 1 + |Stream(Closed(d))|
    ensures TailReadable(f, Open(d).value.bytes, Open(d).value.first, TailHash(f, Stream(Closed(d)), None))
  {
    hide Split, Stream, ClosedOk, TailPieces, TailReadable;
    InvTailReadable(f, d);
  }

  lemma RecoveredShape(f: LogFormat, d1: Disk, d2: Disk)
    requires Open(d1).Some? && RecoveryDone(f, d1, d2)
    ensures Open(d2).Some? && Open(d2).value.first == Open(d1).value.first && Open(d2).value == LastOf(d2.segments)
    ensures Closed(d2) == Closed(d1) && d2.manifests == d1.manifests
  {
    hide Split, Stream;
    var s := LastOf(d1.segments);
    var bytes := RecoveredBytes(f, s.bytes);
    SetTailShape(d1, s.(bytes := bytes, synced := |bytes|));
  }

  lemma RecoveryTail(f: LogFormat, d1: Disk, d2: Disk)
    requires Open(d1).Some? && RecoveryState(f, d1, d2)
    ensures Closed(d2) == Closed(d1)
  {
    hide Split, Stream;
    if d2 != d1 { SetTailShape(d1, LastOf(d2.segments)); }
  }

  lemma InspectedScan(f: LogFormat, d1: Disk, d2: Disk)
    requires Inv(f, d2) && Settled(d2) && Open(d2).Some? && Closed(d2) == Closed(d1)
    ensures Scannable(f, Open(d2).value.bytes, Open(d2).value.first, TailHash(f, Stream(Closed(d1)), None), true)
  {
    hide Split, FileOf, Stream, ClosedOk, Chain;
  }

  lemma ScanNumbers(f: LogFormat, bytes: Bytes, first: nat, before: Option<Digest>)
    ensures var lines := Split(bytes).lines; var scan := ScanOf(f, lines, first, |bytes|, f.hash(bytes));
            && (if scan.lastSeq.None? then first else scan.lastSeq.value + 1) == first + |lines|
            && (if scan.lastEventHash.Some? then scan.lastEventHash else before) == TailHash(f, lines, before)
            && scan.eventCount == |lines|
  {
    hide Split;
  }

  lemma TailStillAttached(d1: Disk, d2: Disk, v: WriterView)
    requires Open(d2).Some? && Closed(d2) == Closed(d1) && d2.manifests == d1.manifests
    requires v.open.Some? && v.open.value.first == Open(d2).value.first
    requires AllFirstsBelow(Closed(d1), v.open.value.first) && LayoutOk(d1)
    requires Open(d1).Some? && Open(d1).value.first == v.open.value.first
    ensures Attached(v, d2)
  {
    hide Split, Stream;
    forall k | k in d1.manifests ensures k < v.open.value.first {
      var i :| 0 <= i < |d1.segments| && d1.segments[i].first == k;
      if i < |d1.segments| - 1 {
        assert Closed(d1)[i].first == k;
      }
    }
  }

  lemma InspectedOpen(f: LogFormat, d1: Disk, d2: Disk, v: WriterView)
    requires Inv(f, d2) && Settled(d2) && Open(d2).Some? && Attached(v, d2) && ManifestsDurable(d2)
    requires ClosedListed(v.closed, d2) && v.open.Some? && v.open.value.eventCount == |LinesOf(Open(d2).value)|
    requires v.nextSeq == Open(d2).value.first + |LinesOf(Open(d2).value)|
    requires v.previousHash == TailHash(f, LinesOf(Open(d2).value), TailHash(f, Stream(Closed(d2)), None))
    ensures Matches(f, v, d2)
  {
    hide Split, FileOf, Stream, ClosedOk, Chain;
    ClosedOpen(d2);
    TailHashConcat(f, Stream(Closed(d2)), LinesOf(Open(d2).value));
  }

  lemma NoSegments(f: LogFormat, segments: seq<SegmentFile>)
    ensures Stream(segments[..0]) == [] && TailHash(f, Stream(segments[..0]), None) == None
  {
  }

  /** Every manifest has its segment, and only the last segment may lack one. */
  ghost predicate LayoutOk(d: Disk) {
    && (forall k :: k in d.manifests.Keys ==> exists i :: 0 <= i < |d.segments| && d.segments[i].first == k)
    && (forall i :: 0 <= i < |d.segments| - 1 ==> d.segments[i].first in d.manifests)
  }

  lemma LayoutClosed(d: Disk)
    requires LayoutOk(d)
    ensures Closed(d) == d.segments[..|Closed(d)|]
    ensures forall i :: 0 <= i < |Closed(d)| ==> d.segments[i].first in d.manifests
    ensures |Closed(d)| < |d.segments| <==> Open(d).Some?
    ensures Open(d).None? ==> Closed(d) == d.segments
  {
  }

  lemma AppendedInv(f: LogFormat, d0: Disk, d1: Disk)
    requires Appended(f, d0, d1, [])
    ensures Inv(f, d1)
  {
  }

  lemma AllManifestsBelow(d: Disk, bound: nat)
    requires AllFirstsBelow(d.segments, bound)
    requires LayoutOk(d)
    ensures AllBelow(d.segments, d.manifests, bound)
  {
  }

  lemma ListedSoFar(d: Disk, closed: seq<Manifest>)
    requires LayoutOk(d) && |closed| == |Closed(d)|
    requires forall j :: 0 <= j < |closed| ==>
               d.segments[j].first in d.manifests && closed[j] == d.manifests[d.segments[j].first].manifest
    ensures ClosedListed(closed, d)
  {
  }

  lemma UnopenedAttached(d: Disk, v: WriterView)
    requires v.open.None? && Open(d).None? && AllBelow(d.segments, d.manifests, v.nextSeq)
    ensures Attached(v, d)
  {
  }

  datatype PreparedEvent = PreparedEvent(envelope: Envelope, line: Bytes, hash: Digest)

  /** `p` carries the prepared lines with their hashes. */
  ghost predicate Carries(f: LogFormat, p: seq<PreparedEvent>, lines: seq<Bytes>) {
    && |p| == |lines|
    && forall i :: 0 <= i < |p| ==>
         p[i].line == lines[i] && p[i].hash == f.hash(lines[i]) && f.encode(p[i].envelope) == lines[i]
  }

  function PreviousOf(p: seq<PreparedEvent>, i: nat, before: Option<Digest>): Option<Digest>
    requires i <= |p|
  {
    if i == 0 then before else Some(p[i - 1].hash)
  }

  /** The event is the one its request asks for, it fits, and it names the hash of the one before. */
  ghost predicate PreparedFor(f: LogFormat, config: StoreConfig, q: EventRequest, p: PreparedEvent, seqNo: nat, previous: Option<Digest>) {
    && IsEventOf(p.envelope, config, q, seqNo, previous)
    && p.line == f.encode(p.envelope) && p.hash == f.hash(p.line) && |p.line| <= f.maxEventBytes
  }

  ghost predicate RequestedAt(f: LogFormat, config: StoreConfig, requests: seq<EventRequest>, p: seq<PreparedEvent>, i: nat, first: nat,
                              before: Option<Digest>)
    requires i < |p| == |requests|
  {
    PreparedFor(f, config, requests[i], p[i], first + i, PreviousOf(p, i, before))
  }

  ghost predicate AsRequested(f: LogFormat, config: StoreConfig, requests: seq<EventRequest>, p: seq<PreparedEvent>, first: nat,
                              before: Option<Digest>)
  {
    |p| == |requests| && forall i :: 0 <= i < |p| ==> RequestedAt(f, config, requests, p, i, first, before)
  }

  lemma NothingRequested(f: LogFormat, config: StoreConfig, first: nat, before: Option<Digest>)
    ensures AsRequested(f, config, [], [], first, before)
  {
  }

  lemma RequestedSnoc(f: LogFormat, config: StoreConfig, requests: seq<EventRequest>, p: seq<PreparedEvent>, event: PreparedEvent,
                      first: nat, before: Option<Digest>)
    requires |requests| == |p| + 1 && AsRequested(f, config, requests[..|p|], p, first, before)
    requires PreparedFor(f, config, requests[|p|], event, first + |p|, PreviousOf(p, |p|, before))
    ensures AsRequested(f, config, requests, p + [event], first, before)
  {
    hide PreparedFor;
    forall i | 0 <= i < |p + [event]| ensures RequestedAt(f, config, requests, p + [event], i, first, before) {
      assert PreviousOf(p + [event], i, before) == PreviousOf(p, i, before);
      if i < |p| {
        assert RequestedAt(f, config, requests[..|p|], p, i, first, before);
      }
    }
  }

  lemma RequestedInit(f: LogFormat, config: StoreConfig, requests: seq<EventRequest>, p: seq<PreparedEvent>, n: nat,
                      first: nat, before: Option<Digest>)
    requires AsRequested(f, config, requests, p, first, before) && n <= |p|
    ensures AsRequested(f, config, requests[..n], p[..n], first, before)
  {
    hide PreparedFor;
    forall i | 0 <= i < n ensures RequestedAt(f, config, requests[..n], p[..n], i, first, before) {
      assert RequestedAt(f, config, requests, p, i, first, before);
    }
  }

  /** Prepared one after the other, the events are the prepared lines. */
  lemma {:induction false} RequestedCarries(f: LogFormat, config: StoreConfig, requests: seq<EventRequest>, p: seq<PreparedEvent>,
                                            first: nat, before: Option<Digest>)
    requires AsRequested(f, config, requests, p, first, before)
    ensures var lines := Prepared(f, config, requests, first, before);
            && Carries(f, p, lines) && TailHash(f, lines, before) == (PreviousOf(p, |p|, before))
            && forall line :: line in lines ==> |line| <= f.maxEventBytes
  {
    hide Prepared, TailHash, IsEventOf, EnvelopeFor;
    if |p| == 0 {
      PreparedNothing(f, config, first, before);
      NoTail(f, before);
      assert requests == [];
    } else {
      var n := |p| - 1;
      RequestedInit(f, config, requests, p, n, first, before);
      assert RequestedAt(f, config, requests, p, n, first, before);
      RequestedCarries(f, config, requests[..n], p[..n], first, before);
      PreparedUnfold(f, config, requests, first, before);
      IsEnvelope(p[n].envelope, config, requests[n], first + n, PreviousOf(p, n, before));
      TailSnoc(f, Prepared(f, config, requests[..n], first, before), p[n].line, before);
    }
  }

  lemma TooLong(f: LogFormat, config: StoreConfig, requests: seq<EventRequest>, p: seq<PreparedEvent>, e: Envelope,
                first: nat, before: Option<Digest>)
    requires |p| < |requests| && AsRequested(f, config, requests[..|p|], p, first, before)
    requires IsEventOf(e, config, requests[|p|], first + |p|, PreviousOf(p, |p|, before))
    requires |f.encode(e)| > f.maxEventBytes
    ensures !Acceptable(f, config, requests, first, before)
  {
    hide Prepared, TailHash, IsEventOf, EnvelopeFor, Carries, AsRequested;
    var n := |p|;
    RequestedCarries(f, config, requests[..n], p, first, before);
    assert requests[..n + 1][..n] == requests[..n];
    PreparedUnfold(f, config, requests[..n + 1], first, before);
    IsEnvelope(e, config, requests[n], first + n, PreviousOf(p, n, before));
    PreparedPrefix(f, config, requests, n + 1, first, before);
    assert f.encode(e) in Prepared(f, config, requests[..n + 1], first, before);
    assert f.encode(e) in Prepared(f, config, requests, first, before);
  }

  /** The first half of `append_batch_to_state`: nothing is written unless every event fits. */
  method PrepareBatch(f: LogFormat, config: StoreConfig, requests: seq<EventRequest>, first: nat, before: Option<Digest>)
    returns (r: Result<seq<PreparedEvent>, StoreError>)
    ensures r.Ok? <==> Acceptable(f, config, requests, first, before)
    ensures r.Ok? ==> AsRequested(f, config, requests, r.value, first, before)
    ensures r.Ok? ==> Carries(f, r.value, Prepared(f, config, requests, first, before))
    ensures r.Err? ==> r.error == InvalidInput
  {
    hide Prepared, RequestOk, IsEventOf, AsRequested, Carries, RequestedAt;
    for i := 0 to |requests|
      invariant forall j :: 0 <= j < i ==> RequestOk(requests[j])
    {
      if !RequestOk(requests[i]) {
        return Err(InvalidInput);
      }
    }
    var prepared: seq<PreparedEvent> := [];
    var seqNo, previous := first, before;
    NothingRequested(f, config, first, before);
    assert requests[..0] == [];
    for i := 0 to |requests|
      invariant AsRequested(f, config, requests[..i], prepared, first, before) && |prepared| == i
      invariant seqNo == first + i && previous == PreviousOf(prepared, i, before)
    {
      var q := requests[i];
      var envelope := Envelope(ENVELOPE_VERSION, STREAM_ID, seqNo, "evt_" + q.ulid, q.eventType, q.timeMs,
                               config.actorId, config.hostId, q.references, previous, q.payload);
      var line := f.encode(envelope);
      assert IsEventOf(envelope, config, q, seqNo, previous) by { EnvelopeIs(config, q, seqNo, previous); }
      assert requests[..i + 1][..i] == requests[..i];
      if |line| > f.maxEventBytes {
        TooLong(f, config, requests, prepared, envelope, first, before);
        return Err(InvalidInput);
      }
      var hash := f.hash(line);
      RequestedSnoc(f, config, requests[..i + 1], prepared, PreparedEvent(envelope, line, hash), first, before);
      prepared := prepared + [PreparedEvent(envelope, line, hash)];
      seqNo := seqNo + 1;
      previous := Some(hash);
    }
    assert requests[..|requests|] == requests;
    RequestedCarries(f, config, requests, prepared, first, before);
    return Ok(prepared);
  }

  lemma NoTail(f: LogFormat, before: Option<Digest>)
    ensures TailHash(f, [], before) == before
  {
  }

  lemma TailSnoc(f: LogFormat, lines: seq<Bytes>, line: Bytes, before: Option<Digest>)
    ensures TailHash(f, lines + [line], before) == Some(f.hash(line))
  {
  }

  /** Everything `append_batch_to_state` is promised when it succeeds in its tasks. */
  ghost predicate ReadyToAppend(f: LogFormat, config: StoreConfig, v: WriterView, d: Disk, requests: seq<EventRequest>) {
    && f.Faithful() && Stamped(f, requests) && Matches(f, v, d)
    && Acceptable(f, config, requests, v.nextSeq, v.previousHash)
  }

  /** Progress of an append: exactly `done` more lines, nothing half-written. */
  ghost predicate AppendedSoFar(f: LogFormat, v: WriterView, d0: Disk, d: Disk, done: seq<Bytes>) {
    && Matches(f, v, d) && Appended(f, d0, d, done)
    && Recovered(f, d) == Recovered(f, d0) + done
    && Stream(d.segments) == Stream(d0.segments) + done
  }

  lemma NextFits(f: LogFormat, config: StoreConfig, v0: WriterView, d0: Disk, requests: seq<EventRequest>,
                 v: WriterView, d: Disk, k: nat)
    requires ReadyToAppend(f, config, v0, d0, requests)
    requires var lines := Prepared(f, config, requests, v0.nextSeq, v0.previousHash);
             k < |lines| && AppendedSoFar(f, v, d0, d, lines[..k])
    ensures var lines := Prepared(f, config, requests, v0.nextSeq, v0.previousHash);
            EventFits(f, d, lines[k], f.hash(lines[k]))
  {
    hide Prepared, Stream, Inv, Appended, Recovered, LineOk, LogFormat.NoJsonPrefix, LogFormat.Faithful, Split, Chain, Acceptable,
         Stamped, Attached, ClosedListed, ManifestsDurable, Settled;
    var lines := Prepared(f, config, requests, v0.nextSeq, v0.previousHash);
    PreparedValid(f, config, requests, v0.nextSeq, v0.previousHash);
    TailHashConcat(f, Stream(d0.segments), lines[..k]);
    ChainLine(f, lines, k, v0.nextSeq, v0.previousHash);
    assert PreviousAt(f, lines, k, v0.previousHash) == TailHash(f, lines[..k], v0.previousHash);
  }

  lemma StartAppend(f: LogFormat, v: WriterView, d: Disk)
    requires Matches(f, v, d)
    ensures AppendedSoFar(f, v, d, d, [])
  {
    hide Inv, Stream, Recovered;
    AppendedNothing(f, d);
    assert Recovered(f, d) + [] == Recovered(f, d) && Stream(d.segments) + [] == Stream(d.segments);
  }

  /** One more step of an append that has written `done`. */
  lemma AppendMore(f: LogFormat, v: WriterView, d0: Disk, d: Disk, done: seq<Bytes>, d': Disk, more: seq<Bytes>)
    requires AppendedSoFar(f, v, d0, d, done) && Appended(f, d, d', more)
    ensures Appended(f, d0, d', done + more)
    ensures Stream(d'.segments) == Stream(d.segments) + more && Recovered(f, d') == Recovered(f, d) + more ==>
              forall v' :: Matches(f, v', d') ==> AppendedSoFar(f, v', d0, d', done + more)
  {
    hide Inv, Stream, Recovered, Matches, Appended;
    AppendedTrans(f, d0, d, d', done, more);
    assert Stream(d0.segments) + done + more == Stream(d0.segments) + (done + more);
    assert Recovered(f, d0) + done + more == Recovered(f, d0) + (done + more);
  }

  lemma AppendSame(f: LogFormat, v: WriterView, d0: Disk, d: Disk, done: seq<Bytes>, d': Disk)
    requires AppendedSoFar(f, v, d0, d, done) && Appended(f, d, d', [])
    ensures Appended(f, d0, d', done)
    ensures Stream(d'.segments) == Stream(d.segments) && Recovered(f, d') == Recovered(f, d) ==>
              forall v' :: Matches(f, v', d') ==> AppendedSoFar(f, v', d0, d', done)
  {
    hide Inv, Stream, Recovered, Matches, Appended;
    AppendedTrans(f, d0, d, d', done, []);
    assert done + [] == done;
  }
}
