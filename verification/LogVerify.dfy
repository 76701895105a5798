/** What `verify` establishes about a disk: the segment chain, and the checkpoint files. */
module LogVerify {
  import opened Wrappers
  import opened LogLines
  import opened EventFormat
  import opened LogDisk
  import opened LogCrash
  import opened LogSteps
  import opened LogWriter

  datatype VerifiedSegment = VerifiedSegment(
    firstSeq: nat, lastSeq: Option<nat>, eventCount: nat, manifest: Option<Manifest>)

  datatype Report = Report(
    lastSeq: nat, lastEventHash: Option<Digest>, segments: seq<VerifiedSegment>, checkpoints: seq<Checkpoint>)

  function ManifestAt(d: Disk, s: SegmentFile): Option<Manifest> {
    if s.first in d.manifests then Some(d.manifests[s.first].manifest) else None
  }

  ghost predicate SegmentVerified(f: LogFormat, d: Disk, i: nat)
    requires i < |d.segments|
  {
    var s, before := d.segments[i], Stream(d.segments[..i]);
    && s.first == 1 + |before|
    && (i + 1 < |d.segments| ==> s.first in d.manifests)
    && Scannable(f, s.bytes, s.first, TailHash(f, before, None), s.first !in d.manifests)
    && (s.first in d.manifests ==> IsClosed(f, s, d.manifests[s.first].manifest))
  }

  /** Exactly when `verify_locked(false)` succeeds. */
  ghost predicate Verified(f: LogFormat, d: Disk) {
    && NoOrphan(d.segments, d.manifests)
    && forall i :: 0 <= i < |d.segments| ==> SegmentVerified(f, d, i)
  }

  lemma VerifiedSettled(f: LogFormat, d: Disk)
    requires Verified(f, d)
    ensures Settled(d) && Recovered(f, d) == Stream(d.segments)
  {
    hide Split, FileOf, Stream, IsClosed, Chain;
    if |d.segments| > 0 { assert SegmentVerified(f, d, |d.segments| - 1); }
    assert Stream(d.segments) + [] == Stream(d.segments);
  }

  lemma {:induction false} VerifiedPrefixChain(f: LogFormat, d: Disk, n: nat)
    requires Verified(f, d) && n <= |d.segments|
    ensures Chain(f, Stream(d.segments[..n]), 1, None)
  {
    hide Split, FileOf, Chain, NoOrphan;
    if n == 0 {
      ChainEmpty(f, 1, None);
      NoSegments(f, d.segments);
    } else {
      VerifiedPrefixChain(f, d, n - 1);
      var s, before := d.segments[n - 1], Stream(d.segments[..n - 1]);
      assert SegmentVerified(f, d, n - 1);
      assert d.segments[..n] == d.segments[..n - 1] + [s];
      StreamSnoc(d.segments[..n - 1], s);
      ChainConcat(f, before, LinesOf(s), 1, None);
    }
  }

  /** A verified store holds one chain of events across all its segments. */
  lemma VerifiedChain(f: LogFormat, d: Disk)
    requires Verified(f, d)
    ensures Chain(f, Stream(d.segments), 1, None)
  {
    hide Split, FileOf, Chain;
    VerifiedPrefixChain(f, d, |d.segments|);
    assert d.segments[..|d.segments|] == d.segments;
  }

  /** Under a collision-free hash, length and tail hash determine a chain. */
  lemma {:induction false} ChainBinding(f: LogFormat, a: seq<Bytes>, b: seq<Bytes>, before: Option<Digest>)
    requires f.CollisionFree() && Chain(f, a, 1, before) && Chain(f, b, 1, before)
    requires |a| == |b| && TailHash(f, a, before) == TailHash(f, b, before)
    ensures a == b
    decreases |a|
  {
    hide Chain, LineOk;
    if |a| > 0 {
      var n := |a| - 1;
      ChainNames(f, a, n, before);
      ChainNames(f, b, n, before);
      assert a[n] == b[n];
      ChainPrefix(f, a, n, 1, before);
      ChainPrefix(f, b, n, 1, before);
      assert TailHash(f, a[..n], before) == PreviousAt(f, a, n, before);
      assert TailHash(f, b[..n], before) == PreviousAt(f, b, n, before);
      ChainBinding(f, a[..n], b[..n], before);
      assert a == a[..n] + [a[n]] && b == b[..n] + [b[n]];
    }
  }

  lemma ChainNames(f: LogFormat, lines: seq<Bytes>, i: nat, before: Option<Digest>)
    requires Chain(f, lines, 1, before) && i < |lines|
    ensures f.parse(lines[i]).Some? && f.parse(lines[i]).value.previousEventHash == PreviousAt(f, lines, i, before)
  {
    assert LineOk(f, lines[i], 1 + i, PreviousAt(f, lines, i, before));
  }

  /** Two verified stores that agree on length and tail hash hold the same bytes of every event. */
  lemma HashChainBinding(f: LogFormat, d: Disk, d': Disk)
    requires f.CollisionFree() && Verified(f, d) && Verified(f, d')
    requires |Stream(d.segments)| == |Stream(d'.segments)|
    requires TailHash(f, Stream(d.segments), None) == TailHash(f, Stream(d'.segments), None)
    ensures Stream(d.segments) == Stream(d'.segments)
  {
    VerifiedChain(f, d);
    VerifiedChain(f, d');
    ChainBinding(f, Stream(d.segments), Stream(d'.segments), None);
  }

  /** Every event names its predecessor, also across segment boundaries. */
  lemma VerifiedNamesPredecessor(f: LogFormat, d: Disk, i: nat)
    requires Verified(f, d) && i < |Stream(d.segments)|
    ensures var lines := Stream(d.segments);
            && f.parse(lines[i]).Some? && f.parse(lines[i]).value.seqNo == i + 1
            && f.parse(lines[i]).value.previousEventHash == if i == 0 then None else Some(f.hash(lines[i - 1]))
  {
    VerifiedChain(f, d);
    var lines := Stream(d.segments);
    assert LineOk(f, lines[i], 1 + i, PreviousAt(f, lines, i, None));
  }

  lemma InvSegmentVerified(f: LogFormat, d: Disk, i: nat)
    requires Inv(f, d) && Settled(d) && i < |d.segments|
    ensures SegmentVerified(f, d, i)
  {
    hide Split, FileOf, Stream, Chain, Canonical;
    var s := d.segments[i];
    if i < |Closed(d)| {
      assert s == Closed(d)[i] && s.first in d.manifests;
      assert Closed(d)[..i] == d.segments[..i];
      ChainAt(f, Closed(d), i);
    } else {
      assert d.segments[..i] == Closed(d);
      assert s == Open(d).value;
    }
  }

  /** A recovered store verifies: `verify_locked(false)` cannot fail on it. */
  lemma InvVerified(f: LogFormat, d: Disk)
    requires Inv(f, d) && Settled(d)
    ensures Verified(f, d)
  {
    hide Split, FileOf, Stream, Chain, SegmentVerified;
    forall i | 0 <= i < |d.segments| ensures SegmentVerified(f, d, i) {
      InvSegmentVerified(f, d, i);
    }
    InvLayout(f, d);
  }

  function SegmentReport(d: Disk, s: SegmentFile): VerifiedSegment {
    var lines := LinesOf(s);
    VerifiedSegment(s.first, if |lines| == 0 then None else Some(s.first + |lines| - 1), |lines|, ManifestAt(d, s))
  }

  ghost predicate Describes(d: Disk, segments: seq<VerifiedSegment>) {
    && |segments| == |d.segments|
    && forall i :: 0 <= i < |segments| ==> segments[i] == SegmentReport(d, d.segments[i])
  }

  /** The report of a verified disk. */
  ghost predicate ReportsOn(f: LogFormat, d: Disk, report: Report) {
    && report.lastSeq == |Stream(d.segments)|
    && report.lastEventHash == TailHash(f, Stream(d.segments), None)
    && Describes(d, report.segments)
  }

  /** The first `k` segments are closed and hold exactly the first `s` events. */
  ghost predicate EndsAt(d: Disk, k: nat, s: nat) {
    k <= |Closed(d)| && |Stream(d.segments[..k])| == s
  }

  lemma EndsAtUnique(f: LogFormat, d: Disk, j: nat, k: nat, s: nat)
    requires Verified(f, d) && EndsAt(d, j, s) && EndsAt(d, k, s)
    ensures j == k
  {
    hide Split, FileOf, Stream, Chain;
    if j < k {
      StepPositive(f, d, j, k);
    } else if k < j {
      StepPositive(f, d, k, j);
    }
  }

  lemma StepPositive(f: LogFormat, d: Disk, j: nat, k: nat)
    requires Verified(f, d) && j < k <= |Closed(d)|
    ensures |Stream(d.segments[..j])| < |Stream(d.segments[..k])|
  {
    hide Split, FileOf, Stream, Chain;
    var s := d.segments[j];
    ClosedManifested(f, d, j);
    assert SegmentVerified(f, d, j);
    assert d.segments[..k][..j + 1] == d.segments[..j] + [s];
    StreamSnoc(d.segments[..j], s);
    StreamPrefix(d.segments[..k], j + 1);
  }

  lemma ClosedManifested(f: LogFormat, d: Disk, i: nat)
    requires Verified(f, d) && i < |Closed(d)|
    ensures i < |d.segments| && d.segments[i].first in d.manifests
  {
    hide Split, FileOf, Stream, Chain;
    assert SegmentVerified(f, d, i);
    if i == |d.segments| - 1 {
      assert IsManifested(d);
    }
  }

  function Cover(f: LogFormat, segments: seq<SegmentFile>): seq<CheckpointSegment> {
    seq(|segments|, i requires 0 <= i < |segments| =>
      CheckpointSegment(SegmentPath(segments[i].first), ManifestPath(segments[i].first), f.hash(segments[i].bytes)))
  }

  function CheckpointIdOf(f: LogFormat, r: EventRecord): Option<string> {
    var p := r.envelope.payload;
    if p.CheckpointPayload? && f.IsPrefixedUlid(p.checkpointId, "chk_")
       && p.eventLastSeq == r.envelope.seqNo && p.checkpointPath == CheckpointPath(p.checkpointId)
    then Some(p.checkpointId) else None
  }

  function CheckpointFor(f: LogFormat, r: EventRecord, cover: seq<CheckpointSegment>): Checkpoint
    requires CheckpointIdOf(f, r).Some?
  {
    Checkpoint(CHECKPOINT_VERSION, CheckpointIdOf(f, r).value, r.envelope.timeMs, STREAM_ID, 1,
               r.envelope.seqNo, r.eventHash, cover)
  }

  /** `c` covers the exact closed prefix ending with the checkpoint event `r`. */
  ghost predicate IsCheckpointOf(f: LogFormat, d: Disk, r: EventRecord, c: Checkpoint) {
    CheckpointIdOf(f, r).Some? &&
    exists k: nat :: EndsAt(d, k, r.envelope.seqNo) && c == CheckpointFor(f, r, Cover(f, d.segments[..k]))
  }

  lemma CheckpointFields(f: LogFormat, d: Disk, r: EventRecord, c: Checkpoint)
    requires IsCheckpointOf(f, d, r, c)
    ensures c.checkpointV == 1 && CheckpointIdOf(f, r) == Some(c.checkpointId)
    ensures c.streamId == "stream_primary" && c.eventFirstSeq == 1 && c.createdTimeMs == r.envelope.timeMs
    ensures c.eventLastSeq == r.envelope.seqNo && c.eventLastHash == r.eventHash
    ensures exists k: nat :: EndsAt(d, k, c.eventLastSeq) && c.segments == Cover(f, d.segments[..k])
    ensures |c.segments| <= |d.segments| && forall i :: 0 <= i < |c.segments| ==>
              var s := d.segments[i];
              c.segments[i] == CheckpointSegment(SegmentPath(s.first), ManifestPath(s.first), f.hash(s.bytes))
  {
    hide Stream, Split;
    var k: nat :| EndsAt(d, k, r.envelope.seqNo) && c == CheckpointFor(f, r, Cover(f, d.segments[..k]));
  }

  lemma IsCheckpointOfUnique(f: LogFormat, d: Disk, r: EventRecord, a: Checkpoint, b: Checkpoint)
    requires Verified(f, d) && IsCheckpointOf(f, d, r, a) && IsCheckpointOf(f, d, r, b)
    ensures a == b
  {
    hide Verified, Cover, Stream, Split;
    var j: nat :| EndsAt(d, j, r.envelope.seqNo) && a == CheckpointFor(f, r, Cover(f, d.segments[..j]));
    var k: nat :| EndsAt(d, k, r.envelope.seqNo) && b == CheckpointFor(f, r, Cover(f, d.segments[..k]));
    EndsAtUnique(f, d, j, k, r.envelope.seqNo);
  }

  /** What the closed segment at `i` contributes to a coverage list. */
  lemma ClosedEntry(f: LogFormat, d: Disk, i: nat)
    requires Verified(f, d) && i < |Closed(d)|
    ensures i < |d.segments| && ManifestAt(d, d.segments[i]).Some?
    ensures var m := ManifestAt(d, d.segments[i]).value;
            && m.firstSeq == 1 + |Stream(d.segments[..i])| && m.lastSeq == |Stream(d.segments[..i + 1])|
            && m.segmentFile == SegmentPath(m.firstSeq) && m.segmentHash == f.hash(d.segments[i].bytes)
            && m.firstSeq == d.segments[i].first
  {
    hide Split, FileOf, Stream, Chain;
    ClosedManifested(f, d, i);
    assert SegmentVerified(f, d, i);
    assert d.segments[..i + 1] == d.segments[..i] + [d.segments[i]];
    StreamSnoc(d.segments[..i], d.segments[i]);
  }

  lemma OpenEntry(f: LogFormat, d: Disk)
    requires Verified(f, d) && Open(d).Some?
    ensures ManifestAt(d, d.segments[|Closed(d)|]).None?
    ensures |Closed(d)| == |d.segments| - 1
    ensures d.segments[|Closed(d)|].first == 1 + |Stream(d.segments[..|Closed(d)|])|
  {
    hide Split, FileOf, Stream, Chain;
    assert SegmentVerified(f, d, |d.segments| - 1);
  }

  lemma NoBoundaryBeyond(f: LogFormat, d: Disk, i: nat, s: nat)
    requires Verified(f, d) && i <= |Closed(d)| && |Stream(d.segments[..i])| <= s
    requires i < |Closed(d)| ==> |Stream(d.segments[..i + 1])| > s
    requires |Stream(d.segments[..i])| != s
    ensures forall k: nat :: !EndsAt(d, k, s)
  {
    hide Split, FileOf, Stream, Chain, Verified;
    forall k: nat | EndsAt(d, k, s) ensures false {
      if k < i {
        StepPositive(f, d, k, i);
      } else if i + 1 < k {
        StepPositive(f, d, i + 1, k);
      }
    }
  }

  /** `checkpoint_segments_through`: exactly the closed prefix ending at `lastSeq`, if there is one. */
  method CheckpointSegmentsThrough(f: LogFormat, segments: seq<VerifiedSegment>, lastSeq: nat, ghost d: Disk)
    returns (r: Result<seq<CheckpointSegment>, StoreError>)
    ensures Verified(f, d) && Describes(d, segments) ==>
              && (r.Ok? <==> exists k: nat :: EndsAt(d, k, lastSeq))
              && (r.Ok? ==> exists k: nat :: EndsAt(d, k, lastSeq) && r.value == Cover(f, d.segments[..k]))
    ensures r.Err? ==> r.error == InvalidCheckpoint
  {
    hide Split, FileOf, Stream, Chain, Verified, Cover, ManifestAt;
    ghost var ready := Verified(f, d) && Describes(d, segments);
    var result: seq<CheckpointSegment> := [];
    var expectedFirst := 1;
    var i := 0;
    if ready { NoSegments(f, d.segments); CoverNothing(f, d.segments); }
    while i < |segments|
      invariant 0 <= i <= |segments| && expectedFirst > 0
      invariant ready ==> i <= |Closed(d)| && expectedFirst == 1 + |Stream(d.segments[..i])|
      invariant ready ==> |Stream(d.segments[..i])| <= lastSeq && result == Cover(f, d.segments[..i])
      decreases |segments| - i
    {
      var segment := segments[i];
      if ready {
        if i < |Closed(d)| { ClosedEntry(f, d, i); } else { OpenEntry(f, d); }
      }
      if segment.manifest.None? {
        if segment.firstSeq <= lastSeq {
          if ready { NoBoundaryBeyond(f, d, i, lastSeq); }
          return Err(InvalidCheckpoint);
        }
        break;
      }
      var m := segment.manifest.value;
      if m.firstSeq != expectedFirst {
        return Err(InvalidCheckpoint);
      }
      if m.lastSeq > lastSeq {
        break;
      }
      if ready { CoverMore(f, d.segments, i); }
      result := result + [CheckpointSegment(m.segmentFile, ManifestPath(m.firstSeq), m.segmentHash)];
      expectedFirst := m.lastSeq + 1;
      i := i + 1;
    }
    if expectedFirst != lastSeq + 1 {
      if ready { NoBoundaryBeyond(f, d, i, lastSeq); }
      return Err(InvalidCheckpoint);
    }
    assert ready ==> EndsAt(d, i, lastSeq);
    return Ok(result);
  }

  lemma CoverNothing(f: LogFormat, segments: seq<SegmentFile>)
    ensures Cover(f, segments[..0]) == []
  {
  }

  lemma CoverMore(f: LogFormat, segments: seq<SegmentFile>, i: nat)
    requires i < |segments|
    ensures var s := segments[i];
            Cover(f, segments[..i + 1]) ==
            Cover(f, segments[..i]) + [CheckpointSegment(SegmentPath(s.first), ManifestPath(s.first), f.hash(s.bytes))]
  {
  }

  /** `build_checkpoint`, for a checkpoint event that is the verified tail. */
  method BuildCheckpoint(f: LogFormat, report: Report, r: EventRecord, ghost d: Disk)
    returns (c: Result<Checkpoint, StoreError>)
    ensures Verified(f, d) && ReportsOn(f, d, report) ==>
              && (c.Ok? <==> && CheckpointIdOf(f, r).Some? && r.envelope.seqNo == |Stream(d.segments)|
                             && TailHash(f, Stream(d.segments), None) == Some(r.eventHash)
                             && exists k: nat :: EndsAt(d, k, r.envelope.seqNo))
              && (c.Ok? ==> IsCheckpointOf(f, d, r, c.value))
    ensures c.Err? ==> c.error == InvalidCheckpoint
    ensures c.Ok? ==> CheckpointIdOf(f, r) == Some(c.value.checkpointId)
  {
    hide Split, FileOf, Stream, Chain, Verified, Cover, Describes, TailHash;
    if CheckpointIdOf(f, r).None? {
      return Err(InvalidCheckpoint);
    }
    if report.lastSeq != r.envelope.seqNo || report.lastEventHash != Some(r.eventHash) {
      return Err(InvalidCheckpoint);
    }
    var cover := CheckpointSegmentsThrough(f, report.segments, r.envelope.seqNo, d);
    if cover.Err? {
      return Err(InvalidCheckpoint);
    }
    return Ok(CheckpointFor(f, r, cover.value));
  }

  /** `validate_checkpoint`: every field, against the event and the exact closed prefix. */
  method ValidateCheckpoint(f: LogFormat, report: Report, r: EventRecord, c: Checkpoint, ghost d: Disk)
    returns (ok: bool)
    ensures Verified(f, d) && ReportsOn(f, d, report) ==> (ok <==> IsCheckpointOf(f, d, r, c))
  {
    hide Split, FileOf, Stream, Chain, Verified, Cover, Describes, TailHash;
    if IsCheckpointOf(f, d, r, c) { CheckpointFields(f, d, r, c); }
    var id := CheckpointIdOf(f, r);
    if id.None? || c.checkpointV != CHECKPOINT_VERSION || c.checkpointId != id.value
       || c.streamId != STREAM_ID || c.eventFirstSeq != 1
       || c.createdTimeMs != r.envelope.timeMs || c.eventLastSeq != r.envelope.seqNo || c.eventLastHash != r.eventHash
    {
      return false;
    }
    var cover := CheckpointSegmentsThrough(f, report.segments, c.eventLastSeq, d);
    if cover.Err? {
      return false;
    }
    ok := c.segments == cover.value;
    if Verified(f, d) && ReportsOn(f, d, report) {
      assert c.(segments := cover.value) == CheckpointFor(f, r, cover.value);
      assert IsCheckpointOf(f, d, r, c.(segments := cover.value));
      if IsCheckpointOf(f, d, r, c) {
        IsCheckpointOfUnique(f, d, r, c, c.(segments := cover.value));
      }
    }
  }
}
