/** What the event store keeps on disk, which part of it a crash can take away, and the
    invariant every writer step keeps. */
module LogDisk {
  import opened Wrappers
  import opened LogLines
  import opened EventFormat

  const MANIFEST_VERSION: nat := 1
  const CHECKPOINT_VERSION: nat := 1

  datatype Manifest = Manifest(
    manifestV: nat, streamId: string, segmentFile: RelativePath, firstSeq: nat, lastSeq: nat,
    firstEventId: string, lastEventId: string, lastEventHash: Digest,
    eventCount: nat, segmentSizeBytes: nat, segmentHash: Digest)

  datatype CheckpointSegment = CheckpointSegment(file: RelativePath, manifest: RelativePath, segmentHash: Digest)

  datatype Checkpoint = Checkpoint(
    checkpointV: nat, checkpointId: string, createdTimeMs: nat, streamId: string,
    eventFirstSeq: nat, eventLastSeq: nat, eventLastHash: Digest, segments: seq<CheckpointSegment>)

  /** `synced` bytes survive a crash once the directory entry is `linked`. */
  datatype SegmentFile = SegmentFile(first: nat, bytes: Bytes, synced: nat, linked: bool)
  datatype ManifestFile = ManifestFile(manifest: Manifest, durable: bool)
  datatype CheckpointFile = CheckpointFile(checkpoint: Checkpoint, durable: bool)

  /** Segment files are listed in ascending order of their first sequence number. */
  datatype Disk = Disk(
    segments: seq<SegmentFile>, manifests: map<nat, ManifestFile>, checkpoints: map<string, CheckpointFile>)

  function LinesOf(s: SegmentFile): seq<Bytes> { Split(s.bytes).lines }

  function RestOf(s: SegmentFile): Bytes { Split(s.bytes).rest }

  /** All complete lines, segment after segment. */
  function Stream(segments: seq<SegmentFile>): seq<Bytes> {
    if |segments| == 0 then []
    else Stream(segments[..|segments| - 1]) + LinesOf(segments[|segments| - 1])
  }

  lemma StreamSnoc(segments: seq<SegmentFile>, s: SegmentFile)
    ensures Stream(segments + [s]) == Stream(segments) + LinesOf(s)
  {
    assert (segments + [s])[..|segments|] == segments;
  }

  lemma {:induction false} StreamPrefix(segments: seq<SegmentFile>, k: nat)
    requires k <= |segments|
    ensures Stream(segments[..k]) <= Stream(segments)
    decreases |segments|
  {
    if k == |segments| {
      assert segments[..k] == segments;
    } else {
      StreamPrefix(segments[..|segments| - 1], k);
      assert segments[..|segments| - 1][..k] == segments[..k];
    }
  }

  function LastOf<T>(xs: seq<T>): T
    requires |xs| > 0
  {
    xs[|xs| - 1]
  }

  /** The manifest of a segment holding `lines`. */
  function ManifestFor(f: LogFormat, first: nat, lines: seq<Bytes>, size: nat, contentHash: Digest): Manifest
    requires |lines| > 0
  {
    Manifest(MANIFEST_VERSION, STREAM_ID, SegmentPath(first), first, first + |lines| - 1,
             EventIdOf(f, lines[0]), EventIdOf(f, LastOf(lines)), f.hash(LastOf(lines)),
             |lines|, size, contentHash)
  }

  ghost predicate IsClosed(f: LogFormat, s: SegmentFile, m: Manifest) {
    && RestOf(s) == [] && |LinesOf(s)| > 0
    && m == ManifestFor(f, s.first, LinesOf(s), |s.bytes|, f.hash(s.bytes))
  }

  function IsManifested(d: Disk): bool {
    |d.segments| > 0 && LastOf(d.segments).first in d.manifests
  }

  /** The segments before an open tail, or all of them. */
  function Closed(d: Disk): seq<SegmentFile> {
    if |d.segments| > 0 && !IsManifested(d) then d.segments[..|d.segments| - 1] else d.segments
  }

  function Open(d: Disk): Option<SegmentFile> {
    if |d.segments| > 0 && !IsManifested(d) then Some(LastOf(d.segments)) else None
  }

  lemma ClosedOpen(d: Disk)
    ensures d.segments == Closed(d) + (if Open(d).Some? then [Open(d).value] else [])
    ensures Stream(d.segments) == Stream(Closed(d)) + if Open(d).Some? then LinesOf(Open(d).value) else []
  {
  }

  /** Every line is one the serializer could have been interrupted in without leaving JSON. */
  ghost predicate Canonical(f: LogFormat, lines: seq<Bytes>) {
    forall i :: 0 <= i < |lines| ==> f.NoJsonPrefix(lines[i])
  }

  /** What may follow the last newline: nothing, a broken piece, or the whole next event. */
  ghost predicate Torn(f: LogFormat, rest: Bytes, seqNo: nat, previous: Option<Digest>) {
    && |rest| <= f.maxEventBytes && f.NoJsonPrefix(rest)
    && (f.isJson(rest) && rest != [] ==> LineOk(f, rest, seqNo, previous))
  }

  /** Each segment file starts where the segments before it end; only the last may be empty. */
  ghost predicate Placed(segments: seq<SegmentFile>) {
    && (forall i :: 0 <= i < |segments| ==> segments[i].first == 1 + |Stream(segments[..i])|)
    && (forall i :: 0 <= i < |segments| - 1 ==> |LinesOf(segments[i])| > 0)
  }

  ghost predicate GoodStream(f: LogFormat, lines: seq<Bytes>) {
    Chain(f, lines, 1, None) && Canonical(f, lines)
  }

  ghost predicate FilesClosed(f: LogFormat, segments: seq<SegmentFile>, manifests: map<nat, ManifestFile>) {
    forall i :: 0 <= i < |segments| ==>
      && segments[i].first in manifests
      && IsClosed(f, segments[i], manifests[segments[i].first].manifest)
      && segments[i].synced == |segments[i].bytes| && segments[i].linked
  }

  ghost predicate NoOrphan(segments: seq<SegmentFile>, manifests: map<nat, ManifestFile>) {
    forall k :: k in manifests ==> exists i :: 0 <= i < |segments| && segments[i].first == k
  }

  ghost predicate ClosedOk(f: LogFormat, segments: seq<SegmentFile>, manifests: map<nat, ManifestFile>) {
    && GoodStream(f, Stream(segments))
    && Placed(segments)
    && FilesClosed(f, segments, manifests)
    && NoOrphan(segments, manifests)
  }

  /** Contents of an open tail after the events `before`. */
  ghost predicate TailPieces(f: LogFormat, before: seq<Bytes>, lines: seq<Bytes>, rest: Bytes) {
    && Chain(f, lines, 1 + |before|, TailHash(f, before, None)) && Canonical(f, lines)
    && Torn(f, rest, 1 + |before| + |lines|, TailHash(f, lines, TailHash(f, before, None)))
  }

  ghost predicate TailOk(f: LogFormat, before: seq<Bytes>, s: SegmentFile) {
    && s.first == 1 + |before| && s.synced <= |s.bytes|
    && TailPieces(f, before, LinesOf(s), RestOf(s))
  }

  /** The store invariant: a verified closed prefix, and at most one open segment, the last. */
  ghost predicate Inv(f: LogFormat, d: Disk) {
    && ClosedOk(f, Closed(d), d.manifests)
    && (Open(d).Some? ==> TailOk(f, Stream(Closed(d)), Open(d).value))
    && EarlierManifestsDurable(d)
  }

  /** Only the last segment's manifest may still be lost. */
  ghost predicate EarlierManifestsDurable(d: Disk) {
    forall i :: 0 <= i < |d.segments| - 1 ==>
      d.segments[i].first in d.manifests && d.manifests[d.segments[i].first].durable
  }

  /** The event an unterminated tail still holds, if it is whole. */
  function PendingLine(f: LogFormat, d: Disk): seq<Bytes> {
    match Open(d)
    case None => []
    case Some(s) => if RestOf(s) != [] && f.isJson(RestOf(s)) then [RestOf(s)] else []
  }

  /** The stream the next writer will see. */
  function Recovered(f: LogFormat, d: Disk): seq<Bytes> {
    Stream(d.segments) + PendingLine(f, d)
  }

  /** How many events of the stream no crash can remove. */
  function DurableCount(d: Disk): nat {
    match Open(d)
    case None => |Stream(d.segments)|
    case Some(s) =>
      |Stream(Closed(d))| + if s.linked && s.synced <= |s.bytes| then |Split(s.bytes[..s.synced]).lines| else 0
  }

  /** Nothing is left half-written. */
  ghost predicate Settled(d: Disk) {
    Open(d).Some? ==> RestOf(Open(d).value) == []
  }

  ghost predicate FullyDurable(d: Disk) {
    && (Open(d).Some? ==> Open(d).value.linked && Open(d).value.synced == |Open(d).value.bytes|)
    && (forall k :: k in d.manifests ==> d.manifests[k].durable)
  }

  lemma DurableWhenSynced(f: LogFormat, d: Disk)
    requires Inv(f, d) && Settled(d) && FullyDurable(d)
    ensures DurableCount(d) == |Recovered(f, d)| && Recovered(f, d) == Stream(d.segments)
  {
    ClosedOpen(d);
    if Open(d).Some? {
      var s := Open(d).value;
      assert s.bytes[..|s.bytes|] == s.bytes;
    }
  }

  lemma FirstsAscend(segments: seq<SegmentFile>, i: nat, j: nat)
    requires Placed(segments) && i < j < |segments|
    ensures segments[i].first < segments[j].first
  {
    hide Split, FileOf, Stream;
    StreamPrefix(segments[..j], i + 1);
    assert segments[..j][..i + 1] == segments[..i] + [segments[i]];
    StreamSnoc(segments[..i], segments[i]);
  }

  function SetTail(d: Disk, s: SegmentFile): Disk
    requires |d.segments| > 0
  {
    d.(segments := d.segments[..|d.segments| - 1] + [s])
  }

  lemma SetTailShape(d: Disk, s: SegmentFile)
    requires Open(d).Some? && s.first == Open(d).value.first
    ensures var d' := SetTail(d, s);
            && Closed(d') == Closed(d) && Open(d') == Some(s) && d'.manifests == d.manifests
            && d'.checkpoints == d.checkpoints
            && |d'.segments| == |d.segments|
            && (forall i :: 0 <= i < |d.segments| - 1 ==> d'.segments[i] == d.segments[i])
            && Stream(d'.segments) == Stream(Closed(d)) + LinesOf(s)
  {
    var d' := SetTail(d, s);
    assert d'.segments[..|d'.segments| - 1] == Closed(d);
    StreamSnoc(Closed(d), s);
  }

  /** Which disks a crash can leave: unsynced tail bytes cut anywhere, an unlinked segment
      gone, and files renamed but not yet synced in their directory possibly gone. */
  ghost predicate CrashesTo(d: Disk, d': Disk) {
    && (|| d'.segments == d.segments
        || (|d.segments| > 0 && !LastOf(d.segments).linked && d'.segments == d.segments[..|d.segments| - 1])
        || (|d.segments| > 0 && exists n: nat ::
              && LastOf(d.segments).synced <= n <= |LastOf(d.segments).bytes|
              && d'.segments == d.segments[..|d.segments| - 1] +
                   [SegmentFile(LastOf(d.segments).first, LastOf(d.segments).bytes[..n], n, true)]))
    && (forall k :: k in d'.manifests ==> k in d.manifests && d'.manifests[k].manifest == d.manifests[k].manifest)
    && (forall k :: k in d.manifests && d.manifests[k].durable ==> k in d'.manifests && d'.manifests[k].durable)
    && (forall id :: id in d'.checkpoints ==>
          id in d.checkpoints && d'.checkpoints[id].checkpoint == d.checkpoints[id].checkpoint)
    && (forall id :: id in d.checkpoints && d.checkpoints[id].durable ==>
          id in d'.checkpoints && d'.checkpoints[id].durable)
  }
}
