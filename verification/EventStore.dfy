/** The event store's writer operations over a disk. */
module EventStore {
  import opened Wrappers
  import opened LogLines
  import opened EventFormat
  import opened LogDisk
  import opened LogCrash
  import opened LogSteps
  import opened LogWriter
  import opened LogVerify
  import opened LogCheckpoint
  import opened LogRecords
  import opened TailRead

  class Store {
    const f: LogFormat
    const config: StoreConfig
    var disk: Disk
    var countdown: int  // fault points passed before the process stops; negative: never
    var tear: nat       // how much of an interrupted write reaches the file

    constructor (f: LogFormat, config: StoreConfig, disk: Disk, countdown: int, tear: nat)
      ensures this.f == f && this.config == config && this.disk == disk
    {
      this.f, this.config, this.disk, this.countdown, this.tear := f, config, disk, countdown, tear;
    }

    /** A fault point: does the process stop here? */
    method MaybeFail() returns (stop: bool)
      modifies this`countdown
      ensures old(countdown) < 0 ==> !stop && countdown < 0
    {
      stop := countdown == 0;
      countdown := countdown - 1;
    }

    /** `write_all` on the tail file: all of `data`, or any part of it when interrupted. */
    method WriteAll(data: Bytes) returns (done: bool, ghost n: nat)
      requires |disk.segments| > 0
      modifies this`disk, this`countdown
      ensures old(countdown) < 0 ==> done && countdown < 0
      ensures disk.checkpoints == old(disk.checkpoints)
      ensures n <= |data| && (done ==> n == |data|)
      ensures disk == SetTail(old(disk), WithBytes(LastOf(old(disk).segments), LastOf(old(disk).segments).bytes + data[..n]))
    {
      var stop := MaybeFail();
      var written := if stop && tear < |data| then tear else |data|;
      var tail := LastOf(disk.segments);
      disk := SetTail(disk, WithBytes(tail, tail.bytes + data[..written]));
      done, n := !stop, written;
    }

    /** Open the next segment when none is open. */
    method EnsureOpen(state: WriterState) returns (done: bool)
      requires Attached(state.View(), disk)
      modifies this`disk, this`countdown, state
      ensures old(countdown) < 0 ==> done && countdown < 0
      ensures disk.checkpoints == old(disk.checkpoints)
      ensures done ==> Attached(state.View(), disk) && state.open.Some?
      ensures old(Matches(f, state.View(), disk)) ==>
                && Appended(f, old(disk), disk, [])
                && (done ==> Matches(f, state.View(), disk) && Stream(disk.segments) == old(Stream(disk.segments))
                             && Recovered(f, disk) == old(Recovered(f, disk))
                             && (old(state.open).None? ==> state.open.value.eventCount == 0)
                             && (old(state.open).Some? ==> state.open == old(state.open)))
      ensures Closed(disk) == Closed(old(disk))
    {
      hide Matches, Appended, Inv, Stream, Recovered, Split;
      ghost var d0, v0 := disk, state.View();
      if state.open.Some? {
        if Matches(f, v0, d0) { MatchedNothing(f, v0, d0); }
        return true;
      }
      var first := state.nextSeq;
      disk := Created(disk, first);
      ghost var v1 := v0.(open := Some(OpenSegment(first, 0)));
      if Matches(f, v0, d0) { MatchedCreate(f, v0, d0, v1); }
      CreatedAttached(d0, v1);
      var stop := MaybeFail();
      if stop {
        return false;
      }
      state.open := Some(OpenSegment(first, 0));
      assert state.View() == v1;
      return true;
    }

    /** Write one prepared line and its newline at the tail. */
    method WriteEvent(state: WriterState, line: Bytes, hash: Digest) returns (done: bool)
      requires Attached(state.View(), disk) && state.open.Some?
      modifies this`disk, this`countdown, state
      ensures old(countdown) < 0 ==> done && countdown < 0
      ensures disk.checkpoints == old(disk.checkpoints)
      ensures done ==> Attached(state.View(), disk) && state.open.Some?
      ensures old(Matches(f, state.View(), disk)) && EventFits(f, old(disk), line, hash) ==>
                && Appended(f, old(disk), disk, [line])
                && Open(old(disk)).Some? && Open(disk).Some? && Closed(disk) == Closed(old(disk))
                && (done ==> Matches(f, state.View(), disk) && Stream(disk.segments) == old(Stream(disk.segments)) + [line]
                             && Recovered(f, disk) == old(Recovered(f, disk)) + [line]
                             && state.open.value.eventCount == old(state.open.value.eventCount) + 1)
    {
      hide Matches, Appended, Inv, Stream, Recovered, Split, AllBelow, EventFits;
      ghost var d0, v0 := disk, state.View();
      ghost var ready := Matches(f, v0, d0) && EventFits(f, d0, line, hash);
      ghost var v1 := v0.(open := Some(OpenSegment(v0.open.value.first, v0.open.value.eventCount + 1)),
                          nextSeq := v0.nextSeq + 1, previousHash := Some(hash));
      var wrote, m := WriteAll(line);
      ghost var d1 := disk;
      TailAttached(d0, LastOf(d1.segments), v0, v0);
      if ready { FitsHash(f, d0, line, hash); MatchedWritePart(f, v0, d0, line, m); }
      if !wrote {
        return false;
      }
      assert line[..m] == line;
      var ended, n := WriteAll([NEWLINE]);
      TailAttached(d1, LastOf(disk.segments), v0, v1);
      if ready { MatchedWrite(f, v0, d0, d1, disk, v1, line, n); }
      if !ended {
        return false;
      }
      var stop := MaybeFail();
      if stop {
        return false;
      }
      state.open := Some(state.open.value.(eventCount := state.open.value.eventCount + 1));
      state.nextSeq := state.nextSeq + 1;
      state.previousHash := Some(hash);
      assert state.View() == v1;
      return true;
    }

    /** Sync the open segment's bytes, then its directory entry. */
    method SyncOpenSegment(state: WriterState) returns (done: bool)
      requires Attached(state.View(), disk)
      modifies this`disk, this`countdown
      ensures old(countdown) < 0 ==> done && countdown < 0
      ensures disk.checkpoints == old(disk.checkpoints)
      ensures |disk.segments| == |old(disk.segments)|
      ensures done ==> Attached(state.View(), disk)
      ensures done ==> Open(disk).Some? == old(Open(disk).Some?)
      ensures done && Open(disk).Some? ==> Open(disk).value.bytes == old(Open(disk).value.bytes)
      ensures old(Matches(f, state.View(), disk)) ==>
                && Appended(f, old(disk), disk, [])
                && Recovered(f, disk) == Recovered(f, old(disk))
                && Closed(disk) == Closed(old(disk)) && Open(disk).Some? == Open(old(disk)).Some?
                && (done ==> Matches(f, state.View(), disk) && FullyDurable(disk)
                             && Stream(disk.segments) == old(Stream(disk.segments))
                             && Recovered(f, disk) == old(Recovered(f, disk)))
    {
      hide Appended, Inv, Stream, Recovered, Split, AllBelow;
      ghost var d0, v := disk, state.View();
      if state.open.None? {
        if Matches(f, v, d0) { MatchedNothing(f, v, d0); }
        return true;
      }
      var tail := LastOf(disk.segments);
      disk := SetTail(disk, tail.(synced := |tail.bytes|));
      ghost var d1 := disk;
      TailAttached(d0, LastOf(d1.segments), v, v);
      if Matches(f, v, d0) { MatchedSync(f, v, d0, tail.linked); }
      var stop := MaybeFail();
      if stop {
        return false;
      }
      tail := LastOf(disk.segments);
      disk := SetTail(disk, tail.(linked := true));
      TailAttached(d1, LastOf(disk.segments), v, v);
      if Matches(f, v, d0) {
        MatchedSync(f, v, d1, true);
        AppendedSame2(f, d0, d1, disk);
      }
      stop := MaybeFail();
      return !stop;
    }

    /** `publish_manifest`: write, rename and sync the manifest of a scanned segment. */
    method PublishManifest(scan: SegmentScan) returns (r: Result<Manifest, StoreError>)
      modifies this`disk, this`countdown
      ensures old(countdown) < 0 ==> countdown < 0 && r != Err(InjectedFailure)
      ensures disk.checkpoints == old(disk.checkpoints)
      ensures disk.segments == old(disk.segments)
      ensures r.Ok? ==> ManifestFromScan(scan) == Some(r.value)
      ensures ManifestFromScan(scan).None? ==> r == Err(InvalidLayout) && disk == old(disk)
      ensures ManifestFromScan(scan).Some? && scan.firstSeq in old(disk.manifests) ==>
                && disk == old(disk)
                && r == if old(disk.manifests[scan.firstSeq].manifest) == ManifestFromScan(scan).value
                        then Ok(ManifestFromScan(scan).value) else Err(InvalidManifest)
      ensures ManifestFromScan(scan).Some? && scan.firstSeq !in old(disk.manifests) ==>
                var m := ManifestFromScan(scan).value;
                && (r.Ok? ==> disk == PublishedSynced(f, old(disk), m))
                && (r.Err? ==> r.error == InjectedFailure)
                && (r.Err? ==> disk in {old(disk), Published(f, old(disk), m), PublishedSynced(f, old(disk), m)})
    {
      var manifest := ManifestFromScan(scan);
      if manifest.None? {
        return Err(InvalidLayout);
      }
      var m := manifest.value;
      if m.firstSeq in disk.manifests {
        return if disk.manifests[m.firstSeq].manifest == m then Ok(m) else Err(InvalidManifest);
      }
      var stop := MaybeFail();
      if stop {
        return Err(InjectedFailure);
      }
      disk := Published(f, disk, m);
      stop := MaybeFail();
      if stop {
        return Err(InjectedFailure);
      }
      disk := disk.(manifests := ManifestsSynced(disk.manifests));
      stop := MaybeFail();
      return if stop then Err(InjectedFailure) else Ok(m);
    }

    /** `close_open_segment`. */
    method CloseOpenSegment(state: WriterState) returns (r: Result<(), StoreError>)
      requires Attached(state.View(), disk)
      modifies this`disk, this`countdown, state
      ensures old(countdown) < 0 ==> countdown < 0 && r != Err(InjectedFailure)
      ensures disk.checkpoints == old(disk.checkpoints)
      ensures |disk.segments| == |old(disk.segments)|
      ensures r.Ok? ==> Attached(state.View(), disk) && state.open.None?
      ensures old(Matches(f, state.View(), disk)) && (old(state.open).Some? ==> old(state.open.value.eventCount) > 0) ==>
                && Appended(f, old(disk), disk, [])
                && Recovered(f, disk) == Recovered(f, old(disk))
                && (Open(disk).None? || (Open(old(disk)).Some? && Closed(disk) == Closed(old(disk))))
                && (r.Err? ==> r.error == InjectedFailure)
                && (r.Ok? ==> Matches(f, state.View(), disk)
                              && (old(state.open).Some? ==> FullyDurable(disk))
                              && Stream(disk.segments) == old(Stream(disk.segments))
                              && Recovered(f, disk) == old(Recovered(f, disk)))
    {
      hide Appended, Inv, Stream, Recovered, Split, AllBelow, ManifestFor, ManifestFromScan, ScanOf, Chain, TailHash,
           FileOf, Scannable, Matches, Attached, PublishedSynced, Published;
      ghost var d0, v := disk, state.View();
      if state.open.None? {
        if Matches(f, v, d0) { MatchedNothing(f, v, d0); }
        return Ok(());
      }
      var open := state.open.value;
      if open.eventCount == 0 {
        return Err(InvalidLayout);
      }
      ghost var ready := Matches(f, v, d0);
      var done := SyncOpenSegment(state);
      if !done {
        return Err(InjectedFailure);
      }
      ghost var d1 := disk;
      NotManifested(v, d1);
      var stop := MaybeFail();
      if stop {
        return Err(InjectedFailure);
      }
      var priorHash := if |state.closed| == 0 then None else Some(LastOf(state.closed).lastEventHash);
      var bytes := LastOf(disk.segments).bytes;
      var scanned := ScanSegment(f, bytes, open.first, priorHash, false);
      ghost var s := Open(d1).value;
      if ready { CloseFacts(f, v, d1, priorHash); }
      if scanned.Err? {
        return Err(scanned.error);
      }
      var scan := scanned.value;
      ScanManifest(f, LinesOf(s), open.first, |bytes|, f.hash(bytes));
      if scan.eventCount != open.eventCount {
        return Err(InvalidLayout);
      }
      var published := PublishManifest(scan);
      if ready {
        MatchedNothing(f, v, d1);
        MatchedPublish(f, v, d1);
        AppendedSame2(f, d0, d1, disk);
        AppendedEmpty(f, d0, disk);
      }
      if published.Err? {
        return Err(published.error);
      }
      var manifest := published.value;
      ManifestNumbers(f, s);
      ClosedAttached(f, d1, v, manifest, v.closed + [manifest]);
      state.previousHash := Some(manifest.lastEventHash);
      state.nextSeq := manifest.lastSeq + 1;
      state.closed := state.closed + [manifest];
      state.open := None;
      return Ok(());
    }

    /** `recover_open_tail`: cut a broken last line, or finish a whole one. */
    method RecoverOpenTail(first: nat, before: Option<Digest>) returns (r: Result<(), StoreError>)
      requires |disk.segments| > 0
      modifies this`disk, this`countdown
      ensures old(countdown) < 0 ==> countdown < 0 && r != Err(InjectedFailure)
      ensures disk.checkpoints == old(disk.checkpoints)
      ensures RecoveryState(f, old(disk), disk)
      ensures r.Ok? ==> TailReadable(f, LastOf(old(disk).segments).bytes, first, before) && RecoveryDone(f, old(disk), disk)
      ensures r.Err? && r.error != InjectedFailure ==>
                !TailReadable(f, LastOf(old(disk).segments).bytes, first, before) && disk == old(disk)
    {
      hide FileOf, Split, AllLines, LineOk, Chain, TailHash, ReadSoFar;
      var tail := LastOf(disk.segments);
      var bytes := tail.bytes;
      var offset, expectedSeq, previousHash := 0, first, before;
      ghost var lines: seq<Bytes> := [];
      StartScan(f, bytes, first, before);
      while offset < |bytes|
        invariant offset <= |bytes| && countdown == old(countdown)
        invariant ReadSoFar(bytes, offset, lines) && Chain(f, lines, first, before)
        invariant expectedSeq == first + |lines| && previousHash == TailHash(f, lines, before)
        invariant disk == old(disk)
      {
        var line, terminated, next := NextLine(bytes, offset, lines);
        if !terminated {
          r := RecoverRest(tail, offset, line, expectedSeq, previousHash, lines);
          RecoverRestMeans(f, bytes, lines, line, first, before);
          return;
        }
        var checked := CheckLine(f, line, expectedSeq, previousHash);
        if checked.Err? {
          BadLine(f, bytes, lines, line, first, before);
          return Err(checked.error);
        }
        ScanStep(f, lines, line, first, before);
        previousHash := Some(f.hash(line));
        expectedSeq := expectedSeq + 1;
        lines := lines + [line];
        offset := next;
      }
      ReadAll(bytes, lines);
      return Ok(());
    }

    /** The unterminated end of a tail file. */
    method RecoverRest(tail: SegmentFile, lineStart: nat, line: Bytes, expectedSeq: nat, previous: Option<Digest>,
                       ghost lines: seq<Bytes>)
      returns (r: Result<(), StoreError>)
      requires |disk.segments| > 0 && tail == LastOf(disk.segments) && ReadSoFar(tail.bytes, lineStart, lines)
      requires Split(tail.bytes) == Parts(lines, line) && line != []
      modifies this`disk, this`countdown
      ensures old(countdown) < 0 ==> countdown < 0 && r != Err(InjectedFailure)
      ensures disk.checkpoints == old(disk.checkpoints)
      ensures RecoveryState(f, old(disk), disk)
      ensures r.Ok? ==> |line| <= f.maxEventBytes && (f.isJson(line) ==> LineOk(f, line, expectedSeq, previous))
                        && RecoveryDone(f, old(disk), disk)
      ensures r.Err? && r.error != InjectedFailure ==>
                !(|line| <= f.maxEventBytes && (f.isJson(line) ==> LineOk(f, line, expectedSeq, previous)))
                && disk == old(disk)
    {
      hide FileOf, Split, AllLines;
      if |line| > f.maxEventBytes {
        return Err(InvalidEvent);
      }
      if !f.isJson(line) {
        TruncationPoint(tail.bytes, lineStart, lines);
        var stop := MaybeFail();
        if stop {
          return Err(InjectedFailure);
        }
        disk := SetTail(disk, tail.(bytes := tail.bytes[..lineStart], synced := lineStart));
        stop := MaybeFail();
        return if stop then Err(InjectedFailure) else Ok(());
      }
      var checked := CheckLine(f, line, expectedSeq, previous);
      if checked.Err? {
        return Err(checked.error);
      }
      var done, n := WriteAll([NEWLINE]);
      assert [NEWLINE][..n] == if n == 0 then [] else [NEWLINE];
      assert tail.bytes + [] == tail.bytes;
      if !done {
        assert n == 0 ==> disk == old(disk) by { SameTail(old(disk)); }
        return Err(InjectedFailure);
      }
      SetTailTwice(old(disk), LastOf(disk.segments),
                   LastOf(disk.segments).(synced := |LastOf(disk.segments).bytes|));
      disk := SetTail(disk, LastOf(disk.segments).(synced := |LastOf(disk.segments).bytes|));
      var stop := MaybeFail();
      return if stop then Err(InjectedFailure) else Ok(());
    }

    /** The manifests of the closed segments, each following the one before. */
    method ReadManifests(closedCount: nat) returns (r: Result<(seq<Manifest>, nat, Option<Digest>), StoreError>)
      requires closedCount <= |disk.segments|
      requires forall i :: 0 <= i < closedCount ==> disk.segments[i].first in disk.manifests
      ensures r != Err(InjectedFailure)
      ensures r.Ok? ==>
                && |r.value.0| == closedCount && AllFirstsBelow(disk.segments[..closedCount], r.value.1)
                && forall j :: 0 <= j < closedCount ==> r.value.0[j] == disk.manifests[disk.segments[j].first].manifest
      ensures Inv(f, disk) && closedCount == |Closed(disk)| ==>
                && r.Ok?
                && r.value.1 == 1 + |Stream(Closed(disk))|
                && r.value.2 == TailHash(f, Stream(Closed(disk)), None)
    {
      hide FileOf, Split, Stream, Inv, Chain, ManifestShapeOk, TailHash;
      ghost var ready := Inv(f, disk) && closedCount == |Closed(disk)|;
      var expectedFirst: nat, previousHash: Option<Digest> := 1, None;
      var closed: seq<Manifest> := [];
      NoSegments(f, disk.segments);
      for i := 0 to closedCount
        invariant |closed| == i && AllFirstsBelow(disk.segments[..i], expectedFirst)
        invariant forall j :: 0 <= j < i ==> closed[j] == disk.manifests[disk.segments[j].first].manifest
        invariant ready ==> expectedFirst == 1 + |Stream(disk.segments[..i])|
        invariant ready ==> previousHash == TailHash(f, Stream(disk.segments[..i]), None)
      {
        var s := disk.segments[i];
        if ready { InvClosedAt(f, disk, i); }
        if s.first != expectedFirst {
          return Err(InvalidLayout);
        }
        var manifest := disk.manifests[s.first].manifest;
        if !ManifestShapeOk(f, manifest, s.first, |s.bytes|) {
          return Err(InvalidManifest);
        }
        ShapeAdvances(f, manifest, s.first, |s.bytes|);
        assert disk.segments[..i + 1] == disk.segments[..i] + [s];
        expectedFirst := manifest.lastSeq + 1;
        previousHash := Some(manifest.lastEventHash);
        closed := closed + [manifest];
      }
      assert ready ==> disk.segments[..closedCount] == Closed(disk);
      return Ok((closed, expectedFirst, previousHash));
    }

    /** Recover, then scan, the open tail. */
    method OpenTail(closed: seq<Manifest>, expectedFirst: nat, before: Option<Digest>)
      returns (r: Result<WriterState, StoreError>)
      requires Open(disk).Some? && ManifestsDurable(disk) && ClosedListed(closed, disk)
      requires AllFirstsBelow(Closed(disk), expectedFirst) && LayoutOk(disk)
      modifies this`disk, this`countdown
      ensures old(countdown) < 0 ==> countdown < 0 && r != Err(InjectedFailure)
      ensures disk.checkpoints == old(disk.checkpoints)
      ensures Closed(disk) == Closed(old(disk))
      ensures r.Ok? ==> fresh(r.value) && Attached(r.value.View(), disk) && r.value.open.Some?
      ensures old(Inv(f, disk)) && expectedFirst == 1 + |Stream(Closed(old(disk)))|
              && before == TailHash(f, Stream(Closed(old(disk))), None) ==>
                && Appended(f, old(disk), disk, [])
                && (r.Err? ==> r.error == InjectedFailure)
                && (r.Ok? ==> Matches(f, r.value.View(), disk)
                              && Recovered(f, disk) == old(Recovered(f, disk))
                              && Stream(disk.segments) == old(Recovered(f, disk)))
    {
      hide FileOf, Split, Stream, Inv, Recovered, Chain, RecoveryState, RecoveryDone, Appended, Scannable,
           TailReadable, ScanOf, TailHash;
      ghost var d1 := disk;
      ghost var ready := Inv(f, d1) && expectedFirst == 1 + |Stream(Closed(d1))|
                         && before == TailHash(f, Stream(Closed(d1)), None);
      var s := LastOf(disk.segments);
      if ready { InvTailAt(f, d1); AppendedNothing(f, d1); }
      if s.first != expectedFirst {
        return Err(InvalidLayout);
      }
      var recovered := RecoverOpenTail(s.first, before);
      ghost var d2 := disk;
      RecoveryTail(f, d1, d2);
      if ready { RecoveryKeeps(f, d1, d2); AppendedInv(f, d1, d2); }
      if recovered.Err? {
        return Err(recovered.error);
      }
      RecoveredShape(f, d1, d2);
      var scanned := ScanSegment(f, LastOf(disk.segments).bytes, s.first, before, true);
      if ready { InspectedScan(f, d1, d2); }
      if scanned.Err? {
        return Err(scanned.error);
      }
      ScanNumbers(f, LastOf(disk.segments).bytes, s.first, before);
      var nextSeq := if scanned.value.lastSeq.None? then s.first else scanned.value.lastSeq.value + 1;
      var lastHash := if scanned.value.lastEventHash.Some? then scanned.value.lastEventHash else before;
      var state := new WriterState(closed, Some(OpenSegment(s.first, scanned.value.eventCount)), nextSeq, lastHash);
      TailStillAttached(d1, d2, state.View());
      if ready { InspectedOpen(f, d1, d2, state.View()); }
      return Ok(state);
    }

    /** List the directories, making published manifests durable first. */
    method CheckLayout() returns (r: Result<nat, StoreError>)
      modifies this`disk, this`countdown
      ensures old(countdown) < 0 ==> countdown < 0 && r != Err(InjectedFailure)
      ensures disk.checkpoints == old(disk.checkpoints)
      ensures disk == old(disk) || disk == old(disk).(manifests := ManifestsSynced(old(disk.manifests)))
      ensures Closed(disk) == Closed(old(disk))
      ensures r.Ok? ==> LayoutOk(disk) && r.value == |Closed(disk)| && ManifestsDurable(disk)
      ensures old(LayoutOk(disk)) && r.Err? ==> r.error == InjectedFailure
    {
      hide FileOf, Split, Stream;
      assert |disk.manifests| == 0 ==> ManifestsDurable(disk);
      if |disk.manifests| > 0 {
        disk := disk.(manifests := ManifestsSynced(disk.manifests));
        var stop := MaybeFail();
        if stop {
          return Err(InjectedFailure);
        }
      }
      var n := |disk.segments|;
      if exists k :: k in disk.manifests.Keys && forall i :: 0 <= i < n ==> disk.segments[i].first != k {
        return Err(InvalidLayout);
      }
      if exists i :: 0 <= i < n - 1 && disk.segments[i].first !in disk.manifests {
        return Err(InvalidLayout);
      }
      return Ok(if n > 0 && disk.segments[n - 1].first !in disk.manifests then n - 1 else n);
    }

    /** `inspect_writer_state`, recovering the tail. */
    method InspectWriterState() returns (r: Result<WriterState, StoreError>)
      modifies this`disk, this`countdown
      ensures old(countdown) < 0 ==> countdown < 0 && r != Err(InjectedFailure)
      ensures disk.checkpoints == old(disk.checkpoints)
      ensures Closed(disk) == Closed(old(disk))
      ensures r.Ok? ==> fresh(r.value) && Attached(r.value.View(), disk)
      ensures old(Inv(f, disk)) && old(Open(disk)).None? ==> disk.segments == old(disk.segments) && Open(disk).None?
      ensures old(Inv(f, disk)) && old(Open(disk)).Some? && r.Ok? ==> r.value.open.Some?
      ensures old(Inv(f, disk)) ==>
                && Appended(f, old(disk), disk, [])
                && (r.Err? ==> r.error == InjectedFailure)
                && (r.Ok? ==> Matches(f, r.value.View(), disk)
                              && Recovered(f, disk) == old(Recovered(f, disk))
                              && Stream(disk.segments) == old(Recovered(f, disk)))
    {
      hide FileOf, Split, Stream, Inv, Recovered, Chain, Appended, TailHash, Matches, LayoutOk, AllBelow,
           ManifestsDurable, Closed, Open;
      ghost var d0 := disk;
      ghost var ready := Inv(f, d0);
      if ready { AppendedNothing(f, d0); SyncManifestsStep(f, d0); InvLayout(f, d0); }
      var layout := CheckLayout();
      ghost var d1 := disk;
      if layout.Err? {
        return Err(layout.error);
      }
      if ready { AppendedInv(f, d0, d1); }
      LayoutClosed(d1);
      var read := ReadManifests(layout.value);
      if read.Err? {
        return Err(read.error);
      }
      ListedSoFar(d1, read.value.0);
      if layout.value < |disk.segments| {
        r := OpenTail(read.value.0, read.value.1, read.value.2);
        if ready { AppendedSame2(f, d0, d1, disk); }
        return;
      }
      var state := new WriterState(read.value.0, None, read.value.1, read.value.2);
      AllManifestsBelow(d1, read.value.1);
      UnopenedAttached(d1, state.View());
      if ready { InspectedClosed(f, d0, d1, state.View()); }
      return Ok(state);
    }

    /** One prepared event: open a segment if needed, write, and roll over when full. */
    method AppendPrepared(state: WriterState, p: PreparedEvent) returns (r: Result<(), StoreError>)
      requires Attached(state.View(), disk)
      modifies this`disk, this`countdown, state
      ensures old(countdown) < 0 ==> countdown < 0 && r != Err(InjectedFailure)
      ensures disk.checkpoints == old(disk.checkpoints)
      ensures r.Ok? ==> Attached(state.View(), disk)
      ensures old(Matches(f, state.View(), disk)) && EventFits(f, old(disk), p.line, p.hash) ==>
                && Appended(f, old(disk), disk, [p.line])
                && (|Recovered(f, disk)| == |Recovered(f, old(disk))| + 1 ==> NoEmptyTail(f, disk))
                && (r.Err? ==> r.error == InjectedFailure)
                && (r.Ok? ==> Matches(f, state.View(), disk)
                              && Stream(disk.segments) == old(Stream(disk.segments)) + [p.line]
                              && Recovered(f, disk) == old(Recovered(f, disk)) + [p.line]
                              && (state.open.Some? ==> state.open.value.eventCount > 0))
      ensures old(Matches(f, state.View(), disk)) && EventFits(f, old(disk), p.line, p.hash)
              && HasRoom(config.rolloverEvents, old(state.View())) ==>
                ClosedFull(config.rolloverEvents, old(disk), disk) && (r.Ok? ==> HasRoom(config.rolloverEvents, state.View()))
    {
      hide FileOf, Split, Stream, Inv, Recovered, Chain, Appended, TailHash, Matches, AllBelow, EventFits, NoEmptyTail,
           FullyDurable, ClosedFull, Closed;
      ghost var d1, v1 := disk, state.View();
      ghost var ready := Matches(f, v1, d1) && EventFits(f, d1, p.line, p.hash);
      var isOpen := EnsureOpen(state);
      ghost var d2, v2 := disk, state.View();
      if ready {
        AppendedWeaken(f, d1, d2, [], [p.line]);
        AppendedEmpty(f, d1, d2);
        SameFull(config.rolloverEvents, d1, d2);
      }
      if !isOpen {
        return Err(InjectedFailure);
      }
      if ready { FitsSame(f, d1, d2, p.line, p.hash); }
      var wrote := WriteEvent(state, p.line, p.hash);
      ghost var d3 := disk;
      if ready {
        AppendedAfterSame(f, d1, d2, d3, [p.line]);
        if |Recovered(f, d3)| == |Recovered(f, d1)| + 1 { TailGrew(f, d2, d3); }
        SameFull(config.rolloverEvents, d1, d3);
      }
      if !wrote {
        return Err(InjectedFailure);
      }
      ghost var v3 := state.View();
      if state.open.value.eventCount == config.rolloverEvents {
        var closed := CloseOpenSegment(state);
        if ready {
          SegmentFull(f, config.rolloverEvents, v3, d1, d3, disk);
          AppendedThenSame(f, d1, d3, disk, [p.line]);
          TailStays(f, d3, disk);
        }
        return if closed.Err? then Err(closed.error) else Ok(());
      }
      return Ok(());
    }

    /** `append_batch_to_state`. */
    method AppendBatchToState(state: WriterState, requests: seq<EventRequest>, forceCloseAfter: bool)
      returns (r: Result<seq<EventRecord>, StoreError>)
      requires Attached(state.View(), disk)
      modifies this`disk, this`countdown, state
      ensures old(countdown) < 0 ==> countdown < 0 && r != Err(InjectedFailure)
      ensures disk.checkpoints == old(disk.checkpoints)
      ensures r.Ok? ==> Attached(state.View(), disk)
      ensures !Acceptable(f, config, requests, old(state.nextSeq), old(state.previousHash)) ==>
                r == Err(InvalidInput) && disk == old(disk)
      ensures old(ReadyToAppend(f, config, state.View(), disk, requests)) && (forceCloseAfter ==> |requests| > 0) ==>
                var lines := Prepared(f, config, requests, old(state.nextSeq), old(state.previousHash));
                && Appended(f, old(disk), disk, lines)
                && (|lines| > 0 && |Recovered(f, disk)| == |Recovered(f, old(disk))| + |lines| ==> NoEmptyTail(f, disk))
                && (r.Err? ==> r.error == InjectedFailure)
                && (r.Ok? ==> AppendedSoFar(f, state.View(), old(disk), disk, lines) && FullyDurable(disk)
                              && (forceCloseAfter ==> state.open.None?)
                              && IsRecords(f, r.value, lines))
      ensures old(ReadyToAppend(f, config, state.View(), disk, requests)) && HasRoom(config.rolloverEvents, old(state.View()))
              && !forceCloseAfter ==>
                ClosedFull(config.rolloverEvents, old(disk), disk) && (r.Ok? ==> HasRoom(config.rolloverEvents, state.View()))
    {
      hide FileOf, Split, Stream, Inv, Recovered, Chain, Appended, TailHash, Matches, AllBelow, Prepared, EventFits,
           Acceptable, AppendedSoFar, ReadyToAppend, LogFormat.Faithful, FullyDurable, NoEmptyTail, IsRecords, Attached,
           Open, Closed, ClosedFull, HasRoom;
      ghost var d0, v0 := disk, state.View();
      ghost var ready := ReadyToAppend(f, config, v0, d0, requests) && (forceCloseAfter ==> |requests| > 0);
      ghost var lines := Prepared(f, config, requests, v0.nextSeq, v0.previousHash);
      var prep := PrepareBatch(f, config, requests, state.nextSeq, state.previousHash);
      if prep.Err? {
        if ready { ReadyAcceptable(f, config, v0, d0, requests); }
        return Err(prep.error);
      }
      var prepared := prep.value;
      var records: seq<EventRecord> := [];
      if ready { ReadyAcceptable(f, config, v0, d0, requests); StartAppend(f, v0, d0); }
      SameFull(config.rolloverEvents, d0, d0);
      PreparedLength(f, config, requests, v0.nextSeq, v0.previousHash);
      assert lines[..0] == [];
      NoRecordsYet(f);
      for k := 0 to |prepared|
        invariant Attached(state.View(), disk) && disk.checkpoints == d0.checkpoints
        invariant old(countdown) < 0 ==> countdown < 0
        invariant ready ==> AppendedSoFar(f, state.View(), d0, disk, lines[..k])
        invariant ready && state.open.Some? && k > 0 ==> state.open.value.eventCount > 0
        invariant ready && k > 0 ==> NoEmptyTail(f, disk)
        invariant ready ==> IsRecords(f, records, lines[..k])
        invariant ready && HasRoom(config.rolloverEvents, v0) ==>
                    ClosedFull(config.rolloverEvents, d0, disk) && HasRoom(config.rolloverEvents, state.View())
      {
        var p := prepared[k];
        var appended := AppendNext(state, p, d0, v0, requests, k);
        if ready { RecordsSnoc(f, config, v0, d0, requests, p, records, lines, k); }
        if appended.Err? {
          return Err(appended.error);
        }
        records := records + [EventRecord(p.envelope, p.hash)];
      }
      assert lines[..|lines|] == lines;
      ghost var d4, v4 := disk, state.View();
      if ready { SoFarMatches(f, v4, d0, d4, lines); }
      var finished := FinishAppend(state, forceCloseAfter);
      if ready { AppendSame(f, v4, d0, d4, lines, disk); }
      if ready && HasRoom(config.rolloverEvents, v0) && !forceCloseAfter { FullSame(config.rolloverEvents, d0, d4, disk); }
      return if finished.Err? then Err(finished.error) else Ok(records);
    }

    /** The `k`th event of a batch that is being appended. */
    method AppendNext(state: WriterState, p: PreparedEvent, ghost d0: Disk, ghost v0: WriterView, ghost requests: seq<EventRequest>,
                      ghost k: nat) returns (r: Result<(), StoreError>)
      requires Attached(state.View(), disk)
      requires var lines := Prepared(f, config, requests, v0.nextSeq, v0.previousHash);
               k < |lines| && p.line == lines[k] && p.hash == f.hash(lines[k])
      modifies this`disk, this`countdown, state
      ensures old(countdown) < 0 ==> countdown < 0 && r != Err(InjectedFailure)
      ensures disk.checkpoints == old(disk.checkpoints)
      ensures r.Ok? ==> Attached(state.View(), disk)
      ensures var lines := Prepared(f, config, requests, v0.nextSeq, v0.previousHash);
              ReadyToAppend(f, config, v0, d0, requests) && old(AppendedSoFar(f, state.View(), d0, disk, lines[..k])) ==>
                && Appended(f, d0, disk, lines) && (r.Err? ==> r.error == InjectedFailure)
                && (|Recovered(f, disk)| == |Recovered(f, d0)| + |lines| ==> NoEmptyTail(f, disk))
                && (r.Ok? ==> AppendedSoFar(f, state.View(), d0, disk, lines[..k + 1]) && NoEmptyTail(f, disk)
                              && (state.open.Some? ==> state.open.value.eventCount > 0))
      ensures var lines := Prepared(f, config, requests, v0.nextSeq, v0.previousHash);
              ReadyToAppend(f, config, v0, d0, requests) && old(AppendedSoFar(f, state.View(), d0, disk, lines[..k]))
              && ClosedFull(config.rolloverEvents, d0, old(disk)) && HasRoom(config.rolloverEvents, old(state.View())) ==>
                ClosedFull(config.rolloverEvents, d0, disk) && (r.Ok? ==> HasRoom(config.rolloverEvents, state.View()))
    {
      hide FileOf, Split, Stream, Inv, Recovered, Chain, Appended, TailHash, Matches, AllBelow, Prepared, EventFits,
           AppendedSoFar, ReadyToAppend, NoEmptyTail, Attached, Open, Closed, ClosedFull, HasRoom;
      ghost var lines := Prepared(f, config, requests, v0.nextSeq, v0.previousHash);
      ghost var d1, v1 := disk, state.View();
      ghost var ready := ReadyToAppend(f, config, v0, d0, requests) && AppendedSoFar(f, v1, d0, d1, lines[..k]);
      if ready {
        SoFarMatches(f, v1, d0, d1, lines[..k]);
        SoFarLength(f, v1, d0, d1, lines[..k]);
        NextFits(f, config, v0, d0, requests, v1, d1, k);
      }
      r := AppendPrepared(state, p);
      assert lines[..k] + [lines[k]] == lines[..k + 1];
      if ready {
        AppendMore(f, v1, d0, d1, lines[..k], disk, [lines[k]]);
        AppendedWeaken(f, d0, disk, lines[..k + 1], lines);
        AppendedAtMost(f, d0, disk, lines[..k + 1]);
        if ClosedFull(config.rolloverEvents, d0, d1) && HasRoom(config.rolloverEvents, v1) {
          FullAppended(f, config.rolloverEvents, d0, d1, disk, [lines[k]]);
        }
      }
    }

    /** The end of an append: close the open segment, or sync it. */
    method FinishAppend(state: WriterState, forceCloseAfter: bool) returns (r: Result<(), StoreError>)
      requires Attached(state.View(), disk)
      modifies this`disk, this`countdown, state
      ensures old(countdown) < 0 ==> countdown < 0 && r != Err(InjectedFailure)
      ensures disk.checkpoints == old(disk.checkpoints)
      ensures r.Ok? ==> Attached(state.View(), disk)
      ensures old(Matches(f, state.View(), disk)) && (old(state.open).Some? && forceCloseAfter ==> old(state.open.value.eventCount) > 0) ==>
                && Appended(f, old(disk), disk, []) && (NoEmptyTail(f, old(disk)) ==> NoEmptyTail(f, disk))
                && (r.Err? ==> r.error == InjectedFailure)
                && (r.Ok? ==> Matches(f, state.View(), disk) && FullyDurable(disk) && (forceCloseAfter ==> state.open.None?)
                              && Stream(disk.segments) == old(Stream(disk.segments)) && Recovered(f, disk) == old(Recovered(f, disk)))
      ensures !forceCloseAfter ==> state.View() == old(state.View())
      ensures !forceCloseAfter && old(Matches(f, state.View(), disk)) ==> Closed(disk) == Closed(old(disk))
    {
      hide FileOf, Split, Stream, Inv, Recovered, Chain, Appended, TailHash, Matches, AllBelow, FullyDurable, NoEmptyTail, Attached;
      ghost var d4, v4 := disk, state.View();
      ghost var ready := Matches(f, v4, d4) && (v4.open.Some? && forceCloseAfter ==> v4.open.value.eventCount > 0);
      if state.open.None? {
        if ready {
          ClosedDurable(f, v4, d4);
          MatchesFacts(f, v4, d4);
          AppendedNothing(f, d4);
        }
        return Ok(());
      }
      if forceCloseAfter {
        r := CloseOpenSegment(state);
      } else {
        var synced := SyncOpenSegment(state);
        r := if synced then Ok(()) else Err(InjectedFailure);
      }
      if ready && NoEmptyTail(f, d4) { TailStays(f, d4, disk); }
    }

    /** The start of every append: the writer state, with a full open segment closed. */
    method InspectAndRollOver() returns (r: Result<WriterState, StoreError>)
      modifies this`disk, this`countdown
      ensures old(countdown) < 0 ==> countdown < 0 && r != Err(InjectedFailure)
      ensures disk.checkpoints == old(disk.checkpoints)
      ensures r.Ok? ==> fresh(r.value) && Attached(r.value.View(), disk)
      ensures old(Inv(f, disk)) ==>
                && Appended(f, old(disk), disk, [])
                && (r.Err? ==> r.error == InjectedFailure)
                && (r.Ok? ==> Matches(f, r.value.View(), disk)
                              && Recovered(f, disk) == old(Recovered(f, disk))
                              && Stream(disk.segments) == old(Recovered(f, disk)))
      ensures old(Inv(f, disk)) ==>
                ClosedFull(config.rolloverEvents, old(disk), disk) && (r.Ok? ==> HasRoom(config.rolloverEvents, r.value.View()))
    {
      hide FileOf, Split, Stream, Inv, Recovered, Appended, Matches, AllBelow, Attached, FullyDurable, Closed, Open, ClosedFull;
      ghost var d0 := disk;
      var inspected := InspectWriterState();
      ghost var d1 := disk;
      SameFull(config.rolloverEvents, d0, d1);
      if inspected.Err? {
        return Err(inspected.error);
      }
      var state := inspected.value;
      if state.open.Some? && state.open.value.eventCount >= config.rolloverEvents {
        ghost var v1 := state.View();
        var closed := CloseOpenSegment(state);
        if Inv(f, d0) { AppendedSame2(f, d0, d1, disk); SegmentFull(f, config.rolloverEvents, v1, d0, d1, disk); }
        if closed.Err? {
          return Err(closed.error);
        }
      }
      return Ok(state);
    }

    /** `append_batch_locked`. */
    method AppendBatchLocked(requests: seq<EventRequest>, forceCloseAfter: bool)
      returns (r: Result<seq<EventRecord>, StoreError>)
      modifies this`disk, this`countdown
      ensures old(countdown) < 0 ==> countdown < 0 && r != Err(InjectedFailure)
      ensures disk.checkpoints == old(disk.checkpoints)
      ensures old(Inv(f, disk)) && f.Faithful() && Stamped(f, requests) && (forceCloseAfter ==> |requests| > 0) ==>
                var before := Recovered(f, old(disk));
                var lines := Prepared(f, config, requests, 1 + |before|, TailHash(f, before, None));
                && Appended(f, old(disk), disk, lines)
                && (|lines| > 0 && |Recovered(f, disk)| == |before| + |lines| ==> NoEmptyTail(f, disk))
                && (r.Err? ==> r.error == InjectedFailure || r.error == InvalidInput)
                && (r == Err(InvalidInput) ==>
                      && Recovered(f, disk) == before
                      && !Acceptable(f, config, requests, 1 + |before|, TailHash(f, before, None)))
                && (r.Ok? ==> && Acceptable(f, config, requests, 1 + |before|, TailHash(f, before, None))
                              && Inv(f, disk) && Settled(disk) && FullyDurable(disk)
                              && Recovered(f, disk) == before + lines && Stream(disk.segments) == before + lines
                              && (forceCloseAfter ==> Open(disk).None?)
                              && IsRecords(f, r.value, lines))
      ensures old(Inv(f, disk)) && f.Faithful() && Stamped(f, requests) && !forceCloseAfter ==>
                RolledOver(config.rolloverEvents, old(disk), disk, r.Ok?)
    {
      hide FileOf, Split, Stream, Inv, Recovered, Chain, Appended, TailHash, Matches, AllBelow, Prepared,
           Acceptable, ReadyToAppend, LogFormat.Faithful, FullyDurable, IsRecords, AppendedSoFar, ClosedFull, HasRoom;
      ghost var d0 := disk;
      ghost var ready := Inv(f, d0) && f.Faithful() && Stamped(f, requests) && (forceCloseAfter ==> |requests| > 0);
      ghost var before := Recovered(f, d0);
      ghost var lines := Prepared(f, config, requests, 1 + |before|, TailHash(f, before, None));
      var inspected := InspectAndRollOver();
      if ready { AppendedWeaken(f, d0, disk, [], lines); AppendedEmpty(f, d0, disk); }
      if inspected.Err? {
        return Err(inspected.error);
      }
      var state := inspected.value;
      ghost var d2, v2 := disk, state.View();
      if ready { ReadyIff(f, config, v2, d2, requests); }
      r := AppendBatchToState(state, requests, forceCloseAfter);
      if ready && Acceptable(f, config, requests, v2.nextSeq, v2.previousHash) {
        AppendedAfterSame(f, d0, d2, disk, lines);
        if r.Ok? { SoFarFacts(f, state.View(), d2, disk, lines); }
        if !forceCloseAfter {
          FullAppended(f, config.rolloverEvents, d0, d2, disk, lines);
          if r.Ok? { SoFarRoom(f, config.rolloverEvents, state.View(), d2, disk, lines); }
        }
      }
      return;
    }

    /** `verify_locked(false)`: rescan every segment and recompute every manifest. */
    method VerifyLog() returns (r: Result<(Report, seq<EventRecord>), StoreError>)
      ensures r.Ok? <==> Verified(f, disk)
      ensures r.Ok? ==> ReportsOn(f, disk, r.value.0) && r.value.1 == CheckpointRecords(f, Stream(disk.segments))
      ensures r.Err? ==> r.error != InjectedFailure
    {
      hide FileOf, Split, Stream, Chain, TailHash, ManifestShapeOk, ManifestFor, CheckpointRecords, Scannable, ScanOf,
           SegmentReport, ManifestFromScan, SegmentVerified;
      var n := |disk.segments|;
      if exists k :: k in disk.manifests.Keys && forall i :: 0 <= i < n ==> disk.segments[i].first != k {
        return Err(InvalidLayout);
      }
      assert NoOrphan(disk.segments, disk.manifests);
      var previousHash: Option<Digest>, expectedFirst: nat := None, 1;
      var reports: seq<VerifiedSegment> := [];
      var checkpoints: seq<EventRecord> := [];
      NoSegments(f, disk.segments);
      NoCheckpoints(f);
      for i := 0 to n
        invariant forall j :: 0 <= j < i ==> SegmentVerified(f, disk, j)
        invariant expectedFirst == 1 + |Stream(disk.segments[..i])|
        invariant previousHash == TailHash(f, Stream(disk.segments[..i]), None)
        invariant checkpoints == CheckpointRecords(f, Stream(disk.segments[..i]))
        invariant |reports| == i && forall j :: 0 <= j < i ==> reports[j] == SegmentReport(disk, disk.segments[j])
      {
        var s := disk.segments[i];
        var scanned := VerifySegment(i, expectedFirst, previousHash);
        if scanned.Err? {
          return Err(scanned.error);
        }
        var scan, manifested := scanned.value, s.first in disk.manifests;
        reports := reports + [VerifiedSegment(s.first, scan.lastSeq, scan.eventCount,
                                              if manifested then Some(disk.manifests[s.first].manifest) else None)];
        VerifyAdvance(f, disk, i, scan, previousHash);
        checkpoints := checkpoints + scan.checkpointEvents;
        if scan.lastSeq.Some? {
          expectedFirst := scan.lastSeq.value + 1;
          previousHash := scan.lastEventHash;
        }
      }
      assert disk.segments[..n] == disk.segments;
      return Ok((Report(expectedFirst - 1, previousHash, reports, []), checkpoints));
    }

    /** One segment: where it starts, its events, and its manifest recomputed. */
    method VerifySegment(i: nat, expectedFirst: nat, previousHash: Option<Digest>) returns (r: Result<SegmentScan, StoreError>)
      requires i < |disk.segments| && expectedFirst == 1 + |Stream(disk.segments[..i])|
      requires previousHash == TailHash(f, Stream(disk.segments[..i]), None)
      ensures r.Ok? <==> SegmentVerified(f, disk, i)
      ensures r.Err? ==> !Verified(f, disk) && r.error != InjectedFailure
      ensures r.Ok? ==> disk.segments[i].first == expectedFirst
      ensures r.Ok? ==> var s := disk.segments[i]; r.value == ScanOf(f, LinesOf(s), s.first, |s.bytes|, f.hash(s.bytes))
    {
      hide FileOf, Split, Stream, Chain, TailHash, ManifestShapeOk, ManifestFor, Scannable, ScanOf, ManifestFromScan, SegmentVerified, Verified;
      var s := disk.segments[i];
      var manifested := s.first in disk.manifests;
      if s.first != expectedFirst || (!manifested && i + 1 != |disk.segments|) {
        NotVerified(f, disk, i, previousHash);
        return Err(InvalidLayout);
      }
      var scanned := ScanSegment(f, s.bytes, s.first, previousHash, !manifested);
      if scanned.Err? {
        NotVerified(f, disk, i, previousHash);
        return Err(scanned.error);
      }
      var scan := scanned.value;
      ScanManifest(f, LinesOf(s), s.first, |s.bytes|, f.hash(s.bytes));
      if manifested {
        var manifest := disk.manifests[s.first].manifest;
        ExpectedManifest(f, s, previousHash, manifest);
        if !ManifestShapeOk(f, manifest, s.first, |s.bytes|) || Some(manifest) != ManifestFromScan(scan) {
          NotVerified(f, disk, i, previousHash);
          return Err(InvalidManifest);
        }
      }
      VerifiedHere(f, disk, i, previousHash);
      return Ok(scan);
    }

    /** The ids of the checkpoint events, unless one is malformed or repeated. */
    method CollectIds(records: seq<EventRecord>) returns (r: Option<seq<string>>)
      ensures r.Some? ==>
                && |r.value| == |records| && (forall j :: 0 <= j < |records| ==> CheckpointIdOf(f, records[j]) == Some(r.value[j]))
                && (forall j, k :: 0 <= j < k < |records| ==> r.value[j] != r.value[k])
      ensures r.None? ==>
                || (exists j :: 0 <= j < |records| && CheckpointIdOf(f, records[j]).None?)
                || (exists j, k :: 0 <= j < k < |records| && CheckpointIdOf(f, records[j]) == CheckpointIdOf(f, records[k]))
    {
      hide CheckpointIdOf;
      var ids: seq<string> := [];
      for i := 0 to |records|
        invariant |ids| == i && forall j :: 0 <= j < i ==> CheckpointIdOf(f, records[j]) == Some(ids[j])
        invariant forall j, k :: 0 <= j < k < i ==> ids[j] != ids[k]
      {
        var id := CheckpointIdOf(f, records[i]);
        if id.None? || id.value in ids {
          return None;
        }
        ids := ids + [id.value];
      }
      return Some(ids);
    }

    /** `verify_checkpoints`: files and events correspond one to one, and every file is exact. */
    method VerifyCheckpoints(report: Report, records: seq<EventRecord>)
      returns (r: Result<seq<Checkpoint>, StoreError>)
      requires Verified(f, disk) && ReportsOn(f, disk, report)
      requires records == CheckpointRecords(f, Stream(disk.segments))
      ensures r.Ok? <==> CheckpointsOk(f, disk)
      ensures r.Ok? ==> |r.value| == |records| && forall i :: 0 <= i < |records| ==>
                HasFile(f, disk, records[i]) && r.value[i] == disk.checkpoints[CheckpointIdOf(f, records[i]).value].checkpoint
      ensures r.Err? ==> r.error == InvalidCheckpoint
    {
      hide Stream, Split, CheckpointRecords, IsCheckpointOf, Verified, ReportsOn, CheckpointIdOf;
      var collected := CollectIds(records);
      if collected.None? {
        return Err(InvalidCheckpoint);
      }
      var ids := collected.value;
      if exists i :: 0 <= i < |ids| && ids[i] !in disk.checkpoints {
        return Err(InvalidCheckpoint);
      }
      if exists id :: id in disk.checkpoints.Keys && id !in ids {
        return Err(InvalidCheckpoint);
      }
      var found: seq<Checkpoint> := [];
      for i := 0 to |records|
        invariant |found| == i && forall j :: 0 <= j < i ==> found[j] == disk.checkpoints[ids[j]].checkpoint
        invariant forall j :: 0 <= j < i ==> IsCheckpointOf(f, disk, records[j], found[j])
      {
        var c := disk.checkpoints[ids[i]].checkpoint;
        var ok := ValidateCheckpoint(f, report, records[i], c, disk);
        if !ok {
          return Err(InvalidCheckpoint);
        }
        found := found + [c];
      }
      return Ok(found);
    }

    /** `verify`: the log and all checkpoints. */
    method Verify() returns (r: Result<Report, StoreError>)
      ensures r.Ok? <==> Verified(f, disk) && CheckpointsOk(f, disk)
      ensures r.Ok? ==> ReportsOn(f, disk, r.value) && |r.value.checkpoints| == |CheckpointRecords(f, Stream(disk.segments))|
      ensures r.Ok? ==> forall i :: 0 <= i < |r.value.checkpoints| ==>
                var e := CheckpointRecords(f, Stream(disk.segments))[i];
                HasFile(f, disk, e) && r.value.checkpoints[i] == disk.checkpoints[CheckpointIdOf(f, e).value].checkpoint
      ensures r.Err? ==> r.error != InjectedFailure
    {
      hide Stream, Split, CheckpointRecords, IsCheckpointOf, Verified, CheckpointsOk;
      var log := VerifyLog();
      if log.Err? {
        return Err(log.error);
      }
      var checkpoints := VerifyCheckpoints(log.value.0, log.value.1);
      if checkpoints.Err? {
        return Err(checkpoints.error);
      }
      return Ok(log.value.0.(checkpoints := checkpoints.value));
    }

    /** `publish_checkpoint`: an existing file must already be equal. */
    method PublishCheckpoint(c: Checkpoint) returns (r: Result<(), StoreError>)
      modifies this`disk, this`countdown
      ensures old(countdown) < 0 ==> countdown < 0 && r != Err(InjectedFailure)
      ensures c.checkpointId in old(disk.checkpoints) ==>
                && disk == old(disk)
                && r == if old(disk.checkpoints[c.checkpointId].checkpoint) == c then Ok(()) else Err(InvalidCheckpoint)
      ensures c.checkpointId !in old(disk.checkpoints) ==>
                && disk in {old(disk), CheckpointAdded(old(disk), c), CheckpointsSynced(CheckpointAdded(old(disk), c))}
                && (r.Ok? ==> disk == CheckpointsSynced(CheckpointAdded(old(disk), c)))
                && (r.Err? ==> r.error == InjectedFailure)
    {
      if c.checkpointId in disk.checkpoints {
        return if disk.checkpoints[c.checkpointId].checkpoint == c then Ok(()) else Err(InvalidCheckpoint);
      }
      var stop := MaybeFail();
      if stop {
        return Err(InjectedFailure);
      }
      disk := CheckpointAdded(disk, c);
      stop := MaybeFail();
      if stop {
        return Err(InjectedFailure);
      }
      disk := CheckpointsSynced(disk);
      stop := MaybeFail();
      return if stop then Err(InjectedFailure) else Ok(());
    }

    /** `read_manifest_last_event`: the last event of a closed segment, read backwards. */
    method ReadManifestLastEvent(s: SegmentFile, m: Manifest) returns (r: Result<EventRecord, StoreError>)
      ensures r != Err(InjectedFailure)
      ensures Verified(f, disk) && |disk.segments| > 0 && s == LastOf(disk.segments)
              && s.first in disk.manifests && m == disk.manifests[s.first].manifest ==>
                var lines := Stream(disk.segments);
                |lines| > 0 && f.parse(LastOf(lines)).Some? && r == Ok(RecordOf(f, LastOf(lines)))
    {
      hide Stream, Split, Chain, ManifestFor, IsLastLine;
      ghost var ready := Verified(f, disk) && |disk.segments| > 0 && s == LastOf(disk.segments)
                         && s.first in disk.manifests && m == disk.manifests[s.first].manifest;
      if ready { LastEventFacts(f, disk); }
      var line := ReadLastLine(s.bytes, f.maxEventBytes);
      if line.Err? {
        return Err(line.error);
      }
      var envelope := f.parse(line.value);
      if envelope.None? {
        return Err(InvalidEvent);
      }
      if envelope.value.seqNo != m.lastSeq || envelope.value.eventId != m.lastEventId {
        return Err(InvalidManifest);
      }
      var hash := f.hash(line.value);
      if hash != m.lastEventHash {
        return Err(InvalidManifest);
      }
      return Ok(EventRecord(envelope.value, hash));
    }

    /** `complete_pending_checkpoint_locked`: publish the file of a checkpoint event at a closed tail. */
    method CompletePendingCheckpoint() returns (r: Result<Option<Checkpoint>, StoreError>)
      modifies this`disk, this`countdown
      ensures old(countdown) < 0 ==> countdown < 0 && r != Err(InjectedFailure)
      ensures Closed(disk) == Closed(old(disk))
      ensures old(Inv(f, disk)) ==> Appended(f, old(disk), disk, []) && FilesCover(f, old(disk), disk)
      ensures old(Inv(f, disk)) && r.Ok? ==> Settled(disk) && Recovered(f, disk) == old(Recovered(f, disk))
      ensures old(Inv(f, disk)) && old(Open(disk)).Some? ==>
                disk.checkpoints == old(disk.checkpoints) && (r.Ok? ==> r.value.None? && Open(disk).Some?)
      ensures old(Inv(f, disk) && CheckpointInv(f, disk)) ==>
                && CheckpointInv(f, disk)
                && (r.Err? ==> r.error == InjectedFailure)
                && (r.Ok? ==> AllPublished(f, disk))
                && (r.Ok? && r.value.Some? ==>
                      exists e :: e in ClosedRecords(f, disk) && IsTailEvent(disk, e) && IsCheckpointOf(f, disk, e, r.value.value))
    {
      hide Stream, Split, Inv, Appended, Matches, Recovered, Verified, CheckpointInv, AllPublished, ReportsOn,
           IsCheckpointOf, CheckpointRecords, ClosedRecords, CheckpointIdOf, EndsAt, IsTailEvent, Settled, TailHash, FilesCover;
      ghost var d0 := disk;
      ghost var ready := Inv(f, d0);
      ghost var tracked := ready && CheckpointInv(f, d0);
      var inspected := InspectWriterState();
      ghost var d1 := disk;
      FilesSame(f, d0, d1);
      if ready { AppendedEmpty(f, d0, d1); }
      if tracked { InspectedTracked(f, d0, d1); }
      if inspected.Err? {
        return Err(inspected.error);
      }
      var state := inspected.value;
      ghost var v := state.View();
      if ready { MatchesFacts(f, v, d1); }
      if state.open.Some? {
        if tracked { OpenPublished(f, d1); }
        return Ok(None);
      }
      if |state.closed| == 0 || |disk.segments| == 0 {
        if tracked { EmptyPublished(f, v, d1); }
        return Ok(None);
      }
      var tail := LastOf(disk.segments);
      var read := ReadManifestLastEvent(tail, LastOf(state.closed));
      if read.Err? {
        return Err(read.error);
      }
      var e := read.value;
      if e.envelope.eventType != CHECKPOINT_CREATED {
        if tracked { OrdinaryTailPublished(f, v, d1, e); }
        return Ok(None);
      }
      if tracked { CheckpointTail(f, d1, e); }
      var id := CheckpointIdOf(f, e);
      if id.None? {
        return Err(InvalidCheckpoint);
      }
      if id.value in disk.checkpoints {
        var closedReport := ReportFromClosedState(state);
        var built := BuildCheckpoint(f, closedReport, e, d1);
        if tracked { PendingBuilds(f, d1, e, built); ExistingAgrees(f, d1, e, built); }
        if built.Err? || disk.checkpoints[id.value].checkpoint != built.value {
          return Err(InvalidCheckpoint);
        }
        disk := CheckpointsSynced(disk);
        FilesSynced(f, d0, d1);
        if ready { IndependentAppended(f, d0, d1, disk); }
        if tracked { SyncedPublished(f, d1, e); }
        var stop := MaybeFail();
        return if stop then Err(InjectedFailure) else Ok(None);
      }
      r := PublishPending(e);
      if ready {
        FilesThen(f, d0, d1, disk);
        IndependentAppended(f, d0, d1, disk);
      }
    }

    /** The missing file of the checkpoint event `e` at the closed tail. */
    method PublishPending(e: EventRecord) returns (r: Result<Option<Checkpoint>, StoreError>)
      modifies this`disk, this`countdown
      ensures old(countdown) < 0 ==> countdown < 0 && r != Err(InjectedFailure)
      ensures disk == old(disk).(checkpoints := disk.checkpoints) && FilesCover(f, old(disk), disk)
      ensures old(IsPending(f, disk, e)) ==>
                && CheckpointInv(f, disk)
                && (r.Err? ==> r.error == InjectedFailure)
                && (r.Ok? ==> AllPublished(f, disk) && r.value.Some?
                              && e in ClosedRecords(f, disk) && IsTailEvent(disk, e) && IsCheckpointOf(f, disk, e, r.value.value))
    {
      hide Stream, Split, Inv, Recovered, Verified, CheckpointInv, AllPublished, ReportsOn,
           IsCheckpointOf, CheckpointRecords, ClosedRecords, CheckpointIdOf, EndsAt, IsTailEvent, TailHash, FilesCover;
      ghost var d1 := disk;
      FilesSame(f, d1, d1);
      ghost var tracked := IsPending(f, d1, e);
      if tracked { InvVerified(f, d1); }
      var log := VerifyLog();
      if log.Err? {
        return Err(log.error);
      }
      var found := FindRecord(log.value.1, e.envelope.eventId);
      if tracked { FoundIsTail(f, d1, log.value.1, found, e); }
      if found.None? {
        return Err(InvalidCheckpoint);
      }
      var built := BuildCheckpoint(f, log.value.0, found.value, d1);
      if tracked { PendingBuilds(f, d1, e, built); }
      if built.Err? {
        return Err(built.error);
      }
      if tracked { PublishedStates(f, d1, e, built.value); }
      var published := PublishCheckpoint(built.value);
      FilesPublished(f, d1, disk, found.value, built.value);
      return if published.Err? then Err(published.error) else Ok(Some(built.value));
    }

    /** `create_checkpoint_locked`. `lines` is what the call set out to append. On every store the invariant
        holds of, also one an interrupted call left behind, it only appends. */
    method CreateCheckpointLocked(ulid: string, eventUlid: string, timeMs: nat)
      returns (r: Result<Checkpoint, StoreError>, ghost lines: seq<Bytes>)
      modifies this`disk, this`countdown
      ensures old(countdown) < 0 ==> countdown < 0 && r != Err(InjectedFailure)
      ensures f.Faithful() && f.isUlid(ulid) && f.isUlid(eventUlid) && old(Inv(f, disk)) ==>
                Appended(f, old(disk), disk, lines) && FilesCover(f, old(disk), disk) && |lines| <= 1
      ensures f.Faithful() && f.isUlid(ulid) && f.isUlid(eventUlid) && old(Inv(f, disk) && CheckpointInv(f, disk))
              && FreshId(f, old(disk), "chk_" + ulid, "evt_" + eventUlid) ==>
                CheckpointOutcome(f, config, old(disk), disk, ulid, eventUlid, timeMs, r, lines)
    {
      hide Stream, Split, Inv, Appended, Matches, Recovered, CheckpointInv, AllPublished, CheckpointComplete,
           IsCheckpointOf, ClosedRecords, IsTailEvent, Settled, TailClear, LogFormat.Faithful, FreshId,
           FullyDurable, Closed, Open, AllBelow, Attached, FilesCover, DurableCount, Tracked, Stamped, CheckpointOutcome;
      ghost var d0 := disk;
      ghost var ready := f.Faithful() && f.isUlid(ulid) && f.isUlid(eventUlid) && Inv(f, d0);
      ghost var tracked := ready && CheckpointInv(f, d0) && FreshId(f, d0, "chk_" + ulid, "evt_" + eventUlid);
      lines := [];
      var completed := CompletePendingCheckpoint();
      ghost var d1 := disk;
      if ready { AppendedEmpty(f, d0, d1); AppendedInv(f, d0, d1); }
      if completed.Err? {
        if tracked { StoppedEarly(f, config, d0, d1, ulid, eventUlid, timeMs, completed.error); }
        return Err(completed.error), lines;
      }
      if completed.value.Some? {
        if tracked { CompletedFirst(f, config, d0, d1, ulid, eventUlid, timeMs, completed.value.value); }
        return Ok(completed.value.value), lines;
      }
      var prefix := ClosePrefix();
      if ready { MaintenanceStep(f, d0, d1, disk, tracked); FilesOn(f, d0, d1, disk); }
      if prefix.Err? {
        if tracked { StoppedEarly(f, config, d0, disk, ulid, eventUlid, timeMs, prefix.error); }
        return Err(prefix.error), lines;
      }
      ghost var d3 := disk;
      if tracked { FreshLater(f, d0, d3, "chk_" + ulid, "evt_" + eventUlid); }
      r, lines := AppendCheckpointEvent(prefix.value, ulid, eventUlid, timeMs);
      if ready {
        AppendedAfterSame(f, d0, d3, disk, lines);
        AppendedLonger(f, d0, d3, []);
        FilesThen(f, d0, d3, disk);
      }
      if tracked { OutcomeLater(f, config, d0, d3, disk, ulid, eventUlid, timeMs, r, lines); }
    }

    /** Close the open segment, so that the event comes to a segment of its own; gives its number. */
    method ClosePrefix() returns (r: Result<nat, StoreError>)
      modifies this`disk, this`countdown
      ensures old(countdown) < 0 ==> countdown < 0 && r != Err(InjectedFailure)
      ensures disk.checkpoints == old(disk.checkpoints)
      ensures old(Inv(f, disk)) ==>
                && Appended(f, old(disk), disk, [])
                && (r.Err? ==> r.error == InjectedFailure || (r.error == InvalidInput && old(|Recovered(f, disk)|) == 0))
                && (r.Ok? ==> r.value == 1 + old(|Recovered(f, disk)|) && r.value > 1)
    {
      hide Stream, Split, Inv, Appended, Matches, Recovered, Settled, FullyDurable, Closed, AllBelow, Attached;
      ghost var d0 := disk;
      ghost var ready := Inv(f, d0);
      var inspected := InspectWriterState();
      ghost var d1 := disk;
      if ready { AppendedEmpty(f, d0, d1); }
      if inspected.Err? {
        return Err(inspected.error);
      }
      var state := inspected.value;
      if ready { MatchesNext(f, state.View(), d1); }
      if state.nextSeq == 1 {
        return Err(InvalidInput);
      }
      if state.open.Some? && state.open.value.eventCount > 0 {
        var closed := CloseOpenSegment(state);
        if ready { AppendedSame2(f, d0, d1, disk); }
        if closed.Err? {
          return Err(closed.error);
        }
        if ready { MatchesNext(f, state.View(), disk); }
      }
      return Ok(state.nextSeq);
    }

    /** `create_checkpoint`, as one writer step. */
    method CreateCheckpoint(ulid: string, eventUlid: string, timeMs: nat)
      returns (r: Result<Checkpoint, StoreError>, ghost lines: seq<Bytes>)
      modifies this`disk, this`countdown
      ensures old(countdown) < 0 ==> countdown < 0 && r != Err(InjectedFailure)
      ensures f.Faithful() && f.isUlid(ulid) && f.isUlid(eventUlid) && old(Inv(f, disk)) ==>
                && Appended(f, old(disk), disk, lines) && FilesCover(f, old(disk), disk) && |lines| <= 1
                && (FreshId(f, old(disk), "chk_" + ulid, "evt_" + eventUlid) ==> WriterStep(f, old(disk), disk, lines))
      ensures f.Faithful() && f.isUlid(ulid) && f.isUlid(eventUlid) && old(Inv(f, disk) && CheckpointInv(f, disk))
              && FreshId(f, old(disk), "chk_" + ulid, "evt_" + eventUlid) ==>
                && (r.Err? ==> r.error == InjectedFailure || r.error == InvalidInput)
                && (r == Err(InvalidInput) ==>
                      old(|Recovered(f, disk)|) == 0 || CheckpointRefused(f, config, old(disk), ulid, eventUlid, timeMs))
                && (|lines| > 0 ==> lines == CheckpointLines(f, config, old(disk), ulid, eventUlid, timeMs))
                && (r.Ok? ==> Recovered(f, disk) == old(Recovered(f, disk)) + lines && CheckpointComplete(f, disk, r.value))
    {
      hide CheckpointRefused, CheckpointLines, CheckpointComplete, FreshId, LogFormat.Faithful, Inv, Appended, FilesCover, CheckpointInv,
           Recovered, TailClear;
      r, lines := CreateCheckpointLocked(ulid, eventUlid, timeMs);
    }

    /** The second half of `create_checkpoint_locked`: the event, on its own in a closed segment. */
    method AppendCheckpointEvent(nextSeq: nat, ulid: string, eventUlid: string, timeMs: nat)
      returns (r: Result<Checkpoint, StoreError>, ghost lines: seq<Bytes>)
      modifies this`disk, this`countdown
      ensures old(countdown) < 0 ==> countdown < 0 && r != Err(InjectedFailure)
      ensures f.Faithful() && f.isUlid(ulid) && f.isUlid(eventUlid)
              && old(Inv(f, disk)) && nextSeq == 1 + |Recovered(f, old(disk))| ==>
                Appended(f, old(disk), disk, lines) && FilesCover(f, old(disk), disk) && |lines| <= 1
      ensures f.Faithful() && f.isUlid(ulid) && f.isUlid(eventUlid)
              && old(Inv(f, disk) && CheckpointInv(f, disk) && AllPublished(f, disk))
              && FreshId(f, old(disk), "chk_" + ulid, "evt_" + eventUlid) && nextSeq == 1 + |Recovered(f, old(disk))| ==>
                CheckpointOutcome(f, config, old(disk), disk, ulid, eventUlid, timeMs, r, lines)
    {
      hide Stream, Split, Inv, Appended, Recovered, CheckpointInv, AllPublished, CheckpointComplete, AwaitsFile,
           CheckpointRecords, ClosedRecords, CheckpointIdOf, Settled, TailHash, FreshCheckpointLine,
           TailClear, LogFormat.Faithful, FreshId, Prepared, Acceptable, NoEmptyTail, FullyDurable, IsRecords, Closed, FilesCover;
      ghost var d3 := disk;
      ghost var ready := f.Faithful() && f.isUlid(ulid) && f.isUlid(eventUlid) && Inv(f, d3) && nextSeq == 1 + |Recovered(f, d3)|;
      ghost var tracked := ready && CheckpointInv(f, d3) && AllPublished(f, d3) && FreshId(f, d3, "chk_" + ulid, "evt_" + eventUlid);
      lines := [];
      FilesSame(f, d3, d3);
      if ready { AppendedNothing(f, d3); }
      var stop := MaybeFail();
      if stop {
        return Err(InjectedFailure), lines;
      }
      var q := CheckpointRequest(ulid, eventUlid, timeMs, nextSeq);
      ghost var before := Recovered(f, d3);
      lines := Prepared(f, config, [q], 1 + |before|, TailHash(f, before, None));
      PreparedOne(f, config, q, 1 + |before|, TailHash(f, before, None));
      if tracked { CheckpointLineFresh(f, config, d3, ulid, q, TailHash(f, before, None), lines[0]); }
      var appended := AppendBatchLocked([q], true);
      ghost var d4 := disk;
      FilesSame(f, d3, d4);
      if tracked {
        AppendedOne(f, d3, d4, lines);
        if TailClear(f, d4) { CheckpointInvCreated(f, d3, d4, lines[0]); }
      }
      if appended.Err? {
        return Err(appended.error), lines;
      }
      if tracked { CreatedTail(f, d3, d4, lines[0], appended.value); }
      if |appended.value| == 0 {
        return Err(InvalidLayout), lines;
      }
      r := PublishCreated(appended.value[0]);
      if ready {
        AfterPublish(f, d3, d4, disk, lines);
        AppendedLonger(f, d3, d4, lines);
        FilesThen(f, d3, d4, disk);
      }
    }

    /** The file of a checkpoint event just appended, then full verification. */
    method PublishCreated(e: EventRecord) returns (r: Result<Checkpoint, StoreError>)
      modifies this`disk, this`countdown
      ensures old(countdown) < 0 ==> countdown < 0 && r != Err(InjectedFailure)
      ensures disk == old(disk).(checkpoints := disk.checkpoints) && FilesCover(f, old(disk), disk)
      ensures old(AwaitsFile(f, disk, e)) ==>
                && CheckpointInv(f, disk)
                && (r.Err? ==> r.error == InjectedFailure)
                && (r.Ok? ==> CheckpointComplete(f, disk, r.value))
    {
      hide Stream, Split, Inv, Recovered, Verified, CheckpointInv, AllPublished, ReportsOn, CheckpointComplete,
           IsCheckpointOf, CheckpointRecords, ClosedRecords, CheckpointIdOf, EndsAt, IsTailEvent, Settled, TailHash,
           CheckpointsOk, FullyDurable, FilesCover;
      ghost var d4 := disk;
      FilesSame(f, d4, d4);
      ghost var tracked := AwaitsFile(f, d4, e);
      var stop := MaybeFail();
      if stop {
        return Err(InjectedFailure);
      }
      var log := VerifyLog();
      if log.Err? {
        return Err(log.error);
      }
      var built := BuildCheckpoint(f, log.value.0, e, d4);
      if tracked { PendingBuilds(f, d4, e, built); }
      if built.Err? {
        return Err(built.error);
      }
      if tracked { PublishedStates(f, d4, e, built.value); }
      var published := PublishCheckpoint(built.value);
      FilesPublished(f, d4, disk, e, built.value);
      if published.Err? {
        return Err(published.error);
      }
      if tracked { CreatedVerifies(f, d4, disk); }
      var report := Verify();
      if report.Err? {
        return Err(report.error);
      }
      var discovered := FindCheckpoint(report.value.checkpoints, built.value.checkpointId);
      if tracked {
        DiscoveredIsBuilt(f, disk, report.value, e, built.value, discovered);
        NowComplete(f, disk, e, built.value);
      }
      return if discovered.None? then Err(InvalidCheckpoint) else Ok(discovered.value);
    }

    /** Opening a store completes a pending checkpoint first, like every writer entry. */
    method OpenStore() returns (r: Result<(), StoreError>)
      modifies this`disk, this`countdown
      ensures old(countdown) < 0 ==> countdown < 0 && r != Err(InjectedFailure)
      ensures old(Inv(f, disk)) ==> WriterStep(f, old(disk), disk, [])
      ensures old(Inv(f, disk)) && r.Ok? ==> Verified(f, disk) && Recovered(f, disk) == old(Recovered(f, disk))
      ensures old(Inv(f, disk) && CheckpointInv(f, disk)) ==>
                CheckpointInv(f, disk) && (r.Ok? ==> AllPublished(f, disk) && CheckpointsOk(f, disk))
    {
      hide Stream, Split, Recovered, Inv, CheckpointInv, AllPublished, CheckpointsOk, Verified, FilesCover, Appended, TailClear;
      var completed := CompletePendingCheckpoint();
      if completed.Ok? && old(Inv(f, disk)) {
        AppendedInv(f, old(disk), disk);
        InvVerified(f, disk);
        if old(CheckpointInv(f, disk)) { InvPieces(f, disk); FullVerifyExactly(f, disk); }
      }
      return if completed.Err? then Err(completed.error) else Ok(());
    }

    /** `append_batch`. */
    method AppendBatch(requests: seq<EventRequest>) returns (r: Result<seq<EventRecord>, StoreError>)
      modifies this`disk, this`countdown
      ensures old(countdown) < 0 ==> countdown < 0 && r != Err(InjectedFailure)
      ensures !PublicBatch(requests) ==> r == Err(InvalidInput) && disk == old(disk)
      ensures requests == [] || (exists q :: q in requests && q.eventType == "checkpoint_created") ==> r == Err(InvalidInput)
      ensures old(Inv(f, disk)) && old(Open(disk)).Some? ==> disk.checkpoints == old(disk.checkpoints)
      ensures PublicBatch(requests) && f.Faithful() && Stamped(f, requests) && old(Inv(f, disk)) ==>
                var before := Recovered(f, old(disk));
                var lines := Prepared(f, config, requests, 1 + |before|, TailHash(f, before, None));
                && WriterStep(f, old(disk), disk, lines)
                && (old(CheckpointInv(f, disk)) ==> CheckpointInv(f, disk))
                && (old(CheckpointInv(f, disk)) && r.Err? ==> r.error == InjectedFailure || r.error == InvalidInput)
                && (old(CheckpointInv(f, disk)) && r == Err(InvalidInput) ==>
                      && Recovered(f, disk) == before
                      && !Acceptable(f, config, requests, 1 + |before|, TailHash(f, before, None)))
                && (r.Ok? ==>
                      && Recovered(f, disk) == before + lines && DurableCount(disk) == |Recovered(f, disk)|
                      && Verified(f, disk) && IsRecords(f, r.value, lines))
      ensures f.Faithful() && Stamped(f, requests) && old(Inv(f, disk)) && r.Ok? ==>
                && HoldsEvents(f, config, requests, Recovered(f, disk), |Recovered(f, old(disk))|)
                && HoldsRecords(f, r.value, Recovered(f, disk), |Recovered(f, old(disk))|)
      ensures f.Faithful() && Stamped(f, requests) && old(Inv(f, disk)) ==>
                RolledOver(config.rolloverEvents, old(disk), disk, r.Ok?)
    {
      hide Stream, Split, Inv, Appended, Recovered, Verified, CheckpointInv, AllPublished, CheckpointRecords, Prepared,
           TailHash, Acceptable, LogFormat.Faithful, FullyDurable, DurableCount, IsRecords, NoEmptyTail, Settled, Open,
           Closed, Tracked, TailClear, FilesCover, HoldsEvents, HoldsRecords, RolledOver;
      if !PublicBatch(requests) {
        RolledOverNothing(config.rolloverEvents, disk);
        return Err(InvalidInput);
      }
      ghost var d0 := disk;
      ghost var ready := f.Faithful() && Stamped(f, requests) && Inv(f, d0);
      ghost var before := Recovered(f, d0);
      ghost var lines := Prepared(f, config, requests, 1 + |before|, TailHash(f, before, None));
      var completed := CompletePendingCheckpoint();
      ghost var d1 := disk;
      if ready { AppendedEmpty(f, d0, d1); AppendedInv(f, d0, d1); AppendedWeaken(f, d0, d1, [], lines); }
      RolledOverNothing(config.rolloverEvents, d1);
      RolledOverFrom(config.rolloverEvents, d0, d1, d1, false);
      if completed.Err? {
        return Err(completed.error);
      }
      r := AppendBatchLocked(requests, false);
      if ready {
        RolledOverFrom(config.rolloverEvents, d0, d1, disk, r.Ok?);
        FilesOn(f, d0, d1, disk);
        AppendedAfterSame(f, d0, d1, disk, lines);
        if CheckpointInv(f, d0) {
          PreparedOrdinary(f, config, requests, 1 + |before|, TailHash(f, before, None));
          CheckpointInvAppended(f, d1, disk, lines);
        }
        if r.Ok? { InvVerified(f, disk); DurableWhenSynced(f, disk); BatchHeld(f, config, requests, before, r.value); }
      }
      return;
    }

    /** `append`. */
    method Append(request: EventRequest) returns (r: Result<EventRecord, StoreError>)
      modifies this`disk, this`countdown
      ensures old(countdown) < 0 ==> countdown < 0 && r != Err(InjectedFailure)
      ensures request.eventType == CHECKPOINT_CREATED ==> r == Err(InvalidInput) && disk == old(disk)
      ensures request.eventType != CHECKPOINT_CREATED && f.Faithful() && f.isUlid(request.ulid) && old(Inv(f, disk)) ==>
                var before := Recovered(f, old(disk));
                var line := f.encode(EnvelopeFor(config, request, 1 + |before|, TailHash(f, before, None)));
                && WriterStep(f, old(disk), disk, [line])
                && (old(CheckpointInv(f, disk)) ==> CheckpointInv(f, disk))
                && (old(CheckpointInv(f, disk)) && r.Err? ==> r.error == InjectedFailure || r.error == InvalidInput)
                && (old(CheckpointInv(f, disk)) && r == Err(InvalidInput) ==>
                      && Recovered(f, disk) == before
                      && !Acceptable(f, config, [request], 1 + |before|, TailHash(f, before, None)))
                && (r.Ok? ==>
                      && Recovered(f, disk) == before + [line] && DurableCount(disk) == |Recovered(f, disk)|
                      && r.value == EventRecord(EnvelopeFor(config, request, 1 + |before|, TailHash(f, before, None)), f.hash(line)))
      ensures f.Faithful() && f.isUlid(request.ulid) && old(Inv(f, disk)) && r.Ok? ==>
                var before := Recovered(f, old(disk));
                && |Recovered(f, disk)| == |before| + 1 && before <= Recovered(f, disk)
                && f.parse(LastOf(Recovered(f, disk))) == Some(r.value.envelope)
                && r.value.eventHash == f.hash(LastOf(Recovered(f, disk)))
                && IsEventOf(r.value.envelope, config, request, 1 + |before|, if before == [] then None else Some(f.hash(LastOf(before))))
      ensures f.Faithful() && f.isUlid(request.ulid) && old(Inv(f, disk)) ==>
                RolledOver(config.rolloverEvents, old(disk), disk, r.Ok?)
    {
      hide Stream, Split, Inv, Appended, Recovered, Verified, CheckpointInv, Prepared, TailHash, DurableCount, EnvelopeFor, WriterStep,
           HoldsEvents, HoldsRecords, IsEventOf, RolledOver;
      ghost var before := Recovered(f, disk);
      PreparedOne(f, config, request, 1 + |before|, TailHash(f, before, None));
      assert [request][0] == request;
      var records := AppendBatch([request]);
      if records.Err? {
        return Err(records.error);
      }
      if |records.value| == 0 {
        return Err(InvalidLayout);
      }
      if f.Faithful() && f.isUlid(request.ulid) && old(Inv(f, disk)) { OneHeld(f, config, request, before, Recovered(f, disk), records.value); }
      return Ok(records.value[0]);
    }

    /** `append_batches`: the batches of one call, in order, on one writer state. */
    method AppendBatches(batches: seq<seq<EventRequest>>) returns (r: Result<AppendStats, StoreError>)
      modifies this`disk, this`countdown
      ensures old(countdown) < 0 ==> countdown < 0 && r != Err(InjectedFailure)
      ensures f.Faithful() && Stamped(f, Concat(batches)) && old(Inv(f, disk)) ==>
                var before := Recovered(f, old(disk));
                var lines := Prepared(f, config, Concat(batches), 1 + |before|, TailHash(f, before, None));
                && WriterStep(f, old(disk), disk, lines)
                && (old(CheckpointInv(f, disk)) ==> CheckpointInv(f, disk))
                && (old(CheckpointInv(f, disk)) && r.Err? ==> r.error == InjectedFailure || r.error == InvalidInput)
                && (old(CheckpointInv(f, disk)) && r == Err(InvalidInput) ==>
                      exists k: nat :: StoppedAt(f, config, old(disk), disk, batches, k))
                && (r.Ok? ==>
                      && (forall i :: 0 <= i < |batches| ==> PublicBatch(batches[i]))
                      && Recovered(f, disk) == before + lines && DurableCount(disk) == |Recovered(f, disk)|
                      && r.value == AppendStats(|batches|, |lines|, Some(1 + |before|), Some(|before| + |lines|)))
      ensures f.Faithful() && Stamped(f, Concat(batches)) && old(Inv(f, disk)) && r.Ok? ==>
                HoldsEvents(f, config, Concat(batches), Recovered(f, disk), |Recovered(f, old(disk))|)
      ensures f.Faithful() && Stamped(f, Concat(batches)) && old(Inv(f, disk)) ==>
                RolledOver(config.rolloverEvents, old(disk), disk, r.Ok?)
    {
      hide Stream, Split, Inv, Appended, Recovered, Verified, CheckpointInv, AllPublished, CheckpointRecords, Prepared,
           TailHash, LogFormat.Faithful, FullyDurable, DurableCount, Settled, Open, Closed, Tracked, TailClear, Matches, Concat,
           Stamped, Attached, BatchProgress, PublicBatch, FilesCover, StoppedAt, HoldsEvents, RolledOver, ClosedFull, HasRoom;
      ghost var d0 := disk;
      ghost var ready := f.Faithful() && Stamped(f, Concat(batches)) && Inv(f, d0);
      ghost var tracked := ready && CheckpointInv(f, d0);
      ghost var before := Recovered(f, d0);
      ghost var lines := Prepared(f, config, Concat(batches), 1 + |before|, TailHash(f, before, None));
      var completed := CompletePendingCheckpoint();
      ghost var d1 := disk;
      if ready { AppendedWeaken(f, d0, d1, [], lines); AppendedInv(f, d0, d1); AppendedEmpty(f, d0, d1); }
      SameFull(config.rolloverEvents, d0, d1);
      ClosingFull(config.rolloverEvents, d0, d1);
      if completed.Err? {
        return Err(completed.error);
      }
      var inspected := InspectAndRollOver();
      if ready { FullFrom(config.rolloverEvents, d0, d1, disk); ClosingFull(config.rolloverEvents, d0, disk); }
      if ready { MaintenanceStep(f, d0, d1, disk, tracked); AppendedWeaken(f, d0, disk, [], lines); FilesOn(f, d0, d1, disk); }
      if inspected.Err? {
        return Err(inspected.error);
      }
      var state := inspected.value;
      if ready { ProgressStart(f, config, d0, disk, state.View(), batches, tracked); }
      r := AppendEach(state, batches, d0, tracked);
      if ready { EventsHeld(f, config, Concat(batches), before); }
    }

    /** The loop over the batches, for a call that began on `d0`. */
    method AppendEach(state: WriterState, batches: seq<seq<EventRequest>>, ghost d0: Disk, ghost tracked: bool)
      returns (r: Result<AppendStats, StoreError>)
      requires Attached(state.View(), disk)
      modifies this`disk, this`countdown, state
      ensures old(countdown) < 0 ==> countdown < 0 && r != Err(InjectedFailure)
      ensures old(BatchProgress(f, config, d0, disk, state.View(), disk, state.View(), batches, 0, NOTHING_APPENDED, tracked))
              && FilesCover(f, d0, old(disk)) ==>
                BatchesOutcome(f, config, d0, disk, batches, tracked, r)
      ensures old(BatchProgress(f, config, d0, disk, state.View(), disk, state.View(), batches, 0, NOTHING_APPENDED, tracked))
              && FilesCover(f, d0, old(disk)) && ClosedFull(config.rolloverEvents, d0, old(disk)) && HasRoom(config.rolloverEvents, old(state.View())) ==>
                RolledOver(config.rolloverEvents, d0, disk, r.Ok?)
    {
      hide Stream, Split, Inv, Appended, Recovered, CheckpointInv, AllPublished, Prepared, TailHash, Acceptable, LogFormat.Faithful,
           FullyDurable, DurableCount, IsRecords, NoEmptyTail, Matches, AppendedSoFar, ReadyToAppend, Concat, Attached,
           BatchProgress, PublicBatch, FilesCover, StoppedAt, ClosedFull, HasRoom, RolledOver;
      ghost var d3, v3 := disk, state.View();
      var stats := NOTHING_APPENDED;
      ghost var ready := BatchProgress(f, config, d0, d3, v3, d3, v3, batches, 0, stats, tracked) && FilesCover(f, d0, d3);
      ghost var roomy := ready && ClosedFull(config.rolloverEvents, d0, d3) && HasRoom(config.rolloverEvents, v3);
      for i := 0 to |batches|
        invariant Attached(state.View(), disk)
        invariant old(countdown) < 0 ==> countdown < 0
        invariant forall j :: 0 <= j < i ==> PublicBatch(batches[j])
        invariant ready ==> BatchProgress(f, config, d0, d3, v3, disk, state.View(), batches, i, stats, tracked)
        invariant stats.batches == i
        invariant ready ==> FilesCover(f, d0, disk)
        invariant roomy ==> ClosedFull(config.rolloverEvents, d0, disk) && HasRoom(config.rolloverEvents, state.View())
      {
        ghost var dk, vk := disk, state.View();
        ClosingFull(config.rolloverEvents, d0, dk);
        if ready { ProgressWithin(f, config, d0, d3, v3, dk, vk, batches, i, stats, tracked); }
        if !PublicBatch(batches[i]) {
          if ready { NotPublicHere(f, config, d0, d3, v3, dk, vk, batches, i, stats, tracked); }
          return Err(InvalidInput);
        }
        var records := AppendBatchToState(state, batches[i], false);
        if ready {
          FilesOn(f, d0, dk, disk);
          ProgressReady(f, config, d0, d3, v3, dk, vk, batches, i, stats, tracked);
          if Acceptable(f, config, batches[i], vk.nextSeq, vk.previousHash) {
            ProgressPart(f, config, d0, d3, v3, dk, vk, batches, i, stats, tracked, disk);
            if roomy {
              FullAppended(f, config.rolloverEvents, d0, dk, disk, Prepared(f, config, batches[i], vk.nextSeq, vk.previousHash));
              ClosingFull(config.rolloverEvents, d0, disk);
            }
            if records.Ok? {
              ProgressNext(f, config, d0, d3, v3, dk, vk, batches, i, stats, tracked, disk, state.View(), records.value);
            }
          } else {
            RefusedHere(f, config, d0, d3, v3, dk, vk, batches, i, stats, tracked);
          }
        }
        if records.Err? {
          return Err(records.error);
        }
        stats := StatsWith(stats, records.value);
      }
      assert batches[..|batches|] == batches;
      if ready {
        ProgressWithin(f, config, d0, d3, v3, disk, state.View(), batches, |batches|, stats, tracked);
        ProgressDone(f, config, d0, d3, v3, disk, state.View(), batches, stats, tracked);
        if roomy { ProgressRoom(f, config, d0, d3, v3, disk, state.View(), batches, stats, tracked); }
        if |batches| == 0 { NoBatches(f, config, d0, disk, batches); }
      }
      return if stats.batches == 0 then Err(InvalidInput) else Ok(stats);
    }
  }

  const NOTHING_APPENDED := AppendStats(0, 0, None, None)

  /** What `append_batches` leaves and reports; with checkpoints tracked, every error is explained. */
  ghost predicate BatchesOutcome(f: LogFormat, config: StoreConfig, d0: Disk, d: Disk, batches: seq<seq<EventRequest>>,
                                 tracked: bool, r: Result<AppendStats, StoreError>)
  {
    var before := Recovered(f, d0);
    var lines := Prepared(f, config, Concat(batches), 1 + |before|, TailHash(f, before, None));
    && Appended(f, d0, d, lines) && FilesCover(f, d0, d)
    && (tracked ==> CheckpointInv(f, d) && (r.Err? ==> r.error == InjectedFailure || r.error == InvalidInput))
    && (tracked && r == Err(InvalidInput) ==> exists k: nat :: StoppedAt(f, config, d0, d, batches, k))
    && (r.Ok? ==>
          && (forall i :: 0 <= i < |batches| ==> PublicBatch(batches[i]))
          && Recovered(f, d) == before + lines && DurableCount(d) == |Recovered(f, d)|
          && r.value == AppendStats(|batches|, |lines|, Some(1 + |before|), Some(|before| + |lines|)))
  }

  /** The first `k` batches are written and the next one is refused, or there was none to write. */
  ghost predicate StoppedAt(f: LogFormat, config: StoreConfig, d0: Disk, d: Disk, batches: seq<seq<EventRequest>>, k: nat) {
    var before, now := Recovered(f, d0), Recovered(f, d);
    && k <= |batches|
    && now == before + Prepared(f, config, Concat(batches[..k]), 1 + |before|, TailHash(f, before, None))
    && (if k == |batches| then k == 0
        else !PublicBatch(batches[k]) || !Acceptable(f, config, batches[k], 1 + |now|, TailHash(f, now, None)))
  }

  datatype AppendStats = AppendStats(batches: nat, eventsAppended: nat, firstSeq: Option<nat>, lastSeq: Option<nat>)

  /** `validate_public_batch`. */
  predicate PublicBatch(requests: seq<EventRequest>) {
    |requests| > 0 && forall i :: 0 <= i < |requests| ==> requests[i].eventType != CHECKPOINT_CREATED
  }

  function Concat(batches: seq<seq<EventRequest>>): seq<EventRequest> {
    if |batches| == 0 then [] else Concat(batches[..|batches| - 1]) + batches[|batches| - 1]
  }

  function NoReferences(): EventReferences {
    EventReferences(None, None, None, None, None, None, None)
  }

  /** The request `create_checkpoint` appends. */
  function CheckpointRequest(ulid: string, eventUlid: string, timeMs: nat, seqNo: nat): EventRequest {
    EventRequest(CHECKPOINT_CREATED, CheckpointPayload("chk_" + ulid, CheckpointPath("chk_" + ulid), seqNo),
                 NoReferences(), eventUlid, timeMs)
  }

  function CheckpointLines(f: LogFormat, config: StoreConfig, d: Disk, ulid: string, eventUlid: string, timeMs: nat): seq<Bytes> {
    var before := Recovered(f, d);
    Prepared(f, config, [CheckpointRequest(ulid, eventUlid, timeMs, 1 + |before|)], 1 + |before|, TailHash(f, before, None))
  }

  /** The event `create_checkpoint` writes: it names its own place, and the file to come. */
  lemma CheckpointEventIs(f: LogFormat, config: StoreConfig, d: Disk, ulid: string, eventUlid: string, timeMs: nat)
    requires f.Faithful()
    ensures var before, lines := Recovered(f, d), CheckpointLines(f, config, d, ulid, eventUlid, timeMs);
            && |lines| == 1 && f.parse(lines[0]).Some?
            && var e := f.parse(lines[0]).value;
               && e.eventType == "checkpoint_created" && e.eventId == "evt_" + eventUlid && e.timeMs == timeMs
               && e.seqNo == 1 + |before| && e.previousEventHash == (if before == [] then None else Some(f.hash(LastOf(before))))
               && e.actorId == config.actorId && e.hostId == config.hostId
               && e.references == EventReferences(None, None, None, None, None, None, None)
               && e.payload.CheckpointPayload? && e.payload.checkpointId == "chk_" + ulid
               && e.payload.checkpointPath.CheckpointPath? && e.payload.checkpointPath.id == "chk_" + ulid
               && e.payload.eventLastSeq == 1 + |before|
  {
    hide Recovered;
    var before := Recovered(f, d);
    var q := CheckpointRequest(ulid, eventUlid, timeMs, 1 + |before|);
    PreparedOne(f, config, q, 1 + |before|, TailHash(f, before, None));
    EnvelopeIs(config, q, 1 + |before|, TailHash(f, before, None));
  }

  /** What `create_checkpoint` leaves and gives, when every earlier checkpoint was in order. */
  ghost predicate CheckpointOutcome(f: LogFormat, config: StoreConfig, d0: Disk, d: Disk, ulid: string, eventUlid: string, timeMs: nat,
                                    r: Result<Checkpoint, StoreError>, lines: seq<Bytes>)
  {
    && (TailClear(f, d) ==> CheckpointInv(f, d))
    && (r.Err? ==> r.error == InjectedFailure || r.error == InvalidInput)
    && (r == Err(InvalidInput) ==> |Recovered(f, d0)| == 0 || CheckpointRefused(f, config, d0, ulid, eventUlid, timeMs))
    && (|lines| > 0 ==> lines == CheckpointLines(f, config, d0, ulid, eventUlid, timeMs))
    && (r.Ok? ==> Recovered(f, d) == Recovered(f, d0) + lines && CheckpointComplete(f, d, r.value))
  }

  lemma StoppedEarly(f: LogFormat, config: StoreConfig, d0: Disk, d: Disk, ulid: string, eventUlid: string, timeMs: nat, error: StoreError)
    requires CheckpointInv(f, d) && (error == InjectedFailure || (error == InvalidInput && |Recovered(f, d0)| == 0))
    ensures CheckpointOutcome(f, config, d0, d, ulid, eventUlid, timeMs, Err(error), [])
  {
    hide Recovered, CheckpointInv, TailClear, CheckpointRefused, CheckpointLines, CheckpointComplete;
  }

  lemma CompletedFirst(f: LogFormat, config: StoreConfig, d0: Disk, d: Disk, ulid: string, eventUlid: string, timeMs: nat, c: Checkpoint)
    requires Appended(f, d0, d, []) && CheckpointInv(f, d) && AllPublished(f, d) && Settled(d)
    requires exists e :: e in ClosedRecords(f, d) && IsTailEvent(d, e) && IsCheckpointOf(f, d, e, c)
    ensures CheckpointOutcome(f, config, d0, d, ulid, eventUlid, timeMs, Ok(c), [])
  {
    hide Recovered, CheckpointInv, TailClear, CheckpointRefused, CheckpointLines, CheckpointComplete, Appended, AllPublished, Settled,
         ClosedRecords, IsTailEvent, IsCheckpointOf;
    CompletedFacts(f, d0, d, c);
  }

  lemma OutcomeLater(f: LogFormat, config: StoreConfig, d0: Disk, d1: Disk, d: Disk, ulid: string, eventUlid: string, timeMs: nat,
                     r: Result<Checkpoint, StoreError>, lines: seq<Bytes>)
    requires Recovered(f, d1) == Recovered(f, d0) && CheckpointOutcome(f, config, d1, d, ulid, eventUlid, timeMs, r, lines)
    ensures CheckpointOutcome(f, config, d0, d, ulid, eventUlid, timeMs, r, lines)
  {
    hide Recovered, CheckpointInv, TailClear, CheckpointRefused, CheckpointLines, CheckpointComplete;
    SameCheckpointLines(f, config, d0, d1, ulid, eventUlid, timeMs);
  }

  lemma SameCheckpointLines(f: LogFormat, config: StoreConfig, d: Disk, d': Disk, ulid: string, eventUlid: string, timeMs: nat)
    requires Recovered(f, d) == Recovered(f, d')
    ensures CheckpointLines(f, config, d, ulid, eventUlid, timeMs) == CheckpointLines(f, config, d', ulid, eventUlid, timeMs)
    ensures CheckpointRefused(f, config, d, ulid, eventUlid, timeMs) == CheckpointRefused(f, config, d', ulid, eventUlid, timeMs)
  {
    hide Recovered, Prepared, Acceptable, TailHash, CheckpointRequest;
  }

  predicate CheckpointRefused(f: LogFormat, config: StoreConfig, d: Disk, ulid: string, eventUlid: string, timeMs: nat) {
    var before := Recovered(f, d);
    !Acceptable(f, config, [CheckpointRequest(ulid, eventUlid, timeMs, 1 + |before|)], 1 + |before|, TailHash(f, before, None))
  }

  /** Freshly drawn identifiers collide with no earlier checkpoint event. */
  ghost predicate FreshId(f: LogFormat, d: Disk, id: string, eventId: string) {
    forall i :: 0 <= i < |ClosedRecords(f, d)| ==>
      CheckpointIdOf(f, ClosedRecords(f, d)[i]) != Some(id) && ClosedRecords(f, d)[i].envelope.eventId != eventId
  }

  /** A step that leaves the checkpoint files alone. */
  lemma FilesOn(f: LogFormat, d0: Disk, d1: Disk, d2: Disk)
    requires FilesCover(f, d0, d1) && d2.checkpoints == d1.checkpoints
    ensures FilesCover(f, d0, d2)
  {
    hide Recovered;
  }

  lemma FilesSynced(f: LogFormat, d: Disk, d': Disk)
    requires d'.checkpoints == d.checkpoints
    ensures FilesCover(f, d, CheckpointsSynced(d'))
  {
    hide Recovered;
  }

  /** A maintenance step appends nothing, and once everything is published keeps it so. */
  lemma MaintenanceStep(f: LogFormat, d0: Disk, d1: Disk, d2: Disk, tracked: bool)
    requires Appended(f, d0, d1, []) && Appended(f, d1, d2, []) && d2.checkpoints == d1.checkpoints
    requires tracked ==> CheckpointInv(f, d1) && AllPublished(f, d1)
    ensures Appended(f, d0, d2, []) && Inv(f, d2) && Recovered(f, d2) == Recovered(f, d0)
    ensures tracked ==> CheckpointInv(f, d2) && AllPublished(f, d2)
  {
    hide Stream, Split, Inv, Recovered, CheckpointInv, AllPublished, Tracked, TailClear, DurableCount, ClosedKept;
    AppendedEmpty(f, d0, d1);
    AppendedSame2(f, d0, d1, d2);
    AppendedEmpty(f, d1, d2);
    if tracked { PublishedStep(f, d0, d1, d2); }
  }

  function BatchLines(f: LogFormat, config: StoreConfig, v: WriterView, batches: seq<seq<EventRequest>>, i: nat): seq<Bytes>
    requires i <= |batches|
  {
    Prepared(f, config, Concat(batches[..i]), v.nextSeq, v.previousHash)
  }

  function StatsAfter(before: nat, batches: nat, events: nat): AppendStats {
    if batches == 0 then AppendStats(0, 0, None, None)
    else AppendStats(batches, events, Some(1 + before), Some(before + events))
  }

  function StatsWith(stats: AppendStats, records: seq<EventRecord>): AppendStats {
    AppendStats(stats.batches + 1, stats.eventsAppended + |records|,
                if stats.firstSeq.None? && |records| > 0 then Some(records[0].envelope.seqNo) else stats.firstSeq,
                if |records| > 0 then Some(LastOf(records).envelope.seqNo) else stats.lastSeq)
  }

  /** After `i` batches: `d0` is the disk at the call, `d` and `v` what the batches start from,
      `dk` and `vk` what they have reached. */
  ghost predicate BatchProgress(f: LogFormat, config: StoreConfig, d0: Disk, d: Disk, v: WriterView, dk: Disk, vk: WriterView,
                                batches: seq<seq<EventRequest>>, i: nat, stats: AppendStats, tracked: bool)
  {
    && i <= |batches| && f.Faithful() && Stamped(f, Concat(batches))
    && Appended(f, d0, d, []) && Recovered(f, d) == Recovered(f, d0) && Stream(d.segments) == Recovered(f, d0)
    && v.nextSeq == 1 + |Recovered(f, d0)| && v.previousHash == TailHash(f, Recovered(f, d0), None)
    && (tracked ==> CheckpointInv(f, d) && AllPublished(f, d) && dk.checkpoints == d.checkpoints)
    && (forall j :: 0 <= j < i ==> PublicBatch(batches[j]))
    && AppendedSoFar(f, vk, d, dk, BatchLines(f, config, v, batches, i))
    && (i > 0 ==> FullyDurable(dk) && |BatchLines(f, config, v, batches, i)| > 0)
    && stats == StatsAfter(|Recovered(f, d0)|, i, |BatchLines(f, config, v, batches, i)|)
  }

  lemma ProgressStart(f: LogFormat, config: StoreConfig, d0: Disk, d: Disk, v: WriterView, batches: seq<seq<EventRequest>>,
                      tracked: bool)
    requires f.Faithful() && Stamped(f, Concat(batches))
    requires Appended(f, d0, d, []) && Matches(f, v, d) && Stream(d.segments) == Recovered(f, d0) == Recovered(f, d)
    requires tracked ==> CheckpointInv(f, d) && AllPublished(f, d)
    ensures BatchProgress(f, config, d0, d, v, d, v, batches, 0, NOTHING_APPENDED, tracked)
  {
    hide Stream, Split, Inv, Recovered, LogFormat.Faithful, Appended, CheckpointInv, AllPublished, FullyDurable, Stamped;
    StartAppend(f, v, d);
    assert batches[..0] == [];
  }

  lemma ConcatNext(batches: seq<seq<EventRequest>>, i: nat)
    requires i < |batches|
    ensures Concat(batches[..i + 1]) == Concat(batches[..i]) + batches[i]
  {
    assert batches[..i + 1][..i] == batches[..i];
  }

  lemma {:induction false} ConcatPrefix(batches: seq<seq<EventRequest>>, i: nat)
    requires i <= |batches|
    ensures Concat(batches[..i]) <= Concat(batches)
    decreases |batches| - i
  {
    if i == |batches| {
      assert batches[..i] == batches;
    } else {
      ConcatNext(batches, i);
      ConcatPrefix(batches, i + 1);
    }
  }

  /** What the writer appends next continues what it has appended. */
  lemma NextBatch(f: LogFormat, config: StoreConfig, d: Disk, dk: Disk, v: WriterView, vk: WriterView,
                  batches: seq<seq<EventRequest>>, i: nat)
    requires i < |batches| && Stamped(f, Concat(batches))
    requires AppendedSoFar(f, vk, d, dk, BatchLines(f, config, v, batches, i))
    requires v.nextSeq == 1 + |Stream(d.segments)| && v.previousHash == TailHash(f, Stream(d.segments), None)
    ensures vk.nextSeq == v.nextSeq + |BatchLines(f, config, v, batches, i)|
    ensures BatchLines(f, config, v, batches, i + 1) ==
            BatchLines(f, config, v, batches, i) + Prepared(f, config, batches[i], vk.nextSeq, vk.previousHash)
    ensures Stamped(f, batches[i])
  {
    hide Stream, Split, Inv, Recovered, LogFormat.Faithful, Prepared, Appended, TailHash;
    var earlier := Concat(batches[..i]);
    var lines := BatchLines(f, config, v, batches, i);
    ConcatNext(batches, i);
    ConcatPrefix(batches, i + 1);
    PreparedConcat(f, config, earlier, batches[i], v.nextSeq, v.previousHash);
    PreparedLength(f, config, earlier, v.nextSeq, v.previousHash);
    TailHashConcat(f, Stream(d.segments), lines);
    forall k | 0 <= k < |batches[i]| ensures f.isUlid(batches[i][k].ulid) {
      assert batches[i][k] == Concat(batches)[|earlier| + k];
    }
  }

  lemma ProgressReady(f: LogFormat, config: StoreConfig, d0: Disk, d: Disk, v: WriterView, dk: Disk, vk: WriterView,
                      batches: seq<seq<EventRequest>>, i: nat, stats: AppendStats, tracked: bool)
    requires BatchProgress(f, config, d0, d, v, dk, vk, batches, i, stats, tracked) && i < |batches|
    ensures Acceptable(f, config, batches[i], vk.nextSeq, vk.previousHash) <==> ReadyToAppend(f, config, vk, dk, batches[i])
  {
    hide Stream, Split, Recovered, LogFormat.Faithful, Prepared, Appended, Acceptable, Matches, FullyDurable, PublicBatch;
    NextBatch(f, config, d, dk, v, vk, batches, i);
  }

  /** Every state between batches is within the call, and keeps the checkpoint invariant. */
  lemma BatchesWithin(f: LogFormat, config: StoreConfig, d0: Disk, d: Disk, d': Disk, v: WriterView,
                      batches: seq<seq<EventRequest>>, i: nat, tracked: bool)
    requires i <= |batches| && f.Faithful() && Appended(f, d0, d, []) && Recovered(f, d) == Recovered(f, d0)
    requires Appended(f, d, d', BatchLines(f, config, v, batches, i))
    requires forall j :: 0 <= j < i ==> PublicBatch(batches[j])
    requires tracked ==> CheckpointInv(f, d) && AllPublished(f, d) && d'.checkpoints == d.checkpoints
    ensures Appended(f, d0, d', Prepared(f, config, Concat(batches), v.nextSeq, v.previousHash))
    ensures tracked ==> CheckpointInv(f, d')
  {
    hide Stream, Split, Inv, Recovered, LogFormat.Faithful, Prepared, Appended, TailHash, CheckpointInv, AllPublished,
         CheckpointRecords;
    var lines, all := BatchLines(f, config, v, batches, i), Prepared(f, config, Concat(batches), v.nextSeq, v.previousHash);
    ConcatPrefix(batches, i);
    PreparedPrefix(f, config, Concat(batches), |Concat(batches[..i])|, v.nextSeq, v.previousHash);
    assert Concat(batches)[..|Concat(batches[..i])|] == Concat(batches[..i]);
    AppendedAfterSame(f, d0, d, d', lines);
    AppendedWeaken(f, d0, d', lines, all);
    if tracked {
      PublicConcat(batches[..i]);
      PreparedOrdinary(f, config, Concat(batches[..i]), v.nextSeq, v.previousHash);
      CheckpointInvAppended(f, d, d', lines);
    }
  }

  lemma ProgressWithin(f: LogFormat, config: StoreConfig, d0: Disk, d: Disk, v: WriterView, dk: Disk, vk: WriterView,
                       batches: seq<seq<EventRequest>>, i: nat, stats: AppendStats, tracked: bool)
    requires BatchProgress(f, config, d0, d, v, dk, vk, batches, i, stats, tracked)
    ensures var before := Recovered(f, d0);
            && Appended(f, d0, dk, Prepared(f, config, Concat(batches), 1 + |before|, TailHash(f, before, None)))
            && Recovered(f, dk) == before +
                 Prepared(f, config, Concat(batches[..i]), 1 + |before|, TailHash(f, before, None))
    ensures tracked ==> CheckpointInv(f, dk)
  {
    hide Stream, Split, Recovered, LogFormat.Faithful, Prepared, Appended, Matches, FullyDurable, PublicBatch, TailHash,
         CheckpointInv, AllPublished, Stamped;
    BatchesWithin(f, config, d0, d, dk, v, batches, i, tracked);
  }

  lemma RefusedHere(f: LogFormat, config: StoreConfig, d0: Disk, d: Disk, v: WriterView, dk: Disk, vk: WriterView,
                    batches: seq<seq<EventRequest>>, i: nat, stats: AppendStats, tracked: bool)
    requires BatchProgress(f, config, d0, d, v, dk, vk, batches, i, stats, tracked) && i < |batches|
    requires !Acceptable(f, config, batches[i], vk.nextSeq, vk.previousHash)
    ensures StoppedAt(f, config, d0, dk, batches, i)
  {
    hide Stream, Split, Recovered, LogFormat.Faithful, Prepared, Appended, Matches, FullyDurable, PublicBatch, TailHash,
         CheckpointInv, AllPublished, Stamped, Acceptable, StatsAfter;
    ProgressWithin(f, config, d0, d, v, dk, vk, batches, i, stats, tracked);
    MatchesNext(f, vk, dk);
  }

  lemma NotPublicHere(f: LogFormat, config: StoreConfig, d0: Disk, d: Disk, v: WriterView, dk: Disk, vk: WriterView,
                      batches: seq<seq<EventRequest>>, i: nat, stats: AppendStats, tracked: bool)
    requires BatchProgress(f, config, d0, d, v, dk, vk, batches, i, stats, tracked) && i < |batches| && !PublicBatch(batches[i])
    ensures StoppedAt(f, config, d0, dk, batches, i)
  {
    hide Stream, Split, Recovered, Prepared, Appended, BatchProgress, PublicBatch, TailHash, CheckpointInv;
    ProgressWithin(f, config, d0, d, v, dk, vk, batches, i, stats, tracked);
  }

  lemma NoBatches(f: LogFormat, config: StoreConfig, d0: Disk, d: Disk, batches: seq<seq<EventRequest>>)
    requires |batches| == 0
    requires Recovered(f, d) == Recovered(f, d0) + Prepared(f, config, Concat(batches), 1 + |Recovered(f, d0)|, TailHash(f, Recovered(f, d0), None))
    ensures StoppedAt(f, config, d0, d, batches, 0)
  {
    hide Stream, Split, Recovered, Prepared, TailHash;
    assert batches[..0] == batches;
  }

  /** An interrupted batch. */
  lemma ProgressPart(f: LogFormat, config: StoreConfig, d0: Disk, d: Disk, v: WriterView, dk: Disk, vk: WriterView,
                     batches: seq<seq<EventRequest>>, i: nat, stats: AppendStats, tracked: bool, d': Disk)
    requires BatchProgress(f, config, d0, d, v, dk, vk, batches, i, stats, tracked)
    requires i < |batches| && PublicBatch(batches[i]) && d'.checkpoints == dk.checkpoints
    requires Appended(f, dk, d', Prepared(f, config, batches[i], vk.nextSeq, vk.previousHash))
    ensures var before := Recovered(f, d0);
            Appended(f, d0, d', Prepared(f, config, Concat(batches), 1 + |before|, TailHash(f, before, None)))
    ensures tracked ==> CheckpointInv(f, d')
  {
    hide Stream, Split, Recovered, LogFormat.Faithful, Prepared, Appended, Matches, FullyDurable, PublicBatch, TailHash,
         CheckpointInv, AllPublished, AppendedSoFar, Stamped;
    NextBatch(f, config, d, dk, v, vk, batches, i);
    AppendMore(f, vk, d, dk, BatchLines(f, config, v, batches, i), d',
               Prepared(f, config, batches[i], vk.nextSeq, vk.previousHash));
    BatchesWithin(f, config, d0, d, d', v, batches, i + 1, tracked);
  }

  lemma ProgressNext(f: LogFormat, config: StoreConfig, d0: Disk, d: Disk, v: WriterView, dk: Disk, vk: WriterView,
                     batches: seq<seq<EventRequest>>, i: nat, stats: AppendStats, tracked: bool,
                     d': Disk, v': WriterView, records: seq<EventRecord>)
    requires BatchProgress(f, config, d0, d, v, dk, vk, batches, i, stats, tracked)
    requires i < |batches| && PublicBatch(batches[i]) && d'.checkpoints == dk.checkpoints && FullyDurable(d')
    requires ReadyToAppend(f, config, vk, dk, batches[i])
    requires var more := Prepared(f, config, batches[i], vk.nextSeq, vk.previousHash);
             AppendedSoFar(f, v', dk, d', more) && IsRecords(f, records, more)
    ensures BatchProgress(f, config, d0, d, v, d', v', batches, i + 1, StatsWith(stats, records), tracked)
  {
    hide Stream, Split, Recovered, LogFormat.Faithful, Prepared, Appended, Matches, FullyDurable, PublicBatch, TailHash,
         CheckpointInv, AllPublished, AppendedSoFar, Stamped, ReadyToAppend, IsRecords;
    var more := Prepared(f, config, batches[i], vk.nextSeq, vk.previousHash);
    NextBatch(f, config, d, dk, v, vk, batches, i);
    SoFarMatches(f, v', dk, d', more);
    SoFarFacts(f, v', dk, d', more);
    hide StatsWith, StatsAfter;
    AppendMore(f, vk, d, dk, BatchLines(f, config, v, batches, i), d', more);
    RecordNumbers(f, config, vk, dk, batches[i], records);
    if i == 0 {
      assert batches[..0] == [];
      PreparedNothing(f, config, v.nextSeq, v.previousHash);
    }
    StatsNext(|Recovered(f, d0)|, i, |BatchLines(f, config, v, batches, i)|, stats, records);
    ProgressMore(f, config, d0, d, v, dk, vk, batches, i, stats, tracked, d', v', StatsWith(stats, records));
  }

  lemma StatsNext(before: nat, i: nat, events: nat, stats: AppendStats, records: seq<EventRecord>)
    requires stats == StatsAfter(before, i, events) && (i == 0 ==> events == 0) && |records| > 0
    requires records[0].envelope.seqNo == 1 + before + events && LastOf(records).envelope.seqNo == before + events + |records|
    ensures StatsWith(stats, records) == StatsAfter(before, i + 1, events + |records|)
  {
  }

  lemma ProgressMore(f: LogFormat, config: StoreConfig, d0: Disk, d: Disk, v: WriterView, dk: Disk, vk: WriterView,
                     batches: seq<seq<EventRequest>>, i: nat, stats: AppendStats, tracked: bool,
                     d': Disk, v': WriterView, stats': AppendStats)
    requires BatchProgress(f, config, d0, d, v, dk, vk, batches, i, stats, tracked)
    requires i < |batches| && PublicBatch(batches[i]) && d'.checkpoints == dk.checkpoints && FullyDurable(d')
    requires AppendedSoFar(f, v', d, d', BatchLines(f, config, v, batches, i + 1)) && |BatchLines(f, config, v, batches, i + 1)| > 0
    requires stats' == StatsAfter(|Recovered(f, d0)|, i + 1, |BatchLines(f, config, v, batches, i + 1)|)
    ensures BatchProgress(f, config, d0, d, v, d', v', batches, i + 1, stats', tracked)
  {
    hide Stream, Split, Recovered, LogFormat.Faithful, Prepared, Appended, Matches, FullyDurable, PublicBatch, TailHash,
         CheckpointInv, AllPublished, AppendedSoFar, Stamped, BatchLines, StatsAfter;
  }

  lemma ProgressDone(f: LogFormat, config: StoreConfig, d0: Disk, d: Disk, v: WriterView, dk: Disk, vk: WriterView,
                     batches: seq<seq<EventRequest>>, stats: AppendStats, tracked: bool)
    requires BatchProgress(f, config, d0, d, v, dk, vk, batches, |batches|, stats, tracked)
    ensures var before := Recovered(f, d0);
            stats == StatsAfter(|before|, |batches|,
                       |Prepared(f, config, Concat(batches), 1 + |before|, TailHash(f, before, None))|)
    ensures |batches| > 0 ==> DurableCount(dk) == |Recovered(f, dk)|
  {
    hide Stream, Split, Recovered, LogFormat.Faithful, Prepared, Appended, Matches, FullyDurable, PublicBatch, TailHash,
         CheckpointInv, AllPublished, AppendedSoFar, Stamped, Inv, Settled;
    assert batches[..|batches|] == batches;
    SoFarFacts(f, vk, d, dk, BatchLines(f, config, v, batches, |batches|));
    if |batches| > 0 { DurableWhenSynced(f, dk); }
  }

  lemma ProgressRoom(f: LogFormat, config: StoreConfig, d0: Disk, d: Disk, v: WriterView, dk: Disk, vk: WriterView,
                     batches: seq<seq<EventRequest>>, stats: AppendStats, tracked: bool)
    requires BatchProgress(f, config, d0, d, v, dk, vk, batches, |batches|, stats, tracked)
    requires ClosedFull(config.rolloverEvents, d0, dk) && HasRoom(config.rolloverEvents, vk)
    ensures RolledOver(config.rolloverEvents, d0, dk, true) && RolledOver(config.rolloverEvents, d0, dk, false)
  {
    hide Stream, Split, Recovered, LogFormat.Faithful, Prepared, Appended, FullyDurable, PublicBatch, TailHash,
         CheckpointInv, AllPublished, AppendedSoFar, Stamped, Inv, ClosedFull, HasRoom, Open;
    SoFarRoom(f, config.rolloverEvents, vk, d, dk, BatchLines(f, config, v, batches, |batches|));
  }

  lemma {:induction false} PublicConcat(batches: seq<seq<EventRequest>>)
    requires forall j :: 0 <= j < |batches| ==> PublicBatch(batches[j])
    ensures forall k :: 0 <= k < |Concat(batches)| ==> Concat(batches)[k].eventType != CHECKPOINT_CREATED
  {
    if |batches| > 0 {
      PublicConcat(batches[..|batches| - 1]);
    }
  }

  /** The first and last sequence numbers of a batch's records. */
  lemma RecordNumbers(f: LogFormat, config: StoreConfig, v: WriterView, d: Disk, requests: seq<EventRequest>,
                      records: seq<EventRecord>)
    requires ReadyToAppend(f, config, v, d, requests) && PublicBatch(requests)
    requires IsRecords(f, records, Prepared(f, config, requests, v.nextSeq, v.previousHash))
    ensures |records| == |requests| == |Prepared(f, config, requests, v.nextSeq, v.previousHash)| && |records| > 0
    ensures records[0].envelope.seqNo == v.nextSeq && LastOf(records).envelope.seqNo == v.nextSeq + |records| - 1
  {
    hide Matches, Prepared, Acceptable;
    var lines := Prepared(f, config, requests, v.nextSeq, v.previousHash);
    PreparedValid(f, config, requests, v.nextSeq, v.previousHash);
    var n := |lines| - 1;
    assert LineOk(f, lines[0], v.nextSeq + 0, PreviousAt(f, lines, 0, v.previousHash));
    assert LineOk(f, lines[n], v.nextSeq + n, PreviousAt(f, lines, n, v.previousHash));
  }

  method FindCheckpoint(checkpoints: seq<Checkpoint>, id: string) returns (r: Option<Checkpoint>)
    ensures r.None? <==> forall i :: 0 <= i < |checkpoints| ==> checkpoints[i].checkpointId != id
    ensures r.Some? ==> r.value in checkpoints && r.value.checkpointId == id
  {
    for i := 0 to |checkpoints|
      invariant forall j :: 0 <= j < i ==> checkpoints[j].checkpointId != id
    {
      if checkpoints[i].checkpointId == id {
        return Some(checkpoints[i]);
      }
    }
    return None;
  }

  lemma InvPieces(f: LogFormat, d: Disk)
    requires CheckpointInv(f, d)
    ensures Tracked(f, d) && TailClear(f, d)
  {
  }

  /** What a created or completed checkpoint means: the log and all checkpoints verify, nothing
      is pending or half-durable, and `c` is the checkpoint of the last event. */
  ghost predicate CheckpointComplete(f: LogFormat, d: Disk, c: Checkpoint) {
    && Verified(f, d) && CheckpointsOk(f, d) && CheckpointInv(f, d) && AllPublished(f, d)
    && DurableCount(d) == |Recovered(f, d)|
    && exists e :: e in ClosedRecords(f, d) && IsTailEvent(d, e) && IsCheckpointOf(f, d, e, c)
  }

  /** A tracked checkpoint event at the closed tail, without its file. */
  ghost predicate IsPending(f: LogFormat, d: Disk, e: EventRecord) {
    && Inv(f, d) && Open(d).None? && CheckpointInv(f, d)
    && e in ClosedRecords(f, d) && IsTailEvent(d, e) && !HasFile(f, d, e) && CheckpointIdOf(f, e).Some?
    && TailHash(f, Stream(d.segments), None) == Some(e.eventHash)
    && exists k: nat :: EndsAt(d, k, e.envelope.seqNo)
  }

  /** A verified log whose last event is a checkpoint event still lacking its file. */
  ghost predicate AwaitsFile(f: LogFormat, d: Disk, e: EventRecord) {
    && Inv(f, d) && Settled(d) && FullyDurable(d) && Verified(f, d) && CheckpointInv(f, d)
    && e in ClosedRecords(f, d) && IsTailEvent(d, e) && !HasFile(f, d, e) && CheckpointIdOf(f, e).Some?
    && TailHash(f, Stream(d.segments), None) == Some(e.eventHash)
    && exists k: nat :: EndsAt(d, k, e.envelope.seqNo)
  }

  lemma NowComplete(f: LogFormat, d: Disk, e: EventRecord, c: Checkpoint)
    requires Verified(f, d) && CheckpointsOk(f, d) && CheckpointInv(f, d) && AllPublished(f, d)
    requires DurableCount(d) == |Recovered(f, d)|
    requires e in ClosedRecords(f, d) && IsTailEvent(d, e) && IsCheckpointOf(f, d, e, c)
    ensures CheckpointComplete(f, d, c)
  {
  }

  lemma CompletedFacts(f: LogFormat, d0: Disk, d: Disk, c: Checkpoint)
    requires Appended(f, d0, d, []) && CheckpointInv(f, d) && AllPublished(f, d) && Settled(d)
    requires exists e :: e in ClosedRecords(f, d) && IsTailEvent(d, e) && IsCheckpointOf(f, d, e, c)
    ensures CheckpointComplete(f, d, c) && Recovered(f, d) == Recovered(f, d0) + []
  {
    hide Stream, Split, Inv, Recovered, Verified, CheckpointsOk, Tracked, TailClear, ClosedRecords, IsCheckpointOf;
    InvVerified(f, d);
    FullVerifyExactly(f, d);
    AppendedEmpty(f, d0, d);
    assert Open(d).None?;
    RecoveredByPieces(f, d);
    assert Recovered(f, d0) + [] == Recovered(f, d0);
  }

  lemma FreshLater(f: LogFormat, d0: Disk, d: Disk, id: string, eventId: string)
    requires CheckpointInv(f, d0) && Appended(f, d0, d, []) && FreshId(f, d0, id, eventId)
    ensures FreshId(f, d, id, eventId)
  {
    hide Stream, Split, Recovered, CheckpointRecords, ClosedRecords, RecordTracked, TailClear;
    assert TailClear(f, d0);
    RecordsKept(f, d0, d, []);
  }

  /** A maintenance step after everything was published. */
  lemma PublishedStep(f: LogFormat, d0: Disk, d1: Disk, d2: Disk)
    requires Appended(f, d0, d1, []) && Appended(f, d1, d2, []) && d2.checkpoints == d1.checkpoints
    requires CheckpointInv(f, d1) && AllPublished(f, d1)
    ensures Appended(f, d0, d2, []) && Inv(f, d2) && Recovered(f, d2) == Recovered(f, d0)
    ensures CheckpointInv(f, d2) && AllPublished(f, d2)
  {
    hide Stream, Split, Inv, Recovered, CheckpointInv, AllPublished, Tracked, TailClear, DurableCount, ClosedKept;
    AppendedEmpty(f, d0, d1);
    AppendedSame2(f, d0, d1, d2);
    AppendedEmpty(f, d1, d2);
    CheckpointInvAppended(f, d1, d2, []);
  }

  lemma MatchesNext(f: LogFormat, v: WriterView, d: Disk)
    requires Matches(f, v, d)
    ensures v.nextSeq == 1 + |Recovered(f, d)| && v.previousHash == TailHash(f, Recovered(f, d), None) && Inv(f, d)
  {
    hide Stream, Split, Inv;
    RecoveredByPieces(f, d);
    ClosedOpen(d);
    assert Stream(d.segments) + [] == Stream(d.segments);
  }

  lemma PreparedOne(f: LogFormat, config: StoreConfig, q: EventRequest, first: nat, before: Option<Digest>)
    ensures Prepared(f, config, [q], first, before) == [f.encode(EnvelopeFor(config, q, first, before))]
  {
    assert [q][..0] == [];
    assert Prepared(f, config, [], first, before) == [];
  }

  lemma CheckpointLineFresh(f: LogFormat, config: StoreConfig, d: Disk, ulid: string, q: EventRequest,
                            previous: Option<Digest>, line: Bytes)
    requires f.Faithful() && f.isUlid(ulid) && CheckpointInv(f, d)
    requires FreshId(f, d, "chk_" + ulid, "evt_" + q.ulid)
    requires q.eventType == CHECKPOINT_CREATED
    requires q.payload == CheckpointPayload("chk_" + ulid, CheckpointPath("chk_" + ulid), 1 + |Recovered(f, d)|)
    requires line == f.encode(EnvelopeFor(config, q, 1 + |Recovered(f, d)|, previous))
    ensures FreshCheckpointLine(f, d, line) && IsCheckpointLine(f, line)
  {
    hide Stream, Split, Recovered, CheckpointRecords, ClosedRecords, RecordTracked;
    assert ("chk_" + ulid)[|"chk_"|..] == ulid;
    assert f.parse(line) == Some(EnvelopeFor(config, q, 1 + |Recovered(f, d)|, previous));
    assert CheckpointIdOf(f, RecordOf(f, line)) == Some("chk_" + ulid);
  }

  lemma AppendedOne(f: LogFormat, d: Disk, d': Disk, lines: seq<Bytes>)
    requires Appended(f, d, d', lines) && |lines| == 1
    ensures lines == [lines[0]]
    ensures Recovered(f, d') == Recovered(f, d) + [lines[0]] ==> |Recovered(f, d')| == |Recovered(f, d)| + |lines|
  {
    hide Inv, Recovered, DurableCount, ClosedKept;
  }

  /** The appended checkpoint event is the tail, and its file is still missing. */
  lemma CreatedTail(f: LogFormat, d: Disk, d': Disk, line: Bytes, records: seq<EventRecord>)
    requires Inv(f, d') && Settled(d') && FullyDurable(d') && Open(d').None? && FreshCheckpointLine(f, d, line)
    requires Stream(d'.segments) == Recovered(f, d) + [line] && d'.checkpoints == d.checkpoints
    requires IsRecords(f, records, [line])
    requires TailClear(f, d') ==> CheckpointInv(f, d')
    ensures CheckpointInv(f, d') && |records| == 1 && AwaitsFile(f, d', records[0])
  {
    hide Stream, Split, Inv, Recovered, CheckpointRecords, ClosedRecords, Tracked, EndsAt, Verified, IsCheckpointOf;
    InvVerified(f, d');
    assert TailClear(f, d');
    var e := records[0];
    assert e == RecordOf(f, [line][0]);
    assert LastOf(Stream(d'.segments)) == line;
    CheckpointTail(f, d', e);
  }

  lemma AfterPublish(f: LogFormat, d0: Disk, d: Disk, d': Disk, lines: seq<Bytes>)
    requires Appended(f, d0, d, lines) && d' == d.(checkpoints := d'.checkpoints)
    ensures Appended(f, d0, d', lines) && Recovered(f, d') == Recovered(f, d) && DurableCount(d') == DurableCount(d)
    ensures TailClear(f, d') == TailClear(f, d) && Inv(f, d')
    ensures Settled(d') == Settled(d) && FullyDurable(d') == FullyDurable(d)
  {
    hide Stream, Split, Inv, Recovered, DurableCount, CheckpointRecords, TailClear;
    CheckpointIndependent(f, d, d');
    AppendedThenSame(f, d0, d, d', lines);
  }

  lemma CreatedVerifies(f: LogFormat, d: Disk, d': Disk)
    requires Inv(f, d) && Settled(d) && FullyDurable(d) && d' == d.(checkpoints := d'.checkpoints)
    requires CheckpointInv(f, d') && AllPublished(f, d')
    ensures Verified(f, d') && CheckpointsOk(f, d') && DurableCount(d') == |Recovered(f, d')|
  {
    hide Stream, Split, Inv, Recovered, DurableCount, CheckpointRecords, AllPublished, Tracked, TailClear, CheckpointsOk, Verified,
         ClosedRecords, IsCheckpointOf;
    CheckpointIndependent(f, d, d');
    InvVerified(f, d');
    FullVerifyExactly(f, d');
    DurableWhenSynced(f, d');
  }

  lemma DiscoveredIsBuilt(f: LogFormat, d: Disk, report: Report, e: EventRecord, c: Checkpoint, found: Option<Checkpoint>)
    requires Verified(f, d) && CheckpointsOk(f, d) && IsTailEvent(d, e) && e in ClosedRecords(f, d) && IsCheckpointOf(f, d, e, c)
    requires |report.checkpoints| == |CheckpointRecords(f, Stream(d.segments))|
    requires forall i :: 0 <= i < |report.checkpoints| ==>
               var r := CheckpointRecords(f, Stream(d.segments))[i];
               HasFile(f, d, r) && report.checkpoints[i] == d.checkpoints[CheckpointIdOf(f, r).value].checkpoint
    requires found.None? ==> forall i :: 0 <= i < |report.checkpoints| ==> report.checkpoints[i].checkpointId != c.checkpointId
    requires found.Some? ==> found.value in report.checkpoints && found.value.checkpointId == c.checkpointId
    ensures found == Some(c)
  {
    hide Stream, Split, CheckpointRecords, IsCheckpointOf, Verified;
    var rs := CheckpointRecords(f, Stream(d.segments));
    assert Closed(d) == d.segments;
    var j :| 0 <= j < |rs| && rs[j] == e;
    CheckpointFields(f, d, e, c);
    IsCheckpointOfUnique(f, d, e, report.checkpoints[j], c);
    var i :| 0 <= i < |report.checkpoints| && report.checkpoints[i] == found.value;
    CheckpointFields(f, d, rs[i], report.checkpoints[i]);
    assert CheckpointIdOf(f, rs[i]) == CheckpointIdOf(f, rs[j]);
  }

  lemma {:induction false} PreparedOrdinary(f: LogFormat, config: StoreConfig, requests: seq<EventRequest>,
                                            first: nat, before: Option<Digest>)
    requires f.Faithful() && forall i :: 0 <= i < |requests| ==> requests[i].eventType != CHECKPOINT_CREATED
    ensures NoCheckpointIn(f, Prepared(f, config, requests, first, before))
    decreases |requests|
  {
    hide Prepared, TailHash;
    if |requests| == 0 {
      assert requests == [];
      PreparedNothing(f, config, first, before);
    } else {
      var init := requests[..|requests| - 1];
      PreparedOrdinary(f, config, init, first, before);
      PreparedUnfold(f, config, requests, first, before);
    }
  }

  /** The record with a given event id, as `find` would return it. */
  method FindRecord(records: seq<EventRecord>, eventId: string) returns (r: Option<EventRecord>)
    ensures r.None? <==> forall i :: 0 <= i < |records| ==> records[i].envelope.eventId != eventId
    ensures r.Some? ==> r.value in records && r.value.envelope.eventId == eventId
  {
    for i := 0 to |records|
      invariant forall j :: 0 <= j < i ==> records[j].envelope.eventId != eventId
    {
      if records[i].envelope.eventId == eventId {
        return Some(records[i]);
      }
    }
    return None;
  }

  /** `report_from_closed_state`. */
  method ReportFromClosedState(state: WriterState) returns (report: Report)
    ensures report == ClosedReport(state.View())
  {
    return ClosedReport(state.View());
  }

  function ClosedReport(v: WriterView): Report {
    Report(if v.nextSeq > 0 then v.nextSeq - 1 else 0, v.previousHash,
           seq(|v.closed|, i requires 0 <= i < |v.closed| =>
             VerifiedSegment(v.closed[i].firstSeq, Some(v.closed[i].lastSeq), v.closed[i].eventCount, Some(v.closed[i]))), [])
  }

  lemma ClosedReportReports(f: LogFormat, v: WriterView, d: Disk)
    requires Matches(f, v, d) && v.open.None?
    ensures ReportsOn(f, d, ClosedReport(v))
  {
    hide Stream, Split, Chain, TailHash, GoodStream, SegmentReport, ManifestFor;
    forall i | 0 <= i < |d.segments| ensures ClosedReport(v).segments[i] == SegmentReport(d, d.segments[i]) {
      var s := d.segments[i];
      assert s == Closed(d)[i] && s.first in d.manifests && IsClosed(f, s, d.manifests[s.first].manifest);
      ClosedSegmentReport(f, d, s);
    }
  }

  lemma ClosedSegmentReport(f: LogFormat, d: Disk, s: SegmentFile)
    requires s.first in d.manifests && IsClosed(f, s, d.manifests[s.first].manifest)
    ensures var m := d.manifests[s.first].manifest;
            SegmentReport(d, s) == VerifiedSegment(m.firstSeq, Some(m.lastSeq), m.eventCount, Some(m))
  {
    hide Split;
  }

  lemma LastEventFacts(f: LogFormat, d: Disk)
    requires Verified(f, d) && |d.segments| > 0 && LastOf(d.segments).first in d.manifests
    ensures var s := LastOf(d.segments); var m := d.manifests[s.first].manifest; var lines := Stream(d.segments);
            && |lines| > 0 && LastOfLines(s.bytes) == LastOf(lines) && EndsWithNewline(s.bytes)
            && |LastOf(lines)| <= f.maxEventBytes && f.parse(LastOf(lines)).Some?
            && f.parse(LastOf(lines)).value.seqNo == m.lastSeq
            && f.parse(LastOf(lines)).value.eventId == m.lastEventId
            && f.hash(LastOf(lines)) == m.lastEventHash
  {
    hide Split, Chain, FileOf;
    var n := |d.segments|;
    var s := d.segments[n - 1];
    assert SegmentVerified(f, d, n - 1);
    var lines := Stream(d.segments);
    assert lines == Stream(d.segments[..n - 1]) + LinesOf(s);
    assert LastOf(lines) == LastOf(LinesOf(s));
    VerifiedChain(f, d);
    LastLineOk(f, lines);
    TerminatedFile(s.bytes);
  }

  lemma LastLineOk(f: LogFormat, lines: seq<Bytes>)
    requires Chain(f, lines, 1, None) && |lines| > 0
    ensures |LastOf(lines)| <= f.maxEventBytes && f.parse(LastOf(lines)).Some?
    ensures f.parse(LastOf(lines)).value.seqNo == |lines|
  {
    var n := |lines| - 1;
    assert LineOk(f, lines[n], 1 + n, PreviousAt(f, lines, n, None));
  }

  lemma TerminatedFile(bytes: Bytes)
    requires Split(bytes).rest == [] && |Split(bytes).lines| > 0
    ensures EndsWithNewline(bytes)
  {
  }

  lemma MatchesFacts(f: LogFormat, v: WriterView, d: Disk)
    requires Matches(f, v, d)
    ensures Inv(f, d) && Settled(d) && Verified(f, d)
    ensures v.open.Some? == Open(d).Some?
    ensures v.open.None? && |v.closed| > 0 && |d.segments| > 0 ==>
              && LastOf(d.segments).first in d.manifests
              && LastOf(v.closed) == d.manifests[LastOf(d.segments).first].manifest
    ensures v.open.None? ==> |v.closed| == |d.segments|
    ensures v.open.None? ==> ReportsOn(f, d, ClosedReport(v))
  {
    hide Stream, Split, Verified, Inv, ReportsOn;
    InvVerified(f, d);
    if v.open.None? {
      ClosedReportReports(f, v, d);
    }
  }

  lemma InspectedTracked(f: LogFormat, d: Disk, d': Disk)
    requires Inv(f, d) && CheckpointInv(f, d) && Appended(f, d, d', []) && d'.checkpoints == d.checkpoints
    requires Open(d).None? ==> d'.segments == d.segments && Open(d').None?
    ensures CheckpointInv(f, d')
  {
    hide Stream, Split, Inv, Appended, Tracked, TailClear;
    CheckpointInvAppended(f, d, d', []);
  }

  lemma OpenPublished(f: LogFormat, d: Disk)
    requires Open(d).Some? && CheckpointInv(f, d)
    ensures AllPublished(f, d)
  {
    hide Stream, CheckpointRecords;
    var rs := ClosedRecords(f, d);
    forall i | 0 <= i < |rs| ensures FileDurable(f, d, rs[i]) {
      TrackedFile(f, d, rs[i]);
    }
  }

  lemma NoTailEventPublished(f: LogFormat, d: Disk)
    requires CheckpointInv(f, d) && forall r :: r in ClosedRecords(f, d) ==> !IsTailEvent(d, r)
    ensures AllPublished(f, d)
  {
    hide Stream, CheckpointRecords, IsTailEvent;
    var rs := ClosedRecords(f, d);
    forall i | 0 <= i < |rs| ensures FileDurable(f, d, rs[i]) {
      TrackedFile(f, d, rs[i]);
    }
  }

  lemma EmptyPublished(f: LogFormat, v: WriterView, d: Disk)
    requires Matches(f, v, d) && v.open.None? && CheckpointInv(f, d) && (|v.closed| == 0 || |d.segments| == 0)
    ensures AllPublished(f, d)
  {
    hide Split, Inv;
    assert |d.segments| == 0;
  }

  lemma OrdinaryTailPublished(f: LogFormat, v: WriterView, d: Disk, e: EventRecord)
    requires Matches(f, v, d) && v.open.None? && CheckpointInv(f, d)
    requires |Stream(d.segments)| > 0 && f.parse(LastOf(Stream(d.segments))).Some?
    requires e == RecordOf(f, LastOf(Stream(d.segments))) && e.envelope.eventType != CHECKPOINT_CREATED
    ensures AllPublished(f, d)
  {
    hide Stream, Split, Inv, CheckpointInv, CheckpointRecords;
    forall r | r in ClosedRecords(f, d) ensures !IsTailEvent(d, r) {
      if IsTailEvent(d, r) {
        TailEventIsLast(f, d, r);
        assert false;
      }
    }
    NoTailEventPublished(f, d);
  }

  /** A checkpoint event at the closed tail is one of the tracked records. */
  lemma CheckpointTail(f: LogFormat, d: Disk, e: EventRecord)
    requires Inv(f, d) && Open(d).None? && CheckpointInv(f, d)
    requires |Stream(d.segments)| > 0 && f.parse(LastOf(Stream(d.segments))).Some?
    requires e == RecordOf(f, LastOf(Stream(d.segments))) && e.envelope.eventType == CHECKPOINT_CREATED
    ensures e in ClosedRecords(f, d) && IsTailEvent(d, e) && CheckpointIdOf(f, e).Some?
    ensures TailHash(f, Stream(d.segments), None) == Some(e.eventHash)
    ensures exists k: nat :: EndsAt(d, k, e.envelope.seqNo)
    ensures HasFile(f, d, e) ==> IsCheckpointOf(f, d, e, d.checkpoints[CheckpointIdOf(f, e).value].checkpoint)
  {
    hide Split, Chain, CheckpointRecords, Stream, IsCheckpointOf, EndsAt;
    var lines := Stream(d.segments);
    CheckpointRecordsExact(f, lines);
    assert IsCheckpointLine(f, lines[|lines| - 1]);
    assert Closed(d) == d.segments;
    assert e in ClosedRecords(f, d);
    LastSeqNo(f, lines);
    var i :| 0 <= i < |ClosedRecords(f, d)| && ClosedRecords(f, d)[i] == e;
    assert RecordTracked(f, d, ClosedRecords(f, d)[i]);
  }

  lemma ExistingAgrees(f: LogFormat, d: Disk, e: EventRecord, built: Result<Checkpoint, StoreError>)
    requires Verified(f, d) && HasFile(f, d, e)
    requires IsCheckpointOf(f, d, e, d.checkpoints[CheckpointIdOf(f, e).value].checkpoint)
    requires built.Ok? ==> IsCheckpointOf(f, d, e, built.value)
    ensures built.Ok? ==> built.value == d.checkpoints[CheckpointIdOf(f, e).value].checkpoint
  {
    hide Verified, IsCheckpointOf;
    if built.Ok? {
      IsCheckpointOfUnique(f, d, e, built.value, d.checkpoints[CheckpointIdOf(f, e).value].checkpoint);
    }
  }

  lemma IndependentAppended(f: LogFormat, d0: Disk, d1: Disk, d2: Disk)
    requires Appended(f, d0, d1, []) && d2 == d1.(checkpoints := d2.checkpoints)
    ensures Appended(f, d0, d2, []) && Recovered(f, d2) == Recovered(f, d0)
    ensures Settled(d2) == Settled(d1)
  {
    hide Stream, Split, Inv, Recovered;
    CheckpointIndependent(f, d1, d2);
    AppendedEmpty(f, d0, d1);
    AppendedSame2(f, d0, d1, d2);
  }

  lemma SyncedPublished(f: LogFormat, d: Disk, e: EventRecord)
    requires Inv(f, d) && CheckpointInv(f, d) && e in ClosedRecords(f, d) && IsTailEvent(d, e) && HasFile(f, d, e)
    ensures CheckpointInv(f, CheckpointsSynced(d)) && AllPublished(f, CheckpointsSynced(d))
  {
    hide Stream, Split, Inv, CheckpointInv, CheckpointRecords, ClosedRecords;
    forall r | r in ClosedRecords(f, d) && IsTailEvent(d, r) ensures HasFile(f, d, r) {
      TailEventIsLast(f, d, r);
      TailEventIsLast(f, d, e);
    }
    CheckpointInvSynced(f, d);
  }

  lemma FoundIsTail(f: LogFormat, d: Disk, records: seq<EventRecord>, found: Option<EventRecord>, e: EventRecord)
    requires CheckpointInv(f, d) && Open(d).None? && e in ClosedRecords(f, d)
    requires records == CheckpointRecords(f, Stream(d.segments))
    requires found.None? <==> forall i :: 0 <= i < |records| ==> records[i].envelope.eventId != e.envelope.eventId
    requires found.Some? ==> found.value in records && found.value.envelope.eventId == e.envelope.eventId
    ensures found == Some(e)
  {
    hide Stream, Split, CheckpointRecords, RecordTracked;
    assert Closed(d) == d.segments;
    var rs := ClosedRecords(f, d);
    assert rs == records;
    var j :| 0 <= j < |rs| && rs[j] == e;
    var i :| 0 <= i < |rs| && rs[i] == found.value && found.value.envelope.eventId == e.envelope.eventId;
    if i < j {
      assert false;
    } else if j < i {
      assert false;
    }
  }

  lemma PendingBuilds(f: LogFormat, d: Disk, e: EventRecord, built: Result<Checkpoint, StoreError>)
    requires IsTailEvent(d, e) && CheckpointIdOf(f, e).Some?
    requires built.Ok? <==> && CheckpointIdOf(f, e).Some? && e.envelope.seqNo == |Stream(d.segments)|
                            && TailHash(f, Stream(d.segments), None) == Some(e.eventHash)
                            && exists k: nat :: EndsAt(d, k, e.envelope.seqNo)
    requires TailHash(f, Stream(d.segments), None) == Some(e.eventHash)
    requires exists k: nat :: EndsAt(d, k, e.envelope.seqNo)
    ensures built.Ok?
  {
    hide Stream, EndsAt, TailHash;
  }

  /** Every state publishing passes through keeps the invariant; at the end nothing is pending. */
  lemma PublishedStates(f: LogFormat, d: Disk, e: EventRecord, c: Checkpoint)
    requires Inv(f, d) && CheckpointInv(f, d) && e in ClosedRecords(f, d) && IsTailEvent(d, e) && !HasFile(f, d, e)
    requires IsCheckpointOf(f, d, e, c)
    ensures CheckpointIdOf(f, e) == Some(c.checkpointId) && c.checkpointId !in d.checkpoints
    ensures CheckpointInv(f, CheckpointAdded(d, c))
    ensures var d' := CheckpointsSynced(CheckpointAdded(d, c));
            && CheckpointInv(f, d') && AllPublished(f, d')
            && e in ClosedRecords(f, d') && IsTailEvent(d', e) && IsCheckpointOf(f, d', e, c)
  {
    hide Stream, Split, Inv, CheckpointInv, CheckpointRecords, ClosedRecords, IsCheckpointOf, CheckpointIdOf, AllPublished;
    var d1 := CheckpointAdded(d, c);
    CheckpointFields(f, d, e, c);
    CheckpointInvPublished(f, d, e, c);
    CheckpointIndependent(f, d, d1);
    SyncedPublished(f, d1, e);
    CheckpointIndependent(f, d1, CheckpointsSynced(d1));
  }

  lemma NoCheckpoints(f: LogFormat)
    ensures CheckpointRecords(f, []) == []
  {
  }

  lemma NotVerified(f: LogFormat, d: Disk, i: nat, before: Option<Digest>)
    requires i < |d.segments| && before == TailHash(f, Stream(d.segments[..i]), None)
    requires var s := d.segments[i];
             || s.first != 1 + |Stream(d.segments[..i])|
             || (i + 1 < |d.segments| && s.first !in d.manifests)
             || !Scannable(f, s.bytes, s.first, before, s.first !in d.manifests)
             || (s.first in d.manifests && !IsClosed(f, s, d.manifests[s.first].manifest))
    ensures !SegmentVerified(f, d, i)
    ensures !Verified(f, d)
  {
    hide Split, Stream, Chain, Scannable, IsClosed;
  }

  /** Comparing with the recomputed manifest is what decides. */
  lemma ExpectedManifest(f: LogFormat, s: SegmentFile, before: Option<Digest>, m: Manifest)
    requires Scannable(f, s.bytes, s.first, before, false)
    ensures |LinesOf(s)| > 0
    ensures m == ManifestFor(f, s.first, LinesOf(s), |s.bytes|, f.hash(s.bytes)) ==>
              ManifestShapeOk(f, m, s.first, |s.bytes|)
    ensures IsClosed(f, s, m) <==> m == ManifestFor(f, s.first, LinesOf(s), |s.bytes|, f.hash(s.bytes))
  {
    hide Split, Chain, ManifestFor, ManifestShapeOk;
    ManifestForShape(f, s, before);
  }

  lemma VerifiedHere(f: LogFormat, d: Disk, i: nat, before: Option<Digest>)
    requires i < |d.segments| && d.segments[i].first == 1 + |Stream(d.segments[..i])|
    requires before == TailHash(f, Stream(d.segments[..i]), None)
    requires i + 1 < |d.segments| ==> d.segments[i].first in d.manifests
    requires Scannable(f, d.segments[i].bytes, d.segments[i].first, before, d.segments[i].first !in d.manifests)
    requires d.segments[i].first in d.manifests ==> IsClosed(f, d.segments[i], d.manifests[d.segments[i].first].manifest)
    ensures SegmentVerified(f, d, i)
  {
    hide Split, Stream, Chain;
  }

  lemma VerifyAdvance(f: LogFormat, d: Disk, i: nat, scan: SegmentScan, before: Option<Digest>)
    requires i < |d.segments| && before == TailHash(f, Stream(d.segments[..i]), None)
    requires d.segments[i].first == 1 + |Stream(d.segments[..i])|
    requires scan == ScanOf(f, LinesOf(d.segments[i]), d.segments[i].first, |d.segments[i].bytes|, f.hash(d.segments[i].bytes))
    ensures var s := d.segments[i];
            && 1 + |Stream(d.segments[..i + 1])| == (if scan.lastSeq.Some? then scan.lastSeq.value + 1 else s.first)
            && TailHash(f, Stream(d.segments[..i + 1]), None) == (if scan.lastSeq.Some? then scan.lastEventHash else before)
            && CheckpointRecords(f, Stream(d.segments[..i + 1])) ==
                 CheckpointRecords(f, Stream(d.segments[..i])) + scan.checkpointEvents
            && SegmentReport(d, s) == VerifiedSegment(s.first, scan.lastSeq, scan.eventCount, ManifestAt(d, s))
  {
    hide Split, Stream, Chain, CheckpointRecords;
    assert d.segments[..i + 1] == d.segments[..i] + [d.segments[i]];
    StreamSnoc(d.segments[..i], d.segments[i]);
    TailHashConcat(f, Stream(d.segments[..i]), LinesOf(d.segments[i]));
    CheckpointRecordsConcat(f, Stream(d.segments[..i]), LinesOf(d.segments[i]));
  }

  lemma FitsSame(f: LogFormat, d: Disk, d': Disk, line: Bytes, hash: Digest)
    requires EventFits(f, d, line, hash) && Stream(d'.segments) == Stream(d.segments)
    ensures EventFits(f, d', line, hash)
  {
    hide Stream;
  }

  lemma NoRecordsYet(f: LogFormat)
    ensures IsRecords(f, [], [])
  {
  }

  lemma AppendedThenSame(f: LogFormat, d0: Disk, d1: Disk, d2: Disk, lines: seq<Bytes>)
    requires Appended(f, d0, d1, lines) && Appended(f, d1, d2, [])
    ensures Appended(f, d0, d2, lines)
  {
    hide Inv, Recovered, DurableCount, ClosedKept;
    ClosedKeptTrans(d0, d1, d2);
    AppendedEmpty(f, d1, d2);
  }

  lemma AppendedEmpty(f: LogFormat, d: Disk, d': Disk)
    requires Appended(f, d, d', [])
    ensures Recovered(f, d') == Recovered(f, d)
  {
    hide Inv, Recovered, DurableCount, ClosedKept;
  }

  lemma AppendedAtMost(f: LogFormat, d: Disk, d': Disk, lines: seq<Bytes>)
    requires Appended(f, d, d', lines)
    ensures |Recovered(f, d')| <= |Recovered(f, d)| + |lines|
  {
    hide Inv, Recovered, DurableCount, ClosedKept;
  }

  lemma SoFarLength(f: LogFormat, v: WriterView, d0: Disk, d: Disk, done: seq<Bytes>)
    requires AppendedSoFar(f, v, d0, d, done)
    ensures |Recovered(f, d)| == |Recovered(f, d0)| + |done|
  {
    hide Matches, Appended, Recovered, Stream;
  }

  lemma ReadyAcceptable(f: LogFormat, config: StoreConfig, v: WriterView, d: Disk, requests: seq<EventRequest>)
    requires ReadyToAppend(f, config, v, d, requests)
    ensures Matches(f, v, d) && Acceptable(f, config, requests, v.nextSeq, v.previousHash)
  {
  }

  lemma ReadyIff(f: LogFormat, config: StoreConfig, v: WriterView, d: Disk, requests: seq<EventRequest>)
    requires f.Faithful() && Stamped(f, requests) && Matches(f, v, d)
    ensures v.nextSeq == 1 + |Stream(d.segments)| && v.previousHash == TailHash(f, Stream(d.segments), None)
    ensures Acceptable(f, config, requests, v.nextSeq, v.previousHash) <==> ReadyToAppend(f, config, v, d, requests)
  {
  }

  lemma SoFarMatches(f: LogFormat, v: WriterView, d0: Disk, d: Disk, done: seq<Bytes>)
    requires AppendedSoFar(f, v, d0, d, done)
    ensures Matches(f, v, d) && Appended(f, d0, d, done)
  {
  }

  lemma SoFarRoom(f: LogFormat, full: nat, v: WriterView, d0: Disk, d: Disk, done: seq<Bytes>)
    requires AppendedSoFar(f, v, d0, d, done) && HasRoom(full, v)
    ensures Open(d).Some? ==> |LinesOf(Open(d).value)| < full
  {
    hide Inv, Stream, Recovered, Appended, Matches;
    RoomOnDisk(f, full, v, d);
  }

  lemma SoFarFacts(f: LogFormat, v: WriterView, d0: Disk, d: Disk, done: seq<Bytes>)
    requires AppendedSoFar(f, v, d0, d, done)
    ensures Inv(f, d) && Settled(d) && (v.open.None? ==> Open(d).None?)
    ensures Recovered(f, d) == Recovered(f, d0) + done && Stream(d.segments) == Stream(d0.segments) + done
  {
  }

  lemma AppendedAfterSame(f: LogFormat, d0: Disk, d1: Disk, d2: Disk, lines: seq<Bytes>)
    requires Appended(f, d0, d1, lines) || Appended(f, d0, d1, [])
    requires Recovered(f, d1) == Recovered(f, d0) && Appended(f, d1, d2, lines)
    ensures Appended(f, d0, d2, lines)
  {
    hide Inv, Recovered, DurableCount, ClosedKept;
    ClosedKeptTrans(d0, d1, d2);
  }

  lemma ClosedDurable(f: LogFormat, v: WriterView, d: Disk)
    requires Matches(f, v, d) && v.open.None?
    ensures FullyDurable(d)
  {
  }

  /** The returned records are the events of the new lines. */
  lemma BatchHeld(f: LogFormat, config: StoreConfig, requests: seq<EventRequest>, before: seq<Bytes>, records: seq<EventRecord>)
    requires f.Faithful()
    requires IsRecords(f, records, Prepared(f, config, requests, 1 + |before|, TailHash(f, before, None)))
    ensures var lines := Prepared(f, config, requests, 1 + |before|, TailHash(f, before, None));
            HoldsEvents(f, config, requests, before + lines, |before|) && HoldsRecords(f, records, before + lines, |before|)
  {
    hide Prepared, TailHash, HoldsEvents, HoldsRecords;
    EventsHeld(f, config, requests, before);
    RecordsHeld(f, records, before, Prepared(f, config, requests, 1 + |before|, TailHash(f, before, None)));
  }

  lemma OneHeld(f: LogFormat, config: StoreConfig, q: EventRequest, before: seq<Bytes>, stream: seq<Bytes>, records: seq<EventRecord>)
    requires HoldsEvents(f, config, [q], stream, |before|) && HoldsRecords(f, records, stream, |before|)
    requires before <= stream
    ensures |stream| == |before| + 1 && |records| == 1
    ensures f.parse(LastOf(stream)) == Some(records[0].envelope) && records[0].eventHash == f.hash(LastOf(stream))
    ensures IsEventOf(records[0].envelope, config, q, 1 + |before|, if before == [] then None else Some(f.hash(LastOf(before))))
  {
    hide IsEventOf;
    assert f.parse(stream[|before| + 0]) == Some(records[0].envelope);
    assert [q][0] == q;
    assert before != [] ==> LastOf(before) == stream[|before| - 1];
  }

  ghost predicate IsRecords(f: LogFormat, records: seq<EventRecord>, lines: seq<Bytes>) {
    && |records| == |lines|
    && forall i :: 0 <= i < |records| ==> f.parse(lines[i]).Some? && records[i] == RecordOf(f, lines[i])
  }

  lemma RecordsSnoc(f: LogFormat, config: StoreConfig, v: WriterView, d: Disk, requests: seq<EventRequest>,
                    p: PreparedEvent, records: seq<EventRecord>, lines: seq<Bytes>, k: nat)
    requires ReadyToAppend(f, config, v, d, requests)
    requires k < |lines| && IsRecords(f, records, lines[..k])
    requires p.line == lines[k] && p.hash == f.hash(lines[k]) && f.encode(p.envelope) == lines[k]
    ensures IsRecords(f, records + [EventRecord(p.envelope, p.hash)], lines[..k + 1])
  {
    hide Matches, Acceptable;
    assert f.parse(f.encode(p.envelope)) == Some(p.envelope);
    assert lines[..k + 1] == lines[..k] + [lines[k]];
  }
}
