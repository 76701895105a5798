/** The checkpoint invariant: every checkpoint event in a closed segment has its file, equal to
    what its exact closed prefix determines; only one at a closed tail may still lack it. */
module LogCheckpoint {
  import opened Wrappers
  import opened LogLines
  import opened EventFormat
  import opened LogDisk
  import opened LogCrash
  import opened LogSteps
  import opened LogWriter
  import opened LogVerify

  function ClosedRecords(f: LogFormat, d: Disk): seq<EventRecord> {
    CheckpointRecords(f, Stream(Closed(d)))
  }

  /** Every checkpoint event parses, under its own id. */
  ghost predicate DistinctRecords(f: LogFormat, rs: seq<EventRecord>) {
    && (forall i :: 0 <= i < |rs| ==> CheckpointIdOf(f, rs[i]).Some?)
    && (forall i, j :: 0 <= i < j < |rs| ==>
          && CheckpointIdOf(f, rs[i]) != CheckpointIdOf(f, rs[j])
          && rs[i].envelope.eventId != rs[j].envelope.eventId)
  }

  ghost predicate NoCheckpointIn(f: LogFormat, lines: seq<Bytes>) {
    forall i :: 0 <= i < |lines| ==> !IsCheckpointLine(f, lines[i])
  }

  /** The open tail, including a whole event still lacking its newline, holds no checkpoint event. */
  ghost predicate TailClear(f: LogFormat, d: Disk) {
    Open(d).Some? ==> NoCheckpointIn(f, TailRecovered(f, Open(d).value))
  }

  ghost predicate IsTailEvent(d: Disk, r: EventRecord) {
    Open(d).None? && r.envelope.seqNo == |Stream(d.segments)|
  }

  ghost predicate HasFile(f: LogFormat, d: Disk, r: EventRecord) {
    CheckpointIdOf(f, r).Some? && CheckpointIdOf(f, r).value in d.checkpoints
  }

  ghost predicate FileDurable(f: LogFormat, d: Disk, r: EventRecord) {
    HasFile(f, d, r) && d.checkpoints[CheckpointIdOf(f, r).value].durable
  }

  /** One checkpoint event: at a segment boundary, and published unless it is the closed tail. */
  ghost predicate RecordTracked(f: LogFormat, d: Disk, r: EventRecord) {
    && (exists k: nat :: EndsAt(d, k, r.envelope.seqNo))
    && (HasFile(f, d, r) ==> IsCheckpointOf(f, d, r, d.checkpoints[CheckpointIdOf(f, r).value].checkpoint))
    && (!FileDurable(f, d, r) ==> IsTailEvent(d, r))
  }

  ghost predicate Tracked(f: LogFormat, d: Disk) {
    var rs := ClosedRecords(f, d);
    && DistinctRecords(f, rs)
    && (forall i :: 0 <= i < |rs| ==> RecordTracked(f, d, rs[i]))
    && (forall id :: id in d.checkpoints ==> exists i :: 0 <= i < |rs| && CheckpointIdOf(f, rs[i]) == Some(id))
  }

  ghost predicate CheckpointInv(f: LogFormat, d: Disk) {
    Tracked(f, d) && TailClear(f, d)
  }

  /** Nothing is pending: every checkpoint file is there and durable. */
  ghost predicate AllPublished(f: LogFormat, d: Disk) {
    var rs := ClosedRecords(f, d);
    forall i :: 0 <= i < |rs| ==> FileDurable(f, d, rs[i])
  }

  lemma {:induction false} NoRecords(f: LogFormat, lines: seq<Bytes>)
    requires NoCheckpointIn(f, lines)
    ensures CheckpointRecords(f, lines) == []
    decreases |lines|
  {
    if |lines| > 0 {
      NoRecords(f, lines[..|lines| - 1]);
    }
  }

  lemma ClosedStreamGrows(f: LogFormat, d: Disk, d': Disk, lines: seq<Bytes>)
    requires Appended(f, d, d', lines)
    ensures Stream(Closed(d)) <= Stream(Closed(d'))
  {
    hide Split, FileOf, Stream, Inv, Recovered, DurableCount;
    StreamPrefix(Closed(d'), |Closed(d)|);
    assert Closed(d')[..|Closed(d)|] == Closed(d);
  }

  lemma PrefixOfSum(base: seq<Bytes>, tail: seq<Bytes>, whole: seq<Bytes>, x: seq<Bytes>, more: seq<Bytes>, f: LogFormat)
    requires base <= x && x + more == whole && whole <= base + tail && NoCheckpointIn(f, tail)
    ensures NoCheckpointIn(f, x[|base|..]) && x == base + x[|base|..]
    ensures NoCheckpointIn(f, more)
  {
    forall i | 0 <= i < |x[|base|..]| ensures !IsCheckpointLine(f, x[|base|..][i]) {
      assert x[|base|..][i] == whole[|base| + i] == (base + tail)[|base| + i] == tail[i];
    }
    forall i | 0 <= i < |more| ensures !IsCheckpointLine(f, more[i]) {
      assert more[i] == whole[|x| + i] == (base + tail)[|x| + i] == tail[|x| - |base| + i];
    }
  }

  /** Appending ordinary events creates no checkpoint event anywhere. */
  lemma RecordsKept(f: LogFormat, d: Disk, d': Disk, lines: seq<Bytes>)
    requires Appended(f, d, d', lines) && TailClear(f, d) && NoCheckpointIn(f, lines)
    ensures ClosedRecords(f, d') == ClosedRecords(f, d) && TailClear(f, d')
  {
    hide Split, FileOf, Stream, Inv, Recovered, DurableCount, CheckpointRecords, IsCheckpointLine, PiecesRecovered;
    RecoveredByPieces(f, d);
    RecoveredByPieces(f, d');
    ClosedStreamGrows(f, d, d', lines);
    var base, x := Stream(Closed(d)), Stream(Closed(d'));
    var t := if Open(d).Some? then TailRecovered(f, Open(d).value) else [];
    var t' := if Open(d').Some? then TailRecovered(f, Open(d').value) else [];
    assert base + t + lines == base + (t + lines);
    PrefixOfSum(base, t + lines, Recovered(f, d'), x, t', f);
    NoRecords(f, x[|base|..]);
    CheckpointRecordsConcat(f, base, x[|base|..]);
  }

  lemma EndsAtKept(d: Disk, d': Disk, k: nat, s: nat)
    requires EndsAt(d, k, s) && Closed(d) <= Closed(d')
    ensures EndsAt(d', k, s) && d'.segments[..k] == d.segments[..k]
  {
    hide Stream;
    assert d.segments[..k] == Closed(d)[..k] == Closed(d')[..k] == d'.segments[..k];
  }

  /** A published checkpoint stays the checkpoint of its event however the log grows. */
  lemma IsCheckpointOfKept(f: LogFormat, d: Disk, d': Disk, r: EventRecord, c: Checkpoint)
    requires IsCheckpointOf(f, d, r, c) && Closed(d) <= Closed(d')
    ensures IsCheckpointOf(f, d', r, c)
  {
    hide Stream, Cover;
    var k: nat :| EndsAt(d, k, r.envelope.seqNo) && c == CheckpointFor(f, r, Cover(f, d.segments[..k]));
    EndsAtKept(d, d', k, r.envelope.seqNo);
  }

  lemma RecordTrackedKept(f: LogFormat, d: Disk, d': Disk, r: EventRecord)
    requires RecordTracked(f, d, r) && Closed(d) <= Closed(d')
    requires forall id :: id in d'.checkpoints ==> id in d.checkpoints && d'.checkpoints[id].checkpoint == d.checkpoints[id].checkpoint
    requires forall id :: id in d.checkpoints && d.checkpoints[id].durable ==> id in d'.checkpoints && d'.checkpoints[id].durable
    requires FileDurable(f, d, r) || (IsTailEvent(d, r) ==> IsTailEvent(d', r))
    ensures RecordTracked(f, d', r)
  {
    hide Stream, Closed, EndsAt, IsCheckpointOf;
    var k: nat :| EndsAt(d, k, r.envelope.seqNo);
    EndsAtKept(d, d', k, r.envelope.seqNo);
    if HasFile(f, d', r) {
      IsCheckpointOfKept(f, d, d', r, d.checkpoints[CheckpointIdOf(f, r).value].checkpoint);
    }
  }

  /** The checkpoint invariant survives appends, once nothing is pending. */
  lemma CheckpointInvAppended(f: LogFormat, d: Disk, d': Disk, lines: seq<Bytes>)
    requires Appended(f, d, d', lines) && CheckpointInv(f, d) && NoCheckpointIn(f, lines)
    requires d'.checkpoints == d.checkpoints
    requires AllPublished(f, d) || (Open(d).None? ==> Open(d').None? && |Stream(d'.segments)| == |Stream(d.segments)|)
    ensures CheckpointInv(f, d')
    ensures AllPublished(f, d) ==> AllPublished(f, d')
  {
    hide Stream, CheckpointRecords, RecordTracked, DistinctRecords;
    RecordsKept(f, d, d', lines);
    var rs := ClosedRecords(f, d);
    forall i | 0 <= i < |rs| ensures RecordTracked(f, d', rs[i]) {
      RecordTrackedKept(f, d, d', rs[i]);
    }
  }

  /** A checkpoint event's sequence number is its position in the stream. */
  lemma {:induction false} RecordPositions(f: LogFormat, lines: seq<Bytes>, i: nat)
    requires Chain(f, lines, 1, None) && i < |CheckpointRecords(f, lines)|
    ensures 1 <= CheckpointRecords(f, lines)[i].envelope.seqNo <= |lines|
    ensures var r := CheckpointRecords(f, lines)[i];
            IsCheckpointLine(f, lines[r.envelope.seqNo - 1]) && r == RecordOf(f, lines[r.envelope.seqNo - 1])
    decreases |lines|
  {
    hide Chain, ValidEvent;
    var init, last := lines[..|lines| - 1], lines[|lines| - 1];
    ChainPrefix(f, lines, |lines| - 1, 1, None);
    if i < |CheckpointRecords(f, init)| {
      RecordPositions(f, init, i);
    } else {
      LastSeqNo(f, lines);
    }
  }

  lemma LastSeqNo(f: LogFormat, lines: seq<Bytes>)
    requires Chain(f, lines, 1, None) && |lines| > 0
    ensures f.parse(lines[|lines| - 1]).Some? && f.parse(lines[|lines| - 1]).value.seqNo == |lines|
  {
    var n := |lines| - 1;
    assert LineOk(f, lines[n], 1 + n, PreviousAt(f, lines, n, None));
  }

  /** Exactly when `verify_checkpoints` succeeds on a verified log. */
  ghost predicate CheckpointsOk(f: LogFormat, d: Disk) {
    var rs := CheckpointRecords(f, Stream(d.segments));
    && (forall i :: 0 <= i < |rs| ==>
          HasFile(f, d, rs[i]) && IsCheckpointOf(f, d, rs[i], d.checkpoints[CheckpointIdOf(f, rs[i]).value].checkpoint))
    && (forall i, j :: 0 <= i < j < |rs| ==> CheckpointIdOf(f, rs[i]) != CheckpointIdOf(f, rs[j]))
    && (forall id :: id in d.checkpoints ==> exists i :: 0 <= i < |rs| && CheckpointIdOf(f, rs[i]) == Some(id))
  }

  /** With nothing pending, full verification succeeds exactly when no checkpoint event sits in
      the open tail: the one crash window that leaves an unverifiable store. */
  lemma FullVerifyExactly(f: LogFormat, d: Disk)
    requires Inv(f, d) && Settled(d) && Tracked(f, d) && AllPublished(f, d)
    ensures CheckpointsOk(f, d) <==> TailClear(f, d)
  {
    hide Split, FileOf, Stream, Chain, CheckpointRecords, IsCheckpointOf, EndsAt, Canonical, IsCheckpointLine;
    var closed := Stream(Closed(d));
    var rs := ClosedRecords(f, d);
    ClosedOpen(d);
    if Open(d).None? {
      TrackedOk(f, d);
    } else {
      var tail := LinesOf(Open(d).value);
      assert TailRecovered(f, Open(d).value) == tail + [] == tail;
      CheckpointRecordsConcat(f, closed, tail);
      if TailClear(f, d) {
        NoRecords(f, tail);
        TrackedOk(f, d);
      } else {
        var i :| 0 <= i < |tail| && IsCheckpointLine(f, tail[i]);
        TailRecordUnpublished(f, d, i);
      }
    }
  }

  lemma TrackedOk(f: LogFormat, d: Disk)
    requires Tracked(f, d) && AllPublished(f, d)
    requires CheckpointRecords(f, Stream(d.segments)) == ClosedRecords(f, d)
    ensures CheckpointsOk(f, d)
  {
    hide Stream, CheckpointRecords, IsCheckpointOf, EndsAt;
    var rs := ClosedRecords(f, d);
    forall i | 0 <= i < |rs|
      ensures HasFile(f, d, rs[i]) && IsCheckpointOf(f, d, rs[i], d.checkpoints[CheckpointIdOf(f, rs[i]).value].checkpoint)
    {
      assert RecordTracked(f, d, rs[i]);
    }
  }

  /** A checkpoint event in an open tail never passes full verification. */
  lemma TailRecordUnpublished(f: LogFormat, d: Disk, i: nat)
    requires Inv(f, d) && Settled(d) && Open(d).Some?
    requires i < |LinesOf(Open(d).value)| && IsCheckpointLine(f, LinesOf(Open(d).value)[i])
    ensures !CheckpointsOk(f, d)
  {
    hide Split, FileOf, Stream, Chain, CheckpointRecords, Canonical, IsCheckpointOf;
    var closed, tail := Stream(Closed(d)), LinesOf(Open(d).value);
    var all := Stream(d.segments);
    ClosedOpen(d);
    var line := tail[i];
    assert all[|closed| + i] == line;
    var r := RecordOf(f, line);
    CheckpointRecordsExact(f, all);
    assert r in CheckpointRecords(f, all);
    assert r.envelope.seqNo == |closed| + i + 1 by {
      InvVerified(f, d);
      VerifiedNamesPredecessor(f, d, |closed| + i);
    }
    if CheckpointsOk(f, d) {
      var j :| 0 <= j < |CheckpointRecords(f, all)| && CheckpointRecords(f, all)[j] == r;
      CheckpointFields(f, d, r, d.checkpoints[CheckpointIdOf(f, r).value].checkpoint);
      var k: nat :| EndsAt(d, k, r.envelope.seqNo);
      BoundaryClosed(d, k, r.envelope.seqNo);
      assert false;
    }
  }

  lemma BoundaryClosed(d: Disk, k: nat, s: nat)
    requires EndsAt(d, k, s)
    ensures s <= |Stream(Closed(d))|
  {
    hide Split, Stream;
    assert d.segments[..k] == Closed(d)[..k];
    StreamPrefix(Closed(d), k);
  }

  /** An interrupted create leaves no empty tail behind a written event. */
  ghost predicate NoEmptyTail(f: LogFormat, d: Disk) {
    Open(d).Some? ==> |TailRecovered(f, Open(d).value)| > 0
  }

  lemma TailGrew(f: LogFormat, d: Disk, d': Disk)
    requires Open(d).Some? && Closed(d') == Closed(d) && |Recovered(f, d')| > |Recovered(f, d)|
    ensures NoEmptyTail(f, d')
  {
    hide Stream, PiecesRecovered, Recovered;
    RecoveredByPieces(f, d);
    RecoveredByPieces(f, d');
  }

  lemma TailStays(f: LogFormat, d: Disk, d': Disk)
    requires NoEmptyTail(f, d) && (Open(d').None? || (Open(d).Some? && Closed(d') == Closed(d)))
    requires Recovered(f, d') == Recovered(f, d)
    ensures NoEmptyTail(f, d')
  {
    hide Stream, PiecesRecovered, Recovered;
    RecoveredByPieces(f, d);
    RecoveredByPieces(f, d');
  }

  /** A fresh checkpoint event, well formed for the position it is appended at. */
  ghost predicate FreshCheckpointLine(f: LogFormat, d: Disk, line: Bytes) {
    && IsCheckpointLine(f, line)
    && f.parse(line).value.seqNo == |Recovered(f, d)| + 1
    && CheckpointIdOf(f, RecordOf(f, line)).Some?
    && CheckpointIdOf(f, RecordOf(f, line)).value !in d.checkpoints
    && (forall i :: 0 <= i < |ClosedRecords(f, d)| ==>
          && CheckpointIdOf(f, ClosedRecords(f, d)[i]) != CheckpointIdOf(f, RecordOf(f, line))
          && ClosedRecords(f, d)[i].envelope.eventId != f.parse(line).value.eventId)
  }

  /** Writing the checkpoint event keeps the invariant at every interruption that does not
      leave the event in an open tail. */
  lemma CheckpointInvCreated(f: LogFormat, d: Disk, d': Disk, line: Bytes)
    requires Appended(f, d, d', [line]) && CheckpointInv(f, d) && AllPublished(f, d)
    requires FreshCheckpointLine(f, d, line) && d'.checkpoints == d.checkpoints
    requires Recovered(f, d') == Recovered(f, d) + [line] ==> NoEmptyTail(f, d')
    requires TailClear(f, d')
    ensures CheckpointInv(f, d')
  {
    hide Stream, CheckpointRecords, RecordTracked, DistinctRecords, Inv, Recovered, PiecesRecovered, IsCheckpointLine,
         FreshCheckpointLine, NoOrphan;
    FreshIsCheckpoint(f, d, line);
    if |Recovered(f, d')| == |Recovered(f, d)| {
      NothingAppended(f, d, d', [line]);
      CheckpointInvAppended(f, d, d', []);
    } else {
      assert Recovered(f, d') == Recovered(f, d) + [line];
      LastIsTail(f, d, d', line);
      CreatedRecords(f, d, d', line);
      CreatedTracked(f, d, d', line);
    }
  }

  lemma FreshIsCheckpoint(f: LogFormat, d: Disk, line: Bytes)
    requires FreshCheckpointLine(f, d, line)
    ensures IsCheckpointLine(f, line)
  {
    hide IsCheckpointLine, ClosedRecords, Recovered;
  }

  lemma NothingAppended(f: LogFormat, d: Disk, d': Disk, lines: seq<Bytes>)
    requires Appended(f, d, d', lines) && |Recovered(f, d')| == |Recovered(f, d)|
    ensures Appended(f, d, d', [])
  {
    hide Inv, Recovered, DurableCount, ClosedKept;
    assert Recovered(f, d) + [] == Recovered(f, d);
  }

  lemma LastIsTail(f: LogFormat, d: Disk, d': Disk, line: Bytes)
    requires Recovered(f, d') == Recovered(f, d) + [line] && FreshCheckpointLine(f, d, line)
    requires NoEmptyTail(f, d') && TailClear(f, d')
    ensures Open(d').None?
  {
    hide Stream, PiecesRecovered, Recovered, CheckpointRecords, IsCheckpointLine;
    ClearTailEnd(f, d');
  }

  lemma ClearTailEnd(f: LogFormat, d: Disk)
    requires NoEmptyTail(f, d) && TailClear(f, d) && |Recovered(f, d)| > 0
    ensures Open(d).Some? ==> !IsCheckpointLine(f, Recovered(f, d)[|Recovered(f, d)| - 1])
  {
    hide Stream, PiecesRecovered, Recovered, IsCheckpointLine;
    RecoveredByPieces(f, d);
    if Open(d).Some? {
      var tail := TailRecovered(f, Open(d).value);
      assert tail[|tail| - 1] == Recovered(f, d)[|Recovered(f, d)| - 1];
    }
  }

  lemma CreatedRecords(f: LogFormat, d: Disk, d': Disk, line: Bytes)
    requires TailClear(f, d) && Open(d').None? && Recovered(f, d') == Recovered(f, d) + [line]
    requires IsCheckpointLine(f, line)
    ensures ClosedRecords(f, d') == ClosedRecords(f, d) + [RecordOf(f, line)]
    ensures |Stream(d'.segments)| == |Recovered(f, d)| + 1
  {
    hide Stream, PiecesRecovered, Recovered, CheckpointRecords, IsCheckpointLine;
    RecoveredByPieces(f, d);
    RecoveredByPieces(f, d');
    var base := Stream(Closed(d));
    var t := if Open(d).Some? then TailRecovered(f, Open(d).value) else [];
    NoRecords(f, t);
    CheckpointRecordsConcat(f, base, t);
    CheckpointRecordsSnoc(f, Recovered(f, d), line);
    ClosedOpen(d');
    assert Recovered(f, d') == Stream(Closed(d'));
    assert ClosedRecords(f, d) + [] == ClosedRecords(f, d);
  }

  lemma DistinctSnoc(f: LogFormat, rs: seq<EventRecord>, r: EventRecord)
    requires DistinctRecords(f, rs) && CheckpointIdOf(f, r).Some?
    requires forall i :: 0 <= i < |rs| ==>
               CheckpointIdOf(f, rs[i]) != CheckpointIdOf(f, r) && rs[i].envelope.eventId != r.envelope.eventId
    ensures DistinctRecords(f, rs + [r])
  {
    hide CheckpointIdOf;
  }

  lemma CreatedTracked(f: LogFormat, d: Disk, d': Disk, line: Bytes)
    requires Tracked(f, d) && AllPublished(f, d) && FreshCheckpointLine(f, d, line)
    requires Closed(d) <= Closed(d') && Open(d').None? && d'.checkpoints == d.checkpoints
    requires ClosedRecords(f, d') == ClosedRecords(f, d) + [RecordOf(f, line)]
    requires |Stream(d'.segments)| == |Recovered(f, d)| + 1
    ensures Tracked(f, d')
  {
    hide Stream, Recovered, CheckpointRecords, ClosedRecords, IsCheckpointOf, DistinctRecords, CheckpointIdOf;
    var rs, r := ClosedRecords(f, d), RecordOf(f, line);
    var rs' := ClosedRecords(f, d');
    DistinctSnoc(f, rs, r);
    forall i | 0 <= i < |rs'| ensures RecordTracked(f, d', rs'[i]) {
      if i < |rs| {
        RecordTrackedKept(f, d, d', rs[i]);
      } else {
        assert d'.segments[..|d'.segments|] == d'.segments;
        assert EndsAt(d', |d'.segments|, r.envelope.seqNo);
      }
    }
    forall id | id in d'.checkpoints ensures exists i :: 0 <= i < |rs'| && CheckpointIdOf(f, rs'[i]) == Some(id) {
      var i :| 0 <= i < |rs| && CheckpointIdOf(f, rs[i]) == Some(id);
      assert rs'[i] == rs[i];
    }
  }

  // ----- what a writer call may do to the checkpoint files -----

  /** Checkpoint files are never rewritten, and a new one covers the whole stream the call began with. */
  ghost predicate FilesCover(f: LogFormat, d: Disk, d': Disk) {
    forall id :: id in d'.checkpoints ==>
      || (id in d.checkpoints && d'.checkpoints[id].checkpoint == d.checkpoints[id].checkpoint)
      || d'.checkpoints[id].checkpoint.eventLastSeq >= |Recovered(f, d)|
  }

  /** One writer call, finished or interrupted, that set out to append `lines`. */
  ghost predicate WriterStep(f: LogFormat, d: Disk, d': Disk, lines: seq<Bytes>) {
    && Appended(f, d, d', lines) && FilesCover(f, d, d')
    && (CheckpointInv(f, d) && TailClear(f, d') ==> CheckpointInv(f, d'))
  }

  lemma FilesSame(f: LogFormat, d: Disk, d': Disk)
    requires d'.checkpoints == d.checkpoints
    ensures FilesCover(f, d, d')
  {
    hide Recovered;
  }

  lemma FilesThen(f: LogFormat, d0: Disk, d1: Disk, d2: Disk)
    requires FilesCover(f, d0, d1) && FilesCover(f, d1, d2) && |Recovered(f, d0)| <= |Recovered(f, d1)|
    ensures FilesCover(f, d0, d2)
  {
    hide Recovered;
  }

  lemma AppendedLonger(f: LogFormat, d: Disk, d': Disk, lines: seq<Bytes>)
    requires Appended(f, d, d', lines)
    ensures |Recovered(f, d)| <= |Recovered(f, d')|
  {
    hide Recovered, Inv, DurableCount, ClosedKept;
  }

  /** Publishing the checkpoint of the last event covers the stream. */
  lemma FilesPublished(f: LogFormat, d: Disk, d': Disk, r: EventRecord, c: Checkpoint)
    requires Verified(f, d) && IsCheckpointOf(f, d, r, c) && r.envelope.seqNo == |Stream(d.segments)|
    requires d' in {d, CheckpointAdded(d, c), CheckpointsSynced(CheckpointAdded(d, c))}
    ensures FilesCover(f, d, d')
  {
    hide Recovered, Verified, IsCheckpointOf, Stream;
    VerifiedSettled(f, d);
    CheckpointFields(f, d, r, c);
  }

  function CheckpointAdded(d: Disk, c: Checkpoint): Disk {
    d.(checkpoints := d.checkpoints[c.checkpointId := CheckpointFile(c, false)])
  }

  function CheckpointsSynced(d: Disk): Disk {
    d.(checkpoints := map id | id in d.checkpoints :: d.checkpoints[id].(durable := true))
  }

  lemma CheckpointIndependent(f: LogFormat, d: Disk, d': Disk)
    requires d' == d.(checkpoints := d'.checkpoints)
    ensures Closed(d') == Closed(d) && Open(d') == Open(d) && Inv(f, d') == Inv(f, d)
    ensures Recovered(f, d') == Recovered(f, d) && DurableCount(d') == DurableCount(d)
    ensures ClosedRecords(f, d') == ClosedRecords(f, d) && TailClear(f, d') == TailClear(f, d)
    ensures forall r, c :: IsCheckpointOf(f, d', r, c) <==> IsCheckpointOf(f, d, r, c)
    ensures Verified(f, d') == Verified(f, d)
    ensures Inv(f, d) ==> Appended(f, d, d', [])
  {
    hide Stream, Split, CheckpointRecords, Cover, Inv, Recovered, DurableCount, ClosedKept, Verified, TailRecovered,
         NoCheckpointIn, IsCheckpointOf;
    assert Closed(d') == Closed(d) && Open(d') == Open(d);
    IndependentInv(f, d, d');
    IndependentStream(f, d, d');
    IndependentBoundaries(f, d, d');
    IndependentVerified(f, d, d');
  }

  lemma IndependentInv(f: LogFormat, d: Disk, d': Disk)
    requires d' == d.(checkpoints := d'.checkpoints)
    ensures Inv(f, d') == Inv(f, d)
  {
    hide Stream, Split, ClosedOk, TailOk;
    assert Closed(d') == Closed(d) && Open(d') == Open(d);
    assert EarlierManifestsDurable(d') == EarlierManifestsDurable(d);
  }

  lemma IndependentStream(f: LogFormat, d: Disk, d': Disk)
    requires d' == d.(checkpoints := d'.checkpoints)
    ensures Recovered(f, d') == Recovered(f, d) && DurableCount(d') == DurableCount(d) && ClosedKept(d, d')
  {
    hide Stream, Split;
  }

  lemma IndependentVerified(f: LogFormat, d: Disk, d': Disk)
    requires d' == d.(checkpoints := d'.checkpoints)
    ensures Verified(f, d') == Verified(f, d)
  {
    hide SegmentVerified;
    forall i | 0 <= i < |d.segments| ensures SegmentVerified(f, d', i) == SegmentVerified(f, d, i) {
      IndependentSegment(f, d, d', i);
    }
  }

  lemma IndependentSegment(f: LogFormat, d: Disk, d': Disk, i: nat)
    requires d' == d.(checkpoints := d'.checkpoints) && i < |d.segments|
    ensures SegmentVerified(f, d', i) == SegmentVerified(f, d, i)
  {
    hide Stream, Split, Scannable, IsClosed;
  }

  lemma IndependentBoundaries(f: LogFormat, d: Disk, d': Disk)
    requires d' == d.(checkpoints := d'.checkpoints)
    ensures forall r, c :: IsCheckpointOf(f, d', r, c) <==> IsCheckpointOf(f, d, r, c)
  {
    hide Stream, Cover;
    forall r, c ensures IsCheckpointOf(f, d', r, c) <==> IsCheckpointOf(f, d, r, c) {
      if IsCheckpointOf(f, d, r, c) { IsCheckpointOfKept(f, d, d', r, c); }
      if IsCheckpointOf(f, d', r, c) { IsCheckpointOfKept(f, d', d, r, c); }
    }
  }

  /** A change of the checkpoint files alone keeps a record tracked if its own file does. */
  lemma RecordRetracked(f: LogFormat, d: Disk, d': Disk, r: EventRecord)
    requires d' == d.(checkpoints := d'.checkpoints) && RecordTracked(f, d, r)
    requires HasFile(f, d', r) ==> IsCheckpointOf(f, d', r, d'.checkpoints[CheckpointIdOf(f, r).value].checkpoint)
    requires FileDurable(f, d, r) ==> FileDurable(f, d', r)
    ensures RecordTracked(f, d', r)
  {
    hide Stream, IsCheckpointOf;
    var k: nat :| EndsAt(d, k, r.envelope.seqNo);
    assert Closed(d) == Closed(d');
    EndsAtKept(d, d', k, r.envelope.seqNo);
  }

  /** Publishing the pending file, durable or not yet, keeps the invariant. */
  lemma CheckpointInvPublished(f: LogFormat, d: Disk, r: EventRecord, c: Checkpoint)
    requires Inv(f, d) && CheckpointInv(f, d) && IsTailEvent(d, r) && !HasFile(f, d, r)
    requires r in ClosedRecords(f, d) && IsCheckpointOf(f, d, r, c)
    ensures CheckpointInv(f, CheckpointAdded(d, c))
  {
    hide Stream, CheckpointRecords, IsCheckpointOf, Cover, Inv, Verified, ClosedRecords, RecordTracked, TailClear;
    var d' := CheckpointAdded(d, c);
    CheckpointIndependent(f, d, d');
    CheckpointFields(f, d, r, c);
    var rs := ClosedRecords(f, d);
    var j :| 0 <= j < |rs| && rs[j] == r;
    forall i | 0 <= i < |rs| ensures RecordTracked(f, d', rs[i]) {
      assert RecordTracked(f, d, rs[i]);
      if i != j {
        assert CheckpointIdOf(f, rs[i]) != Some(c.checkpointId);
        TrackedFile(f, d, rs[i]);
      }
      RecordRetracked(f, d, d', rs[i]);
    }
    forall id | id in d'.checkpoints ensures exists i :: 0 <= i < |rs| && CheckpointIdOf(f, rs[i]) == Some(id) {
      if id == c.checkpointId {
        assert CheckpointIdOf(f, rs[j]) == Some(id);
      }
    }
  }

  lemma TrackedFile(f: LogFormat, d: Disk, r: EventRecord)
    requires RecordTracked(f, d, r)
    ensures HasFile(f, d, r) ==> IsCheckpointOf(f, d, r, d.checkpoints[CheckpointIdOf(f, r).value].checkpoint)
    ensures !FileDurable(f, d, r) ==> IsTailEvent(d, r)
  {
    hide IsCheckpointOf, Stream;
  }

  lemma CheckpointInvSynced(f: LogFormat, d: Disk)
    requires Inv(f, d) && CheckpointInv(f, d)
    ensures CheckpointInv(f, CheckpointsSynced(d))
    ensures (forall r :: r in ClosedRecords(f, d) && IsTailEvent(d, r) ==> HasFile(f, d, r)) ==>
              AllPublished(f, CheckpointsSynced(d))
  {
    hide Stream, CheckpointRecords, IsCheckpointOf, Cover, Inv, Verified, ClosedRecords, RecordTracked, TailClear;
    var d' := CheckpointsSynced(d);
    CheckpointIndependent(f, d, d');
    var rs := ClosedRecords(f, d);
    forall i | 0 <= i < |rs| ensures RecordTracked(f, d', rs[i]) {
      TrackedFile(f, d, rs[i]);
      RecordRetracked(f, d, d', rs[i]);
    }
    if forall r :: r in ClosedRecords(f, d) && IsTailEvent(d, r) ==> HasFile(f, d, r) {
      forall i | 0 <= i < |rs| ensures FileDurable(f, d', rs[i]) {
        TrackedFile(f, d, rs[i]);
      }
    }
  }

  /** Which records can be tail events: only the last line's. */
  lemma TailEventIsLast(f: LogFormat, d: Disk, r: EventRecord)
    requires Inv(f, d) && Open(d).None? && r in ClosedRecords(f, d) && IsTailEvent(d, r)
    ensures |Stream(d.segments)| > 0
    ensures var last := Stream(d.segments)[|Stream(d.segments)| - 1];
            IsCheckpointLine(f, last) && r == RecordOf(f, last)
  {
    hide Stream, CheckpointRecords, Chain, IsCheckpointLine, Split;
    var i :| 0 <= i < |ClosedRecords(f, d)| && ClosedRecords(f, d)[i] == r;
    RecordPositions(f, Stream(d.segments), i);
  }
}