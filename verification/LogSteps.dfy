/** The effect of each single durability step of a writer on the disk invariant. */
module LogSteps {
  import opened Wrappers
  import opened LogLines
  import opened EventFormat
  import opened LogDisk
  import opened LogCrash

  /** An open tail's lines stay the first lines of the same file. */
  ghost predicate TailKept(d0: Disk, d1: Disk) {
    Open(d0).Some? ==>
      && |Closed(d0)| < |d1.segments|
      && d1.segments[|Closed(d0)|].first == Open(d0).value.first
      && LinesOf(Open(d0).value) <= LinesOf(d1.segments[|Closed(d0)|])
  }

  /** Closed segments and their manifests are never rewritten. */
  ghost predicate ClosedKept(d0: Disk, d1: Disk) {
    && Closed(d0) <= Closed(d1)
    && TailKept(d0, d1)
    && (forall k :: k in d0.manifests ==> k in d1.manifests && d1.manifests[k].manifest == d0.manifests[k].manifest)
  }

  lemma ClosedKeptTrans(d0: Disk, d1: Disk, d2: Disk)
    requires ClosedKept(d0, d1) && ClosedKept(d1, d2)
    ensures ClosedKept(d0, d2)
  {
    hide LinesOf;
    if Open(d0).Some? {
      var k := |Closed(d0)|;
      if k < |Closed(d1)| {
        assert d1.segments[k] == Closed(d1)[k] == Closed(d2)[k] == d2.segments[k];
      } else {
        assert Open(d1).Some? && d1.segments[k] == Open(d1).value;
      }
    }
  }

  /** `d1` follows `d0` by appending some prefix of `added`: nothing else changes, and
      nothing durable becomes less durable. */
  ghost predicate Appended(f: LogFormat, d0: Disk, d1: Disk, added: seq<Bytes>) {
    && Inv(f, d1)
    && Recovered(f, d0) <= Recovered(f, d1) <= Recovered(f, d0) + added
    && DurableCount(d0) <= DurableCount(d1)
    && ClosedKept(d0, d1)
  }

  lemma AppendedTrans(f: LogFormat, d0: Disk, d1: Disk, d2: Disk, a: seq<Bytes>, b: seq<Bytes>)
    requires Appended(f, d0, d1, a) && Recovered(f, d1) == Recovered(f, d0) + a
    requires Appended(f, d1, d2, b)
    ensures Appended(f, d0, d2, a + b)
  {
    hide Inv, Recovered, DurableCount, ClosedKept;
    ClosedKeptTrans(d0, d1, d2);
    assert Recovered(f, d0) + a + b == Recovered(f, d0) + (a + b);
    assert Recovered(f, d1) <= Recovered(f, d2);
  }

  lemma AppendedWeaken(f: LogFormat, d0: Disk, d1: Disk, a: seq<Bytes>, b: seq<Bytes>)
    requires Appended(f, d0, d1, a) && a <= b
    ensures Appended(f, d0, d1, b)
  {
    hide Inv, Recovered, DurableCount, Closed;
  }

  lemma AppendedNothing(f: LogFormat, d: Disk)
    requires Inv(f, d)
    ensures Appended(f, d, d, [])
  {
    hide Inv, Recovered, DurableCount, LinesOf;
    assert Recovered(f, d) + [] == Recovered(f, d);
  }

  lemma AppendedSame(f: LogFormat, d: Disk, d': Disk)
    requires Inv(f, d') && Recovered(f, d') == Recovered(f, d) && DurableCount(d) <= DurableCount(d')
    requires ClosedKept(d, d')
    ensures Appended(f, d, d', [])
  {
    hide Inv, Recovered, DurableCount, ClosedKept;
    assert Recovered(f, d) + [] == Recovered(f, d);
  }

  function Created(d: Disk, first: nat): Disk {
    d.(segments := d.segments + [SegmentFile(first, [], 0, false)])
  }

  lemma FirstIsNew(f: LogFormat, segments: seq<SegmentFile>, manifests: map<nat, ManifestFile>)
    requires ClosedOk(f, segments, manifests)
    ensures 1 + |Stream(segments)| !in manifests
  {
    hide Split, FileOf, GoodStream, Stream;
    if 1 + |Stream(segments)| in manifests {
      var i :| 0 <= i < |segments| && segments[i].first == 1 + |Stream(segments)|;
      assert IsClosed(f, segments[i], manifests[segments[i].first].manifest);
      PlacedBelow(segments, i);
      assert false;
    }
  }

  lemma CreatedShape(f: LogFormat, d: Disk, first: nat)
    requires Inv(f, d) && Open(d).None? && first == 1 + |Stream(d.segments)|
    ensures var d' := Created(d, first);
            && Closed(d') == d.segments && Closed(d) == d.segments
            && Open(d') == Some(SegmentFile(first, [], 0, false))
            && Stream(d'.segments) == Stream(d.segments)
            && LinesOf(Open(d').value) == [] && RestOf(Open(d').value) == []
  {
    hide FileOf, ClosedOk, Stream;
    var d', s := Created(d, first), SegmentFile(first, [], 0, false);
    assert d'.segments[..|d'.segments| - 1] == d.segments;
    FirstIsNew(f, d.segments, d.manifests);
    assert Split([]) == Parts([], []);
    StreamSnoc(d.segments, s);
    assert Stream(d.segments) + [] == Stream(d.segments);
  }

  lemma CreateStep(f: LogFormat, d: Disk, first: nat)
    requires Inv(f, d) && Open(d).None? && first == 1 + |Stream(d.segments)|
    requires forall k :: k in d.manifests ==> d.manifests[k].durable
    ensures var d' := Created(d, first);
            && Appended(f, d, d', []) && Closed(d') == d.segments && Settled(d')
            && Open(d') == Some(SegmentFile(first, [], 0, false))
            && LinesOf(Open(d').value) == []
            && Stream(d'.segments) == Stream(d.segments) && Recovered(f, d') == Recovered(f, d)
  {
    hide Split, FileOf, Stream, Chain, ClosedOk;
    var d' := Created(d, first);
    CreatedShape(f, d, first);
    assert EarlierManifestsDurable(d');
    NoLines(f, Stream(d.segments));
    RecoveredByPieces(f, d);
    RecoveredByPieces(f, d');
    assert d.segments <= d.segments;
    AppendedSame(f, d, d');
  }

  lemma NoLines(f: LogFormat, before: seq<Bytes>)
    ensures TailPieces(f, before, [], [])
  {
  }

  lemma PlacedAt(segments: seq<SegmentFile>, i: nat)
    requires Placed(segments) && i < |segments|
    ensures segments[i].first == 1 + |Stream(segments[..i])|
  {
    hide Stream, LinesOf;
  }

  lemma PlacedBelow(segments: seq<SegmentFile>, i: nat)
    requires Placed(segments) && i < |segments| && |LinesOf(segments[i])| > 0
    ensures segments[i].first <= |Stream(segments)|
  {
    hide Placed, Stream, LinesOf;
    PlacedAt(segments, i);
    StreamPrefix(segments, i + 1);
    assert segments[..i + 1] == segments[..i] + [segments[i]];
    StreamSnoc(segments[..i], segments[i]);
  }

  function WithBytes(s: SegmentFile, bytes: Bytes): SegmentFile { s.(bytes := bytes) }

  lemma AfterSame(c: seq<Bytes>, r: seq<Bytes>, r': seq<Bytes>, added: seq<Bytes>)
    requires r <= r' <= r + added
    ensures c + r <= c + r' <= c + r + added
  {
    assert r' == r + r'[|r|..];
    assert c + (r + r'[|r|..]) == c + r + r'[|r|..];
    assert c + (r + added) == c + r + added;
    assert r + added == r' + (r + added)[|r'|..];
    assert c + (r' + (r + added)[|r'|..]) == c + r' + (r + added)[|r'|..];
  }

  /** A step that changes only the tail file, described by its pieces. */
  lemma TailStep(f: LogFormat, d: Disk, s: SegmentFile, added: seq<Bytes>)
    requires Inv(f, d) && Open(d).Some? && s.first == Open(d).value.first
    requires s.synced <= |s.bytes| && TailPieces(f, Stream(Closed(d)), LinesOf(s), RestOf(s))
    requires TailRecovered(f, Open(d).value) <= TailRecovered(f, s) <= TailRecovered(f, Open(d).value) + added
    requires TailDurable(Open(d).value) <= TailDurable(s) && LinesOf(Open(d).value) <= LinesOf(s)
    ensures var d' := SetTail(d, s);
            && Appended(f, d, d', added) && Closed(d') == Closed(d) && Open(d') == Some(s)
            && Stream(d'.segments) == Stream(Closed(d)) + LinesOf(s)
            && Recovered(f, d') == Stream(Closed(d)) + TailRecovered(f, s)
            && d'.manifests == d.manifests
  {
    hide Split, FileOf, Stream, Chain, TailPieces, PiecesRecovered, ClosedOk;
    var d' := SetTail(d, s);
    SetTailShape(d, s);
    RecoveredByPieces(f, d);
    RecoveredByPieces(f, d');
    assert EarlierManifestsDurable(d');
    assert Inv(f, d');
    AfterSame(Stream(Closed(d)), TailRecovered(f, Open(d).value), TailRecovered(f, s), added);
    assert d'.segments[|Closed(d)|] == s;
    assert ClosedKept(d, d');
  }

  lemma PiecesPart(f: LogFormat, before: seq<Bytes>, lines: seq<Bytes>, line: Bytes, m: nat)
    requires TailPieces(f, before, lines, []) && f.NoJsonPrefix(line) && m <= |line|
    requires LineOk(f, line, 1 + |before| + |lines|, TailHash(f, lines, TailHash(f, before, None)))
    ensures TailPieces(f, before, lines, line[..m])
    ensures PiecesRecovered(f, lines, []) <= PiecesRecovered(f, lines, line[..m])
    ensures PiecesRecovered(f, lines, line[..m]) <= PiecesRecovered(f, lines, []) + [line]
  {
    var mid := TailHash(f, lines, TailHash(f, before, None));
    assert Torn(f, line, 1 + |before| + |lines|, mid);
    TornPrefix(f, line[..m], line, 1 + |before| + |lines|, mid);
    assert lines + [] == lines;
  }

  /** Writing any part of the next line after the last newline. */
  lemma WritePartStep(f: LogFormat, d: Disk, line: Bytes, m: nat)
    requires Inv(f, d) && Open(d).Some? && Settled(d) && m <= |line|
    requires IsLine(line) && f.NoJsonPrefix(line)
    requires LineOk(f, line, 1 + |Stream(d.segments)|, TailHash(f, Stream(d.segments), None))
    ensures var s := WithBytes(Open(d).value, Open(d).value.bytes + line[..m]); var d' := SetTail(d, s);
            && Appended(f, d, d', [line]) && Closed(d') == Closed(d) && Open(d') == Some(s)
            && LinesOf(s) == LinesOf(Open(d).value) && RestOf(s) == line[..m]
            && d'.manifests == d.manifests
  {
    hide FileOf, Stream, Chain, ClosedOk, Split, TailPieces, PiecesRecovered, LogFormat.NoJsonPrefix;
    var s := Open(d).value;
    var s' := WithBytes(s, s.bytes + line[..m]);
    var before, lines := Stream(Closed(d)), LinesOf(s);
    ClosedOpen(d);
    assert |before + lines| == |before| + |lines|;
    SplitMore(s.bytes, lines, line[..m]);
    TailHashConcat(f, before, lines);
    PiecesPart(f, before, lines, line, m);
    assert TailDurable(s) <= TailDurable(s') by { assert s'.bytes[..s.synced] == s.bytes[..s.synced]; }
    TailStep(f, d, s', [line]);
  }

  lemma TailHashConcat(f: LogFormat, a: seq<Bytes>, b: seq<Bytes>)
    ensures TailHash(f, a + b, None) == TailHash(f, b, TailHash(f, a, None))
  {
    hide Chain;
    ChainConcat(f, a, b, 1, None);
  }

  /** Terminating a whole line makes it an event. */
  lemma PiecesNewline(f: LogFormat, before: seq<Bytes>, lines: seq<Bytes>, line: Bytes)
    requires TailPieces(f, before, lines, line)
    requires LineOk(f, line, 1 + |before| + |lines|, TailHash(f, lines, TailHash(f, before, None)))
    ensures TailPieces(f, before, lines + [line], [])
    ensures PiecesRecovered(f, lines, line) <= PiecesRecovered(f, lines + [line], [])
    ensures PiecesRecovered(f, lines + [line], []) <= PiecesRecovered(f, lines, line) + [line]
    ensures PiecesRecovered(f, lines + [line], []) == lines + [line]
  {
    ChainSnoc(f, lines, line, 1 + |before|, TailHash(f, before, None));
    assert lines + [line] + [] == lines + [line];
  }

  lemma WriteNewlineStep(f: LogFormat, d: Disk)
    requires Inv(f, d) && Open(d).Some?
    requires LineOk(f, RestOf(Open(d).value), 1 + |Stream(d.segments)|, TailHash(f, Stream(d.segments), None))
    ensures var line := RestOf(Open(d).value);
            var s := WithBytes(Open(d).value, Open(d).value.bytes + [NEWLINE]); var d' := SetTail(d, s);
            && Appended(f, d, d', [line]) && Closed(d') == Closed(d) && Open(d') == Some(s) && Settled(d')
            && LinesOf(s) == LinesOf(Open(d).value) + [line]
            && Stream(d'.segments) == Stream(d.segments) + [line]
            && Recovered(f, d') == Stream(d.segments) + [line]
            && d'.manifests == d.manifests
  {
    hide FileOf, Stream, Chain, ClosedOk, TailPieces, PiecesRecovered;
    var s := Open(d).value;
    var s' := WithBytes(s, s.bytes + [NEWLINE]);
    var before, lines, line := Stream(Closed(d)), LinesOf(s), RestOf(s);
    ClosedOpen(d);
    SplitUnchangedByTerminator(lines, line);
    assert LinesOf(s') == lines + [line] && RestOf(s') == [];
    assert |before + lines| == |before| + |lines|;
    TailHashConcat(f, before, lines);
    PiecesNewline(f, before, lines, line);
    assert TailDurable(s) <= TailDurable(s') by { assert s'.bytes[..s.synced] == s.bytes[..s.synced]; }
    TailStep(f, d, s', [line]);
    assert before + (lines + [line]) == before + lines + [line];
  }

  /** Syncing the file, or its directory entry, changes no bytes. */
  lemma SyncTailStep(f: LogFormat, d: Disk, linked: bool)
    requires Inv(f, d) && Open(d).Some? && (Open(d).value.linked ==> linked)
    ensures var s := Open(d).value.(synced := |Open(d).value.bytes|, linked := linked); var d' := SetTail(d, s);
            && Appended(f, d, d', []) && Closed(d') == Closed(d) && Open(d') == Some(s)
            && Stream(d'.segments) == Stream(d.segments) && Recovered(f, d') == Recovered(f, d)
            && d'.manifests == d.manifests
  {
    hide FileOf, Stream, Chain, ClosedOk, TailPieces;
    var s := Open(d).value;
    var s' := s.(synced := |s.bytes|, linked := linked);
    ClosedOpen(d);
    RecoveredByPieces(f, d);
    LinesOfPrefix(s.bytes, s.synced, |s.bytes|);
    assert TailRecovered(f, s) + [] == TailRecovered(f, s);
    TailStep(f, d, s', []);
  }

  /** Cutting a broken remainder loses no event. */
  lemma TruncateStep(f: LogFormat, d: Disk)
    requires Inv(f, d) && Open(d).Some? && PendingLine(f, d) == []
    ensures var kept := FileOf(LinesOf(Open(d).value));
            var s := Open(d).value.(bytes := kept, synced := |kept|); var d' := SetTail(d, s);
            && Appended(f, d, d', []) && Closed(d') == Closed(d) && Open(d') == Some(s) && Settled(d')
            && LinesOf(s) == LinesOf(Open(d).value)
            && Stream(d'.segments) == Stream(d.segments) && Recovered(f, d') == Recovered(f, d)
            && d'.manifests == d.manifests
  {
    hide FileOf, Stream, Chain, ClosedOk;
    var s := Open(d).value;
    var lines := LinesOf(s);
    var kept := FileOf(lines);
    var s' := s.(bytes := kept, synced := |kept|);
    ClosedOpen(d);
    RecoveredByPieces(f, d);
    assert kept + [] == kept;
    SplitFile(lines, []);
    LinesOfPrefix(s.bytes, s.synced, |s.bytes|);
    assert s.bytes[..|s.bytes|] == s.bytes && kept[..|kept|] == kept;
    assert TailRecovered(f, s) == lines;
    assert Torn(f, [], 1 + |Stream(Closed(d))| + |lines|, TailHash(f, lines, TailHash(f, Stream(Closed(d)), None)));
    assert lines + [] == lines;
    TailStep(f, d, s', []);
  }

  function Published(f: LogFormat, d: Disk, m: Manifest): Disk {
    d.(manifests := d.manifests[m.firstSeq := ManifestFile(m, false)])
  }

  function ManifestsSynced(m: map<nat, ManifestFile>): map<nat, ManifestFile> {
    map k | k in m :: m[k].(durable := true)
  }

  lemma PublishStep(f: LogFormat, d: Disk)
    requires Inv(f, d) && Open(d).Some? && Settled(d) && |LinesOf(Open(d).value)| > 0
    requires Open(d).value.linked && Open(d).value.synced == |Open(d).value.bytes|
    ensures var s := Open(d).value;
            var d' := Published(f, d, ManifestFor(f, s.first, LinesOf(s), |s.bytes|, f.hash(s.bytes)));
            && Appended(f, d, d', []) && Open(d').None? && Closed(d') == d.segments
            && Recovered(f, d') == Recovered(f, d) && Stream(d'.segments) == Stream(d.segments)
  {
    hide Split, FileOf, Stream, Chain, TailPieces, GoodStream;
    var s := Open(d).value;
    var m := ManifestFor(f, s.first, LinesOf(s), |s.bytes|, f.hash(s.bytes));
    var d' := Published(f, d, m);
    ClosedOpen(d);
    assert d.segments == Closed(d) + [s];
    assert GoodStream(f, Stream(d.segments)) by { GoodAppend(f, Stream(Closed(d)), LinesOf(s), RestOf(s)); }
    PlacedAppend(Closed(d), s, f, d.manifests);
    FilesAppend(f, Closed(d), s, d.manifests, d'.manifests);
    assert IsManifested(d');
    PublishedRest(f, d, d');
  }

  lemma PlacedAppend(segments: seq<SegmentFile>, s: SegmentFile, f: LogFormat, manifests: map<nat, ManifestFile>)
    requires Placed(segments) && FilesClosed(f, segments, manifests) && s.first == 1 + |Stream(segments)|
    ensures Placed(segments + [s])
  {
    hide Split, FileOf, Stream;
    forall i | 0 <= i <= |segments| ensures (segments + [s])[i].first == 1 + |Stream((segments + [s])[..i])| {
      assert (segments + [s])[..i] == segments[..i];
      assert segments[..|segments|] == segments;
    }
  }

  lemma FilesAppend(f: LogFormat, segments: seq<SegmentFile>, s: SegmentFile,
                    manifests: map<nat, ManifestFile>, manifests': map<nat, ManifestFile>)
    requires FilesClosed(f, segments, manifests) && NoOrphan(segments, manifests) && s.first !in manifests
    requires s.linked && s.synced == |s.bytes| && RestOf(s) == [] && |LinesOf(s)| > 0
    requires manifests' == manifests[s.first := ManifestFile(
               ManifestFor(f, s.first, LinesOf(s), |s.bytes|, f.hash(s.bytes)), false)]
    ensures FilesClosed(f, segments + [s], manifests') && NoOrphan(segments + [s], manifests')
  {
    hide Split, FileOf, ManifestFor;
    var all := segments + [s];
    forall i | 0 <= i < |segments| ensures all[i] == segments[i] && all[i].first != s.first {}
    assert all[|segments|] == s;
    forall k | k in manifests' ensures exists i :: 0 <= i < |all| && all[i].first == k {
      if k == s.first {
        assert all[|segments|].first == k;
      } else {
        var i :| 0 <= i < |segments| && segments[i].first == k;
        assert all[i].first == k;
      }
    }
  }

  lemma PublishedRest(f: LogFormat, d: Disk, d': Disk)
    requires Inv(f, d) && Open(d).Some? && Settled(d) && IsManifested(d')
    requires d'.segments == d.segments && d'.checkpoints == d.checkpoints
    requires exists m :: d' == Published(f, d, m) && m.firstSeq == Open(d).value.first
    requires Open(d).value.linked && Open(d).value.synced == |Open(d).value.bytes|
    requires ClosedOk(f, d.segments, d'.manifests)
    ensures Appended(f, d, d', []) && Open(d').None? && Closed(d') == d.segments
    ensures Recovered(f, d') == Recovered(f, d) && Stream(d'.segments) == Stream(d.segments)
  {
    hide Split, FileOf, Stream, Chain, TailPieces, ClosedOk;
    var s := Open(d).value;
    RecoveredByPieces(f, d);
    RecoveredByPieces(f, d');
    ClosedOpen(d);
    assert s.bytes[..|s.bytes|] == s.bytes;
    assert EarlierManifestsDurable(d');
    assert Closed(d) <= d'.segments;
    AppendedSame(f, d, d');
  }

  lemma GoodAppend(f: LogFormat, before: seq<Bytes>, lines: seq<Bytes>, rest: Bytes)
    requires GoodStream(f, before) && TailPieces(f, before, lines, rest)
    ensures GoodStream(f, before + lines)
  {
    ChainConcat(f, before, lines, 1, None);
  }

  lemma SyncManifestsStep(f: LogFormat, d: Disk)
    requires Inv(f, d)
    ensures var d' := d.(manifests := ManifestsSynced(d.manifests));
            && Appended(f, d, d', []) && Closed(d') == Closed(d) && Open(d') == Open(d)
            && Recovered(f, d') == Recovered(f, d)
            && (forall k :: k in d'.manifests ==> d'.manifests[k].durable)
  {
    hide Split, FileOf, Stream, Chain, TailPieces, ClosedOk;
    var d' := d.(manifests := ManifestsSynced(d.manifests));
    assert d'.manifests.Keys == d.manifests.Keys;
    assert Closed(d') == Closed(d) && Open(d') == Open(d);
    ClosedOkSameManifests(f, Closed(d), d.manifests, d'.manifests);
    assert EarlierManifestsDurable(d');
    RecoveredByPieces(f, d);
    RecoveredByPieces(f, d');
    assert Closed(d) <= Closed(d');
    AppendedSame(f, d, d');
  }
}
