/** A crash at any moment keeps the store invariant and every durable event. */
module LogCrash {
  import opened Wrappers
  import opened LogLines
  import opened EventFormat
  import opened LogDisk

  lemma ClosedOkSameManifests(f: LogFormat, segments: seq<SegmentFile>,
                              m: map<nat, ManifestFile>, m': map<nat, ManifestFile>)
    requires ClosedOk(f, segments, m)
    requires m'.Keys == m.Keys && forall k :: k in m' ==> m'[k].manifest == m[k].manifest
    ensures ClosedOk(f, segments, m')
  {
  }

  lemma GoodPrefix(f: LogFormat, a: seq<Bytes>, b: seq<Bytes>)
    requires GoodStream(f, a + b)
    ensures GoodStream(f, a)
    ensures Chain(f, b, 1 + |a|, TailHash(f, a, None)) && Canonical(f, b)
  {
    ChainConcat(f, a, b, 1, None);
    forall i | 0 <= i < |a| ensures f.NoJsonPrefix(a[i]) { assert a[i] == (a + b)[i]; }
    forall i | 0 <= i < |b| ensures f.NoJsonPrefix(b[i]) { assert b[i] == (a + b)[|a| + i]; }
  }

  lemma PlacedWithoutLast(segments: seq<SegmentFile>)
    requires |segments| > 0 && Placed(segments)
    ensures Placed(segments[..|segments| - 1])
  {
    hide Split, FileOf, Stream;
    var init := segments[..|segments| - 1];
    forall i | 0 <= i < |init| ensures init[..i] == segments[..i] {}
  }

  lemma ClosedWithoutLast(f: LogFormat, segments: seq<SegmentFile>, m: map<nat, ManifestFile>, m': map<nat, ManifestFile>)
    requires |segments| > 0 && Placed(segments) && FilesClosed(f, segments, m)
    requires m'.Keys == m.Keys - {LastOf(segments).first}
    requires forall k :: k in m' ==> m'[k].manifest == m[k].manifest
    ensures FilesClosed(f, segments[..|segments| - 1], m')
  {
    hide Split, FileOf, Stream, IsClosed, Placed;
    var init := segments[..|segments| - 1];
    forall i | 0 <= i < |init| ensures init[i].first in m' && init[i] == segments[i] {
      FirstsAscend(segments, i, |segments| - 1);
    }
  }

  lemma FilesWithoutLast(f: LogFormat, segments: seq<SegmentFile>,
                         m: map<nat, ManifestFile>, m': map<nat, ManifestFile>)
    requires |segments| > 0 && Placed(segments) && FilesClosed(f, segments, m) && NoOrphan(segments, m)
    requires m'.Keys == m.Keys - {LastOf(segments).first}
    requires forall k :: k in m' ==> m'[k].manifest == m[k].manifest
    ensures var init := segments[..|segments| - 1];
            Placed(init) && FilesClosed(f, init, m') && NoOrphan(init, m')
  {
    hide Split, FileOf, Stream, Chain, IsClosed, Placed, FilesClosed;
    var init := segments[..|segments| - 1];
    PlacedWithoutLast(segments);
    ClosedWithoutLast(f, segments, m, m');
    forall k | k in m' ensures exists i :: 0 <= i < |init| && init[i].first == k {
      var i :| 0 <= i < |segments| && segments[i].first == k;
      assert init[i].first == k;
    }
  }

  lemma ClosedOkWithoutLast(f: LogFormat, segments: seq<SegmentFile>,
                            m: map<nat, ManifestFile>, m': map<nat, ManifestFile>)
    requires |segments| > 0 && ClosedOk(f, segments, m)
    requires m'.Keys == m.Keys - {LastOf(segments).first}
    requires forall k :: k in m' ==> m'[k].manifest == m[k].manifest
    ensures ClosedOk(f, segments[..|segments| - 1], m')
    ensures TailOk(f, Stream(segments[..|segments| - 1]), LastOf(segments))
  {
    var init, last := segments[..|segments| - 1], LastOf(segments);
    FilesWithoutLast(f, segments, m, m');
    GoodPrefix(f, Stream(init), LinesOf(last));
    assert last == segments[|segments| - 1];
  }

  /** A prefix of a serialized line is broken unless it is the whole line. */
  lemma TornPrefix(f: LogFormat, torn: Bytes, whole: Bytes, seqNo: nat, previous: Option<Digest>)
    requires torn <= whole && Torn(f, whole, seqNo, previous)
    ensures Torn(f, torn, seqNo, previous)
    ensures f.isJson(torn) ==> torn == whole
  {
    assert torn == whole[..|torn|];
    forall k | 0 <= k < |torn| ensures !f.isJson(torn[..k]) {
      assert torn[..k] == whole[..k];
    }
    if |torn| == |whole| {
      assert torn == whole;
    }
  }

  /** What the next writer recovers from a tail: its lines, and the rest when that is whole. */
  function PiecesRecovered(f: LogFormat, lines: seq<Bytes>, rest: Bytes): seq<Bytes> {
    lines + if rest != [] && f.isJson(rest) then [rest] else []
  }

  lemma TornLine(f: LogFormat, line: Bytes, seqNo: nat, previous: Option<Digest>)
    requires LineOk(f, line, seqNo, previous) && f.NoJsonPrefix(line)
    ensures Torn(f, line, seqNo, previous)
  {
  }

  lemma CutInside(f: LogFormat, before: seq<Bytes>, lines: seq<Bytes>, rest: Bytes, k: nat, torn: Bytes)
    requires TailPieces(f, before, lines, rest) && k < |lines| && torn <= lines[k]
    ensures TailPieces(f, before, lines[..k], torn)
    ensures f.isJson(torn) ==> torn == lines[k]
  {
    hide LineOk, LogFormat.NoJsonPrefix, Torn, Chain;
    var first, mid := 1 + |before|, TailHash(f, before, None);
    ChainPrefix(f, lines, k, first, mid);
    assert PreviousAt(f, lines, k, mid) == TailHash(f, lines[..k], mid);
    ChainLine(f, lines, k, first, mid);
    TornLine(f, lines[k], first + k, PreviousAt(f, lines, k, mid));
    TornPrefix(f, torn, lines[k], first + k, PreviousAt(f, lines, k, mid));
  }

  lemma ChainLine(f: LogFormat, lines: seq<Bytes>, k: nat, first: nat, before: Option<Digest>)
    requires Chain(f, lines, first, before) && k < |lines|
    ensures LineOk(f, lines[k], first + k, PreviousAt(f, lines, k, before))
  {
    hide LineOk;
  }

  lemma CutPieces(f: LogFormat, before: seq<Bytes>, lines: seq<Bytes>, rest: Bytes, k: nat, torn: Bytes)
    requires TailPieces(f, before, lines, rest)
    requires k <= |lines| && torn <= if k < |lines| then lines[k] else rest
    ensures TailPieces(f, before, lines[..k], torn)
    ensures PiecesRecovered(f, lines[..k], torn) <= PiecesRecovered(f, lines, rest)
  {
    hide LogFormat.NoJsonPrefix, Torn, Chain, Canonical;
    if k < |lines| {
      CutInside(f, before, lines, rest, k, torn);
      assert lines[..k + 1] == lines[..k] + [lines[k]];
    } else {
      assert lines[..k] == lines;
      TornPrefix(f, torn, rest, 1 + |before| + k, TailHash(f, lines, TailHash(f, before, None)));
    }
  }

  function TailRecovered(f: LogFormat, s: SegmentFile): seq<Bytes> {
    PiecesRecovered(f, LinesOf(s), RestOf(s))
  }

  function TailDurable(s: SegmentFile): nat {
    if s.linked && s.synced <= |s.bytes| then |Split(s.bytes[..s.synced]).lines| else 0
  }

  function Cut(s: SegmentFile, n: nat): SegmentFile
    requires n <= |s.bytes|
  {
    SegmentFile(s.first, s.bytes[..n], n, true)
  }

  lemma CutTail(f: LogFormat, before: seq<Bytes>, s: SegmentFile, n: nat)
    requires TailOk(f, before, s) && n <= |s.bytes|
    ensures TailOk(f, before, Cut(s, n))
    ensures TailRecovered(f, Cut(s, n)) <= TailRecovered(f, s)
  {
    var k, torn := SplitPrefix(LinesOf(s), RestOf(s), n);
    assert LinesOf(Cut(s, n)) == LinesOf(s)[..k] && RestOf(Cut(s, n)) == torn;
    CutPieces(f, before, LinesOf(s), RestOf(s), k, torn);
  }

  lemma LinesOfPrefix(bytes: Bytes, m: nat, n: nat)
    requires m <= n <= |bytes|
    ensures |Split(bytes[..m]).lines| <= |Split(bytes[..n]).lines|
  {
    var whole := Split(bytes[..n]);
    var k, torn := SplitPrefix(whole.lines, whole.rest, m);
    assert bytes[..n][..m] == bytes[..m];
  }

  lemma CutDurable(f: LogFormat, s: SegmentFile, n: nat)
    requires s.synced <= n <= |s.bytes|
    ensures TailDurable(s) <= TailDurable(Cut(s, n)) <= |TailRecovered(f, Cut(s, n))|
  {
    LinesOfPrefix(s.bytes, s.synced, n);
    assert s.bytes[..n][..n] == s.bytes[..n];
  }

  lemma DurableWithin(f: LogFormat, s: SegmentFile)
    ensures TailDurable(s) <= |TailRecovered(f, s)|
  {
    if s.synced <= |s.bytes| {
      LinesOfPrefix(s.bytes, s.synced, |s.bytes|);
      assert s.bytes[..|s.bytes|] == s.bytes;
    }
  }

  /** Crash safety: whatever the crash takes, the invariant holds, the stream is cut only at
      its end, and never below what was durable. */
  lemma CrashKeepsDurable(f: LogFormat, d: Disk, d': Disk)
    requires Inv(f, d) && CrashesTo(d, d')
    ensures Inv(f, d')
    ensures Recovered(f, d') <= Recovered(f, d)
    ensures DurableCount(d) <= DurableCount(d') <= |Recovered(f, d')|
    ensures Open(d).Some? ==> Closed(d') == Closed(d)
    ensures Closed(d') <= Closed(d)
  {
    if Open(d).Some? {
      CrashWithOpenTail(f, d, d');
    } else {
      CrashWithoutOpenTail(f, d, d');
    }
  }

  lemma SameManifestKeys(f: LogFormat, d: Disk, d': Disk)
    requires Inv(f, d) && CrashesTo(d, d') && Open(d).Some?
    ensures d'.manifests.Keys == d.manifests.Keys
  {
    hide Split, Stream, GoodStream, Placed, FilesClosed, TailOk;
    forall k | k in d.manifests ensures k in d'.manifests {
      var i :| 0 <= i < |Closed(d)| && Closed(d)[i].first == k;
      assert d.segments[i].first in d.manifests;
    }
  }

  lemma CrashWithOpenTail(f: LogFormat, d: Disk, d': Disk)
    requires Inv(f, d) && CrashesTo(d, d') && Open(d).Some?
    ensures Inv(f, d') && Closed(d') == Closed(d)
    ensures Recovered(f, d') <= Recovered(f, d)
    ensures DurableCount(d) <= DurableCount(d') <= |Recovered(f, d')|
  {
    hide Split, FileOf, Stream, ClosedOk, TailPieces, RestOf, LinesOf, TailRecovered, TailDurable, Recovered, DurableCount;
    var s, closed := Open(d).value, Closed(d);
    SameManifestKeys(f, d, d');
    assert ClosedOk(f, closed, d'.manifests) by {
      ClosedOkSameManifests(f, closed, d.manifests, d'.manifests);
    }
    if d'.segments == d.segments {
      DurableWithin(f, s);
      TailOnly(f, d, d', s);
    } else if !s.linked && d'.segments == closed {
      TailGone(f, d, d');
    } else {
      var n: nat :| s.synced <= n <= |s.bytes|
        && d'.segments == d.segments[..|d.segments| - 1] + [SegmentFile(s.first, s.bytes[..n], n, true)];
      CutTail(f, Stream(closed), s, n);
      CutDurable(f, s, n);
      TailOnly(f, d, d', Cut(s, n));
    }
  }

  lemma UnlinkedTail(s: SegmentFile)
    requires !s.linked
    ensures TailDurable(s) == 0
  {
  }

  /** Only closed segments are left, and their manifests were durable. */
  lemma AllClosed(f: LogFormat, d: Disk, d': Disk)
    requires EarlierManifestsDurable(d) && Open(d).Some? && d'.segments == Closed(d) && ClosedOk(f, Closed(d), d'.manifests)
    requires forall k :: k in d.manifests && d.manifests[k].durable ==> k in d'.manifests && d'.manifests[k].durable
    ensures EarlierManifestsDurable(d') && Open(d').None? && Closed(d') == Closed(d)
  {
    hide Split, FileOf, Stream, GoodStream, Placed, NoOrphan, IsClosed;
    var closed := Closed(d);
    forall i | 0 <= i < |closed| ensures d'.manifests[closed[i].first].durable && closed[i].first in d'.manifests {
      assert d.segments[i] == closed[i];
    }
    assert |closed| > 0 ==> LastOf(closed) == closed[|closed| - 1];
  }

  lemma TailGone(f: LogFormat, d: Disk, d': Disk)
    requires Inv(f, d) && CrashesTo(d, d') && Open(d).Some? && !Open(d).value.linked
    requires d'.segments == Closed(d) && ClosedOk(f, Closed(d), d'.manifests)
    ensures Inv(f, d') && Closed(d') == Closed(d)
    ensures Recovered(f, d') <= Recovered(f, d)
    ensures DurableCount(d) <= DurableCount(d') <= |Recovered(f, d')|
  {
    hide Split, FileOf, Stream, ClosedOk, TailOk, PiecesRecovered, TailDurable;
    AllClosed(f, d, d');
    RecoveredByPieces(f, d);
    RecoveredByPieces(f, d');
    assert TailDurable(Open(d).value) == 0 by { UnlinkedTail(Open(d).value); }
  }

  /** A crash that leaves the closed segments and one tail file. */
  lemma TailOnly(f: LogFormat, d: Disk, d': Disk, s: SegmentFile)
    requires Inv(f, d) && Open(d).Some? && s.first == Open(d).value.first
    requires d'.segments == Closed(d) + [s] && d'.manifests.Keys == d.manifests.Keys
    requires forall k :: k in d.manifests && d.manifests[k].durable ==> d'.manifests[k].durable
    requires ClosedOk(f, Closed(d), d'.manifests) && TailOk(f, Stream(Closed(d)), s)
    requires TailRecovered(f, s) <= TailRecovered(f, Open(d).value)
    requires TailDurable(Open(d).value) <= TailDurable(s) <= |TailRecovered(f, s)|
    ensures Inv(f, d') && Closed(d') == Closed(d)
    ensures Recovered(f, d') <= Recovered(f, d)
    ensures DurableCount(d) <= DurableCount(d') <= |Recovered(f, d')|
  {
    hide Split, FileOf, Stream, GoodStream, TailPieces;
    assert d'.segments[..|d'.segments| - 1] == Closed(d);
    assert Closed(d') == Closed(d) && Open(d') == Some(s);
    assert EarlierManifestsDurable(d') by {
      forall i | 0 <= i < |d'.segments| - 1
        ensures d'.segments[i].first in d'.manifests && d'.manifests[d'.segments[i].first].durable
      {
        assert d'.segments[i] == d.segments[i];
      }
    }
    RecoveredByPieces(f, d);
    RecoveredByPieces(f, d');
  }

  lemma RecoveredByPieces(f: LogFormat, d: Disk)
    ensures Recovered(f, d) == Stream(Closed(d)) + if Open(d).Some? then TailRecovered(f, Open(d).value) else []
    ensures DurableCount(d) == |Stream(Closed(d))| + if Open(d).Some? then TailDurable(Open(d).value) else 0
  {
    hide Split, FileOf, Stream;
    ClosedOpen(d);
    assert forall x: seq<Bytes> :: x + [] == x;
  }

  lemma CrashWithoutOpenTail(f: LogFormat, d: Disk, d': Disk)
    requires Inv(f, d) && CrashesTo(d, d') && Open(d).None?
    ensures Inv(f, d') && Closed(d') <= Closed(d)
    ensures Recovered(f, d') == Recovered(f, d)
    ensures DurableCount(d) == DurableCount(d') == |Recovered(f, d')|
  {
    hide Split, FileOf, Stream, GoodStream, TailPieces, FilesClosed, NoOrphan, Placed, TailOk;
    assert Closed(d) == d.segments;
    ClosedSegmentsStay(f, d, d');
    var n := |d.segments|;
    assert EarlierManifestsDurable(d');
    if IsManifested(d') || n == 0 {
      assert d'.manifests.Keys == d.manifests.Keys by { ManifestsKept(d, d'); }
      ClosedOkSameManifests(f, d.segments, d.manifests, d'.manifests);
      RecoveredByPieces(f, d);
      RecoveredByPieces(f, d');
    } else {
      var last := LastOf(d.segments);
      assert d'.manifests.Keys == d.manifests.Keys - {last.first} by { ManifestsKept(d, d'); }
      ClosedOkWithoutLast(f, d.segments, d.manifests, d'.manifests);
      ManifestLost(f, d, d');
    }
  }

  /** Only the last segment's manifest can be lost. */
  lemma ManifestsKept(d: Disk, d': Disk)
    requires EarlierManifestsDurable(d) && NoOrphan(d.segments, d.manifests) && CrashesTo(d, d')
    ensures d'.manifests.Keys <= d.manifests.Keys
    ensures forall k :: k in d.manifests && (|d.segments| == 0 || k != LastOf(d.segments).first) ==> k in d'.manifests
  {
    forall k | k in d.manifests && (|d.segments| == 0 || k != LastOf(d.segments).first) ensures k in d'.manifests {
      var i :| 0 <= i < |d.segments| && d.segments[i].first == k;
    }
  }

  lemma ClosedSegmentsStay(f: LogFormat, d: Disk, d': Disk)
    requires FilesClosed(f, d.segments, d.manifests) && CrashesTo(d, d')
    ensures d'.segments == d.segments
  {
    hide Split, FileOf, Stream, IsClosed;
    if |d.segments| > 0 {
      var last := LastOf(d.segments);
      assert last == d.segments[|d.segments| - 1];
      assert last.linked && last.synced == |last.bytes|;
      assert last.bytes[..|last.bytes|] == last.bytes;
      assert d.segments == d.segments[..|d.segments| - 1] + [last];
    }
  }

  lemma ManifestLost(f: LogFormat, d: Disk, d': Disk)
    requires Inv(f, d) && Open(d).None? && d'.segments == d.segments && |d.segments| > 0 && !IsManifested(d')
    requires ClosedOk(f, d.segments[..|d.segments| - 1], d'.manifests) && EarlierManifestsDurable(d')
    requires TailOk(f, Stream(d.segments[..|d.segments| - 1]), LastOf(d.segments))
    ensures Inv(f, d') && Closed(d') <= Closed(d)
    ensures Recovered(f, d') == Recovered(f, d)
    ensures DurableCount(d) == DurableCount(d') == |Recovered(f, d')|
  {
    hide Split, FileOf, Stream, GoodStream, TailPieces;
    var last := LastOf(d.segments);
    assert last == d.segments[|d.segments| - 1];
    assert last.bytes[..|last.bytes|] == last.bytes;
    RecoveredByPieces(f, d);
    RecoveredByPieces(f, d');
  }
}
