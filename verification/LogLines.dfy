/** A segment file is a sequence of bytes; its complete lines end in a newline.
    Everything the event log reads goes through `Split`, the unique decomposition of a
    file into complete lines and an unterminated remainder. */
module LogLines {

  newtype byte = x: int | 0 <= x < 256
  type Bytes = seq<byte>

  const NEWLINE: byte := 10

  predicate IsLine(line: Bytes) { NEWLINE !in line }

  predicate AllLines(lines: seq<Bytes>) { forall i :: 0 <= i < |lines| ==> IsLine(lines[i]) }

  /** The file holding `lines`, each followed by a newline. */
  function FileOf(lines: seq<Bytes>): Bytes {
    if lines == [] then [] else FileOf(lines[..|lines| - 1]) + lines[|lines| - 1] + [NEWLINE]
  }

  datatype Parts = Parts(lines: seq<Bytes>, rest: Bytes)

  /** Complete lines of a file, and what follows its last newline. */
  function Split(bytes: Bytes): (parts: Parts)
    ensures AllLines(parts.lines) && IsLine(parts.rest)
    ensures bytes == FileOf(parts.lines) + parts.rest
  {
    if bytes == [] then Parts([], [])
    else
      var before := Split(bytes[..|bytes| - 1]);
      var last := bytes[|bytes| - 1];
      if last == NEWLINE then
        var lines := before.lines + [before.rest];
        assert lines[..|lines| - 1] == before.lines;
        Parts(lines, [])
      else Parts(before.lines, before.rest + [last])
  }

  lemma FileOfSnoc(lines: seq<Bytes>, line: Bytes)
    ensures FileOf(lines + [line]) == FileOf(lines) + line + [NEWLINE]
  {
    assert (lines + [line])[..|lines|] == lines;
  }

  lemma FileOfNone()
    ensures FileOf([]) == []
  {
  }

  lemma {:induction false} FileOfConcat(a: seq<Bytes>, b: seq<Bytes>)
    ensures FileOf(a + b) == FileOf(a) + FileOf(b)
    decreases |b|
  {
    hide FileOf;
    FileOfNone();
    if b == [] {
      assert a + b == a;
    } else {
      var init, last := b[..|b| - 1], b[|b| - 1];
      FileOfConcat(a, init);
      assert a + b == (a + init) + [last];
      assert b == init + [last];
      FileOfSnoc(a + init, last);
      FileOfSnoc(init, last);
      assert FileOf(a) + FileOf(init) + last + [NEWLINE] == FileOf(a) + (FileOf(init) + last + [NEWLINE]);
    }
  }

  lemma SplitByte(bytes: Bytes, last: byte)
    ensures Split(bytes + [last]) ==
            if last == NEWLINE then Parts(Split(bytes).lines + [Split(bytes).rest], [])
            else Parts(Split(bytes).lines, Split(bytes).rest + [last])
  {
    hide FileOf;
    assert (bytes + [last])[..|bytes|] == bytes;
  }

  lemma {:induction false} SplitRest(lines: seq<Bytes>, rest: Bytes)
    requires Split(FileOf(lines)) == Parts(lines, [])
    requires IsLine(rest)
    ensures Split(FileOf(lines) + rest) == Parts(lines, rest)
    decreases |rest|
  {
    hide FileOf, Split;
    var bytes := FileOf(lines) + rest;
    if rest == [] {
      assert bytes == FileOf(lines);
    } else {
      var init, last := rest[..|rest| - 1], rest[|rest| - 1];
      assert init + [last] == rest;
      SplitRest(lines, init);
      SplitByte(FileOf(lines) + init, last);
      assert FileOf(lines) + init + [last] == bytes;
    }
  }

  /** Reading back what was written: the decomposition is unique. */
  lemma {:induction false} SplitFile(lines: seq<Bytes>, rest: Bytes)
    requires AllLines(lines) && IsLine(rest)
    ensures Split(FileOf(lines) + rest) == Parts(lines, rest)
    decreases |lines|
  {
    if lines == [] {
      assert Split([]) == Parts([], []);
    } else {
      var init, last := lines[..|lines| - 1], lines[|lines| - 1];
      SplitFile(init, last);
      var bytes := FileOf(lines);
      assert bytes[..|bytes| - 1] == FileOf(init) + last;
      assert init + [last] == lines;
    }
    assert Split(FileOf(lines)) == Parts(lines, []);
    SplitRest(lines, rest);
  }

  /** A torn file: any prefix of a file is some of its lines and a prefix of the next piece. */
  lemma {:induction false} SplitPrefix(lines: seq<Bytes>, rest: Bytes, n: nat)
    returns (k: nat, torn: Bytes)
    requires AllLines(lines) && IsLine(rest)
    requires n <= |FileOf(lines) + rest|
    ensures k <= |lines| && IsLine(torn)
    ensures (FileOf(lines) + rest)[..n] == FileOf(lines[..k]) + torn
    ensures Split((FileOf(lines) + rest)[..n]) == Parts(lines[..k], torn)
    ensures torn <= (if k < |lines| then lines[k] else rest)
    decreases |lines|
  {
    hide Split;
    var bytes := FileOf(lines) + rest;
    if n >= |FileOf(lines)| {
      k, torn := |lines|, rest[..n - |FileOf(lines)|];
      assert lines[..k] == lines;
      assert bytes[..n] == FileOf(lines) + torn;
    } else {
      var init, last := lines[..|lines| - 1], lines[|lines| - 1];
      k, torn := SplitPrefix(init, last, n);
      assert bytes[..n] == (FileOf(init) + last)[..n];
      assert init[..k] == lines[..k];
    }
    SplitFile(lines[..k], torn);
  }

  /** Cutting at or after the end of the first `k` lines keeps those lines. */
  lemma {:induction false} FileOfMonotone(lines: seq<Bytes>, k: nat)
    requires k <= |lines|
    ensures FileOf(lines[..k]) <= FileOf(lines)
  {
    FileOfConcat(lines[..k], lines[k..]);
    assert lines[..k] + lines[k..] == lines;
  }

  /** The position just past the next newline at or after `from`, or the end of the file. */
  function LineEnd(bytes: Bytes, from: nat): (end: nat)
    requires from <= |bytes|
    ensures from <= end <= |bytes|
    ensures from < |bytes| ==> from < end
    ensures end < |bytes| ==> bytes[end - 1] == NEWLINE
    ensures end > from ==> IsLine(bytes[from..end - 1])
    decreases |bytes| - from
  {
    if from == |bytes| then from
    else if bytes[from] == NEWLINE then from + 1
    else
      var end := LineEnd(bytes, from + 1);
      assert end > from + 1 ==> bytes[from..end - 1] == [bytes[from]] + bytes[from + 1..end - 1];
      end
  }

  /** `read_until`: the next raw line, with its newline when it has one. */
  method ReadUntilNewline(bytes: Bytes, from: nat) returns (raw: Bytes)
    requires from <= |bytes|
    ensures raw == bytes[from..LineEnd(bytes, from)]
  {
    var end := from;
    while end < |bytes| && (end == from || bytes[end - 1] != NEWLINE)
      invariant from <= end <= |bytes|
      invariant end == from || bytes[end - 1] != NEWLINE ==> LineEnd(bytes, from) == LineEnd(bytes, end)
      invariant end > from && bytes[end - 1] == NEWLINE ==> LineEnd(bytes, from) == end
    {
      end := end + 1;
    }
    raw := bytes[from..end];
  }

  lemma {:induction false} SplitMore(done: Bytes, lines: seq<Bytes>, piece: Bytes)
    requires Split(done) == Parts(lines, []) && IsLine(piece)
    ensures Split(done + piece) == Parts(lines, piece)
    ensures Split(done + piece + [NEWLINE]) == Parts(lines + [piece], [])
  {
    assert done == FileOf(lines) + [] == FileOf(lines);
    SplitFile(lines, piece);
    SplitUnchangedByTerminator(lines, piece);
  }

  lemma {:induction false} SplitPieces(done: Bytes, lines: seq<Bytes>, line: Bytes, last: byte)
    requires Split(done) == Parts(lines, []) && IsLine(line)
    ensures Split(done + line + [last]) ==
              if last == NEWLINE then Parts(lines + [line], []) else Parts(lines, line + [last])
  {
    SplitMore(done, lines, line);
    if last != NEWLINE {
      SplitMore(done, lines, line + [last]);
      assert done + (line + [last]) == done + line + [last];
    }
  }

  lemma LineEndParts(bytes: Bytes, from: nat)
    requires from < |bytes|
    ensures var end := LineEnd(bytes, from);
            && bytes[from..end] == bytes[from..end - 1] + [bytes[end - 1]]
            && bytes[..end] == bytes[..from] + bytes[from..end - 1] + [bytes[end - 1]]
            && IsLine(bytes[from..end - 1])
            && (bytes[end - 1] != NEWLINE ==> end == |bytes|)
  {
  }

  /** One step of a forward reader: a terminated raw line extends the lines read so far. */
  lemma {:induction false} SplitStep(bytes: Bytes, from: nat, lines: seq<Bytes>, raw: Bytes)
    requires from < |bytes| && Split(bytes[..from]) == Parts(lines, [])
    requires raw == bytes[from..LineEnd(bytes, from)]
    ensures from + |raw| <= |bytes| && |raw| > 0
    ensures raw[|raw| - 1] == NEWLINE ==>
              Split(bytes[..from + |raw|]) == Parts(lines + [raw[..|raw| - 1]], [])
    ensures raw[|raw| - 1] != NEWLINE ==>
              from + |raw| == |bytes| && Split(bytes) == Parts(lines, raw)
  {
    hide Split, FileOf, LineEnd;
    var end := LineEnd(bytes, from);
    var done, line, last := bytes[..from], bytes[from..end - 1], bytes[end - 1];
    LineEndParts(bytes, from);
    assert raw == line + [last] && raw[..|raw| - 1] == line;
    assert done + line + [last] == bytes[..end];
    SplitPieces(done, lines, line, last);
    if last != NEWLINE {
      assert bytes[..end] == bytes;
    }
  }

  /** Lines already read are the first lines of the whole file. */
  lemma {:induction false} SplitReadPrefix(bytes: Bytes, from: nat, lines: seq<Bytes>)
    requires from <= |bytes| && Split(bytes[..from]) == Parts(lines, [])
    ensures lines <= Split(bytes).lines
    ensures from == |bytes| ==> Split(bytes) == Parts(lines, [])
    ensures from < |bytes| ==> |lines| < |Split(bytes).lines| || Split(bytes).rest != []
  {
    var whole := Split(bytes);
    var k, torn := SplitPrefix(whole.lines, whole.rest, from);
    assert whole.lines[..k] == lines && torn == [];
    assert whole.lines[..|whole.lines|] == whole.lines;
    if from == |bytes| {
      assert bytes[..from] == bytes;
    } else if |lines| == |whole.lines| && whole.rest == [] {
      assert false;
    }
  }

  /** A forward reader stands at `offset`, having read exactly `lines`. */
  ghost predicate ReadSoFar(bytes: Bytes, offset: nat, lines: seq<Bytes>) {
    offset <= |bytes| && Split(bytes[..offset]) == Parts(lines, [])
  }

  lemma ReadStep(bytes: Bytes, offset: nat, lines: seq<Bytes>, raw: Bytes)
    requires ReadSoFar(bytes, offset, lines) && offset < |bytes|
    requires raw == bytes[offset..LineEnd(bytes, offset)]
    ensures |raw| > 0 && offset + |raw| <= |bytes|
    ensures raw[|raw| - 1] == NEWLINE ==>
              && ReadSoFar(bytes, offset + |raw|, lines + [raw[..|raw| - 1]])
              && lines + [raw[..|raw| - 1]] <= Split(bytes).lines
    ensures raw[|raw| - 1] != NEWLINE ==> Split(bytes) == Parts(lines, raw) && offset + |raw| == |bytes|
  {
    hide Split, LineEnd;
    SplitStep(bytes, offset, lines, raw);
    if raw[|raw| - 1] == NEWLINE {
      SplitReadPrefix(bytes, offset + |raw|, lines + [raw[..|raw| - 1]]);
    }
  }

  /** One `read_until` of a forward reader, classified by its terminator. */
  method NextLine(bytes: Bytes, offset: nat, ghost lines: seq<Bytes>) returns (line: Bytes, terminated: bool, next: nat)
    requires ReadSoFar(bytes, offset, lines) && offset < |bytes|
    ensures offset < next <= |bytes|
    ensures terminated ==> ReadSoFar(bytes, next, lines + [line]) && lines + [line] <= Split(bytes).lines
    ensures terminated ==> next == offset + |line| + 1
    ensures !terminated ==> Split(bytes) == Parts(lines, line) && line != []
  {
    hide Split, LineEnd, ReadSoFar;
    var raw := ReadUntilNewline(bytes, offset);
    ReadStep(bytes, offset, lines, raw);
    terminated := raw[|raw| - 1] == NEWLINE;
    line := if terminated then raw[..|raw| - 1] else raw;
    next := offset + |raw|;
  }

  lemma ReadAll(bytes: Bytes, lines: seq<Bytes>)
    requires ReadSoFar(bytes, |bytes|, lines)
    ensures Split(bytes) == Parts(lines, [])
  {
    assert bytes[..|bytes|] == bytes;
  }

  lemma {:induction false} SplitUnchangedByTerminator(lines: seq<Bytes>, rest: Bytes)
    requires AllLines(lines) && IsLine(rest)
    ensures Split(FileOf(lines) + rest + [NEWLINE]) == Parts(lines + [rest], [])
  {
    FileOfSnoc(lines, rest);
    SplitFile(lines + [rest], []);
    assert FileOf(lines) + rest + [NEWLINE] == FileOf(lines + [rest]) + [];
  }
}
