/** Reading the last line of a segment backwards, in chunks. */
module TailRead {
  import opened Wrappers
  import opened LogLines
  import opened EventFormat

  const CHUNK: nat := 8192

  function EndsWithNewline(bytes: Bytes): bool {
    |bytes| > 0 && bytes[|bytes| - 1] == NEWLINE
  }

  /** The bytes between the last two newlines, or from the start of the file. */
  ghost predicate IsLastLine(bytes: Bytes, line: Bytes) {
    && EndsWithNewline(bytes) && |line| < |bytes|
    && line == bytes[|bytes| - 1 - |line|..|bytes| - 1]
    && IsLine(line)
    && (|line| + 1 < |bytes| ==> bytes[|bytes| - 2 - |line|] == NEWLINE)
  }

  lemma LastLineUnique(bytes: Bytes, a: Bytes, b: Bytes)
    requires IsLastLine(bytes, a) && IsLastLine(bytes, b)
    ensures a == b
  {
    if |a| < |b| {
      assert false;
    }
    if |b| < |a| {
      assert false;
    }
  }

  /** It is the last of the file's complete lines. */
  lemma LastLineOfSplit(bytes: Bytes)
    requires EndsWithNewline(bytes)
    ensures Split(bytes).rest == [] && |Split(bytes).lines| > 0
    ensures IsLastLine(bytes, Split(bytes).lines[|Split(bytes).lines| - 1])
  {
    var before := Split(bytes[..|bytes| - 1]);
    var lines := before.lines;
    assert Split(bytes) == Parts(lines + [before.rest], []);
    assert bytes == FileOf(lines) + before.rest + [NEWLINE];
    if |lines| > 0 {
      assert FileOf(lines) == FileOf(lines[..|lines| - 1]) + lines[|lines| - 1] + [NEWLINE];
      assert bytes[|FileOf(lines)| - 1] == NEWLINE;
    }
  }

  /** The position after the last newline in `bytes[from..to]`, if there is one. */
  method LastNewline(bytes: Bytes, from: nat, to: nat) returns (r: Option<nat>)
    requires from <= to <= |bytes|
    ensures r.None? ==> IsLine(bytes[from..to])
    ensures r.Some? ==> from < r.value <= to && bytes[r.value - 1] == NEWLINE && IsLine(bytes[r.value..to])
  {
    var i := to;
    while i > from
      invariant from <= i <= to && IsLine(bytes[i..to])
    {
      if bytes[i - 1] == NEWLINE {
        return Some(i);
      }
      assert bytes[i - 1..to] == [bytes[i - 1]] + bytes[i..to];
      i := i - 1;
    }
    return None;
  }

  lemma LineExtends(bytes: Bytes, from: nat, middle: nat, to: nat)
    requires from <= middle <= to <= |bytes|
    requires IsLine(bytes[from..middle]) && IsLine(bytes[middle..to])
    ensures IsLine(bytes[from..to])
  {
    var left, right := bytes[from..middle], bytes[middle..to];
    forall i | 0 <= i < to - from
      ensures bytes[from..to][i] != NEWLINE
    {
      if i < middle - from {
        assert bytes[from..to][i] == left[i];
      } else {
        assert bytes[from..to][i] == right[i - (middle - from)];
      }
    }
  }

  /** Walk back from `lineEnd` chunk by chunk, no further than `lowerBound`. */
  method FindLineStart(bytes: Bytes, lineEnd: nat, lowerBound: nat) returns (lineStart: nat)
    requires lowerBound <= lineEnd <= |bytes|
    ensures lineStart <= lineEnd
    ensures lineStart > 0 ==> bytes[lineStart - 1] == NEWLINE && IsLine(bytes[lineStart..lineEnd])
    ensures lineStart == 0 ==> IsLine(bytes[lowerBound..lineEnd])
  {
    var cursor := lineEnd;
    while cursor > lowerBound
      invariant lowerBound <= cursor <= lineEnd && IsLine(bytes[cursor..lineEnd])
    {
      var chunkStart := if cursor < CHUNK then 0 else cursor - CHUNK;
      chunkStart := if chunkStart < lowerBound then lowerBound else chunkStart;
      var found := LastNewline(bytes, chunkStart, cursor);
      if found.Some? {
        LineExtends(bytes, found.value, cursor, lineEnd);
        return found.value;
      }
      LineExtends(bytes, chunkStart, cursor, lineEnd);
      cursor := chunkStart;
    }
    return 0;
  }

  /** `read_last_line`: succeeds exactly on a terminated file whose last line fits the limit. */
  method ReadLastLine(bytes: Bytes, maxEventBytes: nat) returns (r: Result<Bytes, StoreError>)
    ensures r.Ok? <==> EndsWithNewline(bytes) && |LastOfLines(bytes)| <= maxEventBytes
    ensures r.Ok? ==> IsLastLine(bytes, r.value) && r.value == LastOfLines(bytes)
    ensures |bytes| == 0 ==> r == Err(InvalidLayout)
    ensures |bytes| > 0 && r.Err? ==> r.error == InvalidEvent
  {
    hide Split, FileOf;
    var length := |bytes|;
    if length == 0 {
      return Err(InvalidLayout);
    }
    if bytes[length - 1] != NEWLINE {
      return Err(InvalidEvent);
    }
    LastLineOfSplit(bytes);
    var lineEnd := length - 1;
    var lowerBound := if lineEnd < maxEventBytes + 1 then 0 else lineEnd - (maxEventBytes + 1);
    var lineStart := FindLineStart(bytes, lineEnd, lowerBound);
    var line := bytes[lineStart..lineEnd];
    if lineStart > 0 || lowerBound == 0 {
      LastLineUnique(bytes, line, LastOfLines(bytes));
    } else {
      TooLong(bytes, LastOfLines(bytes), lowerBound, maxEventBytes);
    }
    if |line| > maxEventBytes {
      return Err(InvalidEvent);
    }
    return Ok(line);
  }

  function LastOfLines(bytes: Bytes): Bytes {
    var lines := Split(bytes).lines;
    if |lines| == 0 then [] else lines[|lines| - 1]
  }

  lemma TooLong(bytes: Bytes, last: Bytes, lowerBound: nat, maxEventBytes: nat)
    requires IsLastLine(bytes, last) && 0 < lowerBound == |bytes| - 1 - (maxEventBytes + 1)
    requires IsLine(bytes[lowerBound..|bytes| - 1])
    ensures |last| > maxEventBytes
  {
    var window := bytes[lowerBound..|bytes| - 1];
    assert forall i :: 0 <= i < |window| ==> window[i] == bytes[lowerBound + i];
    if |last| <= maxEventBytes {
      assert false;
    }
  }
}
