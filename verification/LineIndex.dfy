/** The sparse line index: byte offsets of every `INDEX_STEP`-th line, built in one pass over
    the file in whatever pieces it is read, and the paged reader that jumps by it. */
module LineIndex {
  import opened Bytes
  import opened Lines
  import opened Wrappers

  const INDEX_STEP: nat := 5000

  datatype SparseLineIndex = SparseLineIndex(step: nat, totalLines: int, offsets: seq<int>, fileSize: int,
                                             modTimeNano: int)

  /** Entry `k` is the byte at which line `1 + k * step` starts, and there is an entry for
      every such line that a newline has opened. */
  ghost predicate Describes(idx: SparseLineIndex, content: Word) {
    && idx.step > 0
    && idx.totalLines == CountNL(content)
    && |idx.offsets| == 1 + CountNL(content) / idx.step
    && forall k | 0 <= k < |idx.offsets| :: StartsAfter(content, idx.offsets[k], k * idx.step)
  }

  /** A line starts at `o`, after `n` complete lines. */
  ghost predicate StartsAfter(content: Word, o: int, n: int) {
    LineStart(content, o) && CountNL(content[..o]) == n
  }

  /** What the scan knows after `at` bytes. */
  ghost predicate ScannedTo(content: Word, at: nat, lineCount: int, offsets: seq<int>) {
    && at <= |content| && lineCount == CountNL(content[..at])
    && |offsets| == 1 + lineCount / INDEX_STEP
    && forall k | 0 <= k < |offsets| :: StartsAfter(content, offsets[k], k * INDEX_STEP)
  }

  lemma EntriesGrow(n: nat)
    ensures (n + 1) % INDEX_STEP == 0 ==> (n + 1) / INDEX_STEP == 1 + n / INDEX_STEP
    ensures (n + 1) % INDEX_STEP == 0 ==> (1 + n / INDEX_STEP) * INDEX_STEP == n + 1
    ensures (n + 1) % INDEX_STEP != 0 ==> (n + 1) / INDEX_STEP == n / INDEX_STEP
  {}

  lemma OneMoreLine(content: Word, base: nat, chunk: Word, pos: nat, i: nat, lineCount: int, offsets: seq<int>)
    requires PieceAt(content, base, chunk) && ScannedTo(content, base + pos, lineCount, offsets)
    requires pos <= i < |chunk| && i == FindNL(chunk, pos)
    ensures ScannedTo(content, base + i + 1, lineCount + 1,
                      if (lineCount + 1) % INDEX_STEP == 0 then offsets + [base + i + 1] else offsets)
  {
    assert content[base + i] == chunk[i];
    forall j | base + pos <= j < base + i ensures content[j] != NL {
      assert content[base + (j - base)] == chunk[j - base];
    }
    CountThroughNL(content, base + pos, base + i);
    AddEntry(content, base + pos, base + i + 1, lineCount, offsets);
  }

  lemma AddEntry(content: Word, at: nat, to: nat, lineCount: nat, offsets: seq<int>)
    requires ScannedTo(content, at, lineCount, offsets) && StartsAfter(content, to, lineCount + 1)
    ensures ScannedTo(content, to, lineCount + 1,
                      if (lineCount + 1) % INDEX_STEP == 0 then offsets + [to] else offsets)
  {
    EntriesGrow(lineCount);
  }

  lemma NoMoreLines(content: Word, base: nat, chunk: Word, pos: nat, lineCount: int, offsets: seq<int>)
    requires PieceAt(content, base, chunk) && ScannedTo(content, base + pos, lineCount, offsets)
    requires pos <= |chunk| && FindNL(chunk, pos) == |chunk|
    ensures ScannedTo(content, base + |chunk|, lineCount, offsets)
  {
    forall j | base + pos <= j < base + |chunk| ensures content[j] != NL {
      assert content[base + (j - base)] == chunk[j - base];
    }
    CountWithoutNL(content, base + pos, base + |chunk|);
  }

  /** Scans one piece of the file that starts at byte `base`. */
  method ScanSegment(ghost content: Word, base: nat, chunk: Word, lineCount0: int, offsets0: seq<int>)
    returns (lineCount: int, offsets: seq<int>)
    requires PieceAt(content, base, chunk)
    requires ScannedTo(content, base, lineCount0, offsets0)
    ensures ScannedTo(content, base + |chunk|, lineCount, offsets)
  {
    lineCount, offsets := lineCount0, offsets0;
    var pos := 0;
    while true
      invariant 0 <= pos <= |chunk| && ScannedTo(content, base + pos, lineCount, offsets)
      decreases |chunk| - pos
    {
      var newline := FindNL(chunk, pos);
      if newline == |chunk| {
        NoMoreLines(content, base, chunk, pos, lineCount, offsets);
        break;
      }
      OneMoreLine(content, base, chunk, pos, newline, lineCount, offsets);
      lineCount := lineCount + 1;
      if lineCount % INDEX_STEP == 0 {
        offsets := offsets + [base + newline + 1];
      }
      pos := newline + 1;
    }
  }

  /** Builds the index from the pieces the file is read in; a read error gives no index. */
  method BuildSparseLineIndex(segments: seq<Word>, readFails: bool, fileSize: int, modTimeNano: int)
    returns (r: Result<SparseLineIndex>)
    ensures readFails <==> r.Err?
    ensures r.Ok? ==> Describes(r.value, Flatten(segments))
    ensures r.Ok? ==> r.value.step == 5000
    ensures r.Ok? ==> r.value.fileSize == fileSize && r.value.modTimeNano == modTimeNano
  {
    ghost var content := Flatten(segments);
    var offsets: seq<int>, lineCount, currentFileOffset := [0], 0, 0;
    for j := 0 to |segments|
      invariant currentFileOffset == Offset(segments, j)
      invariant ScannedTo(content, currentFileOffset, lineCount, offsets)
    {
      SegmentInPlace(segments, j);
      lineCount, offsets := ScanSegment(content, currentFileOffset, segments[j], lineCount, offsets);
      currentFileOffset := currentFileOffset + |segments[j]|;
    }
    if readFails {
      return Err;
    }
    OffsetOfEnd(segments);
    assert content[..|content|] == content;
    r := Ok(SparseLineIndex(INDEX_STEP, lineCount, offsets, fileSize, modTimeNano));
  }

  // ---- paged reading

  /** The page of lines that starts at line `startLine` (from 1) and whether more follow. */
  function Page(lines: seq<Word>, startLine: int, limit: int): (seq<Word>, bool)
    requires 1 <= startLine && 1 <= limit
  {
    var from := if startLine - 1 <= |lines| then startLine - 1 else |lines|;
    var to := if from + limit <= |lines| then from + limit else |lines|;
    (lines[from..to], startLine - 1 + limit < |lines|)
  }

  /** Line `k` of the page is line `startLine + k` of the file; the page is full or ends with the
      file, and more is announced exactly when the file goes on behind it. */
  lemma PageIs(lines: seq<Word>, startLine: int, limit: int, k: nat)
    requires 1 <= startLine && 1 <= limit
    ensures var (page, more) := Page(lines, startLine, limit);
      && (k < |page| <==> k < limit && startLine - 1 + k < |lines|)
      && (k < |page| ==> page[k] == lines[startLine - 1 + k])
      && (more <==> startLine - 1 + limit < |lines|)
  {}

  lemma QuotientFloor(x: nat, d: nat, b: nat)
    requires d > 0 && b <= x / d
    ensures b * d <= x
  {
    assert (x / d) * d <= x;
    MulMonotone(b, x / d, d);
  }

  lemma MulMonotone(a: nat, b: nat, d: nat)
    requires a <= b
    ensures a * d <= b * d
  {}

  /** The byte to seek to and the number of lines before it. */
  method SeekPoint(idx: Option<SparseLineIndex>, startLine: int, ghost content: Word)
    returns (seekOffset: int, currentLine: int)
    requires startLine >= 1 && (idx.Some? ==> Describes(idx.value, content))
    ensures StartsAfter(content, seekOffset, currentLine) && 0 <= currentLine <= startLine - 1
  {
    seekOffset, currentLine := 0, 0;
    if idx.Some? && startLine > 1 && |idx.value.offsets| > 0 {
      var bucket := (startLine - 1) / idx.value.step;
      if bucket >= |idx.value.offsets| {
        bucket := |idx.value.offsets| - 1;
      }
      QuotientFloor(startLine - 1, idx.value.step, bucket);
      seekOffset := idx.value.offsets[bucket];
      currentLine := bucket * idx.value.step;
      assert StartsAfter(content, idx.value.offsets[bucket], bucket * idx.value.step);
    }
  }

  /** Reads a page, seeking by the index when there is one: the lines and the "more" flag are
      those of a scan from the start of the file, for every start line and limit. A file that
      cannot be opened gives an error; a failed seek falls back to the start. */
  method ReadFileLinesWithIndex(file: Option<Word>, idx: Option<SparseLineIndex>, startLine0: int, limit0: int,
                                seekOk: bool)
    returns (r: Result<(seq<Word>, bool, int)>)
    requires file.Some? && idx.Some? ==> Describes(idx.value, file.value)
    ensures file.None? <==> r.Err?
    ensures r.Ok? ==>
      var startLine := if startLine0 <= 0 then 1 else startLine0;
      var limit := if limit0 <= 0 then 500 else if limit0 > 5000 then 5000 else limit0;
      && r.value.0 == Page(LinesOf(file.value), startLine, limit).0
      && r.value.1 == Page(LinesOf(file.value), startLine, limit).1
      && r.value.2 == if idx.Some? then CountNL(file.value) else 0
  {
    var limit, startLine := limit0, startLine0;
    if limit <= 0 {
      limit := 500;
    }
    if limit > 5000 {
      limit := 5000;
    }
    if startLine <= 0 {
      startLine := 1;
    }
    if file.None? {
      return Err;
    }
    var content := file.value;
    var totalLines := 0;
    if idx.Some? {
      totalLines := idx.value.totalLines;
    }
    var seekOffset, currentLine := SeekPoint(idx, startLine, content);
    var position := 0;
    if seekOffset > 0 {
      if seekOk {
        position := seekOffset;
      } else {
        currentLine := 0;
      }
    }
    LinesSplit(content, position);
    LinesBefore(content, position);
    var lines, hasMore := ScanPage(content, position, currentLine, startLine, limit);
    r := Ok((lines, hasMore, totalLines));
  }

  lemma SliceOneMore(s: seq<Word>, from: nat, to: nat)
    requires from <= to < |s|
    ensures s[from..to] + [s[to]] == s[from..to + 1]
  {}

  lemma SecondPart<T>(a: seq<T>, b: seq<T>, k: nat)
    requires k < |b|
    ensures (a + b)[|a| + k] == b[k]
  {}

  /** What has been collected after `currentLine` lines is the page, once it is full or the
      lines have ended. */
  lemma PageReached(all: seq<Word>, startLine: int, limit: int, currentLine: int, lines: seq<Word>)
    requires 1 <= startLine && 1 <= limit && 0 <= currentLine <= |all|
    requires if currentLine < startLine then lines == [] else lines == all[startLine - 1..currentLine]
    requires |lines| <= limit && (|lines| == limit || currentLine == |all|)
    ensures lines == Page(all, startLine, limit).0
    ensures (|lines| >= limit && currentLine < |all|) == Page(all, startLine, limit).1
  {}

  /** Scans from a line start on, skipping up to the page and stopping after it. */
  method ScanPage(content: Word, position: nat, currentLine0: int, startLine: int, limit: int)
    returns (lines: seq<Word>, hasMore: bool)
    requires LineStart(content, position) && 1 <= startLine && 1 <= limit
    requires LinesOf(content) == LinesOf(content[..position]) + LinesOf(content[position..])
    requires |LinesOf(content[..position])| == currentLine0 <= startLine - 1
    ensures lines == Page(LinesOf(content), startLine, limit).0
    ensures hasMore == Page(LinesOf(content), startLine, limit).1
  {
    ghost var skipped := LinesOf(content[..position]);
    lines, hasMore := TakePage(skipped, LinesOf(content[position..]), currentLine0, startLine, limit);
  }

  /** Takes the page from the lines that follow those already skipped. */
  method TakePage(ghost skipped: seq<Word>, rest: seq<Word>, currentLine0: int, startLine: int, limit: int)
    returns (lines: seq<Word>, hasMore: bool)
    requires 1 <= startLine && 1 <= limit && |skipped| == currentLine0 <= startLine - 1
    ensures lines == Page(skipped + rest, startLine, limit).0
    ensures hasMore == Page(skipped + rest, startLine, limit).1
  {
    ghost var all := skipped + rest;
    var currentLine := currentLine0;
    var k := 0;
    lines := [];
    while k < |rest|
      invariant 0 <= k <= |rest| && currentLine == currentLine0 + k
      invariant currentLine < startLine ==> lines == []
      invariant currentLine >= startLine ==> lines == all[startLine - 1..currentLine]
      invariant |lines| < limit
    {
      currentLine := currentLine + 1;
      k := k + 1;
      SecondPart(skipped, rest, k - 1);
      if currentLine < startLine {
        continue;
      }
      SliceOneMore(all, startLine - 1, currentLine - 1);
      lines := lines + [rest[k - 1]];
      if |lines| >= limit {
        break;
      }
    }
    hasMore := |lines| >= limit && k < |rest|;
    PageReached(all, startLine, limit, currentLine, lines);
  }
}
