/** Merging the pieces of a rotated log into one file, reads and writes that fail included. */
module LogMerge {
  import opened Bytes
  import opened Lines
  import opened Wrappers

  type Path = string

  /** What the reads of one piece deliver before the end of the file or an error; `None` when
      it cannot be opened. */
  type Read = Option<seq<Word>>

  /** A text whose last line is complete. */
  predicate Terminated(s: Word) {
    s == [] || s[|s| - 1] == NL
  }

  function Complete(s: Word): (r: Word)
    ensures Terminated(r)
  {
    if Terminated(s) then s else s + [NL]
  }

  /** The texts one after the other, each line completed before the next text begins. */
  function Joined(texts: seq<Option<Word>>): Word {
    if texts == [] then []
    else
      var n := |texts| - 1;
      if texts[n].Some? then Complete(Joined(texts[..n])) + texts[n].value else Joined(texts[..n])
  }

  /** What is written for the texts that were read. */
  function Merged(texts: seq<Option<Word>>): (r: Word)
    ensures Terminated(r)
  {
    Complete(Joined(texts))
  }

  /** The lines of the texts, byte for byte, one text after the other. */
  function AllLines(texts: seq<Option<Word>>): seq<Word> {
    if texts == [] then []
    else
      var n := |texts| - 1;
      AllLines(texts[..n]) + PieceLines(texts[n])
  }

  function PieceLines(text: Option<Word>): seq<Word> {
    if text.Some? then RawLines(text.value) else []
  }

  function Delivered(inputs: seq<Read>): (texts: seq<Option<Word>>)
    ensures |texts| == |inputs|
  {
    seq(|inputs|, k requires 0 <= k < |inputs| => if inputs[k].Some? then Some(Flatten(inputs[k].value)) else None)
  }

  // ---- the lines of the merged text

  /** Completing the last line changes no line. */
  lemma {:induction false} TerminateKeepsLines(s: Word)
    requires !Terminated(s)
    ensures RawLines(s + [NL]) == RawLines(s)
    decreases |s|
  {
    var i := FindNL(s, 0);
    if i == |s| {
      FindNLUnique(s + [NL], 0, |s|);
      assert (s + [NL])[..|s|] == s && (s + [NL])[|s| + 1..] == [];
      assert [s] + RawLines([]) == [s];
    } else {
      var rest := s[i + 1..];
      FirstLineOf(s, [NL], i);
      assert rest[|rest| - 1] == s[|s| - 1];
      TerminateKeepsLines(rest);
    }
  }

  lemma CompleteKeepsLines(s: Word)
    ensures RawLines(Complete(s)) == RawLines(s)
  {
    if !Terminated(s) {
      TerminateKeepsLines(s);
    }
  }

  lemma {:induction false} JoinedLines(texts: seq<Option<Word>>)
    ensures RawLines(Joined(texts)) == AllLines(texts)
  {
    if texts != [] {
      var n := |texts| - 1;
      JoinedLines(texts[..n]);
      if texts[n].Some? {
        CompleteKeepsLines(Joined(texts[..n]));
        RawLinesConcat(Complete(Joined(texts[..n])), texts[n].value);
      }
    }
  }

  /** The merged text holds exactly the lines of the texts, in order, all of them complete. */
  lemma MergedLines(texts: seq<Option<Word>>)
    ensures RawLines(Merged(texts)) == AllLines(texts)
    ensures |RawLines(Merged(texts))| == CountNL(Merged(texts))
  {
    JoinedLines(texts);
    CompleteKeepsLines(Joined(texts));
    LineCount(Merged(texts));
  }

  /** The lines of a text that was read are a run of the lines of the merged text. */
  lemma {:induction false} SourceSurvives(texts: seq<Option<Word>>, k: nat) returns (at: nat)
    requires k < |texts| && texts[k].Some?
    ensures var all, mine := AllLines(texts), RawLines(texts[k].value);
      at + |mine| <= |all| && all[at..at + |mine|] == mine
    decreases |texts|
  {
    var n := |texts| - 1;
    if k == n {
      at := |AllLines(texts[..n])|;
    } else {
      at := SourceSurvives(texts[..n], k);
    }
  }

  // ---- the merge

  function LastByte(s: Word): byte {
    if s == [] then NL else s[|s| - 1]
  }

  lemma {:induction false} CountAppendNL(s: Word)
    ensures CountNL(s + [NL]) == CountNL(s) + 1
  {
    assert (s + [NL])[..|s|] == s;
  }

  /** Completes the last line, if it is not complete. */
  method Terminate(out0: Word, totalLines0: int, lastByte: byte) returns (out: Word, totalLines: int)
    requires totalLines0 == CountNL(out0) && lastByte == LastByte(out0)
    ensures out == Complete(out0) && totalLines == CountNL(out)
  {
    out, totalLines := out0, totalLines0;
    if lastByte != NL {
      CountAppendNL(out);
      out := out + [NL];
      totalLines := totalLines + 1;
    }
  }

  /** Copies one piece, buffer by buffer, counting the newlines. */
  method CopySource(segments: seq<Word>, out0: Word, totalLines0: int, lastByte0: byte)
    returns (out: Word, totalLines: int, lastByte: byte)
    requires totalLines0 == CountNL(out0) && lastByte0 == LastByte(out0)
    ensures out == out0 + Flatten(segments) && totalLines == CountNL(out) && lastByte == LastByte(out)
  {
    out, totalLines, lastByte := out0, totalLines0, lastByte0;
    for j := 0 to |segments|
      invariant out == out0 + Flatten(segments[..j]) && totalLines == CountNL(out) && lastByte == LastByte(out)
    {
      var buf := segments[j];
      assert segments[..j + 1][..j] == segments[..j];
      ConcatAssociates(out0, Flatten(segments[..j]), buf);
      if |buf| > 0 {
        CountNLConcat(out, buf);
        out := out + buf;
        totalLines := totalLines + CountNL(buf);
        lastByte := buf[|buf| - 1];
      } else {
        assert out + buf == out;
      }
    }
    TakeAll(segments);
  }

  lemma OneMoreText(texts: seq<Option<Word>>, k: nat)
    requires k < |texts|
    ensures Joined(texts[..k + 1])
      == if texts[k].Some? then Complete(Joined(texts[..k])) + texts[k].value else Joined(texts[..k])
  {
    assert texts[..k + 1][..k] == texts[..k];
  }

  /** What is handed to the writer and the number of lines noted for it: all lines that were
      read, complete, and their number. A piece is read until its end or the first error. */
  method MergeSources(inputs: seq<Read>) returns (out: Word, totalLines: int)
    ensures out == Merged(Delivered(inputs))
    ensures RawLines(out) == AllLines(Delivered(inputs)) && totalLines == |RawLines(out)|
  {
    var lastByte: byte := NL;
    out, totalLines := [], 0;
    ghost var texts := Delivered(inputs);
    for k := 0 to |inputs|
      invariant out == Joined(texts[..k]) && totalLines == CountNL(out) && lastByte == LastByte(out)
    {
      OneMoreText(texts, k);
      if inputs[k].None? {
        continue;
      }
      out, totalLines := Terminate(out, totalLines, lastByte);
      lastByte := NL;
      out, totalLines, lastByte := CopySource(inputs[k].value, out, totalLines, lastByte);
    }
    TakeAll(texts);
    out, totalLines := Terminate(out, totalLines, lastByte);
    MergedLines(texts);
  }

  // ---- what failing reads and writes lose

  /** The text has the lines of the whole: it is the whole, or lacks just the newline after
      the last line. */
  predicate Whole(text: Word, all: Word) {
    text == all || (text + [NL] == all && !Terminated(text))
  }

  /** Each line begins with the corresponding one of the shorter list. */
  ghost predicate Under(short: seq<Word>, long: seq<Word>) {
    |short| <= |long| && forall i | 0 <= i < |short| :: short[i] <= long[i]
  }

  lemma FindInPrefix(text: Word, all: Word)
    requires text <= all
    ensures if FindNL(text, 0) < |text| then FindNL(all, 0) == FindNL(text, 0) else FindNL(all, 0) >= |text|
  {
    if FindNL(text, 0) < |text| {
      FindNLUnique(all, 0, FindNL(text, 0));
    }
  }

  lemma UnderAfter(line: Word, short: seq<Word>, long: seq<Word>)
    requires Under(short, long)
    ensures Under([line] + short, [line] + long)
  {}

  /** The lines of the beginning of a text: as many or fewer, cut off at the last one. They
      are the same exactly when at most the last newline is missing. */
  lemma {:induction false} LinesOfPrefix(text: Word, all: Word)
    requires text <= all
    ensures Under(RawLines(text), RawLines(all))
    ensures RawLines(text) == RawLines(all) <==> Whole(text, all)
    decreases |text|
  {
    FindInPrefix(text, all);
    var i, k := FindNL(text, 0), FindNL(all, 0);
    if text == [] {
      assert RawLines(all) == [] <==> all == [];
    } else if i < |text| {
      var rest, more := text[i + 1..], all[k + 1..];
      assert text[..i] == all[..k] && rest <= more;
      RawLinesAt(text, i);
      RawLinesAt(all, k);
      LinesOfPrefix(rest, more);
      UnderAfter(text[..i], RawLines(rest), RawLines(more));
      SameHead(text[..i], RawLines(rest), RawLines(more));
      WholeAfter(text, all, i);
    } else {
      LastLineOfPrefix(text, all);
    }
  }

  lemma SameHead(line: Word, x: seq<Word>, y: seq<Word>)
    ensures [line] + x == [line] + y <==> x == y
  {
    if [line] + x == [line] + y {
      assert x == ([line] + x)[1..] && y == ([line] + y)[1..];
    }
  }

  lemma WholeAfter(text: Word, all: Word, i: nat)
    requires text <= all && i < |text| && text[i] == NL
    ensures Whole(text, all) <==> Whole(text[i + 1..], all[i + 1..])
  {
    var rest, more := text[i + 1..], all[i + 1..];
    assert text == text[..i + 1] + rest && all == text[..i + 1] + more;
    assert text + [NL] == text[..i + 1] + (rest + [NL]);
    if rest + [NL] == more {
      assert text + [NL] == all;
    }
    if text + [NL] == all {
      assert (text + [NL])[i + 1..] == rest + [NL];
    }
  }

  lemma LastLineOfPrefix(text: Word, all: Word)
    requires text <= all && text != [] && FindNL(text, 0) == |text| <= FindNL(all, 0)
    ensures Under(RawLines(text), RawLines(all))
    ensures RawLines(text) == RawLines(all) <==> Whole(text, all)
  {
    var k := FindNL(all, 0);
    assert RawLines(text) == [text] && text[|text| - 1] != NL;
    if k == |all| {
      assert RawLines(all) == [all];
      assert (text + [NL])[|text|] == NL;
    } else {
      FirstLineUnder(text, all, k);
    }
  }

  lemma OneLineIs(line: Word, x: Word, rest: Word)
    requires line <= x
    ensures line + [NL] == x + [NL] + rest <==> line == x && rest == []
  {
    if line + [NL] == x + [NL] + rest {
      assert |line| == |x| && |rest| == 0;
    }
  }

  lemma TakeUnder(text: Word, all: Word, k: nat)
    requires text <= all && |text| <= k < |all| && all[k] == NL
    ensures text <= all[..k] && all == all[..k] + [NL] + all[k + 1..]
  {}

  lemma RawLinesAt(all: Word, k: nat)
    requires k == FindNL(all, 0) < |all|
    ensures RawLines(all) == [all[..k]] + RawLines(all[k + 1..])
    ensures RawLines(all[k + 1..]) == [] <==> all[k + 1..] == []
  {}

  lemma SingletonIs<T>(x: T, y: T, more: seq<T>)
    ensures [x] == [y] + more <==> x == y && more == []
  {
    if [x] == [y] + more {
      assert |more| == 0 && ([y] + more)[0] == y;
    }
  }

  lemma FirstLineUnder(text: Word, all: Word, k: nat)
    requires text <= all && text != [] && text[|text| - 1] != NL && |text| <= k == FindNL(all, 0) < |all|
    ensures RawLines(all) != [] && text <= RawLines(all)[0]
    ensures [text] == RawLines(all) <==> text + [NL] == all
    ensures text != all
  {
    RawLinesAt(all, k);
    TakeUnder(text, all, k);
    SingletonIs(text, all[..k], RawLines(all[k + 1..]));
    OneLineIs(text, all[..k], all[k + 1..]);
  }

  /** Piece by piece, what was read begins what the piece holds. */
  ghost predicate ReadFrom(inputs: seq<Read>, pieces: seq<Option<Word>>) {
    && |inputs| == |pieces|
    && forall k | 0 <= k < |inputs| && inputs[k].Some? :: pieces[k].Some? && Flatten(inputs[k].value) <= pieces[k].value
  }

  /** The piece was read whole; one that could not be opened is empty or not there. */
  predicate PieceRead(read: Read, piece: Option<Word>) {
    if read.Some? then piece.Some? && Whole(Flatten(read.value), piece.value)
    else piece.Some? ==> piece.value == []
  }

  predicate PiecesRead(inputs: seq<Read>, pieces: seq<Option<Word>>)
    requires |inputs| == |pieces|
  {
    forall k | 0 <= k < |inputs| :: PieceRead(inputs[k], pieces[k])
  }

  lemma PieceUnder(read: Read, piece: Option<Word>)
    requires read.Some? ==> piece.Some? && Flatten(read.value) <= piece.value
    ensures var mine := if read.Some? then RawLines(Flatten(read.value)) else [];
            Under(mine, PieceLines(piece)) && (mine == PieceLines(piece) <==> PieceRead(read, piece))
  {
    if read.Some? {
      LinesOfPrefix(Flatten(read.value), piece.value);
    } else if piece.Some? && piece.value != [] {
      assert |RawLines(piece.value)| > 0;
    }
  }

  lemma UnderJoins(a: seq<Word>, b: seq<Word>, x: seq<Word>, y: seq<Word>)
    requires |a| <= |b| && (|a| == |b| ==> Under(a, b)) && Under(x, y)
    ensures |a + x| <= |b + y| && (|a + x| == |b + y| ==> Under(a + x, b + y))
    ensures a + x == b + y <==> a == b && x == y
  {
    if a + x == b + y {
      assert |a| == |b|;
      assert a == (a + x)[..|a|] && b == (b + y)[..|b|];
      assert x == (a + x)[|a|..] && y == (b + y)[|b|..];
    }
  }

  /** All pieces together: the lines read are no more than those there are, each begins the
      corresponding one if they are as many, and they are the same exactly when every piece
      was read whole. */
  lemma {:induction false} LinesRead(inputs: seq<Read>, pieces: seq<Option<Word>>)
    requires ReadFrom(inputs, pieces)
    ensures var got, all := AllLines(Delivered(inputs)), AllLines(pieces);
            && |got| <= |all| && (|got| == |all| ==> Under(got, all))
            && (got == all <==> PiecesRead(inputs, pieces))
  {
    if inputs != [] {
      var n := |inputs| - 1;
      LinesRead(inputs[..n], pieces[..n]);
      PieceUnder(inputs[n], pieces[n]);
      DeliveredLast(inputs);
      UnderJoins(AllLines(Delivered(inputs[..n])), AllLines(pieces[..n]),
                 PieceLines(Delivered(inputs)[n]), PieceLines(pieces[n]));
      AllButLast(inputs, pieces);
    }
  }

  lemma DeliveredLast(inputs: seq<Read>)
    requires inputs != []
    ensures var n := |inputs| - 1;
            && AllLines(Delivered(inputs)) == AllLines(Delivered(inputs[..n])) + PieceLines(Delivered(inputs)[n])
            && PieceLines(Delivered(inputs)[n]) == if inputs[n].Some? then RawLines(Flatten(inputs[n].value)) else []
  {
    assert Delivered(inputs)[..|inputs| - 1] == Delivered(inputs[..|inputs| - 1]);
  }

  lemma AllButLast(inputs: seq<Read>, pieces: seq<Option<Word>>)
    requires |inputs| == |pieces| > 0
    ensures var n := |inputs| - 1;
            PiecesRead(inputs, pieces) <==> PiecesRead(inputs[..n], pieces[..n]) && PieceRead(inputs[n], pieces[n])
  {
    var n := |inputs| - 1;
    if PiecesRead(inputs[..n], pieces[..n]) && PieceRead(inputs[n], pieces[n]) {
      forall k | 0 <= k < |inputs| ensures PieceRead(inputs[k], pieces[k]) {
        assert k < n ==> PieceRead(inputs[..n][k], pieces[..n][k]);
      }
    }
  }

  /** What reaches the disk: the first `stored` bytes, as a writer that has failed once
      writes nothing more. */
  function Stored(out: Word, stored: nat): (r: Word)
    ensures r <= out
  {
    if stored < |out| then out[..stored] else out
  }

  lemma Squeezed(x: seq<Word>, y: seq<Word>, z: seq<Word>)
    requires Under(x, y) && |y| <= |z| && (|y| == |z| ==> Under(y, z)) && x == z
    ensures y == z
  {
    forall i | 0 <= i < |y| ensures y[i] == z[i] {
      assert x[i] <= y[i] <= z[i];
    }
  }

  /** The file on disk has all lines of all pieces exactly when every piece was read whole
      and the merged text was stored, but for the last newline. */
  lemma MergeKeepsLinesExactly(inputs: seq<Read>, pieces: seq<Option<Word>>, stored: nat)
    requires ReadFrom(inputs, pieces)
    ensures var out := Merged(Delivered(inputs));
            RawLines(Stored(out, stored)) == AllLines(pieces)
            <==> PiecesRead(inputs, pieces) && Whole(Stored(out, stored), out)
  {
    var out := Merged(Delivered(inputs));
    LinesRead(inputs, pieces);
    MergedLines(Delivered(inputs));
    LinesOfPrefix(Stored(out, stored), out);
    if RawLines(Stored(out, stored)) == AllLines(pieces) {
      Squeezed(RawLines(Stored(out, stored)), RawLines(out), AllLines(pieces));
    }
  }

  // ---- the directory

  /** What the listed files hold. */
  function Pieces(files: map<Path, Word>, srcFiles: seq<Path>): (pieces: seq<Option<Word>>)
    ensures |pieces| == |srcFiles|
  {
    seq(|srcFiles|, i requires 0 <= i < |srcFiles| => if srcFiles[i] in files then Some(files[srcFiles[i]]) else None)
  }

  class LogDir {
    var files: map<Path, Word>
    var lineMap: map<Path, int>

    constructor (files: map<Path, Word>, lineMap: map<Path, int>)
      ensures this.files == files && this.lineMap == lineMap
    {
      this.files, this.lineMap := files, lineMap;
    }

    /** Deletes the pieces and what is noted of them. */
    method RemovePieces(targetFile: Path, srcFiles: seq<Path>)
      modifies this
      ensures files == Without(old(files), srcFiles, targetFile)
      ensures lineMap == Without(old(lineMap), srcFiles, targetFile)
    {
      ghost var files0, lineMap0 := files, lineMap;
      for k := 0 to |srcFiles|
        invariant files == Without(files0, srcFiles[..k], targetFile)
        invariant lineMap == Without(lineMap0, srcFiles[..k], targetFile)
      {
        WithoutOneMore(files0, srcFiles, k, targetFile);
        WithoutOneMore(lineMap0, srcFiles, k, targetFile);
        if srcFiles[k] != targetFile {
          files := files - {srcFiles[k]};
          lineMap := lineMap - {srcFiles[k]};
        }
      }
      TakeAll(srcFiles);
    }

    /** Puts the merged file in the target's place and deletes the pieces. */
    method Install(targetFile: Path, srcFiles: seq<Path>, content: Word, totalLines: int, renameOk: bool)
      returns (r: Result<int>)
      modifies this
      ensures r == if renameOk then Ok(totalLines) else Err
      ensures r.Err? ==> files == old(files) - {targetFile} && lineMap == old(lineMap)
      ensures r.Ok? ==>
        && targetFile in files && files[targetFile] == content
        && files == Without(old(files)[targetFile := content], srcFiles, targetFile)
        && lineMap == Without(old(lineMap), srcFiles, targetFile)[targetFile := totalLines]
    {
      ghost var files0 := files;
      files := files - {targetFile};
      if !renameOk {
        return Err;
      }
      files := files[targetFile := content];
      assert files == files0[targetFile := content];
      RemovePieces(targetFile, srcFiles);
      lineMap := lineMap[targetFile := totalLines];
      r := Ok(totalLines);
    }

    /** Replaces the pieces by one file. When the rename fails the pieces stay, but a target
        that was there before is gone. Read and write errors are not noticed: the pieces are
        deleted all the same, and all their lines are kept exactly when there was no loss. */
    method MergeLogFilesIntoOne(targetFile: Path, srcFiles: seq<Path>, createOk: bool, inputs: seq<Read>,
                                stored: nat, renameOk: bool)
      returns (r: Result<int>)
      requires ReadFrom(inputs, Pieces(files, srcFiles))
      modifies this
      ensures r.Ok? <==> createOk && renameOk
      ensures r.Err? ==>
        files == (if createOk then old(files) - {targetFile} else old(files)) && lineMap == old(lineMap)
      ensures r.Ok? ==>
        && targetFile in files
        && files == Without(old(files)[targetFile := files[targetFile]], srcFiles, targetFile)
        && files[targetFile] == Stored(Merged(Delivered(inputs)), stored)
        && r.value == |AllLines(Delivered(inputs))|
        && lineMap == Without(old(lineMap), srcFiles, targetFile)[targetFile := r.value]
      ensures r.Ok? ==>
        (RawLines(files[targetFile]) == AllLines(Pieces(old(files), srcFiles))
         <==> PiecesRead(inputs, Pieces(old(files), srcFiles))
              && Whole(files[targetFile], Merged(Delivered(inputs))))
    {
      if !createOk {
        return Err;
      }
      var out, totalLines := MergeSources(inputs);
      MergeKeepsLinesExactly(inputs, Pieces(files, srcFiles), stored);
      r := Install(targetFile, srcFiles, Stored(out, stored), totalLines, renameOk);
    }
  }

  /** `m` without the paths of the list, `kept` excepted. */
  function Without<V>(m: map<Path, V>, paths: seq<Path>, kept: Path): map<Path, V> {
    map p | p in m && (p == kept || p !in paths) :: m[p]
  }

  lemma {:induction false} WithoutOneMore<V>(m: map<Path, V>, paths: seq<Path>, k: nat, kept: Path)
    requires k < |paths|
    ensures Without(m, paths[..k + 1], kept)
      == if paths[k] == kept then Without(m, paths[..k], kept) else Without(m, paths[..k], kept) - {paths[k]}
    ensures Without(m, [], kept) == m
  {
    assert forall p :: p in paths[..k + 1] <==> p in paths[..k] || p == paths[k];
  }
}
