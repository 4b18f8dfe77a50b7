/** Lines of a byte string as a line scanner splits them: at newlines, without the newline
    and one carriage return before it, keeping a final line that has no newline. */
module Lines {
  import opened Bytes

  /** The position of the first newline at or after `from`, or the length when there is none. */
  function FindNL(s: Word, from: nat): (i: nat)
    requires from <= |s|
    ensures from <= i <= |s|
    ensures i < |s| ==> s[i] == NL
    ensures forall j | from <= j < i :: s[j] != NL
    decreases |s| - from
  {
    if from == |s| || s[from] == NL then from else FindNL(s, from + 1)
  }

  function DropCR(line: Word): Word {
    if line != [] && line[|line| - 1] == CR then line[..|line| - 1] else line
  }

  /** The lines with their carriage returns still on. */
  function RawLines(s: Word): seq<Word> {
    if s == [] then []
    else
      var i := FindNL(s, 0);
      if i == |s| then [s] else [s[..i]] + RawLines(s[i + 1..])
  }

  function Strip(raw: seq<Word>): (lines: seq<Word>)
    ensures |lines| == |raw|
  {
    seq(|raw|, i requires 0 <= i < |raw| => DropCR(raw[i]))
  }

  function LinesOf(s: Word): seq<Word> {
    Strip(RawLines(s))
  }

  function CountNL(s: Word): nat {
    if s == [] then 0 else CountNL(s[..|s| - 1]) + if s[|s| - 1] == NL then 1 else 0
  }

  /** How many newlines there are among the first `n` bytes. */
  function NLTo(content: Word, n: nat): nat
    requires n <= |content|
  {
    if n == 0 then 0 else NLTo(content, n - 1) + if content[n - 1] == NL then 1 else 0
  }

  lemma {:induction false} NLToCounts(content: Word, n: nat)
    requires n <= |content|
    ensures NLTo(content, n) == CountNL(content[..n])
  {
    if n != 0 {
      NLToCounts(content, n - 1);
      assert content[..n][..n - 1] == content[..n - 1];
    }
  }

  lemma {:induction false} NLToWithout(content: Word, x: nat, y: nat)
    requires x <= y <= |content| && forall j | x <= j < y :: content[j] != NL
    ensures NLTo(content, y) == NLTo(content, x)
    decreases y
  {
    if x < y {
      NLToWithout(content, x, y - 1);
    }
  }

  /** A line starts at `o`: the start of the file, or just after a newline. */
  predicate LineStart(s: Word, o: int) {
    0 <= o <= |s| && (o == 0 || s[o - 1] == NL)
  }

  lemma FindNLUnique(s: Word, from: nat, i: nat)
    requires from <= i <= |s| && (i < |s| ==> s[i] == NL) && forall j | from <= j < i :: s[j] != NL
    ensures FindNL(s, from) == i
  {
    var k := FindNL(s, from);
    assert !(k < i) && !(i < k);
  }

  lemma ConcatAssociates<T>(a: seq<T>, b: seq<T>, c: seq<T>)
    ensures a + (b + c) == (a + b) + c
  {}

  lemma RestEndsInNL(a: Word, i: nat)
    requires i < |a| && a[|a| - 1] == NL
    ensures a[i + 1..] == [] || a[i + 1..][|a[i + 1..]| - 1] == NL
  {}

  lemma FirstLineOf(a: Word, b: Word, i: nat)
    requires i == FindNL(a, 0) < |a|
    ensures RawLines(a + b) == [a[..i]] + RawLines(a[i + 1..] + b)
  {
    FindNLUnique(a + b, 0, i);
    assert (a + b)[..i] == a[..i] && (a + b)[i + 1..] == a[i + 1..] + b;
  }

  /** Cutting a text at a line start cuts its lines. */
  lemma {:induction false} RawLinesConcat(a: Word, b: Word)
    requires a == [] || a[|a| - 1] == NL
    ensures RawLines(a + b) == RawLines(a) + RawLines(b)
    decreases |a|
  {
    if a == [] {
      assert a + b == b;
    } else {
      var i := FindNL(a, 0);
      FirstLineOf(a, b, i);
      var rest := a[i + 1..];
      RestEndsInNL(a, i);
      RawLinesConcat(rest, b);
      ConcatAssociates([a[..i]], RawLines(rest), RawLines(b));
    }
  }

  lemma StripConcat(a: seq<Word>, b: seq<Word>)
    ensures Strip(a + b) == Strip(a) + Strip(b)
  {}

  lemma LinesSplit(s: Word, o: nat)
    requires LineStart(s, o)
    ensures LinesOf(s) == LinesOf(s[..o]) + LinesOf(s[o..])
  {
    assert s == s[..o] + s[o..];
    RawLinesConcat(s[..o], s[o..]);
    StripConcat(RawLines(s[..o]), RawLines(s[o..]));
  }

  lemma {:induction false} CountNLConcat(a: Word, b: Word)
    ensures CountNL(a + b) == CountNL(a) + CountNL(b)
    decreases |b|
  {
    if b == [] {
      assert a + b == a;
    } else {
      assert (a + b)[..|a + b| - 1] == a + b[..|b| - 1];
      CountNLConcat(a, b[..|b| - 1]);
    }
  }

  lemma {:induction false} NoNLCountsZero(s: Word)
    requires forall j | 0 <= j < |s| :: s[j] != NL
    ensures CountNL(s) == 0
  {
    if s != [] {
      NoNLCountsZero(s[..|s| - 1]);
    }
  }

  /** Up to the next newline, inclusive, there is exactly one newline. */
  lemma CountThroughNL(s: Word, from: nat, i: nat)
    requires from <= i < |s| && s[i] == NL && forall j | from <= j < i :: s[j] != NL
    ensures CountNL(s[..i + 1]) == CountNL(s[..from]) + 1
  {
    assert s[..i] == s[..from] + s[from..i];
    CountNLConcat(s[..from], s[from..i]);
    NoNLCountsZero(s[from..i]);
    assert s[..i + 1][..i] == s[..i];
  }

  lemma CountWithoutNL(s: Word, from: nat, to: nat)
    requires from <= to <= |s| && forall j | from <= j < to :: s[j] != NL
    ensures CountNL(s[..to]) == CountNL(s[..from])
  {
    assert s[..to] == s[..from] + s[from..to];
    CountNLConcat(s[..from], s[from..to]);
    NoNLCountsZero(s[from..to]);
  }

  /** The scanner yields one line per newline, plus one when text follows the last of them. */
  lemma {:induction false} LineCount(s: Word)
    ensures |RawLines(s)| == CountNL(s) + if s == [] || s[|s| - 1] == NL then 0 else 1
    decreases |s|
  {
    if s != [] {
      var i := FindNL(s, 0);
      if i == |s| {
        NoNLCountsZero(s);
      } else {
        CountThroughNL(s, 0, i);
        assert s[..i + 1] + s[i + 1..] == s;
        CountNLConcat(s[..i + 1], s[i + 1..]);
        LineCount(s[i + 1..]);
      }
    }
  }

  lemma LinesBefore(s: Word, o: nat)
    requires LineStart(s, o)
    ensures |LinesOf(s[..o])| == CountNL(s[..o])
  {
    LineCount(s[..o]);
  }

  // ---- a file read in arbitrary pieces

  function Flatten(segments: seq<Word>): Word {
    if segments == [] then [] else Flatten(segments[..|segments| - 1]) + segments[|segments| - 1]
  }

  /** Where segment `j` starts in the whole. */
  function Offset(segments: seq<Word>, j: nat): nat
    requires j <= |segments|
  {
    |Flatten(segments[..j])|
  }

  lemma {:induction false} FlattenConcat(a: seq<Word>, b: seq<Word>)
    ensures Flatten(a + b) == Flatten(a) + Flatten(b)
    decreases |b|
  {
    if b == [] {
      assert a + b == a;
    } else {
      assert (a + b)[..|a + b| - 1] == a + b[..|b| - 1];
      FlattenConcat(a, b[..|b| - 1]);
      ConcatAssociates(Flatten(a), Flatten(b[..|b| - 1]), b[|b| - 1]);
    }
  }

  /** Segment `j` is the stretch of the whole that starts at its offset. */
  lemma SegmentInPlace(segments: seq<Word>, j: nat)
    requires j < |segments|
    ensures Offset(segments, j + 1) == Offset(segments, j) + |segments[j]| <= |Flatten(segments)|
    ensures PieceAt(Flatten(segments), Offset(segments, j), segments[j])
  {
    assert segments[..j + 1][..j] == segments[..j];
    assert segments == segments[..j + 1] + segments[j + 1..];
    FlattenConcat(segments[..j + 1], segments[j + 1..]);
  }

  lemma OffsetOfEnd(segments: seq<Word>)
    ensures Offset(segments, |segments|) == |Flatten(segments)|
  {
    assert segments[..|segments|] == segments;
  }

  /** `chunk` is the stretch of `content` that starts at `base`. */
  ghost predicate PieceAt(content: Word, base: nat, chunk: Word) {
    base + |chunk| <= |content| && forall j | 0 <= j < |chunk| :: content[base + j] == chunk[j]
  }

  // ---- a file of equal lines

  /** `n` copies of a text, one after the other. */
  function Copies(text: Word, n: nat): (r: Word)
    ensures |r| == n * |text|
  {
    if n == 0 then [] else Copies(text, n - 1) + text
  }

  lemma {:induction false} CopiesCount(line: Word, n: nat)
    requires CountNL(line) == 1
    ensures CountNL(Copies(line, n)) == n
  {
    if n != 0 {
      CopiesCount(line, n - 1);
      CountNLConcat(Copies(line, n - 1), line);
    }
  }

  /** All lines of a file of equal lines are that line. */
  lemma {:induction false} LinesOfCopies(line: Word, n: nat)
    requires forall j | 0 <= j < |line| :: line[j] != NL
    ensures |LinesOf(Copies(line + [NL], n))| == n
    ensures forall k | 0 <= k < n :: LinesOf(Copies(line + [NL], n))[k] == DropCR(line)
    decreases n
  {
    if n != 0 {
      LinesOfCopies(line, n - 1);
      var front := Copies(line + [NL], n - 1);
      LastOfCopies(line, n - 1);
      RawLinesConcat(front, line + [NL]);
      StripConcat(RawLines(front), RawLines(line + [NL]));
      OneRawLine(line);
    }
  }

  lemma {:induction false} LastOfCopies(line: Word, n: nat)
    ensures var r := Copies(line + [NL], n); r == [] || r[|r| - 1] == NL
  {
    if n != 0 {
      var text := line + [NL];
      assert text[|text| - 1] == NL;
      assert (Copies(text, n - 1) + text)[|Copies(text, n - 1) + text| - 1] == text[|text| - 1];
    }
  }

  lemma OneRawLine(line: Word)
    requires forall j | 0 <= j < |line| :: line[j] != NL
    ensures RawLines(line + [NL]) == [line]
  {
    FindNLUnique(line + [NL], 0, |line|);
    assert (line + [NL])[..|line|] == line && (line + [NL])[|line| + 1..] == [];
    assert [line] + RawLines([]) == [line];
  }

  // ---- line ends

  /** The lines, each written with the line end `eol`. */
  function Written(lines: seq<Word>, eol: Word): Word {
    if lines == [] then [] else Written(lines[..|lines| - 1], eol) + (lines[|lines| - 1] + eol)
  }

  /** Lines without line ends of their own: no newline inside, no carriage return at the end. */
  predicate Plain(lines: seq<Word>) {
    forall k | 0 <= k < |lines| :: PlainLine(lines[k])
  }

  predicate PlainLine(line: Word) {
    (forall j | 0 <= j < |line| :: line[j] != 10) && (line == [] || line[|line| - 1] != 13)
  }

  lemma OneLineRead(line: Word)
    requires PlainLine(line)
    ensures LinesOf(line + [10]) == [line] && LinesOf(line + [13, 10]) == [line]
  {
    OneRawLine(line);
    var cr := line + [13];
    assert cr[..|line|] == line && line + [13, 10] == cr + [NL];
    OneRawLine(cr);
  }

  /** Lines written with LF or with CR LF are read back as they were, the carriage returns gone. */
  lemma {:induction false} LineEndsDoNotMatter(lines: seq<Word>, eol: Word)
    requires Plain(lines) && (eol == [10] || eol == [13, 10])
    ensures LinesOf(Written(lines, eol)) == lines
  {
    if lines != [] {
      var n := |lines| - 1;
      LineEndsDoNotMatter(lines[..n], eol);
      assert PlainLine(lines[n]);
      OneLineRead(lines[n]);
      WrittenEnds(lines[..n], eol);
      LinesAppend(Written(lines[..n], eol), lines[n] + eol);
      assert lines == lines[..n] + [lines[n]];
    }
  }

  lemma LinesAppend(a: Word, b: Word)
    requires a == [] || a[|a| - 1] == NL
    ensures LinesOf(a + b) == LinesOf(a) + LinesOf(b)
  {
    RawLinesConcat(a, b);
    StripConcat(RawLines(a), RawLines(b));
  }

  lemma {:induction false} WrittenEnds(lines: seq<Word>, eol: Word)
    requires eol != [] && eol[|eol| - 1] == 10
    ensures var s := Written(lines, eol); s == [] || s[|s| - 1] == NL
  {}
}
