/** How one line is judged: log level, level filter, and literal or whole-word matching with
    ASCII case folding. */
module Matchers {
  import opened Bytes
  import opened Wrappers

  /** Plain ASCII text as bytes. */
  function Text(s: string): Word {
    seq(|s|, i requires 0 <= i < |s| => (s[i] as int % 256) as byte)
  }

  /** It is that text, character for character. */
  lemma TextIs(s: string)
    requires forall i | 0 <= i < |s| :: s[i] as int < 256
    ensures |Text(s)| == |s| && forall i | 0 <= i < |s| :: Text(s)[i] as int as char == s[i]
  {}

  predicate FoldEqual(a: byte, b: byte) {
    LowerByte(a) == LowerByte(b)
  }

  /** `u` occurs at position `i`, upper and lower case letters counting as equal. */
  predicate FoldOccursAt(s: Word, i: int, u: Word) {
    0 <= i <= |s| - |u| && forall j | 0 <= j < |u| :: FoldEqual(s[i + j], u[j])
  }

  predicate FoldContains(s: Word, u: Word) {
    exists i :: 0 <= i <= |s| && FoldOccursAt(s, i, u)
  }

  /** Folded containment is containment of the lowered texts. */
  lemma FoldIsLowered(s: Word, u: Word)
    ensures FoldContains(s, u) <==> Contains(Lower(s), Lower(u))
  {
    forall i | 0 <= i <= |s| - |u| ensures FoldOccursAt(s, i, u) <==> OccursAt(Lower(s), i, Lower(u)) {
      if FoldOccursAt(s, i, u) {
        assert Lower(s)[i..i + |u|] == Lower(u);
      }
      if OccursAt(Lower(s), i, Lower(u)) {
        forall j | 0 <= j < |u| ensures FoldEqual(s[i + j], u[j]) {
          assert Lower(s)[i..i + |u|][j] == Lower(u)[j];
        }
      }
    }
    if i :| 0 <= i <= |s| && FoldOccursAt(s, i, u) {
      assert OccursAt(Lower(s), i, Lower(u));
    }
    if i :| 0 <= i <= |Lower(s)| && OccursAt(Lower(s), i, Lower(u)) {
      assert FoldOccursAt(s, i, u);
    }
  }

  function OtherCase(b: byte): byte {
    if 'a' as int <= b as int <= 'z' as int then b - 32
    else if 'A' as int <= b as int <= 'Z' as int then b + 32
    else b
  }

  lemma EitherCase(a: byte, b: byte)
    ensures FoldEqual(a, b) <==> a == b || a == OtherCase(b)
  {}

  /** Whether the bytes of `u` from the second on match at `i`, compared the way the scan does. */
  method RestMatches(s: Word, i: nat, u: Word, caseSensitive: bool) returns (matched: bool)
    requires u != [] && i + |u| <= |s|
    ensures matched <==> forall j | 1 <= j < |u| ::
        if caseSensitive then s[i + j] == u[j] else FoldEqual(s[i + j], u[j])
  {
    matched := true;
    for j := 1 to |u|
      invariant matched <==> forall k | 1 <= k < j ::
          if caseSensitive then s[i + k] == u[k] else FoldEqual(s[i + k], u[k])
    {
      var sb, tb := s[i + j], u[j];
      if sb != tb {
        if !caseSensitive {
          sb, tb := LowerByte(sb), LowerByte(tb);
        }
        if caseSensitive || sb != tb {
          matched := false;
          break;
        }
      }
    }
  }

  method BytesContainsFoldAscii(s: Word, substr: Word) returns (found: bool)
    ensures found <==> FoldContains(s, substr)
  {
    if |substr| == 0 {
      assert FoldOccursAt(s, 0, substr);
      return true;
    }
    if |s| < |substr| {
      return false;
    }
    var c0 := substr[0];
    var c0Alt := OtherCase(c0);
    var maxI := |s| - |substr|;
    for i := 0 to maxI + 1
      invariant forall k | 0 <= k < i :: !FoldOccursAt(s, k, substr)
    {
      EitherCase(s[i], c0);
      if s[i] == c0 || s[i] == c0Alt {
        var matched := RestMatches(s, i, substr, false);
        if matched {
          assert FoldOccursAt(s, i, substr);
          return true;
        }
      }
    }
    found := false;
  }

  predicate IsWordByte(b: byte) {
    || 'a' as int <= b as int <= 'z' as int
    || 'A' as int <= b as int <= 'Z' as int
    || '0' as int <= b as int <= '9' as int
    || b as int == '_' as int
  }

  /** The word bytes are the letters, the digits and the underscore. */
  const WORD_BYTES: string := SMALLS + CAPITALS + DIGITS + "_"

  lemma WordBytes(b: byte)
    ensures IsWordByte(b) <==> OneOf(b, WORD_BYTES)
  {
    CapitalBytes(b);
    SmallBytes(b);
    DigitBytes(b);
  }

  /** Neither neighbour of the `n` bytes at `i` is a word byte. */
  predicate StandsAlone(s: Word, i: int, n: int)
    requires 0 <= i && 0 <= n && i + n <= |s|
  {
    && (i == 0 || !IsWordByte(s[i - 1]))
    && (i + n == |s| || !IsWordByte(s[i + n]))
  }

  predicate WordAt(s: Word, i: int, u: Word, caseSensitive: bool) {
    && (if caseSensitive then OccursAt(s, i, u) else FoldOccursAt(s, i, u))
    && StandsAlone(s, i, |u|)
  }

  predicate ContainsWord(s: Word, u: Word, caseSensitive: bool) {
    u == [] || exists i :: 0 <= i <= |s| && WordAt(s, i, u, caseSensitive)
  }

  lemma OccursBytewise(s: Word, i: nat, u: Word)
    requires i + |u| <= |s|
    ensures OccursAt(s, i, u) <==> forall j | 0 <= j < |u| :: s[i + j] == u[j]
  {
    if OccursAt(s, i, u) {
      forall j | 0 <= j < |u| ensures s[i + j] == u[j] {
        assert s[i..i + |u|][j] == u[j];
      }
    }
    if forall j | 0 <= j < |u| :: s[i + j] == u[j] {
      assert s[i..i + |u|] == u;
    }
  }

  /** The stretch of `n` bytes at `i` is the text of `u`, case aside unless it matters. */
  predicate SameText(s: Word, i: int, u: Word, caseSensitive: bool)
    requires 0 <= i <= |s| - |u|
  {
    var t := s[i..i + |u|];
    if caseSensitive then t == u else Lower(t) == Lower(u)
  }

  lemma SameTextIs(s: Word, i: int, u: Word, caseSensitive: bool)
    requires 0 <= i <= |s| - |u|
    ensures SameText(s, i, u, caseSensitive)
       <==> if caseSensitive then OccursAt(s, i, u) else FoldOccursAt(s, i, u)
  {
    var t := s[i..i + |u|];
    if Lower(t) == Lower(u) {
      forall j | 0 <= j < |u| ensures FoldEqual(s[i + j], u[j]) {
        assert Lower(t)[j] == Lower(u)[j];
      }
    }
  }

  /** No letter, digit or underscore stands beside the `n` bytes at `i`. */
  predicate NothingBeside(s: Word, i: int, n: int)
    requires 0 <= i && 0 <= n && i + n <= |s|
  {
    (i > 0 ==> !OneOf(s[i - 1], WORD_BYTES)) && (i + n < |s| ==> !OneOf(s[i + n], WORD_BYTES))
  }

  /** A whole word is an occurrence beside which no letter, digit or underscore stands. */
  lemma WordAtIs(s: Word, i: int, u: Word, caseSensitive: bool)
    requires 0 <= i <= |s| - |u|
    ensures WordAt(s, i, u, caseSensitive) <==> SameText(s, i, u, caseSensitive) && NothingBeside(s, i, |u|)
  {
    SameTextIs(s, i, u, caseSensitive);
    if i > 0 {
      WordBytes(s[i - 1]);
    }
    if i + |u| < |s| {
      WordBytes(s[i + |u|]);
    }
  }

  lemma WholeWordIs(s: Word, u: Word, caseSensitive: bool)
    ensures ContainsWord(s, u, caseSensitive) <==> (u == []
      || exists i | 0 <= i <= |s| - |u| :: SameText(s, i, u, caseSensitive) && NothingBeside(s, i, |u|))
  {
    forall i | 0 <= i <= |s| - |u|
      ensures WordAt(s, i, u, caseSensitive) <==> SameText(s, i, u, caseSensitive) && NothingBeside(s, i, |u|)
    {
      WordAtIs(s, i, u, caseSensitive);
    }
  }

  /** True exactly when the keyword is empty or is somewhere a whole word. */
  method BytesContainsWholeWord(s: Word, substr: Word, caseSensitive: bool) returns (found: bool)
    ensures found <==> ContainsWord(s, substr, caseSensitive)
    ensures found <==> (substr == []
      || exists i | 0 <= i <= |s| - |substr| ::
           SameText(s, i, substr, caseSensitive) && NothingBeside(s, i, |substr|))
  {
    WholeWordIs(s, substr, caseSensitive);
    var n, m := |substr|, |s|;
    if n == 0 {
      return true;
    }
    if m < n {
      return false;
    }
    var c0 := substr[0];
    var c0Alt := if caseSensitive then c0 else OtherCase(c0);
    var maxI := m - n;
    for i := 0 to maxI + 1
      invariant forall k | 0 <= k < i :: !WordAt(s, k, substr, caseSensitive)
    {
      EitherCase(s[i], c0);
      OccursBytewise(s, i, substr);
      var hitFirst := if caseSensitive then s[i] == c0 else s[i] == c0 || s[i] == c0Alt;
      if hitFirst {
        if i > 0 && IsWordByte(s[i - 1]) {
          continue;
        }
        var matched := RestMatches(s, i, substr, caseSensitive);
        if matched {
          if i + n < m && IsWordByte(s[i + n]) {
            continue;
          }
          assert WordAt(s, i, substr, caseSensitive);
          return true;
        }
      }
    }
    found := false;
  }

  // ---- levels

  predicate ContainsAny(line: Word, words: seq<string>) {
    exists i :: 0 <= i < |words| && Contains(line, Text(words[i]))
  }

  function DetectLevel(line: Word): string {
    if ContainsAny(line, ["FATAL", "fatal", "EMERG"]) then "FATAL"
    else if ContainsAny(line, ["CRIT", "critical", "CRITICAL"]) then "CRITICAL"
    else if ContainsAny(line, ["ERR", "error", "ERROR", "Error"]) then "ERROR"
    else if ContainsAny(line, ["WARN", "warning", "WARNING", "Warn"]) then "WARN"
    else if ContainsAny(line, ["DEBUG", "debug", "Debug"]) then "DEBUG"
    else if ContainsAny(line, ["TRACE", "trace"]) then "TRACE"
    else "INFO"
  }

  /** The levels with the words that give them away, the most severe first. */
  const LEVELS: seq<(string, seq<string>)> := [
    ("FATAL", ["FATAL", "fatal", "EMERG"]),
    ("CRITICAL", ["CRIT", "critical", "CRITICAL"]),
    ("ERROR", ["ERR", "error", "ERROR", "Error"]),
    ("WARN", ["WARN", "warning", "WARNING", "Warn"]),
    ("DEBUG", ["DEBUG", "debug", "Debug"]),
    ("TRACE", ["TRACE", "trace"])]

  /** The level of a line is the most severe one of which the line holds a word, or else INFO. */
  lemma LevelIsWorst(line: Word, k: nat)
    requires k < |LEVELS|
    ensures DetectLevel(line) == LEVELS[k].0
       <==> ContainsAny(line, LEVELS[k].1) && forall j | 0 <= j < k :: !ContainsAny(line, LEVELS[j].1)
    ensures DetectLevel(line) == "INFO" <==> forall j | 0 <= j < |LEVELS| :: !ContainsAny(line, LEVELS[j].1)
  {
    assert LEVELS[0].1 == ["FATAL", "fatal", "EMERG"] && LEVELS[1].1 == ["CRIT", "critical", "CRITICAL"];
    assert LEVELS[2].1 == ["ERR", "error", "ERROR", "Error"] && LEVELS[3].1 == ["WARN", "warning", "WARNING", "Warn"];
    assert LEVELS[4].1 == ["DEBUG", "debug", "Debug"] && LEVELS[5].1 == ["TRACE", "trace"];
  }

  predicate MatchLogLevel(detected: string, filter: string) {
    if filter == "ERROR" then detected in ["ERROR", "CRITICAL", "FATAL"]
    else if filter == "WARN" then detected in ["WARN", "ERROR", "CRITICAL", "FATAL"]
    else detected == filter
  }

  /** The filters ERROR and WARN admit what is as severe or more; any other filter admits its own
      level only. */
  lemma FilterAdmits(i: nat, j: nat)
    requires i < |LEVELS| && j < |LEVELS|
    ensures MatchLogLevel(LEVELS[i].0, LEVELS[j].0) <==> i == j || (i < j && LEVELS[j].0 in ["ERROR", "WARN"])
    ensures !MatchLogLevel("INFO", LEVELS[j].0) && !MatchLogLevel(LEVELS[i].0, "INFO") && MatchLogLevel("INFO", "INFO")
  {
    assert LEVELS[0].0 == "FATAL" && LEVELS[1].0 == "CRITICAL" && LEVELS[2].0 == "ERROR" && LEVELS[3].0 == "WARN";
    assert LEVELS[4].0 == "DEBUG" && LEVELS[5].0 == "TRACE";
  }

  // ---- a query

  /** What is searched for. A regular expression is any predicate on lines. */
  datatype Query = Query(literalKw: Word, reg: Option<Word -> bool>, caseSensitive: bool, isRegex: bool,
                         wholeWord: bool, levelFilter: string, contextLines: nat)

  predicate LevelPasses(q: Query, line: Word) {
    q.levelFilter == "" || q.levelFilter == "ALL" || MatchLogLevel(DetectLevel(line), q.levelFilter)
  }

  predicate LiteralHit(q: Query, line: Word) {
    if q.wholeWord then ContainsWord(line, q.literalKw, q.caseSensitive)
    else if q.caseSensitive then Contains(line, q.literalKw)
    else FoldContains(line, q.literalKw)
  }

  predicate LineMatches(q: Query, line: Word) {
    && LevelPasses(q, line)
    && if q.literalKw == [] && q.reg.None? then true
       else if !q.isRegex then LiteralHit(q, line)
       else (q.literalKw == [] || LiteralHit(q, line)) && q.reg.Some? && q.reg.value(line)
  }

  /** Which lines of the right level a keyword search finds: those that hold the keyword, those
      that hold it case aside, or those that hold it as a whole word. */
  lemma {:induction false} KeywordMeans(q: Query, line: Word)
    requires !q.isRegex && q.literalKw != [] && (q.levelFilter == "" || q.levelFilter == "ALL")
    ensures LineMatches(q, line) <==>
      if q.wholeWord then
        exists i | 0 <= i <= |line| - |q.literalKw| ::
          SameText(line, i, q.literalKw, q.caseSensitive) && NothingBeside(line, i, |q.literalKw|)
      else if q.caseSensitive then Contains(line, q.literalKw)
      else Contains(Lower(line), Lower(q.literalKw))
  {
    FoldIsLowered(line, q.literalKw);
    WholeWordIs(line, q.literalKw, q.caseSensitive);
  }

  /** A search by regular expression finds exactly the lines that match it, exactly when each of
      those passes the literal that is looked for first. */
  lemma {:induction false} PrefilterIsExact(q: Query)
    requires q.isRegex && q.reg.Some? && (q.levelFilter == "" || q.levelFilter == "ALL")
    ensures (forall line :: LineMatches(q, line) <==> q.reg.value(line))
       <==> q.literalKw == [] || forall line | q.reg.value(line) :: LiteralHit(q, line)
  {
    if q.literalKw != [] && forall line :: LineMatches(q, line) <==> q.reg.value(line) {
      forall line | q.reg.value(line) ensures LiteralHit(q, line) {
        assert LineMatches(q, line);
      }
    }
  }

  method FindLiteral(q: Query, line: Word) returns (found: bool)
    ensures found <==> LiteralHit(q, line)
  {
    if q.wholeWord {
      found := BytesContainsWholeWord(line, q.literalKw, q.caseSensitive);
    } else if q.caseSensitive {
      found := Contains(line, q.literalKw);
    } else {
      found := BytesContainsFoldAscii(line, q.literalKw);
    }
  }

  /** What a scan makes of a line: its level, and whether it is a hit. */
  datatype Verdict = Verdict(level: string, matched: bool)

  function Judge(q: Query, line: Word): Verdict {
    Verdict(DetectLevel(line), LineMatches(q, line))
  }

  function Verdicts(q: Query, lines: seq<Word>): (vs: seq<Verdict>)
    ensures |vs| == |lines|
  {
    seq(|lines|, i requires 0 <= i < |lines| => Judge(q, lines[i]))
  }

  /** The judgement both scan loops make of a line. */
  method Examine(q: Query, line: Word) returns (lineLevel: string, matched: bool)
    ensures Verdict(lineLevel, matched) == Judge(q, line)
  {
    lineLevel := DetectLevel(line);
    if q.levelFilter != "" && q.levelFilter != "ALL" {
      if !MatchLogLevel(lineLevel, q.levelFilter) {
        return lineLevel, false;
      }
    }
    matched := false;
    if |q.literalKw| == 0 && q.reg.None? {
      matched := true;
    } else if !q.isRegex {
      matched := FindLiteral(q, line);
    } else {
      if |q.literalKw| > 0 {
        var hasCandidate := FindLiteral(q, line);
        if !hasCandidate {
          return lineLevel, false;
        }
      }
      if q.reg.Some? {
        matched := q.reg.value(line);
      }
    }
  }
}
