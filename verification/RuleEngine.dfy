/** Diagnosing a file: each line is matched once against the keywords of all rules, and only the
    rules that a keyword points to are examined. */
module RuleEngine {
  import opened Bytes
  import opened Lines
  import opened Wrappers
  import opened TrieTheory
  import opened AhoCorasick

  /** A compiled rule: the lowered pattern, the keywords one of which a line must hold, and the
      regular expression, if it has one, as any predicate on lines. */
  datatype CompiledRule = CompiledRule(patternLowerB: Word, orKeywords: seq<Word>, regex: Option<Word -> bool>)

  datatype Event = Event(rule: int, lineNumber: int, content: Word)

  /** A rule without regular expression: its one keyword is its pattern. */
  predicate IsLiteral(cr: CompiledRule) {
    cr.regex.None? && cr.orKeywords == [cr.patternLowerB]
  }

  predicate HasKeyword(cr: CompiledRule, lower: Word) {
    exists i :: 0 <= i < |cr.orKeywords| && cr.orKeywords[i] != [] && Contains(lower, cr.orKeywords[i])
  }

  predicate Matches(cr: CompiledRule, trimmed: Word, lower: Word) {
    if cr.regex.Some? then cr.regex.value(trimmed) else Contains(lower, cr.patternLowerB)
  }

  /** The rule has no keywords, or one of them occurs. */
  predicate IsCandidate(cr: CompiledRule, lower: Word) {
    cr.orKeywords == [] || HasKeyword(cr, lower)
  }

  /** The rule is reported for a line: it is a candidate, and it matches. */
  predicate Fires(cr: CompiledRule, trimmed: Word) {
    && trimmed != []
    && IsCandidate(cr, Lower(trimmed)) && Matches(cr, trimmed, Lower(trimmed))
  }

  /** A literal rule fires exactly on the lines that hold its pattern, case aside; one with an
      empty pattern never does. */
  lemma {:induction false} LiteralFires(cr: CompiledRule, trimmed: Word)
    requires IsLiteral(cr)
    ensures Fires(cr, trimmed) <==> cr.patternLowerB != [] && Contains(Lower(trimmed), cr.patternLowerB)
  {
    if Contains(Lower(trimmed), cr.patternLowerB) && cr.patternLowerB != [] {
      assert cr.orKeywords[0] == cr.patternLowerB;
    }
  }

  lemma {:induction false} LoweredContains(line: Word, pattern: Word)
    requires Contains(line, pattern)
    ensures Contains(Lower(line), Lower(pattern))
  {
    var i :| 0 <= i <= |line| && OccursAt(line, i, pattern);
    forall j | 0 <= j < |pattern| ensures Lower(line)[i..i + |pattern|][j] == Lower(pattern)[j] {
      assert line[i..i + |pattern|][j] == pattern[j];
    }
    assert OccursAt(Lower(line), i, Lower(pattern));
  }

  lemma {:induction false} ContainsThrough(s: Word, t: Word, u: Word)
    requires Contains(s, t) && Contains(t, u)
    ensures Contains(s, u)
  {
    var i :| 0 <= i <= |s| && OccursAt(s, i, t);
    var j :| 0 <= j <= |t| && OccursAt(t, j, u);
    SliceOfSlice(s, i, i + |t|, j, j + |u|);
    assert OccursAt(s, i + j, u);
  }

  /** A literal rule fires on every line that holds its pattern as written exactly when the
      pattern, lowered as lines are, holds the pattern as it was lowered for the rule. */
  lemma {:induction false} LiteralFindsItsText(cr: CompiledRule, pattern: Word)
    requires IsLiteral(cr) && pattern != []
    ensures (forall trimmed | Contains(trimmed, pattern) :: Fires(cr, trimmed))
       <==> cr.patternLowerB != [] && Contains(Lower(pattern), cr.patternLowerB)
  {
    if cr.patternLowerB != [] && Contains(Lower(pattern), cr.patternLowerB) {
      forall trimmed | Contains(trimmed, pattern) ensures Fires(cr, trimmed) {
        LoweredContains(trimmed, pattern);
        ContainsThrough(Lower(trimmed), Lower(pattern), cr.patternLowerB);
        LiteralFires(cr, trimmed);
      }
    } else {
      LiteralFires(cr, pattern);
      assert OccursAt(pattern, 0, pattern);
      assert Contains(pattern, pattern) && !Fires(cr, pattern);
    }
  }

  /** Patterns that are lowered as lines are, as all ASCII ones, fire on their own text; the
      capital E with acute accent, C3 89 in UTF-8 and lowered to C3 A9, does not. */
  lemma {:induction false} CapitalBeyondAsciiIsMissed(cr: CompiledRule, pattern: Word)
    requires IsLiteral(cr) && pattern != []
    ensures cr.patternLowerB == Lower(pattern) ==> forall trimmed | Contains(trimmed, pattern) :: Fires(cr, trimmed)
    ensures pattern == [0xC3, 0x89] && cr.patternLowerB == [0xC3, 0xA9] ==> !Fires(cr, pattern)
  {
    LiteralFindsItsText(cr, pattern);
    LiteralFires(cr, pattern);
    assert OccursAt(Lower(pattern), 0, Lower(pattern));
    if pattern == [0xC3, 0x89] && cr.patternLowerB == [0xC3, 0xA9] {
      assert Lower(pattern) == pattern;
      assert pattern[0..2][1] == 0x89;
    }
  }

  /** A rule with a regular expression fires exactly on the lines, as written, that match it, and
      that, lowered, hold one of its keywords, if it has any. */
  lemma {:induction false} RegexFires(cr: CompiledRule, trimmed: Word)
    requires cr.regex.Some?
    ensures Fires(cr, trimmed) <==>
      && trimmed != [] && cr.regex.value(trimmed)
      && (cr.orKeywords == [] || exists kw | kw in cr.orKeywords :: kw != [] && Contains(Lower(trimmed), kw))
  {
    if kw :| kw in cr.orKeywords && kw != [] && Contains(Lower(trimmed), kw) {
      var i :| 0 <= i < |cr.orKeywords| && cr.orKeywords[i] == kw;
      assert HasKeyword(cr, Lower(trimmed));
    }
  }

  // ---- the reports of a file

  /** The rules reported for a line: each rule that fires, once, and no other. */
  ghost predicate IsReport(active: seq<CompiledRule>, trimmed: Word, ids: seq<int>) {
    && NoDuplicates(ids)
    && forall r :: r in ids <==> 0 <= r < |active| && Fires(active[r], trimmed)
  }

  function Truncate(s: Word): Word {
    if |s| <= 500 then s else s[..500] + [46, 46, 46]
  }

  function EventsOf(ids: seq<int>, lineNumber: int, trimmed: Word): (es: seq<Event>)
    ensures |es| == |ids|
  {
    seq(|ids|, i requires 0 <= i < |ids| => Event(ids[i], lineNumber, Truncate(trimmed)))
  }

  /** An event names its rule and line, and shows the line: whole up to 500 bytes, else the first
      500 and three dots. */
  lemma EventShows(ids: seq<int>, lineNumber: int, trimmed: Word, i: nat)
    requires i < |ids|
    ensures var e := EventsOf(ids, lineNumber, trimmed)[i];
      && e.rule == ids[i] && e.lineNumber == lineNumber
      && (|trimmed| <= 500 ==> e.content == trimmed)
      && (|trimmed| > 500 ==> e.content == trimmed[..500] + [46, 46, 46])
  {
    assert EventsOf(ids, lineNumber, trimmed)[i] == Event(ids[i], lineNumber, Truncate(trimmed));
  }

  /** All events of the first lines, given the rules reported for each. */
  function AllEvents(reports: seq<seq<int>>, lines: seq<Word>, trim: Word -> Word): seq<Event>
    requires |reports| <= |lines|
  {
    if reports == [] then []
    else
      var k := |reports| - 1;
      AllEvents(reports[..k], lines, trim) + EventsOf(reports[k], k + 1, trim(lines[k]))
  }

  ghost predicate InRange(active: seq<CompiledRule>, ids: seq<int>) {
    forall i | 0 <= i < |ids| :: 0 <= ids[i] < |active|
  }

  /** The rules among the candidates that match, in order. */
  ghost function Matching(active: seq<CompiledRule>, candidates: seq<int>, trimmed: Word): seq<int>
    requires InRange(active, candidates)
  {
    if candidates == [] then []
    else
      var n := |candidates| - 1;
      Matching(active, candidates[..n], trimmed)
        + if Matches(active[candidates[n]], trimmed, Lower(trimmed)) then [candidates[n]] else []
  }

  lemma {:induction false} MatchingAre(active: seq<CompiledRule>, candidates: seq<int>, trimmed: Word)
    requires InRange(active, candidates)
    requires NoDuplicates(candidates)
    ensures NoDuplicates(Matching(active, candidates, trimmed))
    ensures forall r :: r in Matching(active, candidates, trimmed)
                   <==> (r in candidates && Matches(active[r], trimmed, Lower(trimmed)))
    decreases |candidates|
  {
    if candidates != [] {
      var n := |candidates| - 1;
      MatchingAre(active, candidates[..n], trimmed);
      assert forall r :: r in candidates <==> r in candidates[..n] || r == candidates[n];
      assert candidates[n] !in candidates[..n];
    }
  }

  lemma {:induction false} MatchingPrefix(active: seq<CompiledRule>, candidates: seq<int>, trimmed: Word, j: nat)
    requires InRange(active, candidates)
    requires j <= |candidates|
    ensures Matching(active, candidates[..j], trimmed) <= Matching(active, candidates, trimmed)
    decreases |candidates| - j
  {
    if j == |candidates| {
      TakeAll(candidates);
    } else {
      MatchingPrefix(active, candidates, trimmed, j + 1);
      MatchingStep(active, candidates, trimmed, j);
    }
  }

  lemma MatchingStep(active: seq<CompiledRule>, candidates: seq<int>, trimmed: Word, j: nat)
    requires InRange(active, candidates)
    requires j < |candidates|
    ensures Matching(active, candidates[..j + 1], trimmed) == Matching(active, candidates[..j], trimmed)
      + if Matches(active[candidates[j]], trimmed, Lower(trimmed)) then [candidates[j]] else []
  {
    assert candidates[..j + 1][..j] == candidates[..j];
  }

  // ---- the operations

  method ToLowerBytes(src: Word, buf: array<byte>) returns (out: array<byte>)
    modifies buf
    ensures out == buf || fresh(out)
    ensures |src| <= out.Length && out[..|src|] == Lower(src)
  {
    out := buf;
    if buf.Length < |src| {
      out := new byte[|src|];
    }
    for i := 0 to |src|
      invariant forall j | 0 <= j < i :: out[j] == LowerByte(src[j])
    {
      var c := src[i];
      if 'A' as int <= c as int <= 'Z' as int {
        out[i] := c + 32;
      } else {
        out[i] := c;
      }
    }
  }

  /** The keyword list is made of the keywords of the rules, each with its rule's index. */
  ghost predicate KeywordsOf(active: seq<CompiledRule>, n: int, keywords: seq<Word>, indices: seq<int>) {
    && |indices| == |keywords|
    && (forall i | 0 <= i < |keywords| ::
        0 <= indices[i] < n <= |active| && keywords[i] in active[indices[i]].orKeywords)
    && (forall r, j | 0 <= r < n <= |active| && 0 <= j < |active[r].orKeywords| ::
        Listed(keywords, indices, active[r].orKeywords[j], r))
  }

  ghost predicate Listed(keywords: seq<Word>, indices: seq<int>, kw: Word, r: int) {
    exists i {:trigger keywords[i]} :: 0 <= i < |keywords| && i < |indices| && keywords[i] == kw && indices[i] == r
  }

  lemma ListedGrows(keywords: seq<Word>, indices: seq<int>, kw: Word, r: int)
    requires |indices| == |keywords|
    ensures Listed(keywords + [kw], indices + [r], kw, r)
    ensures forall kw', r' | Listed(keywords, indices, kw', r') :: Listed(keywords + [kw], indices + [r], kw', r')
  {
    assert (keywords + [kw])[|keywords|] == kw;
    forall kw', r' | Listed(keywords, indices, kw', r') ensures Listed(keywords + [kw], indices + [r], kw', r') {
      var i :| 0 <= i < |keywords| && i < |indices| && keywords[i] == kw' && indices[i] == r';
      assert (keywords + [kw])[i] == kw';
    }
  }

  /** The indices below `n` of the rules without keywords. */
  ghost predicate FallbackOf(active: seq<CompiledRule>, n: int, fallback: seq<int>) {
    && NoDuplicates(fallback)
    && forall r :: r in fallback <==> 0 <= r < n <= |active| && active[r].orKeywords == []
  }

  method ListKeywords(active: seq<CompiledRule>) returns (keywords: seq<Word>, indices: seq<int>, fallback: seq<int>)
    ensures KeywordsOf(active, |active|, keywords, indices) && FallbackOf(active, |active|, fallback)
  {
    keywords, indices, fallback := [], [], [];
    for rIdx := 0 to |active|
      invariant KeywordsOf(active, rIdx, keywords, indices) && FallbackOf(active, rIdx, fallback)
    {
      if |active[rIdx].orKeywords| > 0 {
        keywords, indices := ListRule(active, rIdx, keywords, indices);
      } else {
        fallback := fallback + [rIdx];
      }
    }
  }

  method ListRule(active: seq<CompiledRule>, rIdx: nat, keywords0: seq<Word>, indices0: seq<int>)
    returns (keywords: seq<Word>, indices: seq<int>)
    requires rIdx < |active| && KeywordsOf(active, rIdx, keywords0, indices0)
    ensures KeywordsOf(active, rIdx + 1, keywords, indices)
  {
    keywords, indices := keywords0, indices0;
    var kws := active[rIdx].orKeywords;
    for j := 0 to |kws|
      invariant |indices| == |keywords|
      invariant forall i | 0 <= i < |keywords| ::
          0 <= indices[i] <= rIdx && keywords[i] in active[indices[i]].orKeywords
      invariant forall r, l | 0 <= r < rIdx && 0 <= l < |active[r].orKeywords| ::
          Listed(keywords, indices, active[r].orKeywords[l], r)
      invariant forall l | 0 <= l < j :: Listed(keywords, indices, kws[l], rIdx)
    {
      ListedGrows(keywords, indices, kws[j], rIdx);
      keywords, indices := keywords + [kws[j]], indices + [rIdx];
    }
  }

  /** The automaton triggers a rule exactly when the line holds one of its keywords. */
  lemma TriggeredMeans(active: seq<CompiledRule>, keywords: seq<Word>, indices: seq<int>, lower: Word, r: int)
    requires KeywordsOf(active, |active|, keywords, indices)
    ensures Triggered(keywords, indices, lower, r) <==> 0 <= r < |active| && HasKeyword(active[r], lower)
  {
    if Triggered(keywords, indices, lower, r) {
      var i :| 0 <= i < |keywords| && i < |indices| && keywords[i] != [] && indices[i] == r
        && Contains(lower, keywords[i]);
      var j :| 0 <= j < |active[r].orKeywords| && active[r].orKeywords[j] == keywords[i];
    }
    if 0 <= r < |active| && HasKeyword(active[r], lower) {
      var j :| 0 <= j < |active[r].orKeywords| && active[r].orKeywords[j] != []
        && Contains(lower, active[r].orKeywords[j]);
      assert Listed(keywords, indices, active[r].orKeywords[j], r);
    }
  }

  ghost predicate AreCandidates(active: seq<CompiledRule>, lower: Word, candidates: seq<int>) {
    && NoDuplicates(candidates)
    && forall r :: r in candidates <==> 0 <= r < |active| && IsCandidate(active[r], lower)
  }

  /** The rules to examine on a line: those the automaton triggers, then those without keywords. */
  method FindCandidates(active: seq<CompiledRule>, ac: ACAutomaton?, hitSet: array<bool>, lower: Word,
                        fallback: seq<int>)
    returns (candidates: seq<int>)
    requires hitSet.Length == |active| && FallbackOf(active, |active|, fallback)
    requires ac != null ==> ac.Valid() && KeywordsOf(active, |active|, ac.keywords, ac.rules)
    requires ac == null ==> KeywordsOf(active, |active|, [], [])
    modifies hitSet
    ensures AreCandidates(active, lower, candidates)
  {
    candidates := [];
    if ac != null {
      for i := 0 to hitSet.Length
        invariant forall j | 0 <= j < i :: !hitSet[j]
      {
        hitSet[i] := false;
      }
      forall r
        ensures Triggered(ac.keywords, ac.rules, lower, r) <==> 0 <= r < |active| && HasKeyword(active[r], lower)
      {
        TriggeredMeans(active, ac.keywords, ac.rules, lower, r);
      }
      candidates := ac.MatchOneLine(lower, hitSet);
    } else {
      NoKeywords(active, lower);
    }
    ConcatNoDuplicates(candidates, fallback);
    candidates := candidates + fallback;
  }

  lemma ConcatNoDuplicates(a: seq<int>, b: seq<int>)
    requires NoDuplicates(a) && NoDuplicates(b) && forall r :: !(r in a && r in b)
    ensures NoDuplicates(a + b)
  {
    forall i, j | 0 <= i < j < |a + b| ensures (a + b)[i] != (a + b)[j] {
      assert i < |a| ==> (a + b)[i] in a;
      assert j >= |a| ==> (a + b)[j] in b;
    }
  }

  lemma NoKeywords(active: seq<CompiledRule>, lower: Word)
    requires KeywordsOf(active, |active|, [], [])
    ensures forall r | 0 <= r < |active| :: active[r].orKeywords == [] && !HasKeyword(active[r], lower)
  {
    forall r | 0 <= r < |active| ensures active[r].orKeywords == [] {
      assert |active[r].orKeywords| > 0 ==> Listed([], [], active[r].orKeywords[0], r);
    }
  }

  /** Examines the candidates on one line and appends an event for each that matches, until the
      limit is reached. */
  method Examine(active: seq<CompiledRule>, candidates: seq<int>, trimmed: Word, lower: Word, lineNum: int,
                 events0: seq<Event>, limit: int, ghost reported: seq<int>)
    returns (events: seq<Event>, done: bool)
    requires lower == Lower(trimmed) && InRange(active, candidates)
    requires reported == Matching(active, candidates, trimmed)
    requires |events0| < Cap(limit)
    ensures var all := events0 + EventsOf(reported, lineNum, trimmed);
      if done then |events| == Cap(limit) <= |all| && events == all[..Cap(limit)]
      else events == all && |events| < Cap(limit)
  {
    events, done := events0, false;
    for j := 0 to |candidates|
      invariant events == events0 + EventsOf(Matching(active, candidates[..j], trimmed), lineNum, trimmed)
      invariant |events| < Cap(limit)
    {
      MatchingStep(active, candidates, trimmed, j);
      MatchingPrefix(active, candidates, trimmed, j + 1);
      var cr := active[candidates[j]];
      var matched := if cr.regex.Some? then cr.regex.value(trimmed) else Contains(lower, cr.patternLowerB);
      if matched {
        EventsGrow(Matching(active, candidates[..j], trimmed), candidates[j], reported, lineNum, trimmed);
        events := events + [Event(candidates[j], lineNum, Truncate(trimmed))];
        if |events| >= limit {
          ConcatPrefix(events0, EventsOf(Matching(active, candidates[..j + 1], trimmed), lineNum, trimmed),
            EventsOf(reported, lineNum, trimmed));
          PrefixIsTake(events, events0 + EventsOf(reported, lineNum, trimmed), |events|);
          return events, true;
        }
      }
    }
    TakeAll(candidates);
  }

  lemma EventsGrow(ids: seq<int>, r: int, all: seq<int>, lineNum: int, trimmed: Word)
    requires ids + [r] <= all
    ensures EventsOf(ids + [r], lineNum, trimmed)
        == EventsOf(ids, lineNum, trimmed) + [Event(r, lineNum, Truncate(trimmed))]
    ensures EventsOf(ids + [r], lineNum, trimmed) <= EventsOf(all, lineNum, trimmed)
  {}

  /** How many events at most: the limit, but the first event is always reported. */
  function Cap(limit: int): int {
    if limit < 1 then 1 else limit
  }

  ghost predicate AllReports(active: seq<CompiledRule>, lines: seq<Word>, trim: Word -> Word, reports: seq<seq<int>>) {
    |reports| <= |lines| && forall k | 0 <= k < |reports| :: IsReport(active, trim(lines[k]), reports[k])
  }

  /** The rules reported on a line are the candidates that match. */
  lemma ReportOfLine(active: seq<CompiledRule>, trimmed: Word, candidates: seq<int>)
    requires trimmed != [] && AreCandidates(active, Lower(trimmed), candidates)
    ensures InRange(active, candidates)
    ensures IsReport(active, trimmed, Matching(active, candidates, trimmed))
  {
    assert forall i | 0 <= i < |candidates| :: candidates[i] in candidates;
    MatchingAre(active, candidates, trimmed);
  }

  function InScope(rules: seq<CompiledRule>, inScope: CompiledRule -> bool): seq<CompiledRule> {
    if rules == [] then []
    else
      var n := |rules| - 1;
      InScope(rules[..n], inScope) + if inScope(rules[n]) then [rules[n]] else []
  }

  /** The rules in scope, and no others. */
  lemma {:induction false} InScopeAre(rules: seq<CompiledRule>, inScope: CompiledRule -> bool, r: CompiledRule)
    ensures r in InScope(rules, inScope) <==> r in rules && inScope(r)
  {
    if rules != [] {
      var n := |rules| - 1;
      InScopeAre(rules[..n], inScope, r);
      assert rules == rules[..n] + [rules[n]];
    }
  }

  /** The events are, line by line, those of the rules that fire on the trimmed line, each once:
      all of them, or the first `Cap(limit)`. */
  ghost predicate IsDiagnosis(active: seq<CompiledRule>, lines: seq<Word>, trim: Word -> Word, limit: int,
                              events: seq<Event>) {
    exists reports :: AllReports(active, lines, trim, reports)
      && Cut(AllEvents(reports, lines, trim), |reports| == |lines|, limit, events)
  }

  /** `events` is `all`, when that is everything and below the limit, and otherwise fills the limit. */
  ghost predicate Cut(all: seq<Event>, everything: bool, limit: int, events: seq<Event>) {
    if everything && |all| < Cap(limit) then events == all
    else |all| >= Cap(limit) && events == all[..Cap(limit)]
  }

  /** Diagnoses a file with the rules in scope; the scan ends with the file or at the limit. */
  method DiagnoseFile(rules: seq<CompiledRule>, inScope: CompiledRule -> bool, file: Option<Word>, trim: Word -> Word,
                      limit: int)
    returns (r: Result<seq<Event>>)
    ensures InScope(rules, inScope) == [] ==> r == Ok([])
    ensures InScope(rules, inScope) != [] ==> (r.Err? <==> file.None?)
    ensures InScope(rules, inScope) != [] && r.Ok? ==>
      IsDiagnosis(InScope(rules, inScope), LinesOf(file.value), trim, limit, r.value)
    ensures r.Ok? && limit >= 1 ==> |r.value| <= limit
  {
    var activeRules: seq<CompiledRule> := [];
    for i := 0 to |rules|
      invariant activeRules == InScope(rules[..i], inScope)
    {
      assert rules[..i + 1][..i] == rules[..i];
      if inScope(rules[i]) {
        activeRules := activeRules + [rules[i]];
      }
    }
    TakeAll(rules);
    if |activeRules| == 0 {
      return Ok([]);
    }
    var keywords, indices, fallback := ListKeywords(activeRules);
    var ac: ACAutomaton? := null;
    if |keywords| > 0 {
      ac := new ACAutomaton(keywords, indices);
    }
    if file.None? {
      return Err;
    }
    var events := ScanFile(activeRules, ac, fallback, LinesOf(file.value), trim, limit);
    r := Ok(events);
  }

  method ScanFile(active: seq<CompiledRule>, ac: ACAutomaton?, fallback: seq<int>, lines: seq<Word>,
                  trim: Word -> Word, limit: int)
    returns (events: seq<Event>)
    requires FallbackOf(active, |active|, fallback)
    requires ac != null ==> ac.Valid() && KeywordsOf(active, |active|, ac.keywords, ac.rules)
    requires ac == null ==> KeywordsOf(active, |active|, [], [])
    ensures IsDiagnosis(active, lines, trim, limit, events)
  {
    var hitSet := new bool[|active|](_ => false);
    var lineLowerBuf := new byte[1024];
    ghost var reports: seq<seq<int>> := [];
    events := [];
    for k := 0 to |lines|
      invariant |reports| == k && AllReports(active, lines, trim, reports)
      invariant events == AllEvents(reports, lines, trim) && |events| < Cap(limit)
      invariant fresh(hitSet) && fresh(lineLowerBuf) && hitSet.Length == |active|
    {
      ghost var reported;
      var done;
      events, lineLowerBuf, done, reported :=
        ScanLine(active, ac, fallback, trim(lines[k]), k + 1, events, limit, hitSet, lineLowerBuf);
      ReportLine(active, reports, reported, lines, trim);
      reports := reports + [reported];
      if done {
        assert Cut(AllEvents(reports, lines, trim), |reports| == |lines|, limit, events);
        return;
      }
    }
    assert Cut(AllEvents(reports, lines, trim), |reports| == |lines|, limit, events);
  }

  /** One turn of the scan. */
  method ScanLine(active: seq<CompiledRule>, ac: ACAutomaton?, fallback: seq<int>, trimmed: Word, lineNum: int,
                  events0: seq<Event>, limit: int, hitSet: array<bool>, buf: array<byte>)
    returns (events: seq<Event>, lineLowerBuf: array<byte>, done: bool, ghost reported: seq<int>)
    requires FallbackOf(active, |active|, fallback) && hitSet.Length == |active| && |events0| < Cap(limit)
    requires ac != null ==> ac.Valid() && KeywordsOf(active, |active|, ac.keywords, ac.rules)
    requires ac == null ==> KeywordsOf(active, |active|, [], [])
    modifies hitSet, buf
    ensures lineLowerBuf == buf || fresh(lineLowerBuf)
    ensures IsReport(active, trimmed, reported)
    ensures var all := events0 + EventsOf(reported, lineNum, trimmed);
      if done then |events| == Cap(limit) <= |all| && events == all[..Cap(limit)]
      else events == all && |events| < Cap(limit)
  {
    lineLowerBuf, reported := buf, [];
    if |trimmed| == 0 {
      return events0, lineLowerBuf, false, reported;
    }
    lineLowerBuf := ToLowerBytes(trimmed, buf);
    var lower := lineLowerBuf[..|trimmed|];
    var candidates := FindCandidates(active, ac, hitSet, lower, fallback);
    ReportOfLine(active, trimmed, candidates);
    reported := Matching(active, candidates, trimmed);
    events, done := Examine(active, candidates, trimmed, lower, lineNum, events0, limit, reported);
  }

  lemma {:induction false} ReportLine(active: seq<CompiledRule>, reports: seq<seq<int>>, reported: seq<int>,
                                      lines: seq<Word>, trim: Word -> Word)
    requires |reports| < |lines| && AllReports(active, lines, trim, reports)
    requires IsReport(active, trim(lines[|reports|]), reported)
    ensures AllReports(active, lines, trim, reports + [reported])
    ensures AllEvents(reports + [reported], lines, trim)
      == AllEvents(reports, lines, trim) + EventsOf(reported, |reports| + 1, trim(lines[|reports|]))
  {
    assert (reports + [reported])[..|reports|] == reports;
  }
}
