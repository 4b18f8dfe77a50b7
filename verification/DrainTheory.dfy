/** The value-level theory of the Drain template miner: similarity, in-place
    generalisation, and the routing of token lists through the prefix tree. */
module DrainTheory {
  type Tokens = seq<string>
  type Path = seq<string>

  const WILD := "<*>"

  predicate HasDigit(isDigit: char -> bool, s: string) {
    exists i :: 0 <= i < |s| && isDigit(s[i])
  }

  function Min(a: int, b: int): int {
    if a <= b then a else b
  }

  // ---- length keys

  function Decimal(n: nat): (s: string)
    ensures s != []
  {
    if n < 10 then [('0' as int + n) as char] else Decimal(n / 10) + [('0' as int + n % 10) as char]
  }

  function LenKey(n: nat): string {
    "L" + Decimal(n)
  }

  lemma {:induction false} DecimalInjective(a: nat, b: nat)
    requires Decimal(a) == Decimal(b)
    ensures a == b
  {
    var s, t := Decimal(a), Decimal(b);
    assert s[|s| - 1] == t[|t| - 1] && a % 10 == b % 10;
    if a >= 10 {
      assert s[..|s| - 1] == Decimal(a / 10) && t[..|t| - 1] == Decimal(b / 10);
      DecimalInjective(a / 10, b / 10);
    }
  }

  lemma LenKeyInjective(a: nat, b: nat)
    ensures LenKey(a) == LenKey(b) ==> a == b
  {
    if LenKey(a) == LenKey(b) {
      assert LenKey(a)[1..] == Decimal(a) && LenKey(b)[1..] == Decimal(b);
      DecimalInjective(a, b);
    }
  }

  // ---- similarity and generalisation

  function Matches(a: Tokens, b: Tokens, n: nat): (m: nat)
    requires n <= |a| && n <= |b|
    ensures m <= n
  {
    if n == 0 then 0 else Matches(a, b, n - 1) + if a[n - 1] == b[n - 1] then 1 else 0
  }

  /** The fraction of positions at which two token lists agree; lists of different
      lengths do not resemble each other at all. */
  function Similarity(a: Tokens, b: Tokens): (s: real)
    requires |a| == |b| ==> a != []
    ensures 0.0 <= s <= 1.0
  {
    if |a| != |b| then 0.0 else Fraction(Matches(a, b, |a|), |a|)
  }

  function Fraction(m: nat, n: nat): (f: real)
    requires m <= n && 0 < n
    ensures 0.0 <= f <= 1.0
  {
    QuotientMonotone(0.0, m as real, n as real);
    QuotientMonotone(m as real, n as real, n as real);
    m as real / n as real
  }

  lemma QuotientMonotone(a: real, b: real, d: real)
    requires a <= b && 0.0 < d
    ensures a / d <= b / d
  {}

  lemma FractionMonotone(m: nat, k: nat, n: nat)
    requires m <= k <= n && 0 < n
    ensures Fraction(m, n) <= Fraction(k, n)
  {
    QuotientMonotone(m as real, k as real, n as real);
  }

  /** The positions at which two token lists of one length agree. */
  ghost function Agreeing(a: Tokens, b: Tokens, n: nat): set<nat>
    requires n <= |a| == |b|
  {
    set i: nat | i < n && a[i] == b[i]
  }

  lemma {:induction false} MatchesCount(a: Tokens, b: Tokens, n: nat)
    requires n <= |a| == |b|
    ensures Matches(a, b, n) == |Agreeing(a, b, n)|
  {
    if n != 0 {
      MatchesCount(a, b, n - 1);
      var one: set<nat> := if a[n - 1] == b[n - 1] then {n - 1} else {};
      assert Agreeing(a, b, n) == Agreeing(a, b, n - 1) + one;
    }
  }

  lemma FractionTimes(m: nat, n: nat)
    requires m <= n && 0 < n
    ensures Fraction(m, n) * n as real == m as real
  {}

  /** The similarity of lists of one length is the share of positions at which they agree. */
  lemma SimilarityIsShare(a: Tokens, b: Tokens)
    requires |a| == |b| != 0
    ensures Similarity(a, b) * |a| as real == |Agreeing(a, b, |a|)| as real
  {
    MatchesCount(a, b, |a|);
    FractionTimes(Matches(a, b, |a|), |a|);
  }

  /** The pattern with every position at which the line differs turned into a wildcard. */
  function Generalise(pattern: Tokens, line: Tokens): (g: Tokens)
    requires |pattern| == |line|
    ensures |g| == |pattern|
  {
    seq(|pattern|, i requires 0 <= i < |pattern| => if pattern[i] != line[i] then WILD else pattern[i])
  }

  /** A pattern covers a line that it equals at every position that is not a wildcard. */
  ghost predicate Covers(pattern: Tokens, line: Tokens) {
    |pattern| == |line| && forall i | 0 <= i < |pattern| :: pattern[i] != WILD ==> line[i] == pattern[i]
  }

  /** `after` is `before` with some positions turned into wildcards. */
  ghost predicate Widens(before: Tokens, after: Tokens) {
    |before| == |after| && forall i | 0 <= i < |before| :: after[i] == before[i] || after[i] == WILD
  }

  lemma GeneraliseCovers(pattern: Tokens, line: Tokens)
    requires |pattern| == |line|
    ensures Covers(Generalise(pattern, line), line) && Widens(pattern, Generalise(pattern, line))
  {}

  lemma WidensKeepsCover(before: Tokens, after: Tokens, line: Tokens)
    requires Covers(before, line) && Widens(before, after)
    ensures Covers(after, line)
  {}

  /** Generalising against a line never makes the pattern less similar to it. */
  lemma {:induction false} GeneraliseKeepsMatches(pattern: Tokens, line: Tokens, n: nat)
    requires |pattern| == |line| && n <= |pattern|
    ensures Matches(pattern, line, n) <= Matches(Generalise(pattern, line), line, n)
  {
    if n != 0 {
      GeneraliseKeepsMatches(pattern, line, n - 1);
    }
  }

  lemma GeneraliseKeepsSimilarity(pattern: Tokens, line: Tokens)
    requires |pattern| == |line| && pattern != []
    ensures Similarity(pattern, line) <= Similarity(Generalise(pattern, line), line)
  {
    GeneraliseKeepsMatches(pattern, line, |pattern|);
    FractionMonotone(Matches(pattern, line, |pattern|), Matches(Generalise(pattern, line), line, |line|), |pattern|);
  }

  // ---- lines without wildcards

  predicate NoWild(line: Tokens) {
    forall i | 0 <= i < |line| :: line[i] != WILD
  }

  /** How many of the first `n` positions of the pattern are no wildcards. */
  function NonWild(pattern: Tokens, n: nat): (m: nat)
    requires n <= |pattern|
    ensures m <= n
  {
    if n == 0 then 0 else NonWild(pattern, n - 1) + if pattern[n - 1] != WILD then 1 else 0
  }

  /** The fraction of positions that are no wildcards. */
  function Fixed(pattern: Tokens): real
    requires pattern != []
  {
    Fraction(NonWild(pattern, |pattern|), |pattern|)
  }

  lemma {:induction false} CoveredMatches(pattern: Tokens, line: Tokens, n: nat)
    requires Covers(pattern, line) && NoWild(line) && n <= |pattern|
    ensures Matches(pattern, line, n) == NonWild(pattern, n)
  {
    if n != 0 {
      CoveredMatches(pattern, line, n - 1);
    }
  }

  /** All lines without wildcards that a pattern covers are equally similar to it. */
  lemma CoveredSimilarity(pattern: Tokens, line: Tokens)
    requires Covers(pattern, line) && NoWild(line) && pattern != []
    ensures Similarity(pattern, line) == Fixed(pattern)
  {
    CoveredMatches(pattern, line, |pattern|);
  }

  lemma {:induction false} GeneralisedNonWild(pattern: Tokens, line: Tokens, n: nat)
    requires |pattern| == |line| && NoWild(line) && n <= |pattern|
    ensures NonWild(Generalise(pattern, line), n) == Matches(pattern, line, n)
  {
    if n != 0 {
      GeneralisedNonWild(pattern, line, n - 1);
    }
  }

  /** Generalised against such a line, the pattern keeps as many tokens as the two shared. */
  lemma GeneralisedFixed(pattern: Tokens, line: Tokens)
    requires |pattern| == |line| && NoWild(line) && pattern != []
    ensures Fixed(Generalise(pattern, line)) == Similarity(pattern, line)
  {
    GeneralisedNonWild(pattern, line, |pattern|);
  }

  /** A line with masked numbers can lose its cluster: each of these lines is similar enough to
      the pattern to join, at a threshold of 0.4, and the second is not any more at the end. */
  lemma MaskedLinesDrift()
    ensures var a, b, c := ["x1", "y2", "z3", WILD, WILD, WILD, WILD], ["x1", "y2", "z3", "p", "q", "r", "s"],
                           ["u4", "v5", "w6", WILD, WILD, WILD, WILD];
            && Similarity(a, b) >= 0.4 && Similarity(Generalise(a, b), c) >= 0.4
            && Similarity(Generalise(Generalise(a, b), c), b) == 0.0
  {
    var a, b, c := ["x1", "y2", "z3", WILD, WILD, WILD, WILD], ["x1", "y2", "z3", "p", "q", "r", "s"],
                   ["u4", "v5", "w6", WILD, WILD, WILD, WILD];
    var d, e := Generalise(a, b), Generalise(Generalise(a, b), c);
    assert d == a && e == [WILD, WILD, WILD, WILD, WILD, WILD, WILD];
    SevenMatches(a, b);
    SevenMatches(d, c);
    SevenMatches(e, b);
  }

  lemma SevenMatches(a: Tokens, b: Tokens)
    requires |a| == |b| == 7
    ensures Matches(a, b, 7) == (if a[0] == b[0] then 1 else 0) + (if a[1] == b[1] then 1 else 0)
      + (if a[2] == b[2] then 1 else 0) + (if a[3] == b[3] then 1 else 0) + (if a[4] == b[4] then 1 else 0)
      + (if a[5] == b[5] then 1 else 0) + (if a[6] == b[6] then 1 else 0)
  {
    assert Matches(a, b, 1) == if a[0] == b[0] then 1 else 0;
    assert Matches(a, b, 3) == Matches(a, b, 1) + (if a[1] == b[1] then 1 else 0) + if a[2] == b[2] then 1 else 0;
    assert Matches(a, b, 5) == Matches(a, b, 3) + (if a[3] == b[3] then 1 else 0) + if a[4] == b[4] then 1 else 0;
  }

  lemma {:induction false} MatchesSelf(a: Tokens, n: nat)
    requires n <= |a|
    ensures Matches(a, a, n) == n
  {
    if n != 0 {
      MatchesSelf(a, n - 1);
    }
  }

  lemma WholeFraction(n: nat)
    requires n > 0
    ensures Fraction(n, n) == 1.0
  {}

  lemma SimilarToSelf(a: Tokens)
    requires a != []
    ensures Similarity(a, a) == 1.0
  {
    MatchesSelf(a, |a|);
    WholeFraction(|a|);
  }

  // ---- routing

  function Append(p: Path, k: string): Path {
    p + [k]
  }

  lemma AppendInjective(p: Path, k: string, q: Path, l: string)
    ensures Append(p, k) == Append(q, l) <==> p == q && k == l
  {
    assert Append(p, k)[..|p|] == p && Append(p, k)[|p|] == k;
    assert Append(q, l)[..|q|] == q && Append(q, l)[|q|] == l;
  }

  lemma RootPath(k: string)
    ensures Append([], k) == [k]
  {}

  /** The depth at which token lists of length `n` keep their clusters. */
  function LeafDepth(maxDepth: nat, n: nat): nat {
    Min(maxDepth, n)
  }

  /** Where a search for `tokens` ends when it stands at `p`: it takes the child of the
      next token, else the wildcard child, else it stops. */
  ghost function Descend(tree: set<Path>, maxDepth: nat, p: Path, tokens: Tokens): (q: Path)
    requires 1 <= |p| && p in tree
    ensures q in tree && p <= q
    decreases maxDepth - |p|
  {
    if |p| < LeafDepth(maxDepth, |tokens|) then
      if Append(p, tokens[|p| - 1]) in tree then Descend(tree, maxDepth, Append(p, tokens[|p| - 1]), tokens)
      else if Append(p, WILD) in tree then Descend(tree, maxDepth, Append(p, WILD), tokens)
      else p
    else p
  }

  /** The key under which insertion files the token: tokens with digits go to the wildcard. */
  function PathKey(isDigit: char -> bool, token: string): string {
    if HasDigit(isDigit, token) then WILD else token
  }

  /** The path at which a new cluster for `tokens` is filed, cut to `depth` keys. */
  function FilePath(isDigit: char -> bool, tokens: Tokens, depth: nat): (p: Path)
    requires 1 <= depth <= |tokens|
    ensures |p| == depth
    decreases depth
  {
    if depth == 1 then [LenKey(|tokens|)]
    else Append(FilePath(isDigit, tokens, depth - 1), PathKey(isDigit, tokens[depth - 2]))
  }

  lemma {:induction false} FilePathKeys(isDigit: char -> bool, tokens: Tokens, depth: nat)
    requires 1 <= depth <= |tokens|
    ensures FilePath(isDigit, tokens, depth)[0] == LenKey(|tokens|)
    ensures forall i | 1 <= i < depth :: FilePath(isDigit, tokens, depth)[i] == PathKey(isDigit, tokens[i - 1])
    decreases depth
  {
    if depth != 1 {
      FilePathKeys(isDigit, tokens, depth - 1);
    }
  }

  /** In words: the length key, and then the tokens, those that hold a digit as wildcards. */
  lemma FiledUnder(isDigit: char -> bool, tokens: Tokens, depth: nat, i: nat)
    requires 1 <= i < depth <= |tokens|
    ensures FilePath(isDigit, tokens, depth)[i]
         == if exists c | c in tokens[i - 1] :: isDigit(c) then "<*>" else tokens[i - 1]
  {
    FilePathKeys(isDigit, tokens, depth);
    DigitsIn(isDigit, tokens[i - 1]);
  }

  lemma DigitsIn(isDigit: char -> bool, s: string)
    ensures HasDigit(isDigit, s) <==> exists c | c in s :: isDigit(c)
  {
    if c :| c in s && isDigit(c) {
      var i :| 0 <= i < |s| && s[i] == c;
    }
  }

  lemma FilePathStep(isDigit: char -> bool, tokens: Tokens, depth: nat)
    requires 1 <= depth < |tokens|
    ensures FilePath(isDigit, tokens, depth + 1)
         == Append(FilePath(isDigit, tokens, depth), PathKey(isDigit, tokens[depth - 1]))
  {}

  lemma PathOpens(isDigit: char -> bool, tree: set<Path>, tokens: Tokens)
    requires tokens != [] && Append([], LenKey(|tokens|)) in tree
    ensures Append([], LenKey(|tokens|)) == FilePath(isDigit, tokens, 1)
    ensures PathOpen(isDigit, tree, tokens, 1)
  {}

  /** Every prefix of the filing path, up to `depth` keys, is in the tree. */
  ghost predicate PathOpen(isDigit: char -> bool, tree: set<Path>, tokens: Tokens, depth: nat) {
    forall d | 1 <= d <= depth && d <= |tokens| :: FilePath(isDigit, tokens, d) in tree
  }

  lemma PathOpensFurther(isDigit: char -> bool, tree: set<Path>, tree': set<Path>, tokens: Tokens, depth: nat)
    requires PathOpen(isDigit, tree, tokens, depth) && tree <= tree' && depth < |tokens|
    requires FilePath(isDigit, tokens, depth + 1) in tree'
    ensures PathOpen(isDigit, tree', tokens, depth + 1)
  {}

  /** No key below the length keys contains a digit. */
  ghost predicate DigitFree(isDigit: char -> bool, tree: set<Path>) {
    forall p, i | p in tree && 1 <= i < |p| :: !HasDigit(isDigit, p[i])
  }

  lemma NoDigitChild(isDigit: char -> bool, tree: set<Path>, p: Path, token: string)
    requires DigitFree(isDigit, tree) && 1 <= |p| && HasDigit(isDigit, token)
    ensures Append(p, token) !in tree
  {
    assert Append(p, token)[|p|] == token;
  }

  /** A search follows the path that insertion would file under, as far as that path exists. */
  lemma {:induction false} SearchFollowsFiling(isDigit: char -> bool, tree: set<Path>, maxDepth: nat, tokens: Tokens,
                                               depth: nat)
    requires 1 <= depth <= LeafDepth(maxDepth, |tokens|)
    requires DigitFree(isDigit, tree)
    requires PathOpen(isDigit, tree, tokens, LeafDepth(maxDepth, |tokens|))
    ensures Descend(tree, maxDepth, FilePath(isDigit, tokens, depth), tokens)
         == FilePath(isDigit, tokens, LeafDepth(maxDepth, |tokens|))
    decreases maxDepth - depth
  {
    if depth < LeafDepth(maxDepth, |tokens|) {
      var p, t := FilePath(isDigit, tokens, depth), tokens[depth - 1];
      assert FilePath(isDigit, tokens, depth + 1) == Append(p, PathKey(isDigit, t));
      if HasDigit(isDigit, t) {
        NoDigitChild(isDigit, tree, p, t);
      }
      SearchFollowsFiling(isDigit, tree, maxDepth, tokens, depth + 1);
    }
  }

  /** Keys of the path that are not wildcards are the tokens at their positions. */
  ghost predicate KeysAgree(p: Path, tokens: Tokens) {
    |p| <= |tokens| + 1 && forall i | 1 <= i < |p| :: p[i] == WILD || p[i] == tokens[i - 1]
  }

  /** A search only ever passes keys that agree with its tokens. */
  lemma {:induction false} SearchKeysAgree(tree: set<Path>, maxDepth: nat, p: Path, tokens: Tokens)
    requires 1 <= |p| && p in tree && KeysAgree(p, tokens)
    ensures KeysAgree(Descend(tree, maxDepth, p, tokens), tokens)
    decreases maxDepth - |p|
  {
    if |p| < LeafDepth(maxDepth, |tokens|) {
      if Append(p, tokens[|p| - 1]) in tree {
        SearchKeysAgree(tree, maxDepth, Append(p, tokens[|p| - 1]), tokens);
      } else if Append(p, WILD) in tree {
        SearchKeysAgree(tree, maxDepth, Append(p, WILD), tokens);
      }
    }
  }

  /** Path keys that agree with a pattern and with a line still agree after the pattern
      is generalised against that line. */
  lemma KeysSurviveGeneralise(p: Path, pattern: Tokens, line: Tokens)
    requires |pattern| == |line| && KeysAgree(p, pattern) && KeysAgree(p, line)
    ensures KeysAgree(p, Generalise(pattern, line))
  {}
}
