/** The Drain log-template miner: a prefix tree of mutable nodes over mutable clusters.
    Ghost maps name every tree node by its path, and every cluster remembers the lines
    it has counted and the path it was filed under. */
module Drain {
  import opened DrainTheory

  /** One accepted log line: its tokens after cleaning, and what cleaning found besides. */
  datatype Line = Line(tokens: Tokens, level: string, ts: string, file: string, lineNo: int, raw: string)

  /** How a line was dealt with. */
  datatype Outcome = Ignored | Joined | Opened | Full

  function LevelPriority(level: string): int {
    if level == "FATAL" || level == "CRITICAL" then 4
    else if level == "ERROR" then 3
    else if level == "WARN" || level == "WARNING" then 2
    else 1
  }

  /** The files the lines came from, unnamed ones left out. */
  function FilesOf(lines: seq<Line>): set<string> {
    set i | 0 <= i < |lines| && lines[i].file != "" :: lines[i].file
  }

  /** The most severe level among the lines, the earliest such line deciding. */
  function WorstLevel(lines: seq<Line>): string
    requires lines != []
  {
    var last := lines[|lines| - 1].level;
    if |lines| == 1 then last
    else
      var before := WorstLevel(lines[..|lines| - 1]);
      if LevelPriority(last) > LevelPriority(before) then last else before
  }

  /** Nothing counted is more severe than the reported level, and some line has it. */
  lemma {:induction false} WorstLevelIsWorst(lines: seq<Line>)
    requires lines != []
    ensures exists i :: 0 <= i < |lines| && lines[i].level == WorstLevel(lines)
    ensures forall i | 0 <= i < |lines| :: LevelPriority(lines[i].level) <= LevelPriority(WorstLevel(lines))
  {
    var n := |lines| - 1;
    if n != 0 {
      WorstLevelIsWorst(lines[..n]);
      var i :| 0 <= i < n && lines[..n][i].level == WorstLevel(lines[..n]);
      assert lines[i].level == WorstLevel(lines) || lines[n].level == WorstLevel(lines);
      forall j | 0 <= j < |lines|
        ensures LevelPriority(lines[j].level) <= LevelPriority(WorstLevel(lines))
      {
        if j < n { assert lines[..n][j] == lines[j]; }
      }
    } else {
      assert lines[0].level == WorstLevel(lines);
    }
  }

  /** FATAL and CRITICAL outrank ERROR, which outranks WARN and WARNING; all else comes last. */
  lemma {:induction false} ReportedLevel(lines: seq<Line>)
    requires lines != []
    ensures WorstLevel(lines) in ["FATAL", "CRITICAL"] <==> HasLevel(lines, ["FATAL", "CRITICAL"])
    ensures WorstLevel(lines) == "ERROR" <==> HasLevel(lines, ["ERROR"]) && !HasLevel(lines, ["FATAL", "CRITICAL"])
    ensures WorstLevel(lines) in ["WARN", "WARNING"]
       <==> HasLevel(lines, ["WARN", "WARNING"]) && !HasLevel(lines, ["FATAL", "CRITICAL", "ERROR"])
  {
    WorstLevelIsWorst(lines);
    var i :| 0 <= i < |lines| && lines[i].level == WorstLevel(lines);
    assert forall j | 0 <= j < |lines| :: LevelPriority(lines[j].level) <= LevelPriority(lines[i].level);
  }

  /** Some line has one of the levels. */
  ghost predicate HasLevel(lines: seq<Line>, levels: seq<string>) {
    exists i :: 0 <= i < |lines| && lines[i].level in levels
  }

  ghost predicate CoversAll(pattern: Tokens, lines: seq<Line>) {
    forall i | 0 <= i < |lines| :: Covers(pattern, lines[i].tokens)
  }

  ghost predicate NoneWild(lines: seq<Line>) {
    forall i | 0 <= i < |lines| :: NoWild(lines[i].tokens)
  }

  /** Unless a line holds a wildcard itself, the pattern keeps enough tokens to be found. */
  ghost predicate Kept(pattern: Tokens, lines: seq<Line>, threshold: real)
    requires pattern != []
  {
    threshold <= 1.0 && NoneWild(lines) ==> Fixed(pattern) >= threshold
  }

  lemma KeptByJoin(pattern: Tokens, lines: seq<Line>, line: Line, threshold: real)
    requires pattern != [] && |line.tokens| == |pattern| && Similarity(pattern, line.tokens) >= threshold
    ensures Kept(Generalise(pattern, line.tokens), lines + [line], threshold)
  {
    if NoneWild(lines + [line]) {
      assert (lines + [line])[|lines|] == line;
      GeneralisedFixed(pattern, line.tokens);
    }
  }

  lemma KeptAtFirst(line: Line, threshold: real)
    requires line.tokens != []
    ensures Kept(line.tokens, [line], threshold)
  {
    if NoneWild([line]) {
      assert [line][0] == line;
      CoveredSimilarity(line.tokens, line.tokens);
      SimilarToSelf(line.tokens);
    }
  }

  lemma AppendLine(pattern: Tokens, lines: seq<Line>, line: Line)
    requires lines != [] && |line.tokens| == |pattern| && CoversAll(pattern, lines)
    ensures CoversAll(Generalise(pattern, line.tokens), lines + [line])
    ensures FilesOf(lines + [line]) == FilesOf(lines) + if line.file != "" then {line.file} else {}
    ensures WorstLevel(lines + [line])
         == if LevelPriority(line.level) > LevelPriority(WorstLevel(lines)) then line.level else WorstLevel(lines)
  {
    GeneraliseCovers(pattern, line.tokens);
    assert (lines + [line])[..|lines|] == lines;
    var all := lines + [line];
    forall f | f in FilesOf(lines) ensures f in FilesOf(all) {
      var i :| 0 <= i < |lines| && lines[i].file != "" && lines[i].file == f;
      assert all[i].file == f;
    }
    if line.file != "" { assert all[|lines|].file == line.file; }
  }

  class Cluster {
    var tokens: Tokens
    const sample: string
    const sampleFile: string
    const sampleLine: int
    var count: int
    var level: string
    const firstSeen: string
    var lastSeen: string
    var files: set<string>
    ghost var lines: seq<Line>
    ghost const home: Path  // where in the tree it is filed
    ghost const slot: nat   // its place in the miner's list
    ghost const threshold: real

    constructor (first: Line, ghost home: Path, ghost slot: nat, ghost threshold: real)
      requires first.tokens != []
      ensures Consistent() && tokens == first.tokens && lines == [first]
      ensures this.home == home && this.slot == slot && this.threshold == threshold
    {
      tokens, sample, sampleFile, sampleLine := first.tokens, first.raw, first.file, first.lineNo;
      count, level, firstSeen, lastSeen := 1, first.level, first.ts, first.ts;
      files := if first.file != "" then {first.file} else {};
      lines, this.home, this.slot, this.threshold := [first], home, slot, threshold;
      KeptAtFirst(first, threshold);
      if first.file != "" { assert first.file in FilesOf([first]); }
      assert Covers(first.tokens, [first][0].tokens);
    }

    /** The summary fields are those of the lines counted, and the pattern covers each of them. */
    ghost predicate Consistent()
      reads this
    {
      && lines != [] && tokens != [] && CoversAll(tokens, lines)
      && count == |lines|
      && files == FilesOf(lines) && level == WorstLevel(lines)
      && firstSeen == lines[0].ts && lastSeen == lines[|lines| - 1].ts
      && sample == lines[0].raw && sampleFile == lines[0].file && sampleLine == lines[0].lineNo
      && Kept(tokens, lines, threshold)
    }

    /** Counts one more line and widens the pattern where the line differs. */
    method Join(line: Line)
      requires Consistent() && |line.tokens| == |tokens| && Similarity(tokens, line.tokens) >= threshold
      modifies this
      ensures Consistent() && lines == old(lines) + [line]
      ensures tokens == Generalise(old(tokens), line.tokens)
    {
      AppendLine(tokens, lines, line);
      KeptByJoin(tokens, lines, line, threshold);
      NoteLine(line);
      MergeTokens(line.tokens);
    }

    /** Brings count, time, files and level up to date. */
    method NoteLine(line: Line)
      modifies this`count, this`lastSeen, this`files, this`level, this`lines
      ensures count == old(count) + 1 && lastSeen == line.ts && lines == old(lines) + [line]
      ensures files == old(files) + if line.file != "" then {line.file} else {}
      ensures level == if LevelPriority(line.level) > LevelPriority(old(level)) then line.level else old(level)
    {
      count := count + 1;
      lastSeen := line.ts;
      if line.file != "" {
        files := files + {line.file};
      }
      if LevelPriority(line.level) > LevelPriority(level) {
        level := line.level;
      }
      lines := lines + [line];
    }

    /** Turns the positions at which the pattern and the line differ into wildcards, in place. */
    method MergeTokens(rawTokens: Tokens)
      requires |rawTokens| == |tokens|
      modifies this`tokens
      ensures tokens == Generalise(old(tokens), rawTokens)
    {
      var minLen := |tokens|;
      if |rawTokens| < minLen {
        minLen := |rawTokens|;
      }
      ghost var merged := Generalise(tokens, rawTokens);
      for i := 0 to minLen
        invariant |tokens| == |merged|
        invariant forall j | 0 <= j < i :: tokens[j] == merged[j]
        invariant forall j | i <= j < |merged| :: tokens[j] == old(tokens)[j]
      {
        if tokens[i] != rawTokens[i] {
          tokens := tokens[i := WILD];
        }
      }
      assert tokens == merged;
    }
  }

  class DrainNode {
    var children: map<string, DrainNode>
    var clusters: seq<Cluster>
    ghost const path: Path

    constructor (ghost path: Path)
      ensures children == map[] && clusters == [] && this.path == path
    {
      children, clusters, this.path := map[], [], path;
    }
  }

  /** `nodes` is a prefix tree: each node under its own path, each child one key further. */
  ghost predicate Shape(nodes: map<Path, DrainNode>)
    reads nodes.Values`children
  {
    && [] in nodes
    && (forall p, k {:trigger Append(p, k)} :: Append(p, k) in nodes ==> p in nodes)
    && (forall p | p in nodes :: nodes[p].path == p)
    && (forall p, k {:trigger k in nodes[p].children} {:trigger Append(p, k)} | p in nodes ::
          k in nodes[p].children <==> Append(p, k) in nodes)
    && (forall p, k {:trigger nodes[p].children[k]} {:trigger nodes[Append(p, k)]} |
          p in nodes && k in nodes[p].children ::
          nodes[p].children[k] == nodes[Append(p, k)])
  }

  /** The keys of a path: a length key, then keys without digits, no deeper than clusters
      of that length are kept. */
  ghost predicate PathOk(isDigit: char -> bool, maxDepth: nat, p: Path) {
    p != [] ==>
      && (exists n :: 1 <= n && LengthPath(maxDepth, p, n))
      && (forall i | 1 <= i < |p| :: !HasDigit(isDigit, p[i]))
  }

  ghost predicate LengthPath(maxDepth: nat, p: Path, n: nat) {
    1 <= |p| <= LeafDepth(maxDepth, n) && p[0] == LenKey(n)
  }

  /** A cluster sits at full depth under its length key, along keys that are its own
      tokens or wildcards. */
  ghost predicate Filed(maxDepth: nat, c: Cluster)
    reads c`tokens
  {
    && LengthPath(maxDepth, c.home, |c.tokens|) && |c.home| == LeafDepth(maxDepth, |c.tokens|)
    && KeysAgree(c.home, c.tokens)
  }

  ghost predicate Listed(clusters: seq<Cluster>, c: Cluster) {
    c.slot < |clusters| && clusters[c.slot] == c
  }

  /** The tree holds exactly the listed clusters, each at its own path. */
  ghost predicate Holds(nodes: map<Path, DrainNode>, clusters: seq<Cluster>)
    reads nodes.Values`clusters
  {
    && (forall i | 0 <= i < |clusters| :: clusters[i].home in nodes && clusters[i] in nodes[clusters[i].home].clusters)
    && (forall p, j {:trigger nodes[p].clusters[j]} | p in nodes && 0 <= j < |nodes[p].clusters| ::
          Listed(clusters, nodes[p].clusters[j]) && nodes[p].clusters[j].home == p)
  }

  // ---- conservation: the lines held by the clusters, with multiplicity

  ghost function LineLists(clusters: seq<Cluster>): (ls: seq<seq<Line>>)
    reads set c | c in clusters
    ensures |ls| == |clusters|
  {
    seq(|clusters|, i requires 0 <= i < |clusters| reads (set c | c in clusters) => clusters[i].lines)
  }

  ghost function Patterns(clusters: seq<Cluster>): (ps: seq<Tokens>)
    reads set c | c in clusters
    ensures |ps| == |clusters|
  {
    seq(|clusters|, i requires 0 <= i < |clusters| reads (set c | c in clusters) => clusters[i].tokens)
  }

  /** Every pattern of the earlier list is still there, possibly widened. */
  ghost predicate AllWiden(before: seq<Tokens>, after: seq<Tokens>) {
    |before| <= |after| && forall i | 0 <= i < |before| :: Widens(before[i], after[i])
  }

  lemma OneMoreLists(clusters: seq<Cluster>, c: Cluster)
    ensures LineLists(clusters + [c]) == LineLists(clusters) + [c.lines]
    ensures Patterns(clusters + [c]) == Patterns(clusters) + [c.tokens]
  {}

  ghost function Pool(ls: seq<seq<Line>>): multiset<Line> {
    if ls == [] then multiset{} else Pool(ls[..|ls| - 1]) + multiset(ls[|ls| - 1])
  }

  lemma PoolAppend(ls: seq<seq<Line>>, l: seq<Line>)
    ensures Pool(ls + [l]) == Pool(ls) + multiset(l)
  {
    assert (ls + [l])[..|ls|] == ls;
  }

  lemma LogAppend(log: seq<Line>, line: Line)
    ensures multiset(log + [line]) == multiset(log) + multiset{line}
  {}

  lemma {:induction false} PoolGrows(ls: seq<seq<Line>>, k: nat, line: Line)
    requires k < |ls|
    ensures Pool(ls[k := ls[k] + [line]]) == Pool(ls) + multiset{line}
  {
    var n := |ls| - 1;
    var ls' := ls[k := ls[k] + [line]];
    if k == n {
      assert ls'[..n] == ls[..n];
    } else {
      assert ls'[..n] == ls[..n][k := ls[k] + [line]];
      PoolGrows(ls[..n], k, line);
    }
  }

  ghost function CountSum(ls: seq<seq<Line>>): nat {
    if ls == [] then 0 else CountSum(ls[..|ls| - 1]) + |ls[|ls| - 1]|
  }

  lemma {:induction false} PoolSize(ls: seq<seq<Line>>)
    ensures |Pool(ls)| == CountSum(ls)
  {
    if ls != [] {
      PoolSize(ls[..|ls| - 1]);
    }
  }

  class DrainMiner {
    const root: DrainNode
    const maxDepth: nat
    const simThreshold: real
    const maxClusters: nat
    const isDigit: char -> bool
    var clusters: seq<Cluster>
    ghost var nodes: map<Path, DrainNode>
    ghost var log: seq<Line>  // the accepted lines, in order

    ghost predicate Valid()
      reads this, nodes.Values, set c | c in clusters
    {
      && TreeOk(clusters)
      && ClustersOk(clusters)
      && Pool(LineLists(clusters)) == multiset(log)
    }

    /** The clusters are distinct, sound and filed where they belong, and not too many. */
    ghost predicate ClustersOk(clusters: seq<Cluster>)
      reads set c | c in clusters
    {
      && (forall i {:trigger clusters[i].slot} | 0 <= i < |clusters| :: Placed(clusters[i], i))
      && |clusters| <= maxClusters
    }

    /** The cluster is the `i`-th in the list, sound, and filed where it belongs. */
    ghost predicate Placed(c: Cluster, i: nat)
      reads c
    {
      c.slot == i && c.threshold == simThreshold && c.Consistent() && Filed(maxDepth, c)
    }

    constructor (simThreshold: real, maxDepth: int, isDigit: char -> bool)
      requires !HasDigit(isDigit, WILD)
      ensures Valid() && fresh(nodes.Values) && clusters == [] && log == []
      ensures this.simThreshold == if simThreshold <= 0.0 then 0.55 else simThreshold
      ensures this.maxDepth == if maxDepth <= 0 then 4 else maxDepth
      ensures maxClusters == 1000
    {
      var r := new DrainNode([]);
      root := r;
      this.simThreshold := if simThreshold <= 0.0 then 0.55 else simThreshold;
      this.maxDepth := if maxDepth <= 0 then 4 else maxDepth;
      maxClusters := 1000;
      this.isDigit := isDigit;
      clusters, nodes, log := [], map[[] := r], [];
    }

    /** Where a search for the tokens ends: nowhere when no line of that length was filed. */
    ghost predicate LengthKnown(tokens: Tokens)
      reads this`nodes
    {
      [LenKey(|tokens|)] in nodes
    }

    ghost function SearchEnd(tokens: Tokens): Path
      requires LengthKnown(tokens)
      reads this`nodes
    {
      Descend(nodes.Keys, maxDepth, [LenKey(|tokens|)], tokens)
    }

    /** The candidate clusters of a search. */
    ghost function Candidates(tokens: Tokens): seq<Cluster>
      reads this`nodes, nodes.Values`clusters
    {
      if LengthKnown(tokens) then nodes[SearchEnd(tokens)].clusters else []
    }

    ghost predicate WouldJoin(tokens: Tokens)
      requires tokens != []
      reads this`nodes, nodes.Values`clusters, (set c | c in Candidates(tokens))`tokens
    {
      exists j :: 0 <= j < |Candidates(tokens)|
        && Candidates(tokens)[j].tokens != [] && Similarity(Candidates(tokens)[j].tokens, tokens) >= simThreshold
    }

    /** The candidate at `at` is the cluster `c`, it reaches the threshold, none is more similar,
        and none before it is as similar. */
    ghost predicate ChosenAt(tokens: Tokens, c: Cluster, at: nat)
      requires tokens != []
      reads this`nodes, nodes.Values`clusters, (set c | c in Candidates(tokens))`tokens, c`tokens
    {
      && at < |Candidates(tokens)| && Candidates(tokens)[at] == c
      && c.tokens != [] && Similarity(c.tokens, tokens) >= simThreshold
      && forall i | 0 <= i < |Candidates(tokens)| ::
           && Candidates(tokens)[i].tokens != []
           && Similarity(Candidates(tokens)[i].tokens, tokens) <= Similarity(c.tokens, tokens)
           && (i < at ==> Similarity(Candidates(tokens)[i].tokens, tokens) < Similarity(c.tokens, tokens))
    }

    /** The search for the tokens picks the cluster `c`. */
    ghost predicate Chosen(tokens: Tokens, c: Cluster)
      requires tokens != []
      reads this`nodes, nodes.Values`clusters, (set c | c in Candidates(tokens))`tokens, c`tokens
    {
      exists at: nat :: ChosenAt(tokens, c, at)
    }

    /** The search picks at most one cluster. */
    lemma OneIsChosen(tokens: Tokens, c: Cluster, d: Cluster)
      requires tokens != [] && Chosen(tokens, c) && Chosen(tokens, d)
      ensures c == d
    {
      var i: nat :| ChosenAt(tokens, c, i);
      var j: nat :| ChosenAt(tokens, d, j);
      assert Candidates(tokens)[i] == c && Candidates(tokens)[j] == d;
      assert i == j;
    }

    /** Follows the tokens down the tree as far as the search goes. */
    method WalkDown(tokens: Tokens) returns (cur: DrainNode?)
      requires Shape(nodes) && root == nodes[[]] && 1 <= maxDepth && tokens != []
      ensures cur == null <==> !LengthKnown(tokens)
      ensures cur != null ==> cur == nodes[SearchEnd(tokens)]
    {
      var lenKey := LenKey(|tokens|);
      RootPath(lenKey);
      if lenKey !in root.children {
        return null;
      }
      cur := root.children[lenKey];
      var depth := 1;
      while depth < maxDepth && depth < |tokens|
        invariant cur != null && cur.path in nodes && cur == nodes[cur.path] && depth == |cur.path|
        invariant SearchEnd(tokens) == Descend(nodes.Keys, maxDepth, cur.path, tokens)
      {
        var token := tokens[depth - 1];
        if token in cur.children {
          cur := cur.children[token];
        } else if WILD in cur.children {
          cur := cur.children[WILD];
        } else {
          break;
        }
        depth := depth + 1;
      }
    }

    method TreeSearch(tokens: Tokens) returns (best: Cluster?, ghost at: nat)
      requires Valid() && tokens != []
      ensures best == null <==> !WouldJoin(tokens)
      ensures best != null ==>
        Listed(clusters, best) && |best.tokens| == |tokens| && ChosenAt(tokens, best, at)
    {
      var cur := WalkDown(tokens);
      if cur == null {
        return null, 0;
      }
      assert cur.clusters == Candidates(tokens);
      forall j | 0 <= j < |cur.clusters| ensures cur.clusters[j].tokens != [] {
        CandidateFits(cur.clusters[j], tokens);
      }
      best, at := BestOf(cur.clusters, tokens);
      if best == null {
        return;
      }
      CandidateFits(best, tokens);
    }

    /** The first of the most similar clusters that reach the threshold. */
    method BestOf(candidates: seq<Cluster>, tokens: Tokens) returns (best: Cluster?, ghost at: nat)
      requires tokens != [] && forall j | 0 <= j < |candidates| :: candidates[j].tokens != []
      ensures best == null <==>
        forall j | 0 <= j < |candidates| :: Similarity(candidates[j].tokens, tokens) < simThreshold
      ensures best != null ==>
        && at < |candidates| && candidates[at] == best && Similarity(best.tokens, tokens) >= simThreshold
        && (forall j | 0 <= j < |candidates| ::
              Similarity(candidates[j].tokens, tokens) <= Similarity(best.tokens, tokens))
        && (forall j | 0 <= j < at :: Similarity(candidates[j].tokens, tokens) < Similarity(best.tokens, tokens))
    {
      best, at := null, 0;
      var maxSim := -1.0;
      for i := 0 to |candidates|
        invariant best == null ==>
          maxSim == -1.0 && forall j | 0 <= j < i :: Similarity(candidates[j].tokens, tokens) < simThreshold
        invariant best != null ==>
          && at < i && candidates[at] == best && maxSim == Similarity(best.tokens, tokens) >= simThreshold
          && (forall j | 0 <= j < i :: Similarity(candidates[j].tokens, tokens) <= maxSim)
          && (forall j | 0 <= j < at :: Similarity(candidates[j].tokens, tokens) < maxSim)
      {
        var c := candidates[i];
        var sim := SeqSimilarity(c.tokens, tokens);
        if sim >= simThreshold && sim > maxSim {
          maxSim, best, at := sim, c, i;
        }
      }
    }

    /** The tree as a whole: its shape, its paths and the clusters filed in it. */
    ghost predicate TreeOk(filed: seq<Cluster>)
      reads this`nodes, nodes.Values
    {
      && Shape(nodes) && root == nodes[[]] && 1 <= maxDepth
      && !HasDigit(isDigit, WILD)
      && (forall p {:trigger PathOk(isDigit, maxDepth, p)} | p in nodes :: PathOk(isDigit, maxDepth, p))
      && Holds(nodes, filed)
    }

    /** The child of `cur` under a key, created when missing. */
    method ChildOrNew(cur: DrainNode, key: string, ghost filed: seq<Cluster>) returns (next: DrainNode)
      requires TreeOk(filed) && cur.path in nodes && cur == nodes[cur.path]
      requires PathOk(isDigit, maxDepth, Append(cur.path, key))
      modifies this`nodes, cur`children
      ensures TreeOk(filed)
      ensures nodes.Keys == old(nodes.Keys) + {Append(cur.path, key)}
      ensures forall p | p in nodes :: nodes[p] in old(nodes.Values) || fresh(nodes[p])
      ensures next == nodes[Append(cur.path, key)]
    {
      ghost var w := Append(cur.path, key);
      if key !in cur.children {
        next := new DrainNode(w);
        cur.children := cur.children[key := next];
        nodes := nodes[w := next];
        forall p, k {:trigger Append(p, k)} | Append(p, k) in nodes ensures p in nodes {
          AppendInjective(p, k, cur.path, key);
        }
        forall p, k | p in nodes
          ensures k in nodes[p].children <==> Append(p, k) in nodes
          ensures k in nodes[p].children ==> nodes[p].children[k] == nodes[Append(p, k)]
        {
          AppendInjective(p, k, cur.path, key);
        }
        assert Holds(nodes, filed);
      } else {
        next := cur.children[key];
        assert nodes.Keys == old(nodes.Keys) + {w};
      }
    }

    lemma FilePathOk(tokens: Tokens, depth: nat)
      requires !HasDigit(isDigit, WILD) && 1 <= depth <= LeafDepth(maxDepth, |tokens|)
      ensures PathOk(isDigit, maxDepth, FilePath(isDigit, tokens, depth))
    {
      FilePathKeys(isDigit, tokens, depth);
      assert LengthPath(maxDepth, FilePath(isDigit, tokens, depth), |tokens|);
    }

    /** `cur` is the node at the first `depth` keys of the filing path, all of them open. */
    ghost predicate StandsAt(cur: DrainNode, tokens: Tokens, depth: nat)
      reads this`nodes
    {
      && 1 <= depth <= LeafDepth(maxDepth, |tokens|)
      && PathOpen(isDigit, nodes.Keys, tokens, depth)
      && FilePath(isDigit, tokens, depth) in nodes && cur == nodes[FilePath(isDigit, tokens, depth)]
    }

    method EnterLength(tokens: Tokens, ghost filed: seq<Cluster>) returns (cur: DrainNode)
      requires TreeOk(filed) && tokens != []
      modifies this`nodes, root`children
      ensures TreeOk(filed) && StandsAt(cur, tokens, 1)
      ensures old(nodes.Keys) <= nodes.Keys && forall p | p in nodes :: nodes[p] in old(nodes.Values) || fresh(nodes[p])
    {
      FilePathOk(tokens, 1);
      PathOpens(isDigit, {Append([], LenKey(|tokens|))}, tokens);
      cur := ChildOrNew(root, LenKey(|tokens|), filed);
      PathOpens(isDigit, nodes.Keys, tokens);
    }

    method EnterToken(cur: DrainNode, tokens: Tokens, depth: nat, ghost filed: seq<Cluster>) returns (next: DrainNode)
      requires TreeOk(filed) && depth < LeafDepth(maxDepth, |tokens|) && StandsAt(cur, tokens, depth)
      modifies this`nodes, cur`children
      ensures TreeOk(filed) && StandsAt(next, tokens, depth + 1)
      ensures old(nodes.Keys) <= nodes.Keys && forall p | p in nodes :: nodes[p] in old(nodes.Values) || fresh(nodes[p])
    {
      var token := tokens[depth - 1];
      if HasDigit(isDigit, token) {
        token := WILD;
      }
      FilePathStep(isDigit, tokens, depth);
      FilePathOk(tokens, depth + 1);
      ghost var tree := nodes.Keys;
      next := ChildOrNew(cur, token, filed);
      PathOpensFurther(isDigit, tree, nodes.Keys, tokens, depth);
    }

    /** Walks the filing path of the tokens, creating the nodes that are missing. */
    method OpenPath(tokens: Tokens, ghost filed: seq<Cluster>) returns (cur: DrainNode)
      requires TreeOk(filed) && tokens != []
      modifies this`nodes, nodes.Values`children
      ensures TreeOk(filed) && StandsAt(cur, tokens, LeafDepth(maxDepth, |tokens|))
      ensures old(nodes.Keys) <= nodes.Keys && forall p | p in nodes :: nodes[p] in old(nodes.Values) || fresh(nodes[p])
    {
      cur := EnterLength(tokens, filed);
      var depth := 1;
      while depth < maxDepth && depth < |tokens|
        invariant TreeOk(filed) && StandsAt(cur, tokens, depth) && old(nodes.Keys) <= nodes.Keys
        invariant forall p | p in nodes :: nodes[p] in old(nodes.Values) || fresh(nodes[p])
        decreases maxDepth - depth
      {
        cur := EnterToken(cur, tokens, depth, filed);
        depth := depth + 1;
      }
      assert depth == LeafDepth(maxDepth, |tokens|);
    }

    method FileUnder(cur: DrainNode, c: Cluster, ghost filed: seq<Cluster>)
      requires TreeOk(filed) && c.slot == |filed|
      requires c.home == cur.path && cur.path in nodes && cur == nodes[cur.path]
      modifies cur`clusters
      ensures TreeOk(filed + [c])
    {
      cur.clusters := cur.clusters + [c];
    }

    method TreeAdd(c: Cluster, ghost filed: seq<Cluster>)
      requires TreeOk(filed) && c.tokens != [] && c.slot == |filed|
      requires c.home == FilePath(isDigit, c.tokens, LeafDepth(maxDepth, |c.tokens|))
      modifies this`nodes, nodes.Values`children, nodes.Values`clusters
      ensures TreeOk(filed + [c])
      ensures old(nodes.Keys) <= nodes.Keys && forall p | p in nodes :: nodes[p] in old(nodes.Values) || fresh(nodes[p])
      ensures PathOpen(isDigit, nodes.Keys, c.tokens, LeafDepth(maxDepth, |c.tokens|))
    {
      var cur := OpenPath(c.tokens, filed);
      FileUnder(cur, c, filed);
    }

    /** A candidate has the length of the line, and its path agrees with the line. */
    lemma CandidateFits(c: Cluster, tokens: Tokens)
      requires Valid() && tokens != [] && c in Candidates(tokens)
      ensures Listed(clusters, c) && |c.tokens| == |tokens| && KeysAgree(c.home, tokens)
    {
      var end := SearchEnd(tokens);
      assert [LenKey(|tokens|)][0] == end[0];
      LenKeyInjective(|c.tokens|, |tokens|);
      SearchKeysAgree(nodes.Keys, maxDepth, [LenKey(|tokens|)], tokens);
    }

    lemma TreeDigitFree()
      requires Valid()
      ensures DigitFree(isDigit, nodes.Keys)
    {
      forall p, i | p in nodes && 1 <= i < |p| ensures !HasDigit(isDigit, p[i]) {
        assert PathOk(isDigit, maxDepth, p);
      }
    }

    /** Counts a line in a listed cluster; the other clusters do not change. */
    method JoinListed(best: Cluster, line: Line)
      requires ClustersOk(clusters) && Listed(clusters, best)
      requires |best.tokens| == |line.tokens| != 0 && KeysAgree(best.home, line.tokens)
      requires Similarity(best.tokens, line.tokens) >= simThreshold
      modifies best
      ensures ClustersOk(clusters)
      ensures LineLists(clusters) == old(LineLists(clusters)[best.slot := best.lines + [line]])
      ensures AllWiden(old(Patterns(clusters)), Patterns(clusters))
      ensures best.tokens == Generalise(old(best.tokens), line.tokens)
    {
      GeneraliseCovers(best.tokens, line.tokens);
      KeysSurviveGeneralise(best.home, best.tokens, line.tokens);
      ghost var cs := clusters;
      assert best.threshold == simThreshold by {
        assert cs[best.slot].slot == best.slot;
      }
      forall i | 0 <= i < |cs| ensures Placed(cs[i], i) {
        assert clusters[i].slot == cs[i].slot;
      }
      best.Join(line);
      forall i | 0 <= i < |cs|
        ensures Placed(cs[i], i)
      {
        assert cs[i].slot == i;
        assert old(Placed(cs[i], i));
      }
      assert LineLists(clusters) == old(LineLists(clusters)[best.slot := best.lines + [line]]);
    }

    /** Counts a line in a listed cluster and in the log. */
    method CountLine(best: Cluster, line: Line)
      requires Valid() && Listed(clusters, best)
      requires |best.tokens| == |line.tokens| != 0 && KeysAgree(best.home, line.tokens)
      requires Similarity(best.tokens, line.tokens) >= simThreshold
      modifies this`log, best
      ensures Valid() && log == old(log) + [line]
      ensures LineLists(clusters) == old(LineLists(clusters)[best.slot := best.lines + [line]])
      ensures AllWiden(old(Patterns(clusters)), Patterns(clusters))
      ensures best.tokens == Generalise(old(best.tokens), line.tokens)
    {
      ghost var ls, k := LineLists(clusters), best.slot;
      assert ls[k] == best.lines;
      PoolGrows(ls, k, line);
      LogAppend(log, line);
      JoinListed(best, line);
      LogLine(line, ls[k := ls[k] + [line]]);
    }

    method LogLine(line: Line, ghost lists: seq<seq<Line>>)
      requires TreeOk(clusters) && ClustersOk(clusters) && lists == LineLists(clusters)
      requires Pool(lists) == multiset(log + [line])
      modifies this`log
      ensures Valid() && log == old(log) + [line] && LineLists(clusters) == lists
    {
      log := log + [line];
    }

    /** Counts a line in the cluster it was matched to; the tree stays as it is, and the
        same tokens would be matched to this cluster again. */
    method JoinCluster(best: Cluster, ghost at: nat, line: Line)
      requires Valid() && line.tokens != [] && |best.tokens| == |line.tokens| && ChosenAt(line.tokens, best, at)
      modifies this`log, best
      ensures Valid() && log == old(log) + [line]
      ensures Listed(clusters, best)
      ensures LineLists(clusters) == old(LineLists(clusters)[best.slot := best.lines + [line]])
      ensures AllWiden(old(Patterns(clusters)), Patterns(clusters))
      ensures ChosenAt(line.tokens, best, at) && simThreshold <= 1.0
    {
      CandidateFits(best, line.tokens);
      ghost var before, candidates := best.tokens, Candidates(line.tokens);
      CountLine(best, line);
      forall i | 0 <= i < |candidates| && candidates[i] != best
        ensures candidates[i].tokens == old(candidates[i].tokens)
      {}
      JoinedIsChosen(best, at, before, line.tokens);
    }

    /** The same, without the place among the candidates. */
    method JoinFound(best: Cluster, ghost at: nat, line: Line)
      requires Valid() && line.tokens != [] && |best.tokens| == |line.tokens| && ChosenAt(line.tokens, best, at)
      modifies this`log, best
      ensures Valid() && log == old(log) + [line]
      ensures Listed(clusters, best) && Chosen(line.tokens, best)
      ensures LineLists(clusters) == old(LineLists(clusters))[best.slot := old(best.lines) + [line]]
      ensures AllWiden(old(Patterns(clusters)), Patterns(clusters))
      ensures WouldJoin(line.tokens) && simThreshold <= 1.0
    {
      ghost var lists := LineLists(clusters);
      CandidateFits(best, line.tokens);
      ghost var lines := best.lines;
      JoinCluster(best, at, line);
      assert LineLists(clusters) == lists[best.slot := lines + [line]];
      assert Candidates(line.tokens)[at] == best;
    }

    /** After a line has joined the cluster chosen for it, the same tokens choose it again. */
    lemma JoinedIsChosen(best: Cluster, at: nat, before: Tokens, tokens: Tokens)
      requires tokens != [] && |before| == |tokens| && best.tokens == Generalise(before, tokens)
      requires at < |Candidates(tokens)| && Candidates(tokens)[at] == best && Similarity(before, tokens) >= simThreshold
      requires forall i | 0 <= i < |Candidates(tokens)| && Candidates(tokens)[i] != best ::
        && Candidates(tokens)[i].tokens != []
        && Similarity(Candidates(tokens)[i].tokens, tokens) <= Similarity(before, tokens)
        && (i < at ==> Similarity(Candidates(tokens)[i].tokens, tokens) < Similarity(before, tokens))
      requires forall i | 0 <= i < at :: Candidates(tokens)[i] != best
      ensures ChosenAt(tokens, best, at) && simThreshold <= 1.0
    {
      GeneraliseKeepsSimilarity(before, tokens);
    }

    /** Files the newest cluster; no cluster changes. */
    method FileNewest(c: Cluster, ghost filed: seq<Cluster>)
      requires TreeOk(filed) && clusters == filed + [c] && ClustersOk(clusters) && c.slot == |filed|
      requires c.tokens != [] && c.home == FilePath(isDigit, c.tokens, LeafDepth(maxDepth, |c.tokens|))
      modifies this`nodes, nodes.Values`children, nodes.Values`clusters
      ensures TreeOk(clusters) && ClustersOk(clusters) && LineLists(clusters) == old(LineLists(clusters))
      ensures Patterns(clusters) == old(Patterns(clusters))
      ensures forall p | p in nodes :: nodes[p] in old(nodes.Values) || fresh(nodes[p])
      ensures PathOpen(isDigit, nodes.Keys, c.tokens, LeafDepth(maxDepth, |c.tokens|))
    {
      TreeAdd(c, filed);
      assert ClustersOk(clusters) && LineLists(clusters) == old(LineLists(clusters));
      assert Patterns(clusters) == old(Patterns(clusters));
    }

    /** Lists and files a cluster that holds just the line. */
    method Adopt(c: Cluster, line: Line)
      requires Valid() && |clusters| < maxClusters && c.slot == |clusters|
      requires c.Consistent() && c.lines == [line] && Filed(maxDepth, c)
      requires c.home == FilePath(isDigit, c.tokens, LeafDepth(maxDepth, |c.tokens|)) && c.threshold == simThreshold
      modifies this, nodes.Values
      ensures Valid() && log == old(log) + [line] && clusters == old(clusters) + [c]
      ensures LineLists(clusters) == old(LineLists(clusters)) + [[line]]
      ensures Patterns(clusters) == old(Patterns(clusters)) + [c.tokens]
      ensures forall p | p in nodes :: nodes[p] in old(nodes.Values) || fresh(nodes[p])
      ensures PathOpen(isDigit, nodes.Keys, c.tokens, LeafDepth(maxDepth, |c.tokens|))
    {
      ghost var filed := clusters;
      OneMoreCluster(clusters, c, line);
      LogAppend(log, line);
      ListNewest(c, line);
      FileNewest(c, filed);
    }

    /** Appends a cluster to the list and its line to the log; the tree is still without it. */
    method ListNewest(c: Cluster, line: Line)
      requires TreeOk(clusters) && ClustersOk(clusters + [c])
      requires Pool(LineLists(clusters + [c])) == multiset(log + [line])
      modifies this`clusters, this`log
      ensures log == old(log) + [line] && clusters == old(clusters) + [c]
      ensures TreeOk(old(clusters)) && ClustersOk(clusters) && Pool(LineLists(clusters)) == multiset(log)
      ensures LineLists(clusters) == old(LineLists(clusters + [c]))
          && Patterns(clusters) == old(Patterns(clusters + [c]))
    {
      clusters, log := clusters + [c], log + [line];
    }

    /** The patterns of the clusters filed where the tokens would be are not similar enough. */
    ghost predicate NoRival(tokens: Tokens, filed: seq<Cluster>, patterns: seq<Tokens>)
      requires |patterns| <= |filed| && 1 <= maxDepth && tokens != []
    {
      forall k | 0 <= k < |patterns| && filed[k].home == FilePath(isDigit, tokens, LeafDepth(maxDepth, |tokens|)) ::
        patterns[k] != [] && Similarity(patterns[k], tokens) < simThreshold
    }

    lemma FilePathIsOpen(tokens: Tokens, depth: nat)
      requires Shape(nodes) && 1 <= depth <= |tokens| && FilePath(isDigit, tokens, depth) in nodes
      ensures PathOpen(isDigit, nodes.Keys, tokens, depth)
      decreases depth
    {
      if depth > 1 {
        FilePathStep(isDigit, tokens, depth - 1);
        FilePathIsOpen(tokens, depth - 1);
      }
    }

    /** When a search finds nothing, no cluster filed on the tokens' own path would do. */
    lemma NotFoundNoRival(tokens: Tokens)
      requires Valid() && tokens != [] && !WouldJoin(tokens)
      ensures NoRival(tokens, clusters, Patterns(clusters))
    {
      var home := FilePath(isDigit, tokens, LeafDepth(maxDepth, |tokens|));
      forall k | 0 <= k < |clusters| && clusters[k].home == home
        ensures clusters[k].tokens != [] && Similarity(clusters[k].tokens, tokens) < simThreshold
      {
        assert clusters[k].slot == k && home in nodes && clusters[k] in nodes[home].clusters;
        OwnPathIsSearched(tokens);
        var j :| 0 <= j < |Candidates(tokens)| && Candidates(tokens)[j] == clusters[k];
      }
    }

    /** A search ends at the tokens' own path, when that is in the tree. */
    lemma OwnPathIsSearched(tokens: Tokens)
      requires Valid() && tokens != [] && FilePath(isDigit, tokens, LeafDepth(maxDepth, |tokens|)) in nodes
      ensures LengthKnown(tokens)
      ensures Candidates(tokens) == nodes[FilePath(isDigit, tokens, LeafDepth(maxDepth, |tokens|))].clusters
    {
      FilePathIsOpen(tokens, LeafDepth(maxDepth, |tokens|));
      TreeDigitFree();
      assert FilePath(isDigit, tokens, 1) == [LenKey(|tokens|)];
      SearchFollowsFiling(isDigit, nodes.Keys, maxDepth, tokens, 1);
    }

    /** Opens a cluster for the line; the next search for its tokens picks it, unless the
        threshold is beyond reach. */
    method OpenCluster(line: Line) returns (c: Cluster)
      requires Valid() && line.tokens != [] && |clusters| < maxClusters && !WouldJoin(line.tokens)
      modifies this, nodes.Values
      ensures Valid() && log == old(log) + [line]
      ensures fresh(c) && clusters == old(clusters) + [c]
      ensures LineLists(clusters) == old(LineLists(clusters)) + [[line]]
      ensures Patterns(clusters) == old(Patterns(clusters)) + [c.tokens]
      ensures forall p | p in nodes :: nodes[p] in old(nodes.Values) || fresh(nodes[p])
      ensures WouldJoin(line.tokens) <==> simThreshold <= 1.0
      ensures simThreshold <= 1.0 ==> Chosen(line.tokens, c)
    {
      NotFoundNoRival(line.tokens);
      ghost var patterns := Patterns(clusters);
      c := new Cluster(line, FilePath(isDigit, line.tokens, LeafDepth(maxDepth, |line.tokens|)), |clusters|,
                       simThreshold);
      FiledUnderOwnKeys(c);
      Adopt(c, line);
      NewClusterServes(c, patterns);
    }

    lemma NewClusterServes(c: Cluster, patterns: seq<Tokens>)
      requires Valid() && Patterns(clusters) == patterns + [c.tokens] && clusters[|patterns|] == c && c.tokens != []
      requires NoRival(c.tokens, clusters, patterns)
      requires c.home == FilePath(isDigit, c.tokens, LeafDepth(maxDepth, |c.tokens|))
      requires PathOpen(isDigit, nodes.Keys, c.tokens, LeafDepth(maxDepth, |c.tokens|))
      ensures WouldJoin(c.tokens) <==> simThreshold <= 1.0
      ensures simThreshold <= 1.0 ==> Chosen(c.tokens, c)
    {
      assert c.slot == |patterns|;
      NewClusterIsFound(c);
      if simThreshold <= 1.0 {
        NewClusterIsChosen(c, patterns);
      }
    }

    lemma OneMoreCluster(filed: seq<Cluster>, c: Cluster, line: Line)
      requires ClustersOk(filed) && c.slot == |filed| < maxClusters
      requires c.Consistent() && Filed(maxDepth, c) && c.lines == [line] && c.threshold == simThreshold
      ensures ClustersOk(filed + [c])
      ensures LineLists(filed + [c]) == LineLists(filed) + [[line]]
      ensures Patterns(filed + [c]) == Patterns(filed) + [c.tokens]
      ensures Pool(LineLists(filed + [c])) == Pool(LineLists(filed)) + multiset{line}
    {
      PoolAppend(LineLists(filed), [line]);
      OneMoreLists(filed, c);
      forall i | 0 <= i < |filed|
        ensures Placed(filed[i], i)
      {}
    }

    lemma FiledUnderOwnKeys(c: Cluster)
      requires 1 <= maxDepth && c.tokens != []
      requires c.home == FilePath(isDigit, c.tokens, LeafDepth(maxDepth, |c.tokens|))
      ensures Filed(maxDepth, c)
    {
      FilePathKeys(isDigit, c.tokens, LeafDepth(maxDepth, |c.tokens|));
    }

    /** A newly filed cluster is the last candidate for its own tokens. */
    lemma NewClusterIsCandidate(c: Cluster)
      requires Valid() && Listed(clusters, c)
      requires c.home == FilePath(isDigit, c.tokens, LeafDepth(maxDepth, |c.tokens|))
      requires PathOpen(isDigit, nodes.Keys, c.tokens, LeafDepth(maxDepth, |c.tokens|))
      ensures LengthKnown(c.tokens) && c.home in nodes && Candidates(c.tokens) == nodes[c.home].clusters
    {
      TreeDigitFree();
      SearchFollowsFiling(isDigit, nodes.Keys, maxDepth, c.tokens, 1);
      assert FilePath(isDigit, c.tokens, 1) == [LenKey(|c.tokens|)];
    }

    lemma NewClusterIsFound(c: Cluster)
      requires Valid() && Listed(clusters, c)
      requires c.home == FilePath(isDigit, c.tokens, LeafDepth(maxDepth, |c.tokens|))
      requires PathOpen(isDigit, nodes.Keys, c.tokens, LeafDepth(maxDepth, |c.tokens|))
      ensures WouldJoin(c.tokens) <==> simThreshold <= 1.0
    {
      NewClusterIsCandidate(c);
      SimilarToSelf(c.tokens);
      var j :| 0 <= j < |Candidates(c.tokens)| && Candidates(c.tokens)[j] == c;
    }

    lemma FirstAt(candidates: seq<Cluster>, c: Cluster) returns (at: nat)
      requires c in candidates
      ensures at < |candidates| && candidates[at] == c && forall i | 0 <= i < at :: candidates[i] != c
    {
      at := 0;
      while candidates[at] != c
        invariant at < |candidates| && forall i | 0 <= i < at :: candidates[i] != c
        invariant exists i :: at <= i < |candidates| && candidates[i] == c
        decreases |candidates| - at
      {
        at := at + 1;
      }
    }

    /** All candidates for the tokens of the newest cluster but itself are too unlike them. */
    lemma OthersAreUnlike(c: Cluster, patterns: seq<Tokens>, i: nat)
      requires Valid() && Patterns(clusters) == patterns + [c.tokens] && clusters[|patterns|] == c && c.tokens != []
      requires NoRival(c.tokens, clusters, patterns)
      requires c.home == FilePath(isDigit, c.tokens, LeafDepth(maxDepth, |c.tokens|)) && c.home in nodes
      requires i < |nodes[c.home].clusters|
      ensures nodes[c.home].clusters[i].tokens != []
      ensures nodes[c.home].clusters[i] != c ==> Similarity(nodes[c.home].clusters[i].tokens, c.tokens) < simThreshold
    {
      var d := nodes[c.home].clusters[i];
      assert Listed(clusters, d) && d.home == c.home;
      assert clusters[d.slot].slot == d.slot;
      assert Patterns(clusters)[d.slot] == d.tokens;
    }

    lemma NewClusterIsChosen(c: Cluster, patterns: seq<Tokens>)
      requires Valid() && Patterns(clusters) == patterns + [c.tokens] && clusters[|patterns|] == c
      requires c.tokens != [] && simThreshold <= 1.0
      requires c.home == FilePath(isDigit, c.tokens, LeafDepth(maxDepth, |c.tokens|))
      requires PathOpen(isDigit, nodes.Keys, c.tokens, LeafDepth(maxDepth, |c.tokens|))
      requires NoRival(c.tokens, clusters, patterns)
      ensures Chosen(c.tokens, c)
    {
      assert c.slot == |patterns|;
      NewClusterIsCandidate(c);
      SimilarToSelf(c.tokens);
      var at := FirstAt(nodes[c.home].clusters, c);
      forall i | 0 <= i < |nodes[c.home].clusters|
        ensures nodes[c.home].clusters[i].tokens != []
        ensures nodes[c.home].clusters[i] != c ==> Similarity(nodes[c.home].clusters[i].tokens, c.tokens) < simThreshold
      {
        OthersAreUnlike(c, patterns, i);
      }
      assert ChosenAt(c.tokens, c, at);
    }

    /** The search leaves everything as it is. */
    method Find(tokens: Tokens) returns (best: Cluster?, ghost at: nat)
      requires Valid() && tokens != []
      ensures Valid() && (best == null <==> !WouldJoin(tokens)) && (best == null <==> !old(WouldJoin(tokens)))
      ensures best != null ==>
        && |best.tokens| == |tokens| && ChosenAt(tokens, best, at) && old(Chosen(tokens, best))
      ensures LineLists(clusters) == old(LineLists(clusters)) && Patterns(clusters) == old(Patterns(clusters))
    {
      best, at := TreeSearch(tokens);
    }

    /** Counts a line in the cluster that was found for it, or else in a new one. */
    method Deliver(cluster: Cluster?, ghost at: nat, line: Line) returns (ghost outcome: Outcome)
      requires Valid() && line.tokens != []
      requires cluster == null ==> !WouldJoin(line.tokens)
      requires cluster != null ==> |cluster.tokens| == |line.tokens| && ChosenAt(line.tokens, cluster, at)
      modifies this, nodes.Values, clusters
      ensures Valid()
      ensures forall p | p in nodes :: nodes[p] in old(nodes.Values) || fresh(nodes[p])
      ensures outcome == if cluster != null then Joined else if old(|clusters|) >= maxClusters then Full else Opened
      ensures log == if outcome == Full then old(log) else old(log) + [line]
      ensures outcome != Opened ==> clusters == old(clusters)
      ensures outcome == Opened ==> old(clusters) < clusters
      ensures outcome == Joined ==>
        && Listed(clusters, cluster) && Chosen(line.tokens, cluster)
        && LineLists(clusters) == old(LineLists(clusters))[cluster.slot := old(cluster.lines) + [line]]
      ensures outcome == Opened ==> LineLists(clusters) == old(LineLists(clusters)) + [[line]]
      ensures outcome == Full ==> LineLists(clusters) == old(LineLists(clusters))
      ensures AllWiden(old(Patterns(clusters)), Patterns(clusters))
      ensures outcome != Full ==> (WouldJoin(line.tokens) <==> simThreshold <= 1.0)
      ensures outcome == Opened && simThreshold <= 1.0 ==> Chosen(line.tokens, clusters[|clusters| - 1])
    {
      if cluster != null {
        JoinFound(cluster, at, line);
        outcome := Joined;
      } else {
        if |clusters| >= maxClusters {
          return Full;
        }
        var c := OpenCluster(line);
        outcome := Opened;
      }
    }

    /** Delivers a line that has tokens; if it joins a cluster, that is the `k`-th. */
    method Accept(line: Line) returns (ghost outcome: Outcome, ghost k: nat)
      requires Valid() && line.tokens != []
      modifies this, nodes.Values, clusters
      ensures Valid()
      ensures forall p | p in nodes :: nodes[p] in old(nodes.Values) || fresh(nodes[p])
      ensures outcome == if old(WouldJoin(line.tokens)) then Joined
                         else if old(|clusters|) >= maxClusters then Full else Opened
      ensures log == if outcome == Full then old(log) else old(log) + [line]
      ensures outcome != Opened ==> clusters == old(clusters)
      ensures outcome == Opened ==> old(clusters) < clusters
      ensures outcome == Joined ==>
        && k < |clusters| && old(Chosen(line.tokens, clusters[k])) && Chosen(line.tokens, clusters[k])
        && LineLists(clusters) == old(LineLists(clusters))[k := old(clusters[k].lines) + [line]]
      ensures outcome == Opened ==> LineLists(clusters) == old(LineLists(clusters)) + [[line]]
      ensures outcome == Full ==> LineLists(clusters) == old(LineLists(clusters))
      ensures AllWiden(old(Patterns(clusters)), Patterns(clusters))
      ensures outcome != Full ==> (WouldJoin(line.tokens) <==> simThreshold <= 1.0)
      ensures outcome == Opened && simThreshold <= 1.0 ==> Chosen(line.tokens, clusters[|clusters| - 1])
    {
      var cluster;
      ghost var at;
      cluster, at := Find(line.tokens);
      k := if cluster == null then 0 else cluster.slot;
      outcome := Deliver(cluster, at, line);
    }

    /** Delivers one cleaned line to the miner; if it joins a cluster, that is the `k`-th. */
    method AddLogWithLine(line: Line) returns (ghost outcome: Outcome, ghost k: nat)
      requires Valid()
      modifies this, nodes.Values, clusters
      ensures Valid()
      ensures forall p | p in nodes :: nodes[p] in old(nodes.Values) || fresh(nodes[p])
      // which way the line goes
      ensures outcome == if line.tokens == [] then Ignored
                         else if old(line.tokens != [] && WouldJoin(line.tokens)) then Joined
                         else if old(|clusters|) >= maxClusters then Full
                         else Opened
      // what is recorded
      ensures log == if outcome.Joined? || outcome.Opened? then old(log) + [line] else old(log)
      ensures !outcome.Opened? ==> clusters == old(clusters)
      ensures outcome.Opened? ==> old(clusters) < clusters
      ensures outcome.Joined? ==>
        && k < |clusters| && old(Chosen(line.tokens, clusters[k])) && Chosen(line.tokens, clusters[k])
        && LineLists(clusters) == old(LineLists(clusters))[k := old(clusters[k].lines) + [line]]
      ensures outcome.Opened? ==> LineLists(clusters) == old(LineLists(clusters)) + [[line]]
      ensures outcome.Ignored? || outcome.Full? ==> LineLists(clusters) == old(LineLists(clusters))
      // patterns only widen
      ensures AllWiden(old(Patterns(clusters)), Patterns(clusters))
      // an immediate repeat of an accepted line joins, exactly when the threshold can be reached,
      // and then the cluster that counted the line
      ensures outcome.Joined? || outcome.Opened? ==> (WouldJoin(line.tokens) <==> simThreshold <= 1.0)
      ensures outcome.Opened? && simThreshold <= 1.0 ==> Chosen(line.tokens, clusters[|clusters| - 1])
    {
      if line.tokens == [] {
        return Ignored, 0;
      }
      outcome, k := Accept(line);
    }

    /** The counts reported for the clusters add up to the number of accepted lines. */
    lemma CountsAddUp()
      requires Valid()
      ensures CountSum(LineLists(clusters)) == |log|
      ensures forall i | 0 <= i < |clusters| :: clusters[i].count == |LineLists(clusters)[i]|
    {
      PoolSize(LineLists(clusters));
      assert |multiset(log)| == |log|;
      forall i | 0 <= i < |clusters| ensures clusters[i].count == |LineLists(clusters)[i]| {
        assert clusters[i].slot == i;
      }
    }

    /** Every line that a cluster has counted stays at or above the threshold of the cluster's
        pattern, however often that is widened, as long as none of its lines holds a wildcard. */
    lemma CountedLinesStay(k: nat, i: nat)
      requires Valid() && simThreshold <= 1.0 && k < |clusters| && i < |clusters[k].lines|
      requires NoneWild(clusters[k].lines)
      ensures clusters[k].tokens != [] && Similarity(clusters[k].tokens, clusters[k].lines[i].tokens) >= simThreshold
    {
      var c := clusters[k];
      assert c.slot == k && c.threshold == simThreshold;
      CoveredSimilarity(c.tokens, c.lines[i].tokens);
    }

    /** Clusters of length `n` sit only at depth min(maxDepth, n) under the key for `n`, nodes
        above that depth hold none, no key below it contains a digit, and every key that is
        not a wildcard is the cluster's current token at its position. */
    lemma WhereClustersSit(p: Path, n: nat)
      requires Valid() && p in nodes && p != [] && p[0] == LenKey(n)
      ensures 1 <= |p| <= maxDepth && |p| <= n
      ensures |p| < maxDepth && |p| < n ==> nodes[p].clusters == []
      ensures forall j | 0 <= j < |nodes[p].clusters| ::
        |nodes[p].clusters[j].tokens| == n && KeysAgree(p, nodes[p].clusters[j].tokens)
      ensures forall i, c | 1 <= i < |p| && c in p[i] :: !isDigit(c)
    {
      assert PathOk(isDigit, maxDepth, p);
      forall i | 1 <= i < |p| ensures forall c | c in p[i] :: !isDigit(c) {
        DigitsIn(isDigit, p[i]);
      }
      var m :| 1 <= m && LengthPath(maxDepth, p, m);
      LenKeyInjective(m, n);
      forall j | 0 <= j < |nodes[p].clusters|
        ensures |nodes[p].clusters[j].tokens| == n && KeysAgree(p, nodes[p].clusters[j].tokens)
        ensures |p| == LeafDepth(maxDepth, n)
      {
        var c := nodes[p].clusters[j];
        assert clusters[c.slot].slot == c.slot;
        LenKeyInjective(|c.tokens|, n);
      }
      if nodes[p].clusters != [] {
        assert Listed(clusters, nodes[p].clusters[0]) && |p| == LeafDepth(maxDepth, n);
      }
    }
  }

  method SeqSimilarity(seq1: Tokens, seq2: Tokens) returns (sim: real)
    requires |seq1| == |seq2| ==> seq1 != []
    ensures sim == Similarity(seq1, seq2)
    ensures if |seq1| != |seq2| then sim == 0.0
            else sim * |seq1| as real == |set i: nat | i < |seq1| && seq1[i] == seq2[i]| as real
  {
    if |seq1| != |seq2| {
      return 0.0;
    }
    SimilarityIsShare(seq1, seq2);
    var m := 0;
    for i := 0 to |seq1|
      invariant m == Matches(seq1, seq2, i)
    {
      if seq1[i] == seq2[i] {
        m := m + 1;
      }
    }
    sim := Fraction(m, |seq1|);
  }
}
