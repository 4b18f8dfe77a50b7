/** The word-level theory behind an Aho-Corasick automaton: a prefix-closed set of
    words (the trie), the longest suffix of a text that is one of them (the state
    a scan is in), and the step that extends such a state by one byte. */
module TrieTheory {
  import opened Bytes

  ghost predicate IsSuffix(u: Word, w: Word) {
    |u| <= |w| && w[|w| - |u|..] == u
  }

  ghost predicate IsTrie(trie: set<Word>) {
    && [] in trie
    && forall w, b :: w + [b] in trie ==> w in trie
  }

  /** The longest suffix of `text` that is a word of the trie. */
  ghost function LongestSuffix(trie: set<Word>, text: Word): (w: Word)
    requires [] in trie
    ensures w in trie && IsSuffix(w, text)
  {
    if text in trie then text else LongestSuffix(trie, text[1..])
  }

  /** The longest proper suffix of `w` that is a word of the trie. */
  ghost function Fail(trie: set<Word>, w: Word): (f: Word)
    requires [] in trie && w != []
    ensures f in trie && |f| < |w| && IsSuffix(f, w)
  {
    LongestSuffix(trie, w[1..])
  }

  /** Nothing in the trie that ends `text` is longer than `LongestSuffix`. */
  lemma {:induction false} LongestSuffixIsLongest(trie: set<Word>, text: Word, u: Word)
    requires [] in trie && u in trie && IsSuffix(u, text)
    ensures IsSuffix(u, LongestSuffix(trie, text))
  {
    if text !in trie {
      assert u == text[1..][|text| - 1 - |u|..];
      LongestSuffixIsLongest(trie, text[1..], u);
    }
  }

  /** Extending a text by a byte only needs the current state, not the text. */
  lemma {:induction false} ExtendState(trie: set<Word>, text: Word, b: byte)
    requires IsTrie(trie)
    ensures LongestSuffix(trie, text + [b]) == LongestSuffix(trie, LongestSuffix(trie, text) + [b])
  {
    if text !in trie {
      assert (text + [b])[1..] == text[1..] + [b];
      ExtendState(trie, text[1..], b);
    }
  }

  /** When a state has no child for `b`, its failure state decides. */
  lemma FallBack(trie: set<Word>, w: Word, b: byte)
    requires IsTrie(trie) && w in trie && w + [b] !in trie
    ensures w == [] ==> LongestSuffix(trie, w + [b]) == []
    ensures w != [] ==> LongestSuffix(trie, w + [b]) == LongestSuffix(trie, Fail(trie, w) + [b])
  {
    if w == [] {
      assert (w + [b])[1..] == [];
    } else {
      assert (w + [b])[1..] == w[1..] + [b];
      ExtendState(trie, w[1..], b);
    }
  }

  /** The failure state of a child is found from the failure state of its parent. */
  lemma FailOfChild(trie: set<Word>, w: Word, b: byte)
    requires IsTrie(trie) && w != []
    ensures Fail(trie, w + [b]) == LongestSuffix(trie, Fail(trie, w) + [b])
  {
    assert (w + [b])[1..] == w[1..] + [b];
    ExtendState(trie, w[1..], b);
  }

  /** The rule indices of the first `n` keywords that spell exactly `w`, in keyword order. */
  ghost function Own(keywords: seq<Word>, rules: seq<int>, n: nat, w: Word): seq<int>
    requires n <= |keywords| && CanIndex(keywords, rules)
  {
    if n == 0 then []
    else if keywords[n - 1] == w && w != [] then Own(keywords, rules, n - 1, w) + [rules[n - 1]]
    else Own(keywords, rules, n - 1, w)
  }

  /** Every keyword the builder inserts has a rule index to go with it. */
  ghost predicate CanIndex(keywords: seq<Word>, rules: seq<int>) {
    forall i :: 0 <= i < |keywords| && keywords[i] != [] ==> i < |rules|
  }

  /** The merged output list of `w`: its own rules, then those of its failure chain. */
  ghost function Output(trie: set<Word>, keywords: seq<Word>, rules: seq<int>, w: Word): seq<int>
    requires [] in trie && CanIndex(keywords, rules)
    decreases |w|
  {
    Own(keywords, rules, |keywords|, w) +
    if w == [] then [] else Output(trie, keywords, rules, Fail(trie, w))
  }

  /** Keyword `i` is non-empty, ends the word `w`, and belongs to rule `r`. */
  ghost predicate EndsWith(keywords: seq<Word>, rules: seq<int>, i: nat, w: Word, r: int) {
    i < |keywords| && i < |rules| && keywords[i] != [] && IsSuffix(keywords[i], w) && rules[i] == r
  }

  lemma {:induction false} OwnMembers(keywords: seq<Word>, rules: seq<int>, n: nat, w: Word, r: int)
    requires n <= |keywords| && CanIndex(keywords, rules)
    ensures r in Own(keywords, rules, n, w)
       <==> exists i :: 0 <= i < n && keywords[i] != [] && keywords[i] == w && rules[i] == r
  {
    if n != 0 {
      OwnMembers(keywords, rules, n - 1, w, r);
    }
  }

  /** A keyword that ends `w` spells `w` or ends the failure state of `w`. */
  lemma EndsWordOrFail(trie: set<Word>, w: Word, k: Word)
    requires [] in trie && w != [] && k in trie
    ensures IsSuffix(k, w) <==> k == w || IsSuffix(k, Fail(trie, w))
  {
    var f := Fail(trie, w);
    if IsSuffix(k, w) && k != w {
      assert k == w[1..][|w| - 1 - |k|..];
      LongestSuffixIsLongest(trie, w[1..], k);
    }
    if IsSuffix(k, f) {
      assert f == w[1..][|w| - 1 - |f|..] == w[|w| - |f|..];
      SuffixTransitive(k, f, w);
    }
  }

  /** The output list of a state holds exactly the rules of the keywords that end its word. */
  lemma {:induction false} OutputMembers(trie: set<Word>, keywords: seq<Word>, rules: seq<int>, w: Word, r: int)
    requires [] in trie && CanIndex(keywords, rules) && w in trie
    requires forall k :: k in keywords ==> k in trie
    ensures r in Output(trie, keywords, rules, w) <==> exists i :: EndsWith(keywords, rules, i, w, r)
    decreases |w|
  {
    OwnMembers(keywords, rules, |keywords|, w, r);
    if w == [] {
      assert forall i :: !EndsWith(keywords, rules, i, w, r);
    } else {
      var f := Fail(trie, w);
      OutputMembers(trie, keywords, rules, f, r);
      forall i: nat
        ensures EndsWith(keywords, rules, i, w, r)
           <==> (EndsWith(keywords, rules, i, f, r)
                 || (i < |keywords| && i < |rules| && keywords[i] != [] && keywords[i] == w && rules[i] == r))
      {
        if i < |keywords| {
          EndsWordOrFail(trie, w, keywords[i]);
        }
      }
    }
  }

  lemma SuffixTransitive(a: Word, b: Word, c: Word)
    requires IsSuffix(a, b) && IsSuffix(b, c)
    ensures IsSuffix(a, c)
  {
    assert c[|c| - |a|..] == b[|b| - |a|..];
  }

  /** A keyword ends the current state exactly when it ends the text read so far. */
  lemma SuffixOfStateOrText(trie: set<Word>, text: Word, k: Word)
    requires [] in trie && k in trie
    ensures IsSuffix(k, LongestSuffix(trie, text)) <==> IsSuffix(k, text)
  {
    if IsSuffix(k, text) {
      LongestSuffixIsLongest(trie, text, k);
    }
    if IsSuffix(k, LongestSuffix(trie, text)) {
      SuffixTransitive(k, LongestSuffix(trie, text), text);
    }
  }

  // ---- breadth-first order, on words

  /** `kids` lists the children of `w` in the trie, each once. */
  ghost predicate ChildrenOf(trie: set<Word>, w: Word, kids: seq<Word>) {
    && (forall i | 0 <= i < |kids| :: kids[i] in trie && |kids[i]| == |w| + 1 && kids[i][..|w|] == w)
    && (forall b :: w + [b] in trie ==> w + [b] in kids)
    && (forall i, j | 0 <= i < j < |kids| :: kids[i] != kids[j])
  }

  ghost function SetOf(ws: seq<Word>): set<Word> {
    set w | w in ws
  }

  ghost predicate DoneUpTo(trie: set<Word>, done: set<Word>, depth: nat) {
    forall w | w in trie && w != [] && |w| <= depth :: w in done
  }

  /** The queue holds distinct words, shallow ones first, spanning at most two levels. */
  ghost predicate InLevels(queue: seq<Word>) {
    forall i, j | 0 <= i < j < |queue| ::
      queue[i] != queue[j] && |queue[i]| <= |queue[j]| <= |queue[0]| + 1
  }

  /** The search frontier: `expanded` words have had their children queued, `done` words
      have been queued, and the queue runs level by level. */
  ghost predicate Frontier(trie: set<Word>, expanded: set<Word>, done: set<Word>, queue: seq<Word>) {
    && Reached(trie, expanded, done) && Waits(expanded, done, queue) && InLevels(queue)
    && (queue != [] ==> DoneUpTo(trie, done, |queue[0]|))
  }

  ghost predicate Reached(trie: set<Word>, expanded: set<Word>, done: set<Word>) {
    && [] in expanded && [] !in done && done <= trie && expanded <= done + {[]}
    && (forall w, b :: w + [b] in trie ==> (w + [b] in done <==> w in expanded))
  }

  /** The queue holds what is done and not yet expanded. */
  ghost predicate Waits(expanded: set<Word>, done: set<Word>, queue: seq<Word>) {
    && (forall w | w in done :: w in expanded || w in queue)
    && (forall i | 0 <= i < |queue| :: queue[i] in done && queue[i] !in expanded)
  }

  /** Expanding the head of the queue keeps the frontier in order. */
  lemma ExpandHead(trie: set<Word>, expanded: set<Word>, done: set<Word>, queue: seq<Word>, kids: seq<Word>)
    requires IsTrie(trie) && queue != [] && Frontier(trie, expanded, done, queue)
    requires ChildrenOf(trie, queue[0], kids)
    ensures Frontier(trie, expanded + {queue[0]}, done + SetOf(kids), queue[1..] + kids)
  {
    KidsAreNew(trie, expanded, done, queue, kids);
    ReachesFurther(trie, expanded, done, queue, kids);
    QueueMovesOn(trie, expanded, done, queue, kids);
    LevelOrder(trie, expanded, done, queue, kids);
    if queue[1..] + kids != [] {
      NextLevel(trie, expanded, done, queue, kids);
    }
  }

  lemma ReachesFurther(trie: set<Word>, expanded: set<Word>, done: set<Word>, queue: seq<Word>, kids: seq<Word>)
    requires IsTrie(trie) && queue != [] && Frontier(trie, expanded, done, queue)
    requires ChildrenOf(trie, queue[0], kids)
    ensures Reached(trie, expanded + {queue[0]}, done + SetOf(kids))
  {
    EdgesAfterExpand(trie, expanded, done, queue, kids);
  }

  lemma QueueMovesOn(trie: set<Word>, expanded: set<Word>, done: set<Word>, queue: seq<Word>, kids: seq<Word>)
    requires queue != [] && Frontier(trie, expanded, done, queue) && ChildrenOf(trie, queue[0], kids)
    requires forall k | k in kids :: k !in done && k !in expanded
    ensures Waits(expanded + {queue[0]}, done + SetOf(kids), queue[1..] + kids)
  {
    var queue' := queue[1..] + kids;
    forall v | v in queue && v != queue[0] ensures v in queue[1..] {}
    forall i | 0 <= i < |queue'| ensures queue'[i] in done + SetOf(kids) && queue'[i] !in expanded + {queue[0]} {
      if i < |queue| - 1 {
        assert queue'[i] == queue[i + 1];
      } else {
        assert queue'[i] in kids;
      }
    }
  }

  lemma LevelOrder(trie: set<Word>, expanded: set<Word>, done: set<Word>, queue: seq<Word>, kids: seq<Word>)
    requires IsTrie(trie) && queue != [] && Frontier(trie, expanded, done, queue)
    requires ChildrenOf(trie, queue[0], kids) && forall k | k in kids :: k !in done
    ensures InLevels(queue[1..] + kids)
  {
    var queue' := queue[1..] + kids;
    assert forall i | 0 <= i < |queue'| :: |queue[0]| <= |queue'[i]| <= |queue[0]| + 1;
  }

  lemma KidsAreNew(trie: set<Word>, expanded: set<Word>, done: set<Word>, queue: seq<Word>, kids: seq<Word>)
    requires IsTrie(trie) && queue != [] && Frontier(trie, expanded, done, queue)
    requires ChildrenOf(trie, queue[0], kids)
    ensures forall k | k in kids :: k !in done && k !in expanded
  {
    forall k | k in kids ensures k !in done && k !in expanded {
      assert k == queue[0] + [k[|queue[0]|]];
    }
  }

  lemma EdgesAfterExpand(trie: set<Word>, expanded: set<Word>, done: set<Word>, queue: seq<Word>, kids: seq<Word>)
    requires IsTrie(trie) && queue != [] && Frontier(trie, expanded, done, queue)
    requires ChildrenOf(trie, queue[0], kids)
    ensures forall v, b :: v + [b] in trie ==> (v + [b] in done + SetOf(kids) <==> v in expanded + {queue[0]})
  {
    forall v, b | v + [b] in trie
      ensures v + [b] in done + SetOf(kids) <==> v in expanded + {queue[0]}
    {
      assert (v + [b])[..|v|] == v;
    }
  }

  lemma NextLevel(trie: set<Word>, expanded: set<Word>, done: set<Word>, queue: seq<Word>, kids: seq<Word>)
    requires IsTrie(trie) && queue != [] && Frontier(trie, expanded, done, queue)
    requires ChildrenOf(trie, queue[0], kids) && queue[1..] + kids != []
    ensures DoneUpTo(trie, done + SetOf(kids), |(queue[1..] + kids)[0]|)
  {
    var w := queue[0];
    if |(queue[1..] + kids)[0]| == |w| + 1 {
      forall v | v in trie && |v| == |w| + 1 ensures v in done + SetOf(kids) {
        var p := v[..|w|];
        assert v == p + [v[|w|]];
        if p in queue {
          var j :| 0 <= j < |queue| && queue[j] == p;
          assert j == 0;
        }
      }
    }
  }

  /** When the queue runs dry the whole trie has been queued. */
  lemma {:induction false} AllDone(trie: set<Word>, expanded: set<Word>, done: set<Word>, w: Word)
    requires IsTrie(trie) && Frontier(trie, expanded, done, []) && w in trie && w != []
    ensures w in done
    decreases |w|
  {
    var p := w[..|w| - 1];
    assert w == p + [w[|w| - 1]];
    if p != [] {
      AllDone(trie, expanded, done, p);
    }
  }
}
