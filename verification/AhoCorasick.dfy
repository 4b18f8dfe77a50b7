/** The multi-keyword matcher: a trie of mutable nodes, failure links set in
    breadth-first order, and a scan that follows them. Ghost maps name each node by
    the word that leads to it, so that the heap can be read as the sets and
    sequences of `TrieTheory`. */
module AhoCorasick {
  import opened Bytes
  import opened TrieTheory

  class AcNode {
    var children: map<byte, AcNode>
    var fail: AcNode?
    var ruleIDs: seq<int>
    ghost const word: Word

    constructor (ghost w: Word)
      ensures children == map[] && fail == null && ruleIDs == [] && word == w
    {
      children, fail, ruleIDs, word := map[], null, [], w;
    }
  }

  /** `nodes` is a trie: each node under its own word, each child one byte further. */
  ghost predicate Shape(nodes: map<Word, AcNode>)
    reads nodes.Values`children
  {
    && IsTrie(nodes.Keys)
    && (forall w | w in nodes :: nodes[w].word == w)
    && (forall w, b {:trigger b in nodes[w].children} {:trigger w + [b]} | w in nodes ::
          b in nodes[w].children <==> w + [b] in nodes)
    && (forall w, b {:trigger nodes[w].children[b]} {:trigger nodes[w + [b]]} | w in nodes && b in nodes[w].children ::
          nodes[w].children[b] == nodes[w + [b]])
  }

  /** Once linked, the node of `w` has its final failure link and output list; until
      then it carries only its own rules. */
  ghost predicate NodeLinked(nodes: map<Word, AcNode>, keywords: seq<Word>, rules: seq<int>, w: Word, linked: bool)
    requires [] in nodes && w in nodes && CanIndex(keywords, rules)
    reads nodes[w]
  {
    if linked && w != [] then
      && nodes[w].fail == nodes[Fail(nodes.Keys, w)]
      && nodes[w].ruleIDs == Output(nodes.Keys, keywords, rules, w)
    else
      && nodes[w].fail == null
      && nodes[w].ruleIDs == Own(keywords, rules, |keywords|, w)
  }

  ghost predicate Linked(nodes: map<Word, AcNode>, keywords: seq<Word>, rules: seq<int>, done: set<Word>)
    requires [] in nodes && CanIndex(keywords, rules)
    reads nodes.Values
  {
    forall w {:trigger nodes[w].fail} {:trigger nodes[w].ruleIDs} | w in nodes ::
      NodeLinked(nodes, keywords, rules, w, w in done)
  }

  ghost predicate OwnOnly(nodes: map<Word, AcNode>, keywords: seq<Word>, rules: seq<int>, n: nat)
    requires n <= |keywords| && CanIndex(keywords, rules)
    reads nodes.Values
  {
    forall w | w in nodes :: nodes[w].fail == null && nodes[w].ruleIDs == Own(keywords, rules, n, w)
  }

  /** A word that is not a node has spelt no keyword yet. */
  ghost predicate KeywordsIn(nodes: map<Word, AcNode>, keywords: seq<Word>, n: nat)
    requires n <= |keywords|
  {
    [] in nodes && forall i :: 0 <= i < n ==> keywords[i] in nodes
  }

  lemma {:induction false} OwnOfAbsentWord(keywords: seq<Word>, rules: seq<int>, n: nat, w: Word)
    requires n <= |keywords| && CanIndex(keywords, rules)
    requires forall i :: 0 <= i < n ==> keywords[i] != w
    ensures Own(keywords, rules, n, w) == []
  {
    if n != 0 {
      OwnOfAbsentWord(keywords, rules, n - 1, w);
    }
  }

  lemma AppendInjective(v: Word, c: byte, w: Word, b: byte)
    ensures v + [c] == w + [b] <==> v == w && c == b
  {
    assert (v + [c])[..|v|] == v && (v + [c])[|v|] == c;
    assert (w + [b])[..|w|] == w && (w + [b])[|w|] == b;
  }

  /** One step down the trie along `b`, creating the child when it is missing. */
  method ChildOrNew(curr: AcNode, b: byte, keywords: seq<Word>, rules: seq<int>, n: nat,
                    ghost nodes0: map<Word, AcNode>)
    returns (next: AcNode, ghost nodes: map<Word, AcNode>)
    requires n <= |keywords| && CanIndex(keywords, rules)
    requires Shape(nodes0) && curr.word in nodes0 && curr == nodes0[curr.word]
    requires OwnOnly(nodes0, keywords, rules, n) && KeywordsIn(nodes0, keywords, n)
    modifies curr
    ensures Shape(nodes) && nodes0.Keys <= nodes.Keys && (forall w | w in nodes0 :: nodes[w] == nodes0[w])
    ensures curr.word + [b] in nodes && next == nodes[curr.word + [b]]
    ensures OwnOnly(nodes, keywords, rules, n) && KeywordsIn(nodes, keywords, n)
    ensures forall w | w in nodes :: nodes[w] in nodes0.Values || fresh(nodes[w])
  {
    ghost var w := curr.word + [b];
    nodes := nodes0;
    if b !in curr.children {
      next := new AcNode(w);
      OwnOfAbsentWord(keywords, rules, n, w);
      curr.children := curr.children[b := next];
      nodes := nodes0[w := next];
      assert IsTrie(nodes.Keys) by {
        forall v, c | v + [c] in nodes ensures v in nodes { AppendInjective(v, c, curr.word, b); }
      }
      forall v, c | v in nodes
        ensures c in nodes[v].children <==> v + [c] in nodes
        ensures c in nodes[v].children ==> nodes[v].children[c] == nodes[v + [c]]
      {
        AppendInjective(v, c, curr.word, b);
      }
    }
    next := curr.children[b];
  }

  /** Walks a word down the trie, creating the nodes that are missing. */
  method WalkOrGrow(root: AcNode, kw: Word, keywords: seq<Word>, rules: seq<int>, n: nat,
                    ghost nodes0: map<Word, AcNode>)
    returns (curr: AcNode, ghost nodes: map<Word, AcNode>)
    requires n <= |keywords| && CanIndex(keywords, rules)
    requires Shape(nodes0) && root == nodes0[[]]
    requires OwnOnly(nodes0, keywords, rules, n) && KeywordsIn(nodes0, keywords, n)
    modifies nodes0.Values
    ensures Shape(nodes) && root == nodes[[]] && kw in nodes && curr == nodes[kw]
    ensures OwnOnly(nodes, keywords, rules, n) && KeywordsIn(nodes, keywords, n)
    ensures forall w | w in nodes :: nodes[w] in nodes0.Values || fresh(nodes[w])
  {
    nodes := nodes0;
    curr := root;
    for j := 0 to |kw|
      invariant kw[..j] in nodes && curr == nodes[kw[..j]]
      invariant Shape(nodes) && root == nodes[[]]
      invariant OwnOnly(nodes, keywords, rules, n) && KeywordsIn(nodes, keywords, n)
      invariant forall w | w in nodes :: nodes[w] in nodes0.Values || fresh(nodes[w])
    {
      TakeOneMore(kw, j);
      curr, nodes := ChildOrNew(curr, kw[j], keywords, rules, n, nodes);
    }
    TakeAll(kw);
  }

  /** Inserts keyword `n` and records its rule at the node it ends at. */
  method InsertKeyword(root: AcNode, keywords: seq<Word>, rules: seq<int>, n: nat, ghost nodes0: map<Word, AcNode>)
    returns (ghost nodes: map<Word, AcNode>)
    requires n < |keywords| && CanIndex(keywords, rules) && keywords[n] != []
    requires Shape(nodes0) && root == nodes0[[]]
    requires OwnOnly(nodes0, keywords, rules, n) && KeywordsIn(nodes0, keywords, n)
    modifies nodes0.Values
    ensures Shape(nodes) && root == nodes[[]]
    ensures OwnOnly(nodes, keywords, rules, n + 1) && KeywordsIn(nodes, keywords, n + 1)
    ensures forall w | w in nodes :: nodes[w] in nodes0.Values || fresh(nodes[w])
  {
    var curr;
    curr, nodes := WalkOrGrow(root, keywords[n], keywords, rules, n, nodes0);
    curr.ruleIDs := curr.ruleIDs + [rules[n]];
    assert Shape(nodes);
    forall w | w in nodes
      ensures nodes[w].fail == null && nodes[w].ruleIDs == Own(keywords, rules, n + 1, w)
    {
      assert w == keywords[n] <==> nodes[w] == curr;
    }
  }

  lemma SkipEmptyKeyword(nodes: map<Word, AcNode>, keywords: seq<Word>, rules: seq<int>, n: nat)
    requires n < |keywords| && CanIndex(keywords, rules) && keywords[n] == []
    requires OwnOnly(nodes, keywords, rules, n) && KeywordsIn(nodes, keywords, n)
    ensures OwnOnly(nodes, keywords, rules, n + 1) && KeywordsIn(nodes, keywords, n + 1)
  {}

  /** Phase one: the trie of all non-empty keywords, with each rule at its keyword's node. */
  method BuildTrie(keywords: seq<Word>, rules: seq<int>) returns (root: AcNode, ghost nodes: map<Word, AcNode>)
    requires CanIndex(keywords, rules)
    ensures Shape(nodes) && root == nodes[[]] && fresh(nodes.Values)
    ensures OwnOnly(nodes, keywords, rules, |keywords|) && KeywordsIn(nodes, keywords, |keywords|)
  {
    root := new AcNode([]);
    nodes := map[[] := root];
    for n := 0 to |keywords|
      invariant Shape(nodes) && root == nodes[[]] && fresh(nodes.Values)
      invariant OwnOnly(nodes, keywords, rules, n) && KeywordsIn(nodes, keywords, n)
    {
      if keywords[n] != [] {
        nodes := InsertKeyword(root, keywords, rules, n, nodes);
      } else {
        SkipEmptyKeyword(nodes, keywords, rules, n);
      }
    }
  }

  /** Climbs failure links from the parent's failure state until some state has a
      child for `b`; null stands for having run past the root. */
  method FindFail(start: AcNode?, b: byte, keywords: seq<Word>, rules: seq<int>, ghost nodes: map<Word, AcNode>,
                  ghost done: set<Word>, ghost u0: Word) returns (target: AcNode?)
    requires CanIndex(keywords, rules) && Shape(nodes) && [] !in done && Linked(nodes, keywords, rules, done)
    requires u0 in nodes && start == nodes[u0] && DoneUpTo(nodes.Keys, done, |u0|)
    ensures target == null ==> LongestSuffix(nodes.Keys, u0 + [b]) == []
    ensures target != null ==> target == nodes[LongestSuffix(nodes.Keys, u0 + [b])]
  {
    target := null;
    var failNode := start;
    ghost var u := u0;
    while failNode != null
      invariant failNode != null ==>
        && u in nodes && failNode == nodes[u] && |u| <= |u0|
        && LongestSuffix(nodes.Keys, u + [b]) == LongestSuffix(nodes.Keys, u0 + [b])
      invariant failNode == null ==> LongestSuffix(nodes.Keys, u0 + [b]) == []
      decreases if failNode == null then 0 else 1, |u|
    {
      if b in failNode.children {
        return failNode.children[b];
      }
      FallBack(nodes.Keys, u, b);
      failNode := failNode.fail;
      if u != [] {
        u := Fail(nodes.Keys, u);
      }
    }
  }

  /** Gives one child its failure link and merges the output list found there. */
  method LinkChild(root: AcNode, curr: AcNode, b: byte, child: AcNode, keywords: seq<Word>, rules: seq<int>,
                   ghost nodes: map<Word, AcNode>, ghost done: set<Word>)
    requires CanIndex(keywords, rules) && Shape(nodes) && root == nodes[[]]
    requires [] !in done && Linked(nodes, keywords, rules, done)
    requires curr.word in done && curr.word in nodes && curr == nodes[curr.word]
    requires DoneUpTo(nodes.Keys, done, |curr.word|)
    requires b in curr.children && child == curr.children[b] && curr.word + [b] !in done
    modifies child`fail, child`ruleIDs
    ensures Shape(nodes) && Linked(nodes, keywords, rules, done + {curr.word + [b]})
  {
    ghost var c := curr.word + [b];
    var target := FailOrRoot(root, curr, b, keywords, rules, nodes, done);
    assert nodes[c] == child;
    SetLink(child, target, keywords, rules, nodes, done, c);
  }

  /** Gives a node its failure link and what is found along it. */
  method SetLink(child: AcNode, target: AcNode, ghost keywords: seq<Word>, ghost rules: seq<int>,
                 ghost nodes: map<Word, AcNode>, ghost done: set<Word>, ghost c: Word)
    requires CanIndex(keywords, rules) && Shape(nodes) && Linked(nodes, keywords, rules, done)
    requires c != [] && c in nodes && child == nodes[c] && c !in done
    requires target == nodes[Fail(nodes.Keys, c)]
    requires target.ruleIDs == Output(nodes.Keys, keywords, rules, Fail(nodes.Keys, c))
    modifies child`fail, child`ruleIDs
    ensures Linked(nodes, keywords, rules, done + {c})
  {
    assert NodeLinked(nodes, keywords, rules, c, false);
    child.fail := target;
    child.ruleIDs := child.ruleIDs + target.ruleIDs;
    assert NodeLinked(nodes, keywords, rules, c, true);
    forall w | w in nodes
      ensures NodeLinked(nodes, keywords, rules, w, w in done + {c})
    {
      if w != c {
        assert nodes[w] != child;
      }
      assert old(NodeLinked(nodes, keywords, rules, w, w in done));
    }
  }

  method FailOrRoot(root: AcNode, curr: AcNode, b: byte, keywords: seq<Word>, rules: seq<int>,
                    ghost nodes: map<Word, AcNode>, ghost done: set<Word>) returns (target: AcNode)
    requires CanIndex(keywords, rules) && Shape(nodes) && root == nodes[[]]
    requires [] !in done && Linked(nodes, keywords, rules, done)
    requires curr.word in done && curr.word in nodes && curr == nodes[curr.word]
    requires DoneUpTo(nodes.Keys, done, |curr.word|)
    ensures target == nodes[Fail(nodes.Keys, curr.word + [b])]
    ensures target.ruleIDs == Output(nodes.Keys, keywords, rules, Fail(nodes.Keys, curr.word + [b]))
  {
    ghost var f := Fail(nodes.Keys, curr.word);
    var failNode := FindFail(curr.fail, b, keywords, rules, nodes, done, f);
    FailOfChild(nodes.Keys, curr.word, b);
    target := if failNode == null then root else failNode;
  }

  /** Ranges over a set of bytes in an arbitrary order, as ranging over a map does. */
  method AnyOrder(keys: set<byte>) returns (order: seq<byte>)
    ensures forall b :: b in order <==> b in keys
    ensures forall i, j | 0 <= i < j < |order| :: order[i] != order[j]
  {
    var todo := keys;
    order := [];
    while todo != {}
      invariant forall b :: b in keys <==> b in order || b in todo
      invariant forall b | b in order :: b !in todo
      invariant forall i, j | 0 <= i < j < |order| :: order[i] != order[j]
    {
      var b :| b in todo;
      todo, order := todo - {b}, order + [b];
    }
  }

  /** The words reached from `w` by the bytes of `order`. */
  ghost function KidWords(w: Word, order: seq<byte>): (kids: seq<Word>)
    ensures |kids| == |order|
  {
    seq(|order|, i requires 0 <= i < |order| => w + [order[i]])
  }

  lemma KidWordsAreChildren(nodes: map<Word, AcNode>, w: Word, order: seq<byte>, children: set<byte>)
    requires forall b :: b in order <==> b in children
    requires forall i, j | 0 <= i < j < |order| :: order[i] != order[j]
    requires forall b {:trigger b in children} {:trigger w + [b]} :: b in children <==> w + [b] in nodes
    ensures ChildrenOf(nodes.Keys, w, KidWords(w, order))
  {
    var kids := KidWords(w, order);
    forall b | w + [b] in nodes ensures w + [b] in kids {
      var i :| 0 <= i < |order| && order[i] == b;
      assert kids[i] == w + [b];
    }
    forall i | 0 <= i < |kids| ensures kids[i] in nodes && kids[i][..|w|] == w {
      assert order[i] in children && kids[i] == w + [order[i]];
    }
    forall i, j | 0 <= i < j < |kids| ensures kids[i] != kids[j] {
      AppendInjective(w, order[i], w, order[j]);
    }
  }

  /** The children of a node, in the order a range over its map happens to give. */
  method VisitOrder(node: AcNode, ghost nodes: map<Word, AcNode>) returns (order: seq<byte>, ghost kids: seq<Word>)
    requires Shape(nodes) && node.word in nodes && node == nodes[node.word]
    ensures ChildrenOf(nodes.Keys, node.word, kids) && |kids| == |order|
    ensures forall i | 0 <= i < |order| :: order[i] in node.children && kids[i] == node.word + [order[i]]
  {
    order := AnyOrder(node.children.Keys);
    kids := KidWords(node.word, order);
    KidWordsAreChildren(nodes, node.word, order, node.children.Keys);
  }

  lemma NoKidsYet(kids: seq<Word>, done0: set<Word>)
    ensures done0 + SetOf(kids[..0]) == done0
  {}

  lemma OneMoreKid(trie: set<Word>, w: Word, kids: seq<Word>, k: nat, done0: set<Word>)
    requires ChildrenOf(trie, w, kids) && k < |kids| && kids[k] !in done0
    ensures kids[k] !in done0 + SetOf(kids[..k])
    ensures done0 + SetOf(kids[..k + 1]) == done0 + SetOf(kids[..k]) + {kids[k]}
  {}

  /** Links every child of `curr`, in any order, and returns them for the queue. */
  method LinkChildren(root: AcNode, curr: AcNode, keywords: seq<Word>, rules: seq<int>,
                      ghost nodes: map<Word, AcNode>, ghost done0: set<Word>)
    returns (added: seq<AcNode>, ghost kids: seq<Word>)
    requires CanIndex(keywords, rules) && Shape(nodes) && root == nodes[[]]
    requires [] !in done0 && Linked(nodes, keywords, rules, done0)
    requires curr.word in done0 && curr.word in nodes && curr == nodes[curr.word]
    requires DoneUpTo(nodes.Keys, done0, |curr.word|)
    requires forall b {:trigger curr.word + [b]} | curr.word + [b] in nodes :: curr.word + [b] !in done0
    modifies nodes.Values`fail, nodes.Values`ruleIDs
    ensures Shape(nodes) && ChildrenOf(nodes.Keys, curr.word, kids)
    ensures Linked(nodes, keywords, rules, done0 + SetOf(kids))
    ensures ListsNodes(nodes, added, kids)
  {
    var order;
    order, kids := VisitOrder(curr, nodes);
    added := [];
    NoKidsYet(kids, done0);
    for k := 0 to |order|
      invariant Shape(nodes) && Linked(nodes, keywords, rules, done0 + SetOf(kids[..k]))
      invariant ListsNodes(nodes, added, kids[..k])
    {
      ghost var done := done0 + SetOf(kids[..k]);
      OneMoreKid(nodes.Keys, curr.word, kids, k, done0);
      var child := curr.children[order[k]];
      LinkChild(root, curr, order[k], child, keywords, rules, nodes, done);
      ListOneMore(nodes, added, kids, k, child);
      added := added + [child];
    }
    TakeAll(kids);
  }

  /** `list` holds the nodes of `words`, in order. */
  ghost predicate ListsNodes(nodes: map<Word, AcNode>, list: seq<AcNode>, words: seq<Word>) {
    && |list| == |words|
    && forall i | 0 <= i < |list| :: list[i].word == words[i] && words[i] in nodes && list[i] == nodes[words[i]]
  }

  lemma ListOneMore(nodes: map<Word, AcNode>, list: seq<AcNode>, words: seq<Word>, k: nat, child: AcNode)
    requires k < |words| && ListsNodes(nodes, list, words[..k])
    requires child.word == words[k] && words[k] in nodes && child == nodes[words[k]]
    ensures ListsNodes(nodes, list + [child], words[..k + 1])
  {}

  lemma ListTailAndMore(nodes: map<Word, AcNode>, list: seq<AcNode>, words: seq<Word>, added: seq<AcNode>,
                        kids: seq<Word>)
    requires list != [] && ListsNodes(nodes, list, words) && ListsNodes(nodes, added, kids)
    ensures ListsNodes(nodes, list[1..] + added, words[1..] + kids)
  {}

  /** Phase two: breadth-first failure links. */
  method BuildFailLinks(root: AcNode, keywords: seq<Word>, rules: seq<int>, ghost nodes: map<Word, AcNode>)
    requires CanIndex(keywords, rules) && Shape(nodes) && root == nodes[[]]
    requires OwnOnly(nodes, keywords, rules, |keywords|)
    modifies nodes.Values`fail, nodes.Values`ruleIDs
    ensures Shape(nodes) && Linked(nodes, keywords, rules, nodes.Keys)
  {
    var queue: seq<AcNode>;
    ghost var words: seq<Word>;
    queue, words := LinkRootChildren(root, keywords, rules, nodes);
    ghost var expanded, done := {[]}, {} + SetOf(words);
    while queue != []
      invariant Shape(nodes) && Linked(nodes, keywords, rules, done)
      invariant Frontier(nodes.Keys, expanded, done, words) && ListsNodes(nodes, queue, words)
      decreases nodes.Keys - expanded
    {
      var curr := queue[0];
      var added, kids := LinkChildren(root, curr, keywords, rules, nodes, done);
      ExpandHead(nodes.Keys, expanded, done, words, kids);
      ListTailAndMore(nodes, queue, words, added, kids);
      queue := queue[1..] + added;
      expanded, done, words := expanded + {words[0]}, done + SetOf(kids), words[1..] + kids;
    }
    forall w | w in nodes ensures NodeLinked(nodes, keywords, rules, w, true) {
      assert NodeLinked(nodes, keywords, rules, w, w in done);
      if w != [] {
        AllDone(nodes.Keys, expanded, done, w);
      }
    }
  }

  lemma {:induction false} OwnOfEmptyWord(keywords: seq<Word>, rules: seq<int>, n: nat)
    requires n <= |keywords| && CanIndex(keywords, rules)
    ensures Own(keywords, rules, n, []) == []
  {
    if n != 0 {
      OwnOfEmptyWord(keywords, rules, n - 1);
    }
  }

  lemma LinkOfOneByteWord(trie: set<Word>, keywords: seq<Word>, rules: seq<int>, b: byte)
    requires [] in trie && CanIndex(keywords, rules)
    ensures Fail(trie, [b]) == []
    ensures Output(trie, keywords, rules, [b]) == Own(keywords, rules, |keywords|, [b])
  {
    OwnOfEmptyWord(keywords, rules, |keywords|);
    assert [b][1..] == [];
  }

  lemma RootFrontier(trie: set<Word>, words: seq<Word>)
    requires IsTrie(trie) && ChildrenOf(trie, [], words)
    ensures Frontier(trie, {[]}, {} + SetOf(words), words)
  {
    assert {} + SetOf(words) == SetOf(words);
    forall v, b | v + [b] in trie ensures v + [b] in SetOf(words) <==> v in {[]} {
      assert (v + [b])[..|v|] == v;
    }
    forall v | v in trie && v != [] && |v| <= 1 ensures v in SetOf(words) {
      assert v == [] + [v[0]];
    }
  }

  method LinkRootChild(root: AcNode, child: AcNode, keywords: seq<Word>, rules: seq<int>, ghost b: byte,
                       ghost nodes: map<Word, AcNode>, ghost done: set<Word>)
    requires CanIndex(keywords, rules) && Shape(nodes) && root == nodes[[]]
    requires [] !in done && Linked(nodes, keywords, rules, done)
    requires [b] in nodes && child == nodes[[b]] && [b] !in done
    modifies child`fail
    ensures Linked(nodes, keywords, rules, done + {[b]})
  {
    LinkOfOneByteWord(nodes.Keys, keywords, rules, b);
    child.fail := root;
    forall w | w in nodes
      ensures NodeLinked(nodes, keywords, rules, w, w in done + {[b]})
    {
      assert old(nodes[w].fail) == nodes[w].fail || w == [b];
      assert old(NodeLinked(nodes, keywords, rules, w, w in done));
    }
  }

  /** The root's own children fall back to the root, whose output list is empty. */
  method LinkRootChildren(root: AcNode, keywords: seq<Word>, rules: seq<int>, ghost nodes: map<Word, AcNode>)
    returns (queue: seq<AcNode>, ghost words: seq<Word>)
    requires CanIndex(keywords, rules) && Shape(nodes) && root == nodes[[]]
    requires OwnOnly(nodes, keywords, rules, |keywords|)
    modifies nodes.Values`fail, nodes.Values`ruleIDs
    ensures Shape(nodes) && Linked(nodes, keywords, rules, {} + SetOf(words))
    ensures Frontier(nodes.Keys, {[]}, {} + SetOf(words), words) && ListsNodes(nodes, queue, words)
  {
    var order;
    order, words := VisitOrder(root, nodes);
    NoKidsYet(words, {});
    queue := [];
    for k := 0 to |order|
      invariant Shape(nodes) && Linked(nodes, keywords, rules, {} + SetOf(words[..k]))
      invariant ListsNodes(nodes, queue, words[..k])
    {
      var child := root.children[order[k]];
      OneMoreKid(nodes.Keys, [], words, k, {});
      assert words[k] == [order[k]];
      LinkRootChild(root, child, keywords, rules, order[k], nodes, {} + SetOf(words[..k]));
      ListOneMore(nodes, queue, words, k, child);
      queue := queue + [child];
    }
    TakeAll(words);
    RootFrontier(nodes.Keys, words);
  }

  /** Some non-empty keyword of rule `r` is a substring of the line. */
  ghost predicate Triggered(keywords: seq<Word>, rules: seq<int>, line: Word, r: int) {
    exists i {:trigger keywords[i]} ::
      0 <= i < |keywords| && i < |rules| && keywords[i] != [] && rules[i] == r && Contains(line, keywords[i])
  }

  /** A keyword of rule `r` ends at position `e` of the line. */
  ghost predicate EndsAt(keywords: seq<Word>, rules: seq<int>, line: Word, e: nat, r: int)
    requires e <= |line|
  {
    exists i: nat :: EndsWith(keywords, rules, i, line[..e], r)
  }

  /** A keyword of rule `r` ends somewhere in the first `k` bytes of the line. */
  ghost predicate EndsBy(keywords: seq<Word>, rules: seq<int>, line: Word, k: nat, r: int)
    requires k <= |line|
  {
    exists e :: 0 <= e <= k && EndsAt(keywords, rules, line, e, r)
  }

  ghost function RulesEndedBy(keywords: seq<Word>, rules: seq<int>, line: Word, k: nat): iset<int>
    requires k <= |line|
  {
    iset r | EndsBy(keywords, rules, line, k, r)
  }

  lemma EndsByWholeLine(keywords: seq<Word>, rules: seq<int>, line: Word, r: int)
    ensures EndsBy(keywords, rules, line, |line|, r) <==> Triggered(keywords, rules, line, r)
  {
    if e :| 0 <= e <= |line| && EndsAt(keywords, rules, line, e, r) {
      var i: nat :| EndsWith(keywords, rules, i, line[..e], r);
      var kw := keywords[i];
      assert line[e - |kw|..e] == line[..e][e - |kw|..] == kw;
      assert OccursAt(line, e - |kw|, kw);
    }
    if i :| 0 <= i < |keywords| && i < |rules| && keywords[i] != [] && rules[i] == r && Contains(line, keywords[i]) {
      var kw := keywords[i];
      var p :| 0 <= p <= |line| && OccursAt(line, p, kw);
      assert line[..p + |kw|][p..] == kw;
      assert EndsWith(keywords, rules, i, line[..p + |kw|], r);
      assert EndsAt(keywords, rules, line, p + |kw|, r);
    }
  }

  ghost predicate NoDuplicates(s: seq<int>) {
    forall i, j | 0 <= i < j < |s| :: s[i] != s[j]
  }

  ghost function Members(ids: seq<int>): iset<int> {
    iset r | r in ids
  }

  /** `matched` and the marks account for the rules in `ids`, starting from the marks `marks0`. */
  ghost predicate Collected(matched: seq<int>, marks: seq<bool>, marks0: seq<bool>, ids: iset<int>) {
    && NoDuplicates(matched) && |marks| == |marks0|
    && (forall r :: r in matched <==> 0 <= r < |marks| && !marks0[r] && r in ids)
    && (forall r | 0 <= r < |marks| :: marks[r] <==> marks0[r] || r in ids)
  }

  /** Marks the rules of one state that are in range, and appends those not yet marked. */
  method CollectHits(ids: seq<int>, hitSet: array<bool>, matched0: seq<int>, ghost marks0: seq<bool>,
                     ghost before: iset<int>)
    returns (matched: seq<int>)
    requires Collected(matched0, hitSet[..], marks0, before)
    modifies hitSet
    ensures Collected(matched, hitSet[..], marks0, before + Members(ids))
  {
    matched := matched0;
    for j := 0 to |ids|
      invariant Collected(matched, hitSet[..], marks0, before + Members(ids[..j]))
    {
      var rIdx := ids[j];
      TakeOneMore(ids, j);
      if 0 <= rIdx < hitSet.Length && !hitSet[rIdx] {
        hitSet[rIdx] := true;
        matched := matched + [rIdx];
      }
    }
    TakeAll(ids);
  }

  class ACAutomaton {
    var root: AcNode
    ghost var nodes: map<Word, AcNode>
    ghost var keywords: seq<Word>
    ghost var rules: seq<int>

    /** The automaton is complete: every node has its failure link and merged output. */
    ghost predicate Valid()
      reads this, nodes.Values
    {
      && Shape(nodes) && root == nodes[[]]
      && CanIndex(keywords, rules)
      && Linked(nodes, keywords, rules, nodes.Keys)
      && forall k | k in keywords :: k in nodes
    }

    constructor (keywords: seq<Word>, rules: seq<int>)
      requires CanIndex(keywords, rules)
      ensures Valid() && fresh(nodes.Values)
      ensures this.keywords == keywords && this.rules == rules
    {
      var r, ns := BuildTrie(keywords, rules);
      BuildFailLinks(r, keywords, rules, ns);
      root, nodes := r, ns;
      this.keywords, this.rules := keywords, rules;
    }

    /** Moves from the state of a text to the state of the text extended by `b`. */
    method Advance(start: AcNode, b: byte, ghost text: Word) returns (next: AcNode)
      requires Valid() && start == nodes[LongestSuffix(nodes.Keys, text)]
      ensures next == nodes[LongestSuffix(nodes.Keys, text + [b])]
    {
      var curr: AcNode? := start;
      ghost var u := LongestSuffix(nodes.Keys, text);
      ExtendState(nodes.Keys, text, b);
      while curr != null
        invariant curr != null ==>
          && u in nodes && curr == nodes[u]
          && LongestSuffix(nodes.Keys, u + [b]) == LongestSuffix(nodes.Keys, text + [b])
        invariant curr == null ==> LongestSuffix(nodes.Keys, text + [b]) == []
        decreases if curr == null then 0 else 1, |u|
      {
        if b in curr.children {
          return curr.children[b];
        }
        FallBack(nodes.Keys, u, b);
        curr := curr.fail;
        if u != [] {
          u := Fail(nodes.Keys, u);
        }
      }
      next := root;
    }

    /** The merged output list of the state after `text` names exactly the rules with a
        keyword that ends `text`. */
    lemma OutputsOfState(text: Word, r: int)
      requires Valid()
      ensures r in nodes[LongestSuffix(nodes.Keys, text)].ruleIDs
         <==> exists i: nat :: EndsWith(keywords, rules, i, text, r)
    {
      var w := LongestSuffix(nodes.Keys, text);
      assert nodes[w].ruleIDs == Output(nodes.Keys, keywords, rules, w) by {
        if w == [] { OwnOfEmptyWord(keywords, rules, |keywords|); }
      }
      OutputMembers(nodes.Keys, keywords, rules, w, r);
      forall i: nat ensures EndsWith(keywords, rules, i, w, r) <==> EndsWith(keywords, rules, i, text, r) {
        if i < |keywords| {
          SuffixOfStateOrText(nodes.Keys, text, keywords[i]);
        }
      }
    }

    /** The rules seen after one more byte are those seen before and those of the new state. */
    lemma SeenAfterByte(line: Word, k: nat, ids: seq<int>)
      requires Valid() && k < |line|
      requires ids == nodes[LongestSuffix(nodes.Keys, line[..k + 1])].ruleIDs
      ensures RulesEndedBy(keywords, rules, line, k + 1) == RulesEndedBy(keywords, rules, line, k) + Members(ids)
    {
      forall r {:trigger r in ids}
        ensures EndsBy(keywords, rules, line, k + 1, r) <==> EndsBy(keywords, rules, line, k, r) || r in ids
      {
        OutputsOfState(line[..k + 1], r);
        assert r in ids <==> EndsAt(keywords, rules, line, k + 1, r);
      }
    }

    /** Reads byte `k`: advances the state and collects the rules of the new one. */
    method ScanByte(curr: AcNode, line: Word, k: nat, hitSet: array<bool>, matched0: seq<int>, ghost marks0: seq<bool>)
      returns (next: AcNode, matched: seq<int>)
      requires Valid() && k < |line| && curr == nodes[LongestSuffix(nodes.Keys, line[..k])]
      requires Collected(matched0, hitSet[..], marks0, RulesEndedBy(keywords, rules, line, k))
      modifies hitSet
      ensures next == nodes[LongestSuffix(nodes.Keys, line[..k + 1])]
      ensures Collected(matched, hitSet[..], marks0, RulesEndedBy(keywords, rules, line, k + 1))
    {
      next := Advance(curr, line[k], line[..k]);
      TakeOneMore(line, k);
      SeenAfterByte(line, k, next.ruleIDs);
      matched := CollectHits(next.ruleIDs, hitSet, matched0, marks0, RulesEndedBy(keywords, rules, line, k));
    }

    /** One pass over the line finds, without duplicates, exactly the rules that are in
        range, were not marked before, and have a non-empty keyword occurring in the line. */
    method MatchOneLine(line: Word, hitSet: array<bool>) returns (matched: seq<int>)
      requires Valid()
      modifies hitSet
      ensures NoDuplicates(matched)
      ensures forall r :: r in matched <==>
        0 <= r < hitSet.Length && !old(hitSet[r]) && Triggered(keywords, rules, line, r)
      ensures forall r | 0 <= r < hitSet.Length :: hitSet[r] <==> old(hitSet[r]) || Triggered(keywords, rules, line, r)
    {
      matched := [];
      var curr := root;
      ghost var marks0 := hitSet[..];
      assert line[..0] == [];
      NothingEndsAtStart(keywords, rules, line);
      for k := 0 to |line|
        invariant Valid() && curr == nodes[LongestSuffix(nodes.Keys, line[..k])]
        invariant Collected(matched, hitSet[..], marks0, RulesEndedBy(keywords, rules, line, k))
      {
        curr, matched := ScanByte(curr, line, k, hitSet, matched, marks0);
      }
      forall r ensures EndsBy(keywords, rules, line, |line|, r) <==> Triggered(keywords, rules, line, r) {
        EndsByWholeLine(keywords, rules, line, r);
      }
    }
  }

  lemma NothingEndsAtStart(keywords: seq<Word>, rules: seq<int>, line: Word)
    ensures forall r :: !EndsBy(keywords, rules, line, 0, r)
  {
    forall r ensures !EndsBy(keywords, rules, line, 0, r) {
      assert forall i: nat :: !EndsWith(keywords, rules, i, line[..0], r);
      assert !EndsAt(keywords, rules, line, 0, r);
    }
  }
}
