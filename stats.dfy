/**
 * The statistics of `getStats` / `calculateStats` in
 * Nutrion/src/lib/trieSearch.ts: node count, record count and deepest level
 * of a trie, as a specification on values and as the recursive method that
 * accumulates them into a mutable counter object.
 */
module TrieStatistics {
  import opened TrieModel

  /** The object `getStats` returns. */
  datatype TrieStats = TrieStats(totalNodes: nat, totalWords: nat, maxDepth: nat)

  function Max(a: int, b: int): int {
    if a >= b then a else b
  }

  /** Two disjoint groups of subtrees together: counts add up, depths take the larger. */
  function Add(a: TrieStats, b: TrieStats): TrieStats {
    TrieStats(a.totalNodes + b.totalNodes, a.totalWords + b.totalWords, Max(a.maxDepth, b.maxDepth))
  }

  /** A subtree seen from its parent: every level one deeper. */
  function Deepen(a: TrieStats): TrieStats {
    a.(maxDepth := a.maxDepth + 1)
  }

  /** What a traversal of the subtree under `n` counts; the depth is that of its deepest node below `n`. */
  ghost function Summary(n: Node): TrieStats
    decreases n, 1
  {
    var below := SummaryOver(n, n.children.Keys);
    TrieStats(1 + below.totalNodes, |n.words| + below.totalWords, below.maxDepth)
  }

  /** The subtrees of the children of `n` under `keys`, visited in any order. */
  ghost function SummaryOver(n: Node, keys: set<char>): TrieStats
    requires keys <= n.children.Keys
    decreases n, 0, keys
  {
    if keys == {} then TrieStats(0, 0, 0)
    else
      var c :| c in keys;
      Add(Deepen(Summary(n.children[c])), SummaryOver(n, keys - {c}))
  }

  /** The counts do not depend on the order in which children are visited: any child may be taken first. */
  lemma {:induction false} SummaryOverPick(n: Node, keys: set<char>, c: char)
    requires keys <= n.children.Keys && c in keys
    ensures SummaryOver(n, keys) == Add(Deepen(Summary(n.children[c])), SummaryOver(n, keys - {c}))
    decreases keys
  {
    var d :| d in keys && SummaryOver(n, keys) == Add(Deepen(Summary(n.children[d])), SummaryOver(n, keys - {d}));
    if d != c {
      SummaryOverPick(n, keys - {d}, c);
      SummaryOverPick(n, keys - {c}, d);
      assert keys - {d} - {c} == keys - {c} - {d};
      AddSwap(Deepen(Summary(n.children[d])), Deepen(Summary(n.children[c])), SummaryOver(n, keys - {c} - {d}));
    }
  }

  lemma AddSwap(a: TrieStats, b: TrieStats, x: TrieStats)
    ensures Add(a, Add(b, x)) == Add(b, Add(a, x))
  {
  }

  /** A fresh trie has one node, no records and depth zero. */
  lemma SummaryEmpty()
    ensures Summary(EmptyNode()) == TrieStats(1, 0, 0)
  {
    assert EmptyNode().children.Keys == {};
  }

  /** With at most `MaxWords` records per node, the record count is at most `MaxWords` per node. */
  lemma {:induction false} CappedWords(n: Node)
    requires Capped(n)
    ensures Summary(n).totalWords <= MaxWords * Summary(n).totalNodes
    decreases n, 1
  {
    CappedWordsOver(n, n.children.Keys);
  }

  lemma {:induction false} CappedWordsOver(n: Node, keys: set<char>)
    requires Capped(n) && keys <= n.children.Keys
    ensures SummaryOver(n, keys).totalWords <= MaxWords * SummaryOver(n, keys).totalNodes
    decreases n, 0, keys
  {
    if keys != {} {
      var c :| c in keys;
      SummaryOverPick(n, keys, c);
      CappedWords(n.children[c]);
      CappedWordsOver(n, keys - {c});
    }
  }

  /** Every node of the trie lies at most `maxDepth` levels below the root. */
  lemma {:induction false} PathWithinDepth(n: Node, s: string)
    requires Lookup(n, s).Some?
    ensures |s| <= Summary(n).maxDepth
    decreases |s|
  {
    if s != [] {
      var c := s[0];
      PathWithinDepth(n.children[c], s[1..]);
      SummaryOverPick(n, n.children.Keys, c);
    }
  }

  /** Some node lies exactly `maxDepth` levels below the root: the depth is attained. */
  lemma {:induction false} DeepestPath(n: Node) returns (s: string)
    ensures Lookup(n, s).Some? && |s| == Summary(n).maxDepth
    decreases n, 1
  {
    if n.children.Keys == {} {
      s := [];
    } else {
      var c := DeepestChild(n, n.children.Keys);
      var t := DeepestPath(n.children[c]);
      s := [c] + t;
      assert s[0] == c && s[1..] == t;
    }
  }

  /** Among non-empty `keys`, a child whose subtree gives the depth of the group. */
  lemma {:induction false} DeepestChild(n: Node, keys: set<char>) returns (c: char)
    requires keys <= n.children.Keys && keys != {}
    ensures c in keys && SummaryOver(n, keys).maxDepth == 1 + Summary(n.children[c]).maxDepth
    decreases keys
  {
    var d :| d in keys && SummaryOver(n, keys) == Add(Deepen(Summary(n.children[d])), SummaryOver(n, keys - {d}));
    assert keys - {d} == {} ==> SummaryOver(n, keys - {d}).maxDepth == 0;
    var rest := SummaryOver(n, keys - {d});
    var sd := Summary(n.children[d]);
    assert Deepen(sd).maxDepth == sd.maxDepth + 1;
    assert Add(Deepen(sd), rest).maxDepth == Max(sd.maxDepth + 1, rest.maxDepth);
    assert SummaryOver(n, keys).maxDepth == Max(1 + Summary(n.children[d]).maxDepth, rest.maxDepth);
    if keys - {d} == {} || rest.maxDepth <= 1 + Summary(n.children[d]).maxDepth {
      c := d;
    } else {
      c := DeepestChild(n, keys - {d});
    }
  }

  /** Counting one more child's subtree, field by field. */
  lemma SummaryOverStep(n: Node, done: set<char>, c: char)
    requires done <= n.children.Keys && c in n.children && c !in done
    ensures var total, rest, sub := SummaryOver(n, done + {c}), SummaryOver(n, done), Summary(n.children[c]);
      && total.totalNodes == sub.totalNodes + rest.totalNodes
      && total.totalWords == sub.totalWords + rest.totalWords
      && total.maxDepth == Max(sub.maxDepth + 1, rest.maxDepth)
  {
    assert (done + {c}) - {c} == done;
    SummaryOverPick(n, done + {c}, c);
  }

  /** The depth counter after one more child: the larger of what it was and the child's subtree one level deeper. */
  lemma MaxShift(o: int, depth: int, before: int, after: int, sub: int, seen: int, now: int)
    requires before == Max(o, depth + seen)
    requires after == Max(before, depth + 1 + sub)
    requires now == Max(sub + 1, seen)
    ensures after == Max(o, depth + now)
  {
  }

  /** The mutable `stats` object `calculateStats` accumulates into. */
  class Stats {
    var totalNodes: int
    var totalWords: int
    var maxDepth: int

    /** `{ totalNodes: 0, totalWords: 0, maxDepth: 0 }`. */
    constructor ()
      ensures totalNodes == 0 && totalWords == 0 && maxDepth == 0
    {
      totalNodes, totalWords, maxDepth := 0, 0, 0;
    }
  }

  /**
   * `calculateStats(node, depth, stats)`: counts `node` and its records,
   * raises the depth to `depth`, and recurses into every child one level
   * deeper.  The counters grow by the subtree's counts, and the depth becomes
   * the larger of the old depth and that of the subtree's deepest node.
   */
  method CalculateStats(n: Node, depth: int, stats: Stats)
    modifies stats
    ensures stats.totalNodes == old(stats.totalNodes) + Summary(n).totalNodes
    ensures stats.totalWords == old(stats.totalWords) + Summary(n).totalWords
    ensures stats.maxDepth == Max(old(stats.maxDepth), depth + Summary(n).maxDepth)
    decreases n
  {
    stats.totalNodes := stats.totalNodes + 1;
    stats.totalWords := stats.totalWords + |n.words|;
    stats.maxDepth := Max(stats.maxDepth, depth);
    var keys := n.children.Keys;
    ghost var seen := SummaryOver(n, {});
    while keys != {}
      invariant keys <= n.children.Keys
      invariant seen == SummaryOver(n, n.children.Keys - keys)
      invariant stats.totalNodes == old(stats.totalNodes) + 1 + seen.totalNodes
      invariant stats.totalWords == old(stats.totalWords) + |n.words| + seen.totalWords
      invariant stats.maxDepth == Max(old(stats.maxDepth), depth + seen.maxDepth)
      decreases keys
    {
      var c :| c in keys;
      ghost var done := n.children.Keys - keys;
      ghost var sub := Summary(n.children[c]);
      ghost var before := stats.maxDepth;
      CalculateStats(n.children[c], depth + 1, stats);
      keys := keys - {c};
      assert n.children.Keys - keys == done + {c};
      SummaryOverStep(n, done, c);
      ghost var now := SummaryOver(n, done + {c});
      MaxShift(old(stats.maxDepth), depth, before, stats.maxDepth, sub.maxDepth, seen.maxDepth, now.maxDepth);
      seen := now;
    }
    assert n.children.Keys - keys == n.children.Keys;
  }
}
