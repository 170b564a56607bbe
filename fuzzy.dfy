/**
 * The fuzzy search of Nutrion/src/lib/trieSearch.ts (`fuzzySearchHelper`) as
 * the set of records it collects from a state (node, query position, budget),
 * and what that set contains.
 */
module FuzzyMatch {
  import opened TrieModel

  /** The termination measure of the helper: remaining budget (never below zero) plus remaining query. */
  function Measure(q: string, i: nat, d: int): nat
    requires i <= |q|
  {
    (if d > 0 then d else 0) + (|q| - i)
  }

  /**
   * The records `fuzzySearchHelper(n, q, i, d, ...)` adds to its result set.
   * At the end of the query the node's records are taken when the budget is
   * not negative; otherwise the exact-match branch is always tried, and with
   * budget left also substitution (every other child, next position),
   * insertion (same node, next position) and deletion (every child, same
   * position), each spending one unit.
   */
  function FuzzyCollect(n: Node, q: string, i: nat, d: int): set<Food>
    requires i <= |q|
    decreases Measure(q, i, d)
  {
    if i >= |q| then (if d >= 0 then Elems(n.words) else {})
    else
      var t := q[i];
      var exact := if t in n.children then FuzzyCollect(n.children[t], q, i + 1, d) else {};
      if d > 0 then
        var next, spent := i + 1, d - 1;
        exact
        + (set c, x | c in n.children && c != t && x in FuzzyCollect(n.children[c], q, next, spent) :: x)
        + FuzzyCollect(n, q, next, spent)
        + (set c, x | c in n.children && x in FuzzyCollect(n.children[c], q, i, spent) :: x)
      else exact
  }

  /** With no budget, the fuzzy search is the exact path walk: the records of the node the rest of the query reaches. */
  lemma {:induction false} FuzzyAtZero(n: Node, q: string, i: nat)
    requires i <= |q|
    ensures FuzzyCollect(n, q, i, 0) == Elems(WordsAt(n, q[i..]))
    decreases |q| - i
  {
    if i < |q| {
      assert q[i..][0] == q[i] && q[i..][1..] == q[i + 1..];
      if q[i] in n.children {
        FuzzyAtZero(n.children[q[i]], q, i + 1);
      }
    }
  }

  /** More budget finds at least what the exact walk finds. */
  lemma {:induction false} FuzzyMonotone(n: Node, q: string, i: nat, d: int)
    requires i <= |q| && d >= 0
    ensures FuzzyCollect(n, q, i, 0) <= FuzzyCollect(n, q, i, d)
    decreases |q| - i
  {
    if i < |q| && q[i] in n.children {
      FuzzyMonotone(n.children[q[i]], q, i + 1, d);
    }
  }

  /** The records stored under a child are stored under its parent. */
  lemma ChildStored(n: Node, c: char)
    requires c in n.children
    ensures Stored(n.children[c]) <= Stored(n)
  {
  }

  /** Every record found is held by some node under the start node. */
  lemma {:induction false} FuzzyStored(n: Node, q: string, i: nat, d: int)
    requires i <= |q|
    ensures FuzzyCollect(n, q, i, d) <= Stored(n)
    decreases Measure(q, i, d), 0
  {
    if i < |q| {
      var t := q[i];
      if t in n.children {
        FuzzyStored(n.children[t], q, i + 1, d);
        ChildStored(n, t);
      }
      if d > 0 {
        FuzzyUnfold(n, q, i, d);
        BelowStored(n, n.children.Keys - {t}, q, i + 1, d - 1);
        FuzzyStored(n, q, i + 1, d - 1);
        BelowStored(n, n.children.Keys, q, i, d - 1);
      } else {
        FuzzyUnfoldSpent(n, q, i, d);
      }
    }
  }

  /** Whatever the searches from the children find is stored under the parent. */
  lemma {:induction false} BelowStored(n: Node, cs: set<char>, q: string, j: nat, d: int)
    requires j <= |q| && cs <= n.children.Keys
    ensures Below(n, cs, q, j, d) <= Stored(n)
    decreases Measure(q, j, d), 1
  {
    forall x | x in Below(n, cs, q, j, d) ensures x in Stored(n) {
      var c :| c in cs && x in FuzzyCollect(n.children[c], q, j, d);
      FuzzyStored(n.children[c], q, j, d);
      ChildStored(n, c);
    }
  }

  /** Following the query exactly from position `i` to `j` keeps everything the search finds from there. */
  lemma {:induction false} FuzzyDescend(n: Node, q: string, i: nat, j: nat, d: int, a: Node)
    requires i <= j <= |q|
    requires Lookup(n, q[i..j]) == Some(a)
    ensures FuzzyCollect(a, q, j, d) <= FuzzyCollect(n, q, i, d)
    decreases j - i
  {
    if i < j {
      assert q[i..j][0] == q[i] && q[i..j][1..] == q[i + 1..j];
      FuzzyDescend(n.children[q[i]], q, i + 1, j, d, a);
    }
  }

  /** Splits a successful walk of `key` at position `j`. */
  lemma LookupSplit(n: Node, key: string, j: nat, m: Node) returns (a: Node)
    requires j <= |key| && Lookup(n, key) == Some(m)
    ensures Lookup(n, key[..j]) == Some(a) && Lookup(a, key[j..]) == Some(m)
  {
    assert key == key[..j] + key[j..];
    LookupAppend(n, key[..j], key[j..]);
    a := Lookup(n, key[..j]).value;
  }

  /** A key that differs from the query in one position (a substitution) is found with budget 1 or more. */
  lemma FuzzyFindsSubstitution(n: Node, key: string, q: string, j: nat, d: int, m: Node)
    requires |q| == |key| && j < |q| && d >= 1
    requires q[..j] == key[..j] && q[j + 1..] == key[j + 1..]
    requires Lookup(n, key) == Some(m)
    ensures Elems(m.words) <= FuzzyCollect(n, q, 0, d)
  {
    var a := LookupSplit(n, key, j, m);
    assert key[j..][0] == key[j] && key[j..][1..] == key[j + 1..];
    var child := a.children[key[j]];
    FuzzyAtZero(child, q, j + 1);
    FuzzyMonotone(child, q, j + 1, d);
    FuzzyMonotone(child, q, j + 1, d - 1);
    assert Elems(m.words) <= FuzzyCollect(a, q, j, d);
    assert q[0..j] == key[..j];
    FuzzyDescend(n, q, 0, j, d, a);
  }

  /** A query with one extra character at position `j` (an insertion) finds the key with budget 1 or more. */
  lemma FuzzyFindsInsertion(n: Node, key: string, q: string, j: nat, x: char, d: int, m: Node)
    requires j <= |key| && q == key[..j] + [x] + key[j..] && d >= 1
    requires Lookup(n, key) == Some(m)
    ensures Elems(m.words) <= FuzzyCollect(n, q, 0, d)
  {
    var a := LookupSplit(n, key, j, m);
    assert q[j + 1..] == key[j..];
    FuzzyAtZero(a, q, j + 1);
    FuzzyMonotone(a, q, j + 1, d - 1);
    assert Elems(m.words) <= FuzzyCollect(a, q, j, d);
    assert q[0..j] == key[..j];
    FuzzyDescend(n, q, 0, j, d, a);
  }

  /**
   * A key with one extra character at position `j` (a deletion) is found with
   * budget 1 or more, provided the extra character is not the last one: at
   * the end of the query the search stops and takes the node's records.
   */
  lemma FuzzyFindsDeletion(n: Node, key: string, q: string, j: nat, x: char, d: int, m: Node)
    requires j < |q| && key == q[..j] + [x] + q[j..] && d >= 1
    requires Lookup(n, key) == Some(m)
    ensures Elems(m.words) <= FuzzyCollect(n, q, 0, d)
  {
    var a := LookupSplit(n, key, j, m);
    assert key[j..][0] == x && key[j..][1..] == q[j..];
    var child := a.children[x];
    FuzzyAtZero(child, q, j);
    FuzzyMonotone(child, q, j, d - 1);
    assert Elems(m.words) <= FuzzyCollect(a, q, j, d);
    assert q[0..j] == key[..j];
    FuzzyDescend(n, q, 0, j, d, a);
  }

  /** An example of a one-letter deletion: records under "manzana" are found for the query "mazana". */
  lemma FuzzyFindsManzana(n: Node, m: Node)
    requires Lookup(n, "manzana") == Some(m)
    ensures Elems(m.words) <= FuzzyCollect(n, "mazana", 0, 1)
  {
    assert "manzana" == "mazana"[..2] + ['n'] + "mazana"[2..];
    FuzzyFindsDeletion(n, "manzana", "mazana", 2, 'n', 1, m);
  }

  /** A fresh trie finds nothing, whatever the query and budget. */
  lemma {:induction false} FuzzyEmpty(q: string, i: nat, d: int)
    requires i <= |q|
    ensures FuzzyCollect(EmptyNode(), q, i, d) == {}
    decreases Measure(q, i, d)
  {
    var n := EmptyNode();
    if i < |q| {
      assert n.children.Keys == {} && n.children.Keys - {q[i]} == {};
      if d > 0 {
        FuzzyUnfold(n, q, i, d);
        FuzzyEmpty(q, i + 1, d - 1);
        BelowNone(n, q, i + 1, d - 1);
        BelowNone(n, q, i, d - 1);
      } else {
        FuzzyUnfoldSpent(n, q, i, d);
      }
    }
  }

  /** What the exact-match branch finds: the child for the next query character, one position on. */
  ghost function Exact(n: Node, q: string, i: nat, d: int): set<Food>
    requires i < |q|
  {
    if q[i] in n.children then FuzzyCollect(n.children[q[i]], q, i + 1, d) else {}
  }

  /** What the searches started at the children of `n` under `cs` find, each at position `j` with budget `d`. */
  ghost function Below(n: Node, cs: set<char>, q: string, j: nat, d: int): set<Food>
    requires j <= |q| && cs <= n.children.Keys
  {
    set c, x | c in cs && x in FuzzyCollect(n.children[c], q, j, d) :: x
  }

  lemma BelowNone(n: Node, q: string, j: nat, d: int)
    requires j <= |q|
    ensures Below(n, {}, q, j, d) == {}
  {
  }

  /** Visiting one more child adds what the search from that child finds. */
  lemma BelowAdd(n: Node, cs: set<char>, c: char, q: string, j: nat, d: int)
    requires j <= |q| && cs <= n.children.Keys && c in n.children
    ensures Below(n, cs + {c}, q, j, d) == Below(n, cs, q, j, d) + FuzzyCollect(n.children[c], q, j, d)
  {
    var child := n.children[c];
    forall x | x in FuzzyCollect(child, q, j, d) ensures x in Below(n, cs + {c}, q, j, d) {
    }
  }

  /** One unfolding of the search with budget left, branch by branch. */
  lemma FuzzyUnfold(n: Node, q: string, i: nat, d: int)
    requires i < |q| && d > 0
    ensures FuzzyCollect(n, q, i, d) ==
      Exact(n, q, i, d) + Below(n, n.children.Keys - {q[i]}, q, i + 1, d - 1)
      + FuzzyCollect(n, q, i + 1, d - 1) + Below(n, n.children.Keys, q, i, d - 1)
  {
  }

  /** With no budget left only the exact-match branch runs. */
  lemma FuzzyUnfoldSpent(n: Node, q: string, i: nat, d: int)
    requires i < |q| && d <= 0
    ensures FuzzyCollect(n, q, i, d) == Exact(n, q, i, d)
  {
  }
}
