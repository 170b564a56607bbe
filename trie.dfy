/**
 * The class `Trie` of Nutrion/src/lib/trieSearch.ts: the root field, the
 * insertion that walks and extends the path of a normalised name, and the
 * searches built on it.  Nodes are values (`TrieModel.Node`); the methods
 * walk them with loops and recursion as the original does, and are proved
 * against the value specifications of the other modules.
 */
module TrieSearch {
  import opened TextNormalization
  import opened TrieModel
  import opened FuzzyMatch
  import opened SearchResults
  import opened Relevance
  import opened TrieStatistics

  /** What `searchPrefix(prefix)` returns on the trie rooted at `n`. */
  function PrefixResults(n: Node, prefix: string): seq<Food> {
    if prefix == [] then [] else WordsAt(n, Normalize(prefix))
  }

  /** No record occurs twice (the values of a JavaScript `Set`, in insertion order). */
  predicate Distinct(s: seq<Food>) {
    forall j, k :: 0 <= j < k < |s| ==> s[j] != s[k]
  }

  lemma PrefixTrans(a: seq<Food>, b: seq<Food>, c: seq<Food>)
    requires a <= b && b <= c
    ensures a <= c
  {
    assert forall k :: 0 <= k < |a| ==> a[k] == b[k] == c[k];
  }

  /** The names of stored records whose normalised name contains `nq`. */
  ghost function MatchingNames(n: Node, nq: string): set<string> {
    set x | x in Stored(n) && Includes(Normalize(x.name), nq) :: x.name
  }

  /** The names of every stored record. */
  ghost function StoredNames(n: Node): set<string> {
    set x | x in Stored(n) :: x.name
  }

  /** What `partialSearch(query)` promises of its result `r`. */
  ghost predicate IsPartialResult(n: Node, query: string, r: seq<Food>) {
    (forall x :: x in r ==> Includes(Normalize(x.name), Normalize(query)))
    && DistinctNames(r)
    && Elems(r) <= Stored(n)
    && Names(r) == MatchingNames(n, Normalize(query))
  }

  /** What `fuzzySearch(query, d)` promises of its result `r`. */
  ghost predicate IsFuzzyResult(n: Node, query: string, d: int, r: seq<Food>) {
    Elems(r) == FuzzyCollect(n, Normalize(query), 0, d) && Distinct(r)
  }

  /**
   * `intelligentSearch(query, limit)` returned `r`, where `par` and `fz` are
   * the partial and fuzzy results it used (only those its steps consulted
   * are constrained).
   */
  ghost predicate IsCombinedResult(n: Node, query: string, limit: int, r: seq<Food>, par: seq<Food>, fz: seq<Food>) {
    var nq := Trim(query);
    if nq == [] then r == []
    else
      var pre := PrefixResults(n, nq);
      var r1 := PrefixStep(pre, limit);
      r == Merge(pre, par, fz, |nq|, limit)
      && (|r1| < limit ==> IsPartialResult(n, nq, par))
      && (|PartialStep(r1, par, limit)| < limit && |nq| > 3 ==> IsFuzzyResult(n, nq, 1, fz))
  }

  /** Every record returned by a prefix search is stored in the trie. */
  lemma PrefixResultsStored(n: Node, prefix: string)
    ensures Elems(PrefixResults(n, prefix)) <= Stored(n)
  {
    if prefix != [] && Lookup(n, Normalize(prefix)).Some? {
      LookupStored(n, Normalize(prefix));
    }
  }

  /** A prefix search returns at most `MaxWords` records. */
  lemma PrefixResultsBound(n: Node, prefix: string)
    requires Capped(n)
    ensures |PrefixResults(n, prefix)| <= MaxWords
  {
    if prefix != [] && Lookup(n, Normalize(prefix)).Some? {
      CappedLookup(n, Normalize(prefix));
    }
  }

  /**
   * A prefix search finds nothing when the prefix is empty, when it
   * normalises to nothing (the root holds no records) and when its path
   * leaves the trie.
   */
  lemma PrefixResultsEmpty(n: Node, prefix: string)
    requires n.words == []
    requires prefix == [] || Normalize(prefix) == [] || Lookup(n, Normalize(prefix)).None?
    ensures PrefixResults(n, prefix) == []
  {
  }

  /** A prefix of punctuation only, such as "!!!", passes the guard on the raw string and still finds nothing. */
  lemma PrefixOfPunctuation(n: Node)
    requires n.words == []
    ensures PrefixResults(n, "!!!") == []
  {
    assert FoldAll("!!!") == "!!!";
    assert Filter("!!!", IsNotMark) == "!!!";
    assert Filter("!!!", IsWordChar) == [];
    PrefixResultsEmpty(n, "!!!");
  }

  /**
   * Insert, then search: after `insert(name, p)` on a trie none of whose
   * nodes on the path was full, `p` is found by the name itself and by every
   * non-empty prefix of its key.
   */
  lemma PrefixRoundTrip(n: Node, name: string, p: Food, prefix: string)
    requires forall s :: s <= Normalize(name) && s != [] ==> |WordsAt(n, s)| < MaxWords
    requires (prefix == name && Normalize(name) != []) || (prefix != [] && prefix <= Normalize(name))
    ensures p in PrefixResults(InsertBelow(n, Normalize(name), p), prefix)
  {
    var key := Normalize(name);
    NormalizeShape(name);
    if prefix == name && key != [] {
      assert name != [] by { NormalizeEmpty(); }
      InsertOnPath(n, key, p, key);
    } else {
      NormalizePrefixOfKey(key, prefix);
      var nq := Normalize(prefix);
      assert nq <= key;
      InsertOnPath(n, key, p, nq);
    }
  }

  /** On a trie with an empty root list, the fuzzy search without budget finds exactly the prefix search's records. */
  lemma FuzzyZeroIsPrefix(n: Node, query: string)
    requires n.words == []
    ensures FuzzyCollect(n, Normalize(query), 0, 0) == Elems(PrefixResults(n, query))
  {
    var nq := Normalize(query);
    FuzzyAtZero(n, nq, 0);
    assert nq[0..] == nq;
    if query == [] {
      NormalizeEmpty();
    }
  }

  /** With any budget the fuzzy search finds at least the prefix search's records. */
  lemma FuzzyCoversPrefix(n: Node, query: string, d: int)
    requires n.words == [] && d >= 0
    ensures Elems(PrefixResults(n, query)) <= FuzzyCollect(n, Normalize(query), 0, d)
  {
    FuzzyZeroIsPrefix(n, query);
    FuzzyMonotone(n, Normalize(query), 0, d);
  }

  /** The names of the stored records of a node: its own list's and those under its children. */
  ghost function NamesBelow(n: Node, cs: set<char>): set<string>
    requires cs <= n.children.Keys
  {
    set c, x | c in cs && x in Stored(n.children[c]) :: x.name
  }

  lemma NamesBelowAdd(n: Node, cs: set<char>, c: char)
    requires cs <= n.children.Keys && c in n.children
    ensures NamesBelow(n, cs + {c}) == NamesBelow(n, cs) + StoredNames(n.children[c])
  {
    forall nm | nm in StoredNames(n.children[c]) ensures nm in NamesBelow(n, cs + {c}) {
      var x :| x in Stored(n.children[c]) && x.name == nm;
    }
  }

  lemma StoredNamesSplit(n: Node)
    ensures StoredNames(n) == Names(n.words) + NamesBelow(n, n.children.Keys)
  {
    forall nm | nm in StoredNames(n) ensures nm in Names(n.words) + NamesBelow(n, n.children.Keys) {
      var x :| x in Stored(n) && x.name == nm;
      if x !in Elems(n.words) {
        var c :| c in n.children && x in Stored(n.children[c]);
      }
    }
    forall nm | nm in NamesBelow(n, n.children.Keys) ensures nm in StoredNames(n) {
      var c, x :| c in n.children && x in Stored(n.children[c]) && x.name == nm;
      ChildStored(n, c);
    }
    forall nm | nm in Names(n.words) ensures nm in StoredNames(n) {
      var x :| x in n.words && x.name == nm;
    }
  }

  lemma ElemsEmpty(s: seq<Food>)
    ensures Elems(s) == {} <==> s == []
  {
    if s != [] { assert s[0] in Elems(s); }
  }

  /** A cleared trie finds nothing in any search and counts one node, no records and depth zero. */
  lemma ClearedFindsNothing(query: string, d: int, limit: int, r: seq<Food>, par: seq<Food>, fz: seq<Food>)
    ensures PrefixResults(EmptyNode(), query) == []
    ensures FuzzyCollect(EmptyNode(), Normalize(query), 0, d) == {}
    ensures MatchingNames(EmptyNode(), Normalize(query)) == {}
    ensures IsPartialResult(EmptyNode(), query, par) ==> par == []
    ensures IsCombinedResult(EmptyNode(), query, limit, r, par, fz) ==> r == []
    ensures Summary(EmptyNode()) == TrieStats(1, 0, 0)
  {
    LookupEmpty(Normalize(query));
    FuzzyEmpty(Normalize(query), 0, d);
    StoredEmpty();
    SummaryEmpty();
    if IsPartialResult(EmptyNode(), query, par) {
      ElemsEmpty(par);
    }
    if IsCombinedResult(EmptyNode(), query, limit, r, par, fz) {
      ClearedCombined(query, limit, r, par, fz);
    }
  }

  lemma ClearedCombined(query: string, limit: int, r: seq<Food>, par: seq<Food>, fz: seq<Food>)
    requires IsCombinedResult(EmptyNode(), query, limit, r, par, fz)
    ensures r == []
  {
    var nq := Trim(query);
    if nq != [] {
      LookupEmpty(Normalize(nq));
      StoredEmpty();
      FuzzyEmpty(Normalize(nq), 0, 1);
      var r1 := PrefixStep([], limit);
      assert r1 == [];
      if 0 < limit {
        ElemsEmpty(par);
        var r2 := PartialStep(r1, par, limit);
        assert r2 == [];
        if |nq| > 3 {
          ElemsEmpty(fz);
        }
      }
    }
  }

  /** The three steps of the combined search, each on the answers of the searches it consulted, give a combined result. */
  lemma CombinedIntro(n: Node, query: string, nq: string, limit: int, pre: seq<Food>, r: seq<Food>, par: seq<Food>, fz: seq<Food>)
    requires nq == Trim(query) && nq != []
    requires pre == PrefixResults(n, nq)
    requires r == Merge(pre, par, fz, |nq|, limit)
    requires |PrefixStep(pre, limit)| < limit ==> IsPartialResult(n, nq, par)
    requires |PartialStep(PrefixStep(pre, limit), par, limit)| < limit && |nq| > 3 ==> IsFuzzyResult(n, nq, 1, fz)
    ensures IsCombinedResult(n, query, limit, r, par, fz)
  {
  }

  /** What every combined search result satisfies: distinct names, at most `limit` records, all of them stored. */
  lemma CombinedFacts(n: Node, query: string, limit: int, r: seq<Food>, par: seq<Food>, fz: seq<Food>)
    requires IsCombinedResult(n, query, limit, r, par, fz)
    ensures DistinctNames(r)
    ensures limit >= 0 ==> |r| <= limit
    ensures Elems(r) <= Stored(n)
  {
    var nq := Trim(query);
    if nq != [] {
      var pre := PrefixResults(n, nq);
      MergeDistinct(pre, par, fz, |nq|, limit);
      if limit >= 0 {
        MergeBound(pre, par, fz, |nq|, limit);
      }
      MergeElements(pre, par, fz, |nq|, limit);
      PrefixResultsStored(n, nq);
      var r1 := PrefixStep(pre, limit);
      var r2 := PartialStep(r1, par, limit);
      var r3 := FuzzyStep(r2, fz, |nq|, limit);
      // Only the inputs a step consulted reach the result.
      if |r1| < limit {
        assert Elems(par) <= Stored(n);
      } else {
        MergeElements(pre, [], fz, |nq|, limit);
      }
      if |r2| < limit && |nq| > 3 {
        FuzzyStored(n, Normalize(nq), 0, 1);
      } else {
        assert r3 == r2;
        MergeElements(pre, par, [], |nq|, limit);
        if |r1| >= limit {
          MergeElements(pre, [], [], |nq|, limit);
        }
      }
    }
  }

  /** The record multiset decides name-distinctness: a reordering of a name-distinct list is name-distinct. */
  lemma {:induction false} PermutationKeepsDistinct(s: seq<Food>, t: seq<Food>)
    requires multiset(s) == multiset(t) && DistinctNames(t)
    ensures DistinctNames(s)
  {
    forall j, k | 0 <= j < k < |s| ensures s[j].name != s[k].name {
      var x, y := s[j], s[k];
      assert x in multiset(t) && y in multiset(t);
      var p :| 0 <= p < |t| && t[p] == x;
      var q :| 0 <= q < |t| && t[q] == y;
      if x.name == y.name {
        assert p == q;
        assert multiset(s)[x] >= 2 by { TwoOccurrences(s, j, k); }
        OneOccurrence(t, p);
        assert false;
      }
    }
  }

  lemma {:induction false} TwoOccurrences(s: seq<Food>, j: nat, k: nat)
    requires j < k < |s| && s[j] == s[k]
    ensures multiset(s)[s[j]] >= 2
  {
    assert s == s[..j] + [s[j]] + s[j + 1..k] + [s[k]] + s[k + 1..];
  }

  lemma OneOccurrence(t: seq<Food>, p: nat)
    requires DistinctNames(t) && p < |t|
    ensures multiset(t)[t[p]] == 1
  {
    assert t == t[..p] + [t[p]] + t[p + 1..];
    assert t[p] !in t[..p];
    assert t[p] !in t[p + 1..];
  }

  /**
   * Cutting a reordering of a name-distinct list that is sorted by score:
   * the kept part is sorted and name-distinct, kept and dropped records
   * together are the original ones, and each kept record scores at least as
   * high as each dropped one.
   */
  lemma CutSorted(sorted: seq<Food>, results: seq<Food>, limit: int, query: string)
    requires SortedByScore(sorted, query)
    requires multiset(sorted) == multiset(results) && DistinctNames(results)
    ensures var r := Take(sorted, limit);
      var rest := sorted[|r|..];
      && SortedByScore(r, query)
      && multiset(r) + multiset(rest) == multiset(results)
      && (forall j, k :: 0 <= j < |r| && 0 <= k < |rest| ==> Score(r[j], query) >= Score(rest[k], query))
      && DistinctNames(r)
      && Elems(r) <= Elems(results)
  {
    var k := |Take(sorted, limit)|;
    assert Take(sorted, limit) == sorted[..k];
    CutOrdered(sorted, k, query);
    CutMultiset(sorted, k);
    CutDistinct(sorted, results, k);
  }

  lemma CutOrdered(sorted: seq<Food>, k: nat, query: string)
    requires SortedByScore(sorted, query) && k <= |sorted|
    ensures SortedByScore(sorted[..k], query)
    ensures forall j, l :: 0 <= j < k && 0 <= l < |sorted| - k ==> Score(sorted[..k][j], query) >= Score(sorted[k..][l], query)
  {
    forall j, l | 0 <= j < k && 0 <= l < |sorted| - k ensures Score(sorted[..k][j], query) >= Score(sorted[k..][l], query) {
      assert sorted[..k][j] == sorted[j] && sorted[k..][l] == sorted[k + l];
    }
  }

  lemma CutMultiset(sorted: seq<Food>, k: nat)
    requires k <= |sorted|
    ensures multiset(sorted[..k]) + multiset(sorted[k..]) == multiset(sorted)
  {
    assert sorted == sorted[..k] + sorted[k..];
  }

  lemma CutDistinct(sorted: seq<Food>, results: seq<Food>, k: nat)
    requires multiset(sorted) == multiset(results) && DistinctNames(results) && k <= |sorted|
    ensures DistinctNames(sorted[..k]) && Elems(sorted[..k]) <= Elems(results)
  {
    PermutationKeepsDistinct(sorted, results);
    DistinctPrefix(sorted, sorted[..k]);
    forall x | x in sorted[..k] ensures x in Elems(results) {
      assert x in multiset(results);
    }
  }

  /** Filtering a list that holds every stored name finds exactly the matching stored names. */
  lemma MatchingOfAll(n: Node, all: seq<Food>, nq: string)
    requires Names(all) == StoredNames(n) && Elems(all) <= Stored(n)
    ensures MatchingIn(all, nq) == MatchingNames(n, nq)
  {
    forall nm | nm in MatchingNames(n, nq) ensures nm in MatchingIn(all, nq) {
      var x :| x in Stored(n) && Includes(Normalize(x.name), nq) && x.name == nm;
      assert nm in StoredNames(n);
      var y :| y in all && y.name == nm;
    }
  }

  class Trie {
    var root: Node

    /** The root is the only node `insert` never pushes into, and no node exceeds the cap. */
    ghost predicate Valid()
      reads this
    {
      Capped(root) && root.words == []
    }

    /** `new Trie()`: a single empty root. */
    constructor ()
      ensures Valid() && root == EmptyNode()
    {
      root := EmptyNode();
    }

    /**
     * `insert(word, payload)`: walk the key `normalizeText(word)` from the
     * root, creating missing children and pushing the payload into every
     * node entered that holds fewer than `MaxWords` records, then mark the
     * last node.  Nodes are values here, so the walk records the nodes it
     * produced and a second loop writes them back from the bottom up.
     */
    method Insert(word: string, payload: Food)
      requires Valid()
      modifies this
      ensures Valid()
      ensures root == InsertBelow(old(root), Normalize(word), payload)
    {
      var key := Normalize(word);
      var path := WalkCreating(root, key, payload);
      var cur := Rebuild(path, key, payload);
      InsertKeepsCapped(root, key, payload);
      root := cur;
    }

    /** `searchPrefix(prefix)`: follow the normalised prefix from the root and return the list of the node reached. */
    method SearchPrefix(prefix: string) returns (r: seq<Food>)
      requires Valid()
      ensures r == PrefixResults(root, prefix)
      ensures |r| <= MaxWords
    {
      PrefixResultsBound(root, prefix);
      if prefix == [] {
        return [];
      }
      var reached := Walk(root, Normalize(prefix));
      r := if reached.Some? then reached.value.words else [];
    }

    /**
     * `fuzzySearchHelper(node, query, i, d, '', results)`: adds to the set
     * `acc` (kept as its insertion-ordered sequence) every record the search
     * from this state finds.
     */
    method FuzzySearchHelper(n: Node, q: string, i: nat, d: int, acc: seq<Food>) returns (out: seq<Food>)
      requires i <= |q|
      ensures acc <= out
      ensures Elems(out) == Elems(acc) + FuzzyCollect(n, q, i, d)
      ensures Distinct(acc) ==> Distinct(out)
      decreases Measure(q, i, d), 1
    {
      if i >= |q| {
        if d >= 0 {
          out := AddEach(acc, n.words);
        } else {
          out := acc;
        }
        return;
      }
      var t := q[i];
      out := acc;
      if t in n.children {
        out := FuzzySearchHelper(n.children[t], q, i + 1, d, out);
      }
      assert Elems(out) == Elems(acc) + Exact(n, q, i, d);
      if d > 0 {
        ghost var mid := out;
        out := FuzzyEdits(n, q, i, d, out);
        FuzzyUnfold(n, q, i, d);
        PrefixTrans(acc, mid, out);
      } else {
        FuzzyUnfoldSpent(n, q, i, d);
      }
    }

    /** The branches `fuzzySearchHelper` takes while budget is left: substitution, insertion, deletion. */
    method FuzzyEdits(n: Node, q: string, i: nat, d: int, acc: seq<Food>) returns (out: seq<Food>)
      requires i < |q| && d > 0
      ensures acc <= out
      ensures Elems(out) == Elems(acc) + Below(n, n.children.Keys - {q[i]}, q, i + 1, d - 1)
        + FuzzyCollect(n, q, i + 1, d - 1) + Below(n, n.children.Keys, q, i, d - 1)
      ensures Distinct(acc) ==> Distinct(out)
      decreases Measure(q, i, d), 0
    {
      // substitution: every child but the one for the query character
      out := FuzzyChildren(n, n.children.Keys - {q[i]}, q, i + 1, d - 1, acc);
      ghost var o1 := out;
      // insertion: skip the query character
      out := FuzzySearchHelper(n, q, i + 1, d - 1, out);
      ghost var o2 := out;
      // deletion: skip a trie character
      out := FuzzyChildren(n, n.children.Keys, q, i, d - 1, out);
      PrefixTrans(acc, o1, o2);
      PrefixTrans(acc, o2, out);
    }

    /** A loop over `Object.entries(node.children)` restricted to `keys`, starting the search at each child. */
    method FuzzyChildren(n: Node, keys: set<char>, q: string, j: nat, d: int, acc: seq<Food>) returns (out: seq<Food>)
      requires j <= |q| && keys <= n.children.Keys
      ensures acc <= out
      ensures Elems(out) == Elems(acc) + Below(n, keys, q, j, d)
      ensures Distinct(acc) ==> Distinct(out)
      decreases Measure(q, j, d), 2
    {
      out := acc;
      var todo := keys;
      BelowNone(n, q, j, d);
      while todo != {}
        invariant todo <= keys
        invariant acc <= out && (Distinct(acc) ==> Distinct(out))
        invariant Elems(out) == Elems(acc) + Below(n, keys - todo, q, j, d)
        decreases todo
      {
        var c :| c in todo;
        ghost var done := keys - todo;
        out := FuzzySearchHelper(n.children[c], q, j, d, out);
        BelowAdd(n, done, c, q, j, d);
        todo := todo - {c};
        assert keys - todo == done + {c};
      }
      assert keys - todo == keys;
    }

    /** `fuzzySearch(query, maxDistance)`: the distinct records found from the root for the normalised query. */
    method FuzzySearch(query: string, maxDistance: int) returns (r: seq<Food>)
      ensures IsFuzzyResult(root, query, maxDistance, r)
    {
      r := FuzzySearchHelper(root, Normalize(query), 0, maxDistance, []);
    }

    /**
     * `getAllWords(node, [])`: the node's records followed by those of every
     * child's subtree, deduplicated by name with `Map.set`.  `ws` is the
     * collected list before deduplication, so `SetAllKeepsLast` and
     * `SetAllKeepsFirstPosition` say which record and which position each
     * name gets in `r`.
     */
    method GetAllWords(n: Node) returns (r: seq<Food>, ghost ws: seq<Food>)
      ensures r == SetAll([], ws) && Elems(ws) <= Stored(n)
      ensures DistinctNames(r)
      ensures Elems(r) <= Stored(n)
      ensures Names(r) == StoredNames(n)
      decreases n
    {
      var words := n.words;
      var keys := n.children.Keys;
      while keys != {}
        invariant keys <= n.children.Keys
        invariant Elems(words) <= Stored(n)
        invariant Names(words) == Names(n.words) + NamesBelow(n, n.children.Keys - keys)
        decreases keys
      {
        var c :| c in keys;
        ghost var done := n.children.Keys - keys;
        var sub, _ := GetAllWords(n.children[c]);
        NamesConcat(words, sub);
        ChildStored(n, c);
        words := words + sub;
        NamesBelowAdd(n, done, c);
        keys := keys - {c};
        assert n.children.Keys - keys == done + {c};
      }
      assert n.children.Keys - keys == n.children.Keys;
      StoredNamesSplit(n);
      r := SetEach([], words);
      ws := words;
    }

    /**
     * `partialSearch(query)`: of all distinct-named records, those whose
     * normalised name contains the normalised query, in traversal order.
     */
    method PartialSearch(query: string) returns (r: seq<Food>)
      ensures IsPartialResult(root, query, r)
    {
      var nq := Normalize(query);
      var all, _ := GetAllWords(root);
      r := KeepMatching(all, nq);
      MatchingOfAll(root, all, nq);
    }

    /**
     * `intelligentSearch(query, limit)`: nothing for a blank query; otherwise
     * the prefix results, then (with room left) partial results, then (with
     * room left and a trimmed query longer than three characters) fuzzy
     * results with budget 1, merged by name and cut to `limit`.  `par` and
     * `fz` are the partial and fuzzy results it consulted.
     */
    method IntelligentSearch(query: string, limit: int) returns (r: seq<Food>, ghost par: seq<Food>, ghost fz: seq<Food>)
      requires Valid()
      ensures IsCombinedResult(root, query, limit, r, par, fz)
      ensures DistinctNames(r) && Elems(r) <= Stored(root)
      ensures limit >= 0 ==> |r| <= limit
    {
      par, fz := [], [];
      var nq := Trim(query);
      if nq == [] {
        r := [];
        return;
      }
      var pre := SearchPrefix(nq);
      var results := SetEach([], Take(pre, limit));
      ghost var r1 := results;
      if |results| < limit {
        var partial := PartialSearch(nq);
        par := partial;
        results := AddEachAbsent(results, Take(partial, limit - |results|));
      }
      ghost var r2 := results;
      assert r2 == PartialStep(r1, par, limit);
      if |results| < limit && |nq| > 3 {
        var fuzzy := FuzzySearch(nq, 1);
        fz := fuzzy;
        results := AddEachAbsent(results, Take(fuzzy, limit - |results|));
      }
      assert results == FuzzyStep(r2, fz, |nq|, limit);
      r := Take(results, limit);
      CombinedIntro(root, query, nq, limit, pre, r, par, fz);
      CombinedFacts(root, query, limit, r, par, fz);
    }

    /** `getStats()`: a counter object filled by `calculateStats` from the root at depth 0. */
    method GetStats() returns (r: TrieStats)
      ensures r == Summary(root)
    {
      var stats := new Stats();
      CalculateStats(root, 0, stats);
      r := TrieStats(stats.totalNodes, stats.totalWords, stats.maxDepth);
    }

    /** `clear()`: a fresh root. */
    method Clear()
      modifies this
      ensures Valid() && root == EmptyNode()
    {
      root := EmptyNode();
    }

    /**
     * `getSuggestions(query, limit)`: the combined search with twice the
     * limit, sorted in place by descending relevance to the raw query, cut
     * to `limit`.  `pool` is what the combined search returned and `rest`
     * what the cut dropped.  `r + rest` is the stable sort of `pool` by
     * descending relevance, and `r` keeps as many records as
     * `pool.slice(0, limit)` would.
     */
    method GetSuggestions(query: string, limit: int) returns (r: seq<Food>, ghost pool: seq<Food>, ghost rest: seq<Food>)
      requires Valid()
      ensures exists par, fz :: IsCombinedResult(root, query, limit * 2, pool, par, fz)
      ensures limit >= 0 ==> |r| <= limit
      ensures |r| == |Take(pool, limit)|
      ensures SortedByScore(r, query)
      ensures SortedByScore(r + rest, query)
      ensures KeyOrderKept(r + rest, pool, ScoreKey(query))
      ensures multiset(r) + multiset(rest) == multiset(pool)
      ensures forall j, k :: 0 <= j < |r| && 0 <= k < |rest| ==> Score(r[j], query) >= Score(rest[k], query)
      ensures DistinctNames(r) && Elems(r) <= Stored(root)
      ensures Trim(query) == [] ==> r == []
    {
      var results, par, fz := IntelligentSearch(query, limit * 2);
      pool := results;
      r, rest := RankAndCut(results, query, limit);
      if Trim(query) == [] {
        assert results == [];
      }
    }
  }

  /**
   * The sort and the cut of `getSuggestions`: `results` sorted stably by
   * descending relevance to `query`, then `slice(0, limit)`; `rest` is what
   * the cut dropped.
   */
  method RankAndCut(results: seq<Food>, query: string, limit: int) returns (r: seq<Food>, ghost rest: seq<Food>)
    requires DistinctNames(results)
    ensures |r| == |Take(results, limit)|
    ensures limit >= 0 ==> |r| <= limit
    ensures SortedByScore(r, query) && SortedByScore(r + rest, query)
    ensures KeyOrderKept(r + rest, results, ScoreKey(query))
    ensures multiset(r) + multiset(rest) == multiset(results)
    ensures forall j, k :: 0 <= j < |r| && 0 <= k < |rest| ==> Score(r[j], query) >= Score(rest[k], query)
    ensures DistinctNames(r) && Elems(r) <= Elems(results)
  {
    var sorted := SortByRelevance(results, query);
    r, rest := Take(sorted, limit), sorted[|Take(sorted, limit)|..];
    CutSorted(sorted, results, limit, query);
    assert r + rest == sorted;
    assert |sorted| == |multiset(sorted)| == |multiset(results)| == |results|;
    TakeLength(sorted, results, limit);
  }

  /** The loop of `insert`: the nodes entered along `key` from `n`, each a child (made if missing) that got the payload. */
  method WalkCreating(n: Node, key: string, payload: Food) returns (path: seq<Node>)
    ensures |path| == |key| + 1 && path[0] == n
    ensures forall k :: 0 <= k < |key| ==> path[k + 1] == Step(path[k], key[k], payload)
  {
    path := [n];
    var node := n;
    var i := 0;
    while i < |key|
      invariant 0 <= i <= |key| && |path| == i + 1
      invariant path[0] == n && path[i] == node
      invariant forall k :: 0 <= k < i ==> path[k + 1] == Step(path[k], key[k], payload)
    {
      node := Step(node, key[i], payload);
      path := path + [node];
      i := i + 1;
    }
  }

  /** Writes the nodes of a walk back into their parents from the bottom up, marking the last as an end. */
  method Rebuild(path: seq<Node>, key: string, payload: Food) returns (cur: Node)
    requires |path| == |key| + 1
    requires forall k :: 0 <= k < |key| ==> path[k + 1] == Step(path[k], key[k], payload)
    ensures cur == InsertBelow(path[0], key, payload)
  {
    var i := |key|;
    cur := path[i].(end := true);
    while i > 0
      invariant 0 <= i <= |key|
      invariant cur == InsertBelow(path[i], key[i..], payload)
    {
      i := i - 1;
      InsertBelowAt(path[i], key, i, payload);
      cur := path[i].(children := path[i].children[key[i] := cur]);
    }
  }

  /**
   * `results.sort(...)` by descending relevance to `query`, on an array
   * holding the results.  `Array.prototype.sort` is stable, and so is this
   * sort: records of equal relevance keep their order in `results`.
   */
  method SortByRelevance(results: seq<Food>, query: string) returns (sorted: seq<Food>)
    ensures SortedByScore(sorted, query)
    ensures multiset(sorted) == multiset(results)
    ensures KeyOrderKept(sorted, results, ScoreKey(query))
  {
    var a := new Food[|results|](k requires 0 <= k < |results| => results[k]);
    assert a[..] == results;
    SortByKey(a, ScoreKey(query));
    sorted := a[..];
  }

  /** The loop of `searchPrefix`: follow `key` from `n` one child at a time, stopping when a child is missing. */
  method Walk(n: Node, key: string) returns (r: Option<Node>)
    ensures r == Lookup(n, key)
  {
    var node := n;
    var i := 0;
    while i < |key|
      invariant 0 <= i <= |key|
      invariant Lookup(n, key[..i]) == Some(node)
    {
      if key[i] !in node.children {
        LookupFallsOff(n, key, i, node);
        return None;
      }
      LookupStep(n, key[..i], key[i], node);
      assert key[..i] + [key[i]] == key[..i + 1];
      node := node.children[key[i]];
      i := i + 1;
    }
    assert key[..i] == key;
    r := Some(node);
  }

  /** The names of the records of `s` whose normalised name contains `nq`. */
  ghost function MatchingIn(s: seq<Food>, nq: string): set<string> {
    set x | x in s && Includes(Normalize(x.name), nq) :: x.name
  }

  lemma MatchingInAppend(s: seq<Food>, x: Food, nq: string)
    ensures MatchingIn(s + [x], nq) == MatchingIn(s, nq) + (if Includes(Normalize(x.name), nq) then {x.name} else {})
  {
    assert forall y :: y in s + [x] <==> y in s || y == x;
  }

  /** A record of a name-distinct list does not share its name with any earlier record. */
  lemma NewNameAt(all: seq<Food>, i: nat, r: seq<Food>)
    requires DistinctNames(all) && i < |all| && Elems(r) <= Elems(all[..i])
    ensures all[i].name !in Names(r)
  {
    forall y | y in r ensures y.name != all[i].name {
      assert y in Elems(r);
      assert y in all[..i];
      var k :| 0 <= k < i && all[..i][k] == y;
      assert all[k] == y;
    }
  }

  /** The filter loop of `partialSearch`: the records of `all` whose normalised name contains `nq`, in order. */
  method KeepMatching(all: seq<Food>, nq: string) returns (r: seq<Food>)
    requires DistinctNames(all)
    ensures forall x :: x in r ==> Includes(Normalize(x.name), nq)
    ensures DistinctNames(r)
    ensures Elems(r) <= Elems(all)
    ensures Names(r) == MatchingIn(all, nq)
  {
    r := [];
    var i := 0;
    while i < |all|
      invariant 0 <= i <= |all|
      invariant forall x :: x in r ==> Includes(Normalize(x.name), nq)
      invariant DistinctNames(r)
      invariant Elems(r) <= Elems(all[..i])
      invariant Names(r) == MatchingIn(all[..i], nq)
    {
      var x := all[i];
      assert all[..i + 1] == all[..i] + [x];
      NamesAppend(all[..i], x);
      MatchingInAppend(all[..i], x, nq);
      if Includes(Normalize(x.name), nq) {
        NewNameAt(all, i, r);
        AppendNewName(r, x);
        r := r + [x];
      }
      i := i + 1;
    }
    assert all[..i] == all;
  }

  /** `set.add` for each record of `ws`, on the insertion-ordered set `acc`. */
  method AddEach(acc: seq<Food>, ws: seq<Food>) returns (out: seq<Food>)
    ensures acc <= out
    ensures Elems(out) == Elems(acc) + Elems(ws)
    ensures Distinct(acc) ==> Distinct(out)
  {
    out := acc;
    var i := 0;
    while i < |ws|
      invariant 0 <= i <= |ws|
      invariant acc <= out
      invariant Elems(out) == Elems(acc) + Elems(ws[..i])
      invariant Distinct(acc) ==> Distinct(out)
    {
      assert ws[..i + 1] == ws[..i] + [ws[i]];
      NamesAppend(ws[..i], ws[i]);
      if ws[i] !in out {
        NamesAppend(out, ws[i]);
        out := out + [ws[i]];
      }
      i := i + 1;
    }
    assert ws[..i] == ws;
  }
}
