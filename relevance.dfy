/**
 * The ranking of `getSuggestions` in Nutrion/src/lib/trieSearch.ts: the
 * integer score `calculateRelevance`, substring containment as JavaScript's
 * `String.prototype.includes`, and the in-place sort by descending score.
 */
module Relevance {
  import opened TextNormalization
  import opened TrieModel

  /** `q` occurs in `s` starting at position `i`. */
  predicate OccursAt(s: string, q: string, i: nat) {
    i + |q| <= |s| && s[i..i + |q|] == q
  }

  /** `s.includes(q)`: some suffix of `s` starts with `q` (the empty string is in every string). */
  function Includes(s: string, q: string): bool
    decreases |s|
  {
    q <= s || (s != [] && Includes(s[1..], q))
  }

  /** `includes` is exactly "occurs at some position", in both directions. */
  lemma IncludesIff(s: string, q: string)
    ensures Includes(s, q) <==> exists i: nat :: i <= |s| && OccursAt(s, q, i)
  {
    if Includes(s, q) {
      var i := IncludesWitness(s, q);
    }
    forall i: nat | i <= |s| && OccursAt(s, q, i) ensures Includes(s, q) {
      OccursIncludes(s, q, i);
    }
  }

  /** Where `includes` succeeds, the position at which the query occurs. */
  lemma {:induction false} IncludesWitness(s: string, q: string) returns (i: nat)
    requires Includes(s, q)
    ensures i <= |s| && OccursAt(s, q, i)
    decreases |s|
  {
    if q <= s {
      i := 0;
      assert s[..|q|] == q;
    } else {
      var k := IncludesWitness(s[1..], q);
      assert s[k + 1..k + 1 + |q|] == s[1..][k..k + |q|];
      i := k + 1;
    }
  }

  /** An occurrence at any position makes `includes` succeed. */
  lemma {:induction false} OccursIncludes(s: string, q: string, i: nat)
    requires i <= |s| && OccursAt(s, q, i)
    ensures Includes(s, q)
    decreases i
  {
    if i == 0 {
      assert q == s[..|q|];
    } else {
      assert s[1..][i - 1..i - 1 + |q|] == s[i..i + |q|];
      OccursIncludes(s[1..], q, i - 1);
    }
  }

  /** A string that starts with `q` includes it. */
  lemma StartsWithIncludes(s: string, q: string)
    requires q <= s
    ensures Includes(s, q)
  {
  }

  function Abs(x: int): nat {
    if x < 0 then -x else x
  }

  /**
   * `calculateRelevance(name, query)`: 100 when the normalised name starts
   * with the normalised query, else 50 when it contains it, else the length
   * penalty on the raw strings, never below zero.
   */
  function Relevance(name: string, query: string): (r: int)
    ensures 0 <= r <= 100
  {
    var nn, nq := Normalize(name), Normalize(query);
    if nq <= nn then 100
    else if Includes(nn, nq) then 50
    else
      var penalty := 25 - Abs(|name| - |query|);
      if penalty > 0 then penalty else 0
  }

  /** The score is 100 exactly when the normalised name starts with the normalised query. */
  lemma RelevanceTop(name: string, query: string)
    ensures Relevance(name, query) == 100 <==> Normalize(query) <= Normalize(name)
  {
  }

  /** The score is 50 exactly when the normalised query occurs inside the normalised name but not at its start. */
  lemma RelevanceContains(name: string, query: string)
    ensures Relevance(name, query) == 50 <==>
      !(Normalize(query) <= Normalize(name)) && Includes(Normalize(name), Normalize(query))
  {
    var nn, nq := Normalize(name), Normalize(query);
    var penalty := 25 - Abs(|name| - |query|);
    assert Relevance(name, query) == if nq <= nn then 100 else if Includes(nn, nq) then 50 else if penalty > 0 then penalty else 0;
  }

  /**
   * A name that does not contain the query scores at most 25, by how close
   * its raw length is to the query's: whenever the query occurs in the name
   * the score is above 25, and only then.
   */
  lemma RelevanceFallback(name: string, query: string)
    ensures !Includes(Normalize(name), Normalize(query)) ==>
      Relevance(name, query) == (if 25 - Abs(|name| - |query|) > 0 then 25 - Abs(|name| - |query|) else 0)
    ensures Relevance(name, query) > 25 <==> exists i: nat :: i <= |Normalize(name)| && OccursAt(Normalize(name), Normalize(query), i)
  {
    IncludesIff(Normalize(name), Normalize(query));
    if Normalize(query) <= Normalize(name) {
      StartsWithIncludes(Normalize(name), Normalize(query));
    }
  }

  /** A query that normalises to nothing gives every name the top score. */
  lemma RelevanceEmptyQuery(name: string, query: string)
    requires Normalize(query) == []
    ensures Relevance(name, query) == 100
  {
  }

  /** The score of a record by its name. */
  function Score(x: Food, query: string): int {
    Relevance(x.name, query)
  }

  /** The comparator's score as a key function: `item => calculateRelevance(item.name, query)`. */
  function ScoreKey(query: string): Food -> int {
    x => Score(x, query)
  }

  /** The first `n` records are ordered by non-increasing key. */
  predicate SortedUpTo(s: seq<Food>, n: int, key: Food -> int) {
    forall j, k :: 0 <= j < k < n && k < |s| ==> key(s[j]) >= key(s[k])
  }

  /** Ordered by non-increasing score, as the comparator `bRelevance - aRelevance` sorts. */
  predicate SortedByScore(s: seq<Food>, query: string) {
    SortedUpTo(s, |s|, ScoreKey(query))
  }

  /**
   * While the record that was at `i` moves left and now stands at `j`: the
   * records of `s[..i + 1]` other than it are in order, and it outranks
   * every record to its right.
   */
  ghost predicate Sinking(s: seq<Food>, i: int, j: int, key: Food -> int) {
    0 <= j <= i < |s|
    && (forall p, q :: 0 <= p < q <= i && p != j && q != j ==> key(s[p]) >= key(s[q]))
    && (forall q :: j < q <= i ==> key(s[j]) > key(s[q]))
  }

  function Swapped(s: seq<Food>, j: nat): (r: seq<Food>)
    requires 0 < j < |s|
    ensures |r| == |s| && multiset(r) == multiset(s)
    ensures r[j - 1] == s[j] && r[j] == s[j - 1]
    ensures forall k :: 0 <= k < |s| && k != j - 1 && k != j ==> r[k] == s[k]
  {
    s[j - 1 := s[j]][j := s[j - 1]]
  }

  /** The records of `s` whose key is `v`, in their order in `s`. */
  function OfKey(s: seq<Food>, key: Food -> int, v: int): seq<Food>
    decreases |s|
  {
    if s == [] then [] else (if key(s[0]) == v then [s[0]] else []) + OfKey(s[1..], key, v)
  }

  /**
   * Stability: for every key value, the records of that key appear in `s` in
   * the same order as in `t`.
   */
  ghost predicate KeyOrderKept(s: seq<Food>, t: seq<Food>, key: Food -> int) {
    forall v :: OfKey(s, key, v) == OfKey(t, key, v)
  }

  lemma {:induction false} OfKeyConcat(s: seq<Food>, t: seq<Food>, key: Food -> int, v: int)
    ensures OfKey(s + t, key, v) == OfKey(s, key, v) + OfKey(t, key, v)
    decreases |s|
  {
    if s == [] {
      assert s + t == t;
    } else {
      var h: seq<Food> := if key(s[0]) == v then [s[0]] else [];
      assert (s + t)[0] == s[0] && (s + t)[1..] == s[1..] + t;
      assert OfKey(s + t, key, v) == h + OfKey(s[1..] + t, key, v);
      assert OfKey(s, key, v) == h + OfKey(s[1..], key, v);
      OfKeyConcat(s[1..], t, key, v);
    }
  }

  lemma OfKeyPair(x: Food, y: Food, key: Food -> int, v: int)
    ensures OfKey([x, y], key, v) == (if key(x) == v then [x] else []) + (if key(y) == v then [y] else [])
  {
    assert [x, y][1..] == [y] && [y][1..] == [];
    var ly: seq<Food> := if key(y) == v then [y] else [];
    assert OfKey([y], key, v) == ly + OfKey([], key, v) == ly + [] == ly;
  }

  /** Swapping two neighbours of different key keeps the order of the records of key `v`. */
  lemma SwappedOfKey(front: seq<Food>, x: Food, y: Food, back: seq<Food>, key: Food -> int, v: int)
    requires key(x) != key(y)
    ensures OfKey(front + [y, x] + back, key, v) == OfKey(front + [x, y] + back, key, v)
  {
    OfKeyConcat(front + [x, y], back, key, v);
    OfKeyConcat(front, [x, y], key, v);
    OfKeyConcat(front + [y, x], back, key, v);
    OfKeyConcat(front, [y, x], key, v);
    OfKeyPair(x, y, key, v);
    OfKeyPair(y, x, key, v);
  }

  /** Swapping two neighbours of different key keeps the order of the records within every key. */
  lemma SwappedKeepsKeyOrder(s: seq<Food>, j: nat, key: Food -> int)
    requires 0 < j < |s| && key(s[j - 1]) != key(s[j])
    ensures KeyOrderKept(Swapped(s, j), s, key)
  {
    var front, back := s[..j - 1], s[j + 1..];
    assert s == front + [s[j - 1], s[j]] + back;
    assert Swapped(s, j) == front + [s[j], s[j - 1]] + back;
    forall v ensures OfKey(Swapped(s, j), key, v) == OfKey(s, key, v) {
      SwappedOfKey(front, s[j - 1], s[j], back, key, v);
    }
  }

  lemma OfKeyHead(s: seq<Food>, key: Food -> int)
    requires s != []
    ensures OfKey(s, key, key(s[0])) != [] && OfKey(s, key, key(s[0]))[0] == s[0]
  {
  }

  /** Dropping the first record drops it from its own key's list only. */
  lemma OfKeyTail(s: seq<Food>, key: Food -> int, v: int)
    requires s != []
    ensures OfKey(s[1..], key, v) == if key(s[0]) == v then OfKey(s, key, v)[1..] else OfKey(s, key, v)
  {
  }

  /** A key with a non-empty list is the key of some record. */
  lemma {:induction false} OfKeyMember(s: seq<Food>, key: Food -> int, v: int) returns (i: nat)
    requires OfKey(s, key, v) != []
    ensures i < |s| && key(s[i]) == v
    decreases |s|
  {
    if key(s[0]) == v {
      i := 0;
    } else {
      var k := OfKeyMember(s[1..], key, v);
      i := k + 1;
    }
  }

  /** Keeping the order within every key, a non-empty sequence is matched by a non-empty one. */
  lemma NonEmptyMatch(s: seq<Food>, t: seq<Food>, key: Food -> int)
    requires KeyOrderKept(s, t, key) && s != []
    ensures t != []
  {
    OfKeyHead(s, key);
    assert OfKey(t, key, key(s[0])) != [];
  }

  /** Two sorted sequences that keep the same order within every key start with the same record. */
  lemma SameHead(s: seq<Food>, t: seq<Food>, key: Food -> int)
    requires SortedUpTo(s, |s|, key) && SortedUpTo(t, |t|, key)
    requires KeyOrderKept(s, t, key) && s != [] && t != []
    ensures s[0] == t[0]
  {
    var v, w := key(s[0]), key(t[0]);
    OfKeyHead(s, key);
    OfKeyHead(t, key);
    var i := OfKeyMember(s, key, w);
    if i > 0 {
      assert key(s[0]) >= key(s[i]);
    }
    var k := OfKeyMember(t, key, v);
    if k > 0 {
      assert key(t[0]) >= key(t[k]);
    }
    assert v == w;
  }

  lemma SortedTail(s: seq<Food>, key: Food -> int)
    requires SortedUpTo(s, |s|, key) && s != []
    ensures SortedUpTo(s[1..], |s[1..]|, key)
  {
    forall j, k | 0 <= j < k < |s[1..]| ensures key(s[1..][j]) >= key(s[1..][k]) {
      assert s[1..][j] == s[j + 1] && s[1..][k] == s[k + 1];
    }
  }

  /** Dropping a common first record keeps the order within every key. */
  lemma KeyOrderTail(s: seq<Food>, t: seq<Food>, key: Food -> int)
    requires KeyOrderKept(s, t, key) && s != [] && t != [] && s[0] == t[0]
    ensures KeyOrderKept(s[1..], t[1..], key)
  {
    forall u ensures OfKey(s[1..], key, u) == OfKey(t[1..], key, u) {
      OfKeyTail(s, key, u);
      OfKeyTail(t, key, u);
    }
  }

  /**
   * A stable sort is unique: two sequences ordered by non-increasing key that
   * keep the same order within every key are equal.
   */
  lemma {:induction false} StableSortUnique(s: seq<Food>, t: seq<Food>, key: Food -> int)
    requires SortedUpTo(s, |s|, key) && SortedUpTo(t, |t|, key)
    requires KeyOrderKept(s, t, key)
    ensures s == t
    decreases |s|
  {
    if s != [] {
      NonEmptyMatch(s, t, key);
    }
    if t != [] {
      NonEmptyMatch(t, s, key);
    }
    if s != [] {
      SameHead(s, t, key);
      SortedTail(s, key);
      SortedTail(t, key);
      KeyOrderTail(s, t, key);
      StableSortUnique(s[1..], t[1..], key);
      assert s == [s[0]] + s[1..] && t == [t[0]] + t[1..];
    }
  }

  lemma SinkStart(s: seq<Food>, i: int, key: Food -> int)
    requires 0 <= i < |s| && SortedUpTo(s, i, key)
    ensures Sinking(s, i, i, key)
  {
  }

  /** One swap of the inner loop keeps the sinking invariant, one place further left. */
  lemma SinkStep(s: seq<Food>, i: int, j: nat, key: Food -> int)
    requires Sinking(s, i, j, key) && 0 < j && key(s[j - 1]) < key(s[j])
    ensures Sinking(Swapped(s, j), i, j - 1, key)
  {
    var r := Swapped(s, j);
    forall p, q | 0 <= p < q <= i && p != j - 1 && q != j - 1 ensures key(r[p]) >= key(r[q]) {
      if p == j {
        assert r[p] == s[j - 1];
      } else if q == j {
        assert r[q] == s[j - 1];
      }
    }
  }

  /** The state of the inner loop: sinking, and still a stable rearrangement of `orig`. */
  ghost predicate SinkState(s: seq<Food>, orig: seq<Food>, i: int, j: int, key: Food -> int) {
    Sinking(s, i, j, key) && multiset(s) == multiset(orig) && KeyOrderKept(s, orig, key)
  }

  /** One swap of the inner loop keeps its state, one place further left. */
  lemma SinkSwap(s: seq<Food>, orig: seq<Food>, i: int, j: nat, key: Food -> int)
    requires SinkState(s, orig, i, j, key) && 0 < j && key(s[j - 1]) < key(s[j])
    ensures SinkState(Swapped(s, j), orig, i, j - 1, key)
  {
    SinkStep(s, i, j, key);
    SwappedKeepsKeyOrder(s, j, key);
  }

  /** When the moving record meets one that is not lower, the first `i + 1` records are in order. */
  lemma SinkDone(s: seq<Food>, i: int, j: int, key: Food -> int)
    requires Sinking(s, i, j, key) && (j == 0 || key(s[j - 1]) >= key(s[j]))
    ensures SortedUpTo(s, i + 1, key)
  {
  }

  /**
   * `results.sort((a, b) => relevance(b) - relevance(a))`, in place, with the
   * comparator's score given as `key`: an insertion sort that moves each
   * record left past every record of lower key.  The array ends ordered by
   * non-increasing key, holds the same records, and keeps records of equal
   * key in their original order (the sort is stable).
   */
  method SortByKey(a: array<Food>, key: Food -> int)
    modifies a
    ensures SortedUpTo(a[..], a.Length, key)
    ensures multiset(a[..]) == multiset(old(a[..]))
    ensures KeyOrderKept(a[..], old(a[..]), key)
  {
    var i := 0;
    while i < a.Length
      invariant 0 <= i <= a.Length
      invariant SortedUpTo(a[..], i, key)
      invariant multiset(a[..]) == multiset(old(a[..]))
      invariant KeyOrderKept(a[..], old(a[..]), key)
    {
      Sink(a, i, key);
      i := i + 1;
    }
  }

  /** The inner loop: the record at `i` moves left past every record of lower key. */
  method Sink(a: array<Food>, i: int, key: Food -> int)
    requires 0 <= i < a.Length && SortedUpTo(a[..], i, key)
    modifies a
    ensures SortedUpTo(a[..], i + 1, key)
    ensures multiset(a[..]) == multiset(old(a[..]))
    ensures KeyOrderKept(a[..], old(a[..]), key)
  {
    SinkStart(a[..], i, key);
    var j := i;
    while j > 0 && key(a[j - 1]) < key(a[j])
      invariant SinkState(a[..], old(a[..]), i, j, key)
    {
      ghost var s := a[..];
      SinkSwap(s, old(a[..]), i, j, key);
      a[j - 1], a[j] := a[j], a[j - 1];
      assert a[..] == Swapped(s, j);
      j := j - 1;
    }
    SinkDone(a[..], i, j, key);
  }
}
