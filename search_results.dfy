/**
 * Result lists keyed by record name, as the JavaScript `Map<string, Alimento>`
 * values of Nutrion/src/lib/trieSearch.ts hold them, and the three-step merge
 * of `intelligentSearch`.
 *
 * A `Map` whose keys are names and whose values are records is represented by
 * the sequence of its values in key-insertion order (`Array.from(map.values())`);
 * its keys are the values' names, so they are pairwise distinct.
 */
module SearchResults {
  import opened TrieModel

  /** `Array.prototype.slice(0, end)`: a prefix; a negative `end` counts from the back. */
  function Take<T>(s: seq<T>, end: int): (r: seq<T>)
    ensures r <= s
    ensures end >= 0 ==> |r| <= end
    ensures 0 <= |s| <= end ==> r == s
  {
    if end >= 0 then (if end <= |s| then s[..end] else s)
    else if |s| + end > 0 then s[..|s| + end] else []
  }

  /** How many records `slice(0, end)` keeps depends only on the length of the sequence. */
  lemma TakeLength<T>(s: seq<T>, t: seq<T>, end: int)
    requires |s| == |t|
    ensures |Take(s, end)| == |Take(t, end)|
  {
  }

  function Names(s: seq<Food>): set<string> {
    set x | x in s :: x.name
  }

  predicate DistinctNames(s: seq<Food>) {
    forall j, k :: 0 <= j < k < |s| ==> s[j].name != s[k].name
  }

  /** The first position at which `name` occurs in `ws`. */
  function FirstIndex(ws: seq<Food>, name: string): (k: nat)
    requires name in Names(ws)
    ensures k < |ws| && ws[k].name == name
    ensures forall j :: 0 <= j < k ==> ws[j].name != name
  {
    if ws[0].name == name then 0
    else
      assert name in Names(ws[1..]) by {
        var k :| 0 <= k < |ws| && ws[k].name == name;
        assert ws[1..][k - 1] == ws[k];
      }
      1 + FirstIndex(ws[1..], name)
  }

  /** Every record's name is among the names. */
  lemma NameIn(s: seq<Food>, i: nat)
    requires i < |s|
    ensures s[i].name in Names(s)
  {
    assert s[i] in s;
  }

  lemma NamesAppend(s: seq<Food>, x: Food)
    ensures Names(s + [x]) == Names(s) + {x.name}
    ensures Elems(s + [x]) == Elems(s) + {x}
  {
    assert forall y :: y in s + [x] <==> y in s || y == x;
  }

  /** Appending a record of a new name keeps the names distinct. */
  lemma AppendNewName(s: seq<Food>, x: Food)
    requires DistinctNames(s) && x.name !in Names(s)
    ensures DistinctNames(s + [x])
    ensures Names(s + [x]) == Names(s) + {x.name}
    ensures Elems(s + [x]) == Elems(s) + {x}
  {
    NamesAppend(s, x);
    forall j | 0 <= j < |s| ensures s[j].name != x.name { NameIn(s, j); }
  }

  /** In a name-distinct list, the first occurrence of a name is its only one. */
  lemma DistinctIndex(s: seq<Food>, i: nat)
    requires DistinctNames(s) && i < |s|
    ensures s[i].name in Names(s) && FirstIndex(s, s[i].name) == i
  {
    NameIn(s, i);
  }

  /**
   * `map.set(x.name, x)`: a name already present keeps its position and gets
   * `x` as its value; a new name is appended.
   */
  function Upsert(acc: seq<Food>, x: Food): (r: seq<Food>)
    ensures |r| == if x.name in Names(acc) then |acc| else |acc| + 1
  {
    if x.name in Names(acc) then acc[FirstIndex(acc, x.name) := x] else acc + [x]
  }

  /** What `map.set` does to the set of keys and of values. */
  lemma UpsertFacts(acc: seq<Food>, x: Food)
    ensures Names(Upsert(acc, x)) == Names(acc) + {x.name}
    ensures Elems(Upsert(acc, x)) <= Elems(acc) + {x}
    ensures DistinctNames(acc) ==> DistinctNames(Upsert(acc, x))
  {
    var r := Upsert(acc, x);
    if x.name in Names(acc) {
      var k := FirstIndex(acc, x.name);
      assert forall i :: 0 <= i < |r| ==> r[i] == if i == k then x else acc[i];
      forall nm | nm in Names(r) ensures nm in Names(acc) + {x.name} {
        var y :| y in r && y.name == nm;
        var i :| 0 <= i < |r| && r[i] == y;
        if i != k { NameIn(acc, i); }
      }
      forall nm | nm in Names(acc) ensures nm in Names(r) {
        var y :| y in acc && y.name == nm;
        var i :| 0 <= i < |acc| && acc[i] == y;
        NameIn(r, i);
      }
      forall y | y in r ensures y in Elems(acc) + {x} {
        var i :| 0 <= i < |r| && r[i] == y;
        if i != k { assert acc[i] in acc; }
      }
    } else {
      NamesAppend(acc, x);
      if DistinctNames(acc) {
        forall j, k | 0 <= j < k < |r| ensures r[j].name != r[k].name {
          if k == |acc| { NameIn(acc, j); }
        }
      }
    }
  }

  /** `words.forEach(w => map.set(w.name, w))` starting from the map `acc`. */
  function SetAll(acc: seq<Food>, xs: seq<Food>): (r: seq<Food>)
    ensures Names(r) == Names(acc) + Names(xs)
    ensures Elems(r) <= Elems(acc) + Elems(xs)
    ensures |r| <= |acc| + |xs|
    ensures DistinctNames(acc) ==> DistinctNames(r)
    decreases |xs|
  {
    if xs == [] then acc
    else
      var init, last := xs[..|xs| - 1], xs[|xs| - 1];
      assert xs == init + [last];
      assert Names(xs) == Names(init) + {last.name} by {
        assert forall k :: 0 <= k < |init| ==> xs[k] == init[k];
      }
      UpsertFacts(SetAll(acc, init), last);
      Upsert(SetAll(acc, init), last)
  }

  /** `if (!map.has(x.name)) map.set(x.name, x)`: a new name is appended, a known one changes nothing. */
  function AddIfAbsent(acc: seq<Food>, x: Food): (r: seq<Food>)
    ensures acc <= r
    ensures Names(r) == Names(acc) + {x.name}
    ensures Elems(r) <= Elems(acc) + {x}
    ensures |r| <= |acc| + 1
    ensures DistinctNames(acc) ==> DistinctNames(r)
  {
    if x.name in Names(acc) then acc
    else
      NamesAppend(acc, x);
      assert DistinctNames(acc) ==> DistinctNames(acc + [x]) by {
        forall j | 0 <= j < |acc| ensures acc[j].name != x.name { NameIn(acc, j); }
      }
      acc + [x]
  }

  /** `xs.forEach(x => { if (!map.has(x.name)) map.set(x.name, x) })` starting from the map `acc`. */
  function AddAbsent(acc: seq<Food>, xs: seq<Food>): (r: seq<Food>)
    ensures acc <= r
    ensures Names(r) == Names(acc) + Names(xs)
    ensures Elems(r) <= Elems(acc) + Elems(xs)
    ensures |r| <= |acc| + |xs|
    ensures DistinctNames(acc) ==> DistinctNames(r)
    decreases |xs|
  {
    if xs == [] then acc
    else
      var a := AddIfAbsent(acc, xs[0]);
      assert xs == [xs[0]] + xs[1..];
      NamesConcat([xs[0]], xs[1..]);
      AddAbsent(a, xs[1..])
  }

  /** Position by position, `map.set` on distinct names: only the entry of `x`'s name (or the new last one) becomes `x`. */
  lemma UpsertAt(acc: seq<Food>, x: Food, k: nat)
    requires DistinctNames(acc) && k < |Upsert(acc, x)|
    ensures Upsert(acc, x)[k] == if k < |acc| && acc[k].name != x.name then acc[k] else x
  {
    if k < |acc| {
      DistinctIndex(acc, k);
    }
  }

  /** `ws[i]` is the last record in `ws` with its name. */
  predicate IsLastOfName(ws: seq<Food>, i: int) {
    0 <= i < |ws| && forall j :: i < j < |ws| ==> ws[j].name != ws[i].name
  }

  /** The deduplication of `getAllWords` (`Map.set` over a list, then the values) keeps the last record of each name. */
  lemma {:induction false} SetAllKeepsLast(ws: seq<Food>, k: nat) returns (i: nat)
    requires k < |SetAll([], ws)|
    ensures IsLastOfName(ws, i) && ws[i] == SetAll([], ws)[k]
    decreases |ws|
  {
    var init, last := SetAllSnoc(ws);
    var r' := SetAll([], init);
    UpsertAt(r', last, k);
    if k < |r'| && r'[k].name != last.name {
      i := SetAllKeepsLast(init, k);
      LastOfNameExtend(init, last, i);
    } else {
      i := |ws| - 1;
    }
  }

  /** One step of `SetAll` from the empty map, on the last record. */
  lemma SetAllSnoc(ws: seq<Food>) returns (init: seq<Food>, last: Food)
    requires ws != []
    ensures ws == init + [last]
    ensures SetAll([], ws) == Upsert(SetAll([], init), last)
    ensures DistinctNames(SetAll([], init))
  {
    init, last := ws[..|ws| - 1], ws[|ws| - 1];
    assert ws == init + [last];
  }

  /** A last occurrence stays last when a record of another name is appended. */
  lemma LastOfNameExtend(ws: seq<Food>, x: Food, i: nat)
    requires IsLastOfName(ws, i) && x.name != ws[i].name
    ensures IsLastOfName(ws + [x], i) && (ws + [x])[i] == ws[i]
  {
  }

  /** The deduplication keeps each name at the position of its first occurrence: names appear in first-occurrence order. */
  lemma {:induction false} SetAllKeepsFirstPosition(ws: seq<Food>, j: nat, k: nat)
    requires j < k < |SetAll([], ws)|
    ensures SetAll([], ws)[j].name in Names(ws) && SetAll([], ws)[k].name in Names(ws)
    ensures FirstIndex(ws, SetAll([], ws)[j].name) < FirstIndex(ws, SetAll([], ws)[k].name)
    decreases |ws|, 1
  {
    var init, last := SetAllSnoc(ws);
    NameIn(SetAll([], ws), j);
    NameIn(SetAll([], ws), k);
    if last.name in Names(SetAll([], init)) {
      FirstPositionKnown(init, last, j, k);
    } else {
      FirstPositionNew(init, last, j, k);
    }
  }

  /** The order case where the last record's name was already present: its entry only changes value. */
  lemma {:induction false} FirstPositionKnown(init: seq<Food>, last: Food, j: nat, k: nat)
    requires last.name in Names(SetAll([], init)) && DistinctNames(SetAll([], init))
    requires j < k < |Upsert(SetAll([], init), last)|
    ensures var r := Upsert(SetAll([], init), last);
      r[j].name in Names(init + [last]) && r[k].name in Names(init + [last])
      && FirstIndex(init + [last], r[j].name) < FirstIndex(init + [last], r[k].name)
    decreases |init| + 1, 0
  {
    var r' := SetAll([], init);
    UpsertKeepsNames(r', last);
    NameIn(r', j);
    NameIn(r', k);
    NamesAppend(init, last);
    SetAllKeepsFirstPosition(init, j, k);
    FirstIndexExtend(init, last, r'[j].name);
    FirstIndexExtend(init, last, r'[k].name);
  }

  /** The order case where the last record's name is new: it is appended, after every earlier name. */
  lemma {:induction false} FirstPositionNew(init: seq<Food>, last: Food, j: nat, k: nat)
    requires last.name !in Names(SetAll([], init)) && DistinctNames(SetAll([], init))
    requires j < k < |Upsert(SetAll([], init), last)|
    ensures var r := Upsert(SetAll([], init), last);
      r[j].name in Names(init + [last]) && r[k].name in Names(init + [last])
      && FirstIndex(init + [last], r[j].name) < FirstIndex(init + [last], r[k].name)
    decreases |init| + 1, 0
  {
    var r' := SetAll([], init);
    var r := Upsert(r', last);
    assert r == r' + [last];
    NameIn(r', j);
    FirstIndexExtend(init, last, r'[j].name);
    NamesAppend(init, last);
    if k < |r'| {
      SetAllKeepsFirstPosition(init, j, k);
      NameIn(r', k);
      FirstIndexExtend(init, last, r'[k].name);
    } else {
      FirstIndexNew(init, last);
    }
  }

  /** `map.set` of a name already present changes no name at any position. */
  lemma UpsertKeepsNames(acc: seq<Food>, x: Food)
    requires x.name in Names(acc)
    ensures |Upsert(acc, x)| == |acc|
    ensures forall i :: 0 <= i < |acc| ==> Upsert(acc, x)[i].name == acc[i].name
  {
  }

  /** A name that first occurs in the appended record occurs first at the end. */
  lemma FirstIndexNew(ws: seq<Food>, x: Food)
    requires x.name !in Names(ws)
    ensures x.name in Names(ws + [x]) && FirstIndex(ws + [x], x.name) == |ws|
  {
    NamesAppend(ws, x);
  }

  /** Extending a list leaves the first occurrence of a name it already had where it was. */
  lemma FirstIndexExtend(ws: seq<Food>, x: Food, name: string)
    requires name in Names(ws)
    ensures name in Names(ws + [x]) && FirstIndex(ws + [x], name) == FirstIndex(ws, name)
  {
    var k := FirstIndex(ws, name);
    assert (ws + [x])[k] == ws[k];
    var k' := FirstIndex(ws + [x], name);
    assert k' <= k;
    assert (ws + [x])[k'] == ws[k'];
  }

  /** Step 1 of `intelligentSearch`: the first `limit` prefix results, set by name. */
  function PrefixStep(pre: seq<Food>, limit: int): seq<Food> {
    SetAll([], Take(pre, limit))
  }

  /** Step 2: with room left, the first `limit - size` partial results are sliced off and only then filtered for new names. */
  function PartialStep(r1: seq<Food>, par: seq<Food>, limit: int): seq<Food> {
    if |r1| < limit then AddAbsent(r1, Take(par, limit - |r1|)) else r1
  }

  /** Step 3: the same with the fuzzy results, gated on the length of the trimmed query. */
  function FuzzyStep(r2: seq<Food>, fz: seq<Food>, queryLength: int, limit: int): seq<Food> {
    if |r2| < limit && queryLength > 3 then AddAbsent(r2, Take(fz, limit - |r2|)) else r2
  }

  /** `intelligentSearch` once its three searches have answered: the map's values, sliced to `limit`. */
  function Merge(pre: seq<Food>, par: seq<Food>, fz: seq<Food>, queryLength: int, limit: int): seq<Food> {
    Take(FuzzyStep(PartialStep(PrefixStep(pre, limit), par, limit), fz, queryLength, limit), limit)
  }

  /** A prefix of a name-distinct list is name-distinct. */
  lemma DistinctPrefix(s: seq<Food>, t: seq<Food>)
    requires DistinctNames(s) && t <= s
    ensures DistinctNames(t)
  {
    assert forall k :: 0 <= k < |t| ==> t[k] == s[k];
  }

  /** The combined search never returns two records of the same name. */
  lemma MergeDistinct(pre: seq<Food>, par: seq<Food>, fz: seq<Food>, queryLength: int, limit: int)
    ensures DistinctNames(Merge(pre, par, fz, queryLength, limit))
  {
    var r3 := FuzzyStep(PartialStep(PrefixStep(pre, limit), par, limit), fz, queryLength, limit);
    DistinctPrefix(r3, Take(r3, limit));
  }

  /** Each step fills at most up to `limit`. */
  lemma StepsBounded(pre: seq<Food>, par: seq<Food>, fz: seq<Food>, queryLength: int, limit: int)
    requires limit >= 0
    ensures |PrefixStep(pre, limit)| <= limit
    ensures |PartialStep(PrefixStep(pre, limit), par, limit)| <= limit
    ensures |FuzzyStep(PartialStep(PrefixStep(pre, limit), par, limit), fz, queryLength, limit)| <= limit
  {
  }

  /** The combined search returns at most `limit` records. */
  lemma MergeBound(pre: seq<Food>, par: seq<Food>, fz: seq<Food>, queryLength: int, limit: int)
    requires limit >= 0
    ensures |Merge(pre, par, fz, queryLength, limit)| <= limit
  {
  }

  /** Step 2 adds at most the room left after step 1, and keeps step 1 in front. */
  lemma PartialStepBound(r1: seq<Food>, par: seq<Food>, limit: int)
    requires |r1| < limit
    ensures r1 <= PartialStep(r1, par, limit)
    ensures |PartialStep(r1, par, limit)| - |r1| <= limit - |r1|
  {
  }

  /**
   * Because step 2 slices before it filters, it can add fewer records than
   * the room left even when new names are available: here one slot is free,
   * the partial results hold a new name, and nothing is added.
   */
  lemma PartialStepUnderfills(a: Food, b: Food)
    requires a.name != b.name
    ensures PrefixStep([a], 2) == [a]
    ensures b.name !in Names(PrefixStep([a], 2))
    ensures PartialStep(PrefixStep([a], 2), [a, b], 2) == [a]
  {
    assert Take([a], 2) == [a];
    assert SetAll([], [a]) == Upsert(SetAll([], []), a);
    assert Take([a, b], 1) == [a];
    assert AddAbsent([a], [a]) == AddAbsent([a], []) by { assert [a][1..] == []; }
    assert a.name in Names([a]);
  }

  /** The combined search begins with the deduplicated first `limit` prefix results, in their order. */
  lemma MergeStartsWithPrefix(pre: seq<Food>, par: seq<Food>, fz: seq<Food>, queryLength: int, limit: int)
    requires limit >= 0
    ensures PrefixStep(pre, limit) <= Merge(pre, par, fz, queryLength, limit)
  {
    StepsBounded(pre, par, fz, queryLength, limit);
  }

  /** Every record returned came from one of the three searches. */
  lemma MergeElements(pre: seq<Food>, par: seq<Food>, fz: seq<Food>, queryLength: int, limit: int)
    ensures Elems(Merge(pre, par, fz, queryLength, limit)) <= Elems(pre) + Elems(par) + Elems(fz)
  {
    var r1 := PrefixStep(pre, limit);
    TakeElems(pre, limit);
    assert Elems(r1) <= Elems(pre);
    var r2 := PartialStep(r1, par, limit);
    TakeElems(par, limit - |r1|);
    assert Elems(r2) <= Elems(r1) + Elems(par);
    var r3 := FuzzyStep(r2, fz, queryLength, limit);
    TakeElems(fz, limit - |r2|);
    assert Elems(r3) <= Elems(r2) + Elems(fz);
    TakeElems(r3, limit);
    assert Elems(Take(r3, limit)) <= Elems(r3);
  }

  /** Fuzzy results are used only when the trimmed query is longer than three characters. */
  lemma MergeFuzzyGate(pre: seq<Food>, par: seq<Food>, fz: seq<Food>, queryLength: int, limit: int)
    requires queryLength <= 3
    ensures Elems(Merge(pre, par, fz, queryLength, limit)) <= Elems(pre) + Elems(par)
  {
    MergeElements(pre, par, [], queryLength, limit);
  }

  lemma TakeElems(s: seq<Food>, end: int)
    ensures Elems(Take(s, end)) <= Elems(s)
  {
  }

  lemma NamesConcat(s: seq<Food>, t: seq<Food>)
    ensures Names(s + t) == Names(s) + Names(t)
    ensures Elems(s + t) == Elems(s) + Elems(t)
  {
    assert forall y :: y in s + t <==> y in s || y in t;
  }

  /** One more record of the list set into the map. */
  lemma SetAllStep(acc: seq<Food>, xs: seq<Food>, i: nat)
    requires i < |xs|
    ensures SetAll(acc, xs[..i + 1]) == Upsert(SetAll(acc, xs[..i]), xs[i])
  {
    assert xs[..i + 1][..i] == xs[..i];
  }

  /** `xs.forEach(x => map.set(x.name, x))` on the map `acc`. */
  method SetEach(acc: seq<Food>, xs: seq<Food>) returns (r: seq<Food>)
    ensures r == SetAll(acc, xs)
  {
    r := acc;
    var i := 0;
    while i < |xs|
      invariant 0 <= i <= |xs|
      invariant r == SetAll(acc, xs[..i])
    {
      SetAllStep(acc, xs, i);
      r := Upsert(r, xs[i]);
      i := i + 1;
    }
    assert xs[..|xs|] == xs;
  }

  /** `xs.forEach(x => { if (!map.has(x.name)) map.set(x.name, x) })` on the map `acc`. */
  method AddEachAbsent(acc: seq<Food>, xs: seq<Food>) returns (r: seq<Food>)
    ensures r == AddAbsent(acc, xs)
  {
    r := acc;
    var i := 0;
    while i < |xs|
      invariant 0 <= i <= |xs|
      invariant AddAbsent(r, xs[i..]) == AddAbsent(acc, xs)
    {
      assert xs[i..][0] == xs[i] && xs[i..][1..] == xs[i + 1..];
      if xs[i].name !in Names(r) {
        r := r + [xs[i]];
      }
      i := i + 1;
    }
    assert xs[i..] == [];
  }
}
