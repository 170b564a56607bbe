/**
 * The value model of the food-name trie of Nutrion/src/lib/trieSearch.ts:
 * records, nodes, the path walk, and `insert` as a function on nodes, with
 * what insertion does to every node of the trie.
 */
module TrieModel {
  import opened TextNormalization

  datatype Option<T> = None | Some(value: T)

  /** `Alimento` (`FoodItem`): the payload the trie stores.  Numbers are JavaScript doubles, kept as reals. */
  datatype Food = Food(name: string, gi: real, carbs: real, kcal: real, density: Option<real>)

  /** `TrieNode`: children keyed by one key character, the capped record list, and the end-of-key flag. */
  datatype Node = Node(children: map<char, Node>, words: seq<Food>, end: bool)

  /** The per-node cap on `words`. */
  const MaxWords: nat := 200

  /** `new TrieNode()`. */
  function EmptyNode(): Node {
    Node(map[], [], false)
  }

  function Elems(s: seq<Food>): set<Food> {
    set x | x in s
  }

  /** No node of the subtree holds more than `MaxWords` records. */
  ghost predicate Capped(n: Node) {
    |n.words| <= MaxWords && forall c :: c in n.children ==> Capped(n.children[c])
  }

  /** The node reached from `n` by following `key` one character at a time, if every step exists. */
  function Lookup(n: Node, key: string): Option<Node>
    decreases |key|
  {
    if key == [] then Some(n)
    else if key[0] in n.children then Lookup(n.children[key[0]], key[1..])
    else None
  }

  /** The records at the node reached by `key`, or none when there is no such node. */
  function WordsAt(n: Node, key: string): seq<Food> {
    match Lookup(n, key)
    case None => []
    case Some(m) => m.words
  }

  /** Whether some inserted key ends exactly at the node reached by `key`. */
  function EndAt(n: Node, key: string): bool {
    match Lookup(n, key)
    case None => false
    case Some(m) => m.end
  }

  /** The guarded push of `insert`: append only while the list has fewer than `MaxWords` records. */
  function Pushed(words: seq<Food>, p: Food): (r: seq<Food>)
    ensures |words| <= MaxWords ==> |r| <= MaxWords
    ensures p in r <== |words| < MaxWords
  {
    if |words| < MaxWords then words + [p] else words
  }

  function ChildOrEmpty(n: Node, c: char): Node {
    if c in n.children then n.children[c] else EmptyNode()
  }

  /** One iteration of the loop of `insert`: fetch or create the child, then push the payload into it. */
  function Step(n: Node, c: char, p: Food): (r: Node)
    ensures r.children == ChildOrEmpty(n, c).children
    ensures r.end == ChildOrEmpty(n, c).end
  {
    var child := ChildOrEmpty(n, c);
    child.(words := Pushed(child.words, p))
  }

  /**
   * `insert` below an already visited node `n`: the rest of the key `key`
   * is walked (and created) from `n`, the payload pushed into every node
   * entered, and the last node marked as an end.  `n` itself receives no
   * record, which is why the root's list stays as it is.
   */
  function InsertBelow(n: Node, key: string, p: Food): (r: Node)
    ensures r.words == n.words
    ensures r.end == (key == [] || n.end)
    decreases |key|
  {
    if key == [] then n.(end := true)
    else n.(children := n.children[key[0] := InsertBelow(Step(n, key[0], p), key[1..], p)])
  }

  /** `InsertBelow` on the rest of a key from position `i`, unfolded once. */
  lemma InsertBelowAt(n: Node, key: string, i: nat, p: Food)
    requires i < |key|
    ensures InsertBelow(n, key[i..], p)
      == n.(children := n.children[key[i] := InsertBelow(Step(n, key[i], p), key[i + 1..], p)])
  {
    assert key[i..][0] == key[i] && key[i..][1..] == key[i + 1..];
  }

  /** Lookups of non-empty keys depend only on the children. */
  lemma LookupChildrenOnly(a: Node, b: Node, s: string)
    requires a.children == b.children && s != []
    ensures Lookup(a, s) == Lookup(b, s)
  {
  }

  /** A fresh node has no descendants. */
  lemma LookupEmpty(s: string)
    ensures Lookup(EmptyNode(), s) == if s == [] then Some(EmptyNode()) else None
  {
  }

  /** Walking `s + t` is walking `s`, then walking `t` from there. */
  lemma {:induction false} LookupAppend(n: Node, s: string, t: string)
    ensures Lookup(n, s + t) == match Lookup(n, s) case None => None case Some(m) => Lookup(m, t)
    decreases |s|
  {
    if s != [] {
      assert (s + t)[0] == s[0] && (s + t)[1..] == s[1..] + t;
      if s[0] in n.children {
        LookupAppend(n.children[s[0]], s[1..], t);
      }
    } else {
      assert s + t == t;
    }
  }

  /** One more step of a successful walk. */
  lemma LookupStep(n: Node, s: string, c: char, m: Node)
    requires Lookup(n, s) == Some(m)
    ensures Lookup(n, s + [c]) == if c in m.children then Some(m.children[c]) else None
  {
    LookupAppend(n, s, [c]);
  }

  /** A walk that falls off the trie stays off it, whatever follows. */
  lemma LookupFallsOff(n: Node, key: string, i: nat, m: Node)
    requires i < |key| && Lookup(n, key[..i]) == Some(m) && key[i] !in m.children
    ensures Lookup(n, key) == None
  {
    LookupAppend(n, key[..i], key[i..]);
    assert key[..i] + key[i..] == key;
  }

  /** Every node reached from a capped node is capped. */
  lemma {:induction false} CappedLookup(n: Node, s: string)
    requires Capped(n) && Lookup(n, s).Some?
    ensures Capped(Lookup(n, s).value)
    decreases |s|
  {
    if s != [] {
      CappedLookup(n.children[s[0]], s[1..]);
    }
  }

  /** Insertion keeps every node within the cap. */
  lemma {:induction false} InsertKeepsCapped(n: Node, key: string, p: Food)
    requires Capped(n)
    ensures Capped(InsertBelow(n, key, p))
    decreases |key|
  {
    if key != [] {
      var c := key[0];
      var st := Step(n, c, p);
      assert Capped(ChildOrEmpty(n, c));
      assert Capped(st);
      InsertKeepsCapped(st, key[1..], p);
    }
  }

  /** Nodes off the inserted path (every key that is not a prefix of the inserted one) are unchanged. */
  lemma {:induction false} InsertOffPath(n: Node, key: string, p: Food, s: string)
    requires !(s <= key)
    ensures Lookup(InsertBelow(n, key, p), s) == Lookup(n, s)
    decreases |key|
  {
    var n' := InsertBelow(n, key, p);
    if key == [] {
      LookupChildrenOnly(n', n, s);
    } else if s[0] != key[0] {
      assert n'.children[s[0]] == n.children[s[0]] <== s[0] in n.children;
    } else {
      var c := key[0];
      var st := Step(n, c, p);
      assert !(s[1..] <= key[1..]);
      InsertOffPath(st, key[1..], p, s[1..]);
      LookupChildrenOnly(st, ChildOrEmpty(n, c), s[1..]);
      LookupEmpty(s[1..]);
    }
  }

  /**
   * Nodes on the inserted path (every non-empty prefix of the key) exist
   * afterwards, received the payload unless they were full, and are marked
   * as an end exactly when they are the last node or already were one.
   */
  lemma {:induction false} InsertOnPath(n: Node, key: string, p: Food, s: string)
    requires s <= key && s != []
    ensures Lookup(InsertBelow(n, key, p), s).Some?
    ensures WordsAt(InsertBelow(n, key, p), s) == Pushed(WordsAt(n, s), p)
    ensures EndAt(InsertBelow(n, key, p), s) == (s == key || EndAt(n, s))
    decreases |key|
  {
    var c := key[0];
    var st := Step(n, c, p);
    assert s[0] == c;
    if |s| == 1 {
      var ch := InsertBelow(st, key[1..], p);
      assert s == [c] && s[1..] == [];
      assert Lookup(InsertBelow(n, key, p), s) == Lookup(ch, []) == Some(ch);
      assert Lookup(n, s) == if c in n.children then Some(n.children[c]) else None;
      assert s == key <==> key[1..] == [];
    } else {
      assert s[1..] <= key[1..];
      InsertOnPath(st, key[1..], p, s[1..]);
      LookupChildrenOnly(st, ChildOrEmpty(n, c), s[1..]);
      LookupEmpty(s[1..]);
      assert s == key <==> s[1..] == key[1..];
    }
  }

  /** Every record held by some node of the subtree. */
  ghost function Stored(n: Node): set<Food> {
    Elems(n.words) + (set c, x | c in n.children && x in Stored(n.children[c]) :: x)
  }

  /** The records of every node reached from `n` are stored under `n`. */
  lemma {:induction false} LookupStored(n: Node, s: string)
    requires Lookup(n, s).Some?
    ensures Stored(Lookup(n, s).value) <= Stored(n)
    ensures Elems(WordsAt(n, s)) <= Stored(n)
    decreases |s|
  {
    if s != [] {
      LookupStored(n.children[s[0]], s[1..]);
    }
  }

  /** A fresh node stores nothing. */
  lemma StoredEmpty()
    ensures Stored(EmptyNode()) == {}
  {
  }
}
