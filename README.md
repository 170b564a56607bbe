# Food-name search index of Nutrion, in Dafny

This project models the food-name search index of Nutrion, the class `Trie` in
`Nutrion/src/lib/trieSearch.ts`, and proves properties of the model. The index
is a character trie keyed by normalised food names. Every node keeps a list of
at most 200 food records (`Alimento`). On top of the trie sit three lookups:
prefix, substring ("partial") and fuzzy. Two combinators build on those: the
combined "intelligent" search and the relevance-ranked suggestions.

Layout, one module per file:

- `normalize.dfy`, module `TextNormalization`: `normalizeText`: lower case, decomposition, mark stripping, the `[a-z0-9\s]` filter and `trim`, with the shape and idempotence of keys.
- `trie_model.dfy`, module `TrieModel`: records (`Food`), nodes (`Node`), the path walk `Lookup`, and `insert` as the function `InsertBelow` on nodes, with what it does on and off the path.
- `fuzzy.dfy`, module `FuzzyMatch`: `FuzzyCollect`, the set of records `fuzzySearchHelper` collects from a (node, position, budget) state, and what that set contains.
- `search_results.dfy`, module `SearchResults`: JavaScript `slice`, the two ways the source fills a `Map` keyed by name (`map.set` and has-then-set), and the three steps of `intelligentSearch` as functions.
- `relevance.dfy`, module `Relevance`: `String.prototype.includes`, `calculateRelevance`, and the in-place sort by descending score on an array.
- `stats.dfy`, module `TrieStatistics`: `getStats` / `calculateStats`: the counts as a specification, and the recursive method that updates a mutable counter object.
- `trie.dfy`, module `TrieSearch`: the class `Trie` with its `root` field and every public operation as a method, proved against the specifications above.

The trie imports its record type `Alimento` from `Nutrion/src/types/nutrition.ts`.
There, `Alimento` extends `FoodItem` (line 81) and adds nothing. `Food` has
`FoodItem`'s fields (lines 3-9): name, glycemic index, carbohydrates, calories
and optional density.

Nodes are immutable values: `Node(children: map<char, Node>, words: seq<Food>, end: bool)`.
The class `Trie` holds the root in a field that `Insert` and `Clear` reassign.
`Insert` walks the key with a loop, as the source does. It records the nodes it
produced and writes them back from the bottom up, because the nodes are values.
The searches walk the trie with loops and recursion. They are proved against
the value-level specifications: `PrefixResults`, `FuzzyCollect`,
`MatchingNames`, `Merge` and `Summary`. `Valid()` is the class invariant on
the trie: no node holds more than 200 records, and the root holds none.

In four places the code behaves in a way a reader might not expect. The model
follows the code:

- `searchPrefix` tests only the raw prefix for emptiness (line 53), not the
  normalised one. A prefix such as `"!!!"` passes the test and still finds
  nothing, because `insert` never pushes into the root's list
  (`PrefixOfPunctuation`, `PrefixResultsEmpty`).
- `getAllWords` deduplicates with `Map.set` (lines 180-185). A name keeps the
  position of its first occurrence, but the record stored under it is the last
  one seen (`SetAllKeepsFirstPosition`, `SetAllKeepsLast`). The first record
  seen does not win.
- Step 3 of `intelligentSearch` is gated on the length of the trimmed raw query
  (lines 206, 226), not of the normalised query (`MergeFuzzyGate`,
  `IsCombinedResult`).
- Step 2 slices the partial results before it drops names already present
  (lines 218-222). It can therefore add fewer records than the room left,
  even when new names are available (`PartialStepUnderfills`).

## Model

| member | source | states |
|---|---|---|
| TextNormalization.Normalize | Nutrion/src/lib/trieSearch.ts:191-198 | `normalizeText`: fold (lower case and decomposition), strip combining marks, keep `[a-z0-9\s]`, trim |
| TextNormalization.Fold | Nutrion/src/lib/trieSearch.ts:193-194 | lower case followed by canonical decomposition, per character, from the table |
| TextNormalization.Decompose | Nutrion/src/lib/trieSearch.ts:194 | canonical decomposition of the lower-case Latin-1 letters into base letter and combining mark |
| TextNormalization.FoldAll | Nutrion/src/lib/trieSearch.ts:193-194 | the fold applied to every character of a string |
| TextNormalization.Filter | Nutrion/src/lib/trieSearch.ts:195-196 | `replace` of a negated character class with `''`: the characters the class accepts, in order |
| TextNormalization.TrimStart | Nutrion/src/lib/trieSearch.ts:197 | drops leading JavaScript white space |
| TextNormalization.TrimEnd | Nutrion/src/lib/trieSearch.ts:197 | drops trailing JavaScript white space |
| TextNormalization.Trim | Nutrion/src/lib/trieSearch.ts:197 | `String.prototype.trim` |
| TextNormalization.FoldStable | Nutrion/src/lib/trieSearch.ts:193-194 | a character of the folded text that survives the `[a-z0-9\s]` filter is one that normalisation leaves alone |
| TextNormalization.DecomposeStable | Nutrion/src/lib/trieSearch.ts:194 | the canonical decompositions of the table yield only such characters |
| TextNormalization.KeyCharFixed | Nutrion/src/lib/trieSearch.ts:193-194 | lower case and decomposition leave every key character unchanged |
| TextNormalization.FoldAllStable | Nutrion/src/lib/trieSearch.ts:193-194 | folding a whole string leaves no kept character that folding would change again |
| TextNormalization.FoldAllKeyChars | Nutrion/src/lib/trieSearch.ts:193-194 | folding leaves a string of key characters unchanged |
| TextNormalization.FilterFacts | Nutrion/src/lib/trieSearch.ts:195-196 | `replace(/[^…]/g, '')` keeps exactly the accepted characters: every kept character is accepted and comes from the input, and every accepted input character is kept |
| TextNormalization.FilterAll | Nutrion/src/lib/trieSearch.ts:195-196 | the filter changes nothing when it accepts every character |
| TextNormalization.TrimStartFacts | Nutrion/src/lib/trieSearch.ts:197 | trimming the start drops only white space and leaves a suffix that does not start with it |
| TextNormalization.TrimEndFacts | Nutrion/src/lib/trieSearch.ts:197 | trimming the end drops only white space and leaves a prefix that does not end with it |
| TextNormalization.TrimFacts | Nutrion/src/lib/trieSearch.ts:197 | a trimmed string neither starts nor ends with white space |
| TextNormalization.TrimKeepsKeyChars | Nutrion/src/lib/trieSearch.ts:197 | trimming a string of key characters leaves key characters only |
| TextNormalization.FilteredAreKeyChars | Nutrion/src/lib/trieSearch.ts:192-196 | after folding and both filters, only key characters remain |
| TextNormalization.NormalizeShape | Nutrion/src/lib/trieSearch.ts:191-198 | a key contains only `a-z`, `0-9` and white space, only characters normalisation leaves alone, and no leading or trailing white space |
| TextNormalization.KeyCharsSurvive | Nutrion/src/lib/trieSearch.ts:192-196 | folding and both filters leave a string of key characters unchanged |
| TextNormalization.NormalizeFixpoint | Nutrion/src/lib/trieSearch.ts:191-198 | a string of key characters with no white space at either end is its own key |
| TextNormalization.NormalizeIdempotent | Nutrion/src/lib/trieSearch.ts:191-198 | normalising twice gives the same result as normalising once |
| TextNormalization.NormalizeEmpty | Nutrion/src/lib/trieSearch.ts:191-198 | the empty string has the empty key |
| TextNormalization.NormalizePrefixOfKey | Nutrion/src/lib/trieSearch.ts:191-198 | a non-empty prefix of a key normalises to a non-empty prefix of itself (only trailing white space is lost) |
| TrieModel.EmptyNode | Nutrion/src/lib/trieSearch.ts:9-19 | `new TrieNode()`: no children, no records, not an end |
| TrieModel.Lookup | Nutrion/src/lib/trieSearch.ts:55-63 | the node reached by following the key one child at a time, or none when a child is missing |
| TrieModel.WordsAt | Nutrion/src/lib/trieSearch.ts:65 | the records of the node reached, or none |
| TrieModel.Stored | Nutrion/src/lib/trieSearch.ts:172-186 | every record held by some node of the subtree |
| TrieModel.Pushed | Nutrion/src/lib/trieSearch.ts:42-44 | the guarded push never takes a list of at most 200 records above 200, and the payload is in the list whenever it had fewer than 200 |
| TrieModel.Step | Nutrion/src/lib/trieSearch.ts:36-44 | one loop iteration of `insert` keeps the children and end flag of the child it fetched or created |
| TrieModel.InsertBelow | Nutrion/src/lib/trieSearch.ts:31-47 | insertion below a node never changes that node's own list, and marks it as an end exactly when the key is used up there or it already was one |
| TrieModel.InsertBelowAt | Nutrion/src/lib/trieSearch.ts:35-45 | one step of insertion from position `i`: the child for `key[i]` is replaced by the insertion of the rest of the key below it |
| TrieModel.LookupChildrenOnly | Nutrion/src/lib/trieSearch.ts:58-63 | walking a non-empty key depends only on the children of the start node |
| TrieModel.LookupEmpty | Nutrion/src/lib/trieSearch.ts:14-18 | a fresh node has no descendants |
| TrieModel.LookupAppend | Nutrion/src/lib/trieSearch.ts:58-63 | walking `s + t` is walking `s`, then `t` from the node reached |
| TrieModel.LookupStep | Nutrion/src/lib/trieSearch.ts:58-63 | one more loop iteration of the walk reaches the child for the next character, or falls off when there is none |
| TrieModel.LookupFallsOff | Nutrion/src/lib/trieSearch.ts:59-61 | once the walk finds no child for a character, the whole key has no node |
| TrieModel.CappedLookup | Nutrion/src/lib/trieSearch.ts:42 | every node reached from a capped node is capped |
| TrieModel.InsertKeepsCapped | Nutrion/src/lib/trieSearch.ts:41-44 | after an insertion no node holds more than 200 records |
| TrieModel.InsertOffPath | Nutrion/src/lib/trieSearch.ts:31-47 | every node off the inserted path, at any key that is not a prefix of the inserted key, is unchanged |
| TrieModel.InsertOnPath | Nutrion/src/lib/trieSearch.ts:31-47 | every non-empty prefix of the key has a node afterwards; that node received the payload unless it was full; it is an end exactly when it is the last node or already was one |
| TrieModel.LookupStored | Nutrion/src/lib/trieSearch.ts:65 | the records of every node reached are stored under the start node |
| TrieModel.StoredEmpty | Nutrion/src/lib/trieSearch.ts:266-268 | a fresh node stores nothing |
| FuzzyMatch.FuzzyCollect | Nutrion/src/lib/trieSearch.ts:81-149 | what `fuzzySearchHelper` adds to the set: at the end of the query the node's records when the budget is not negative; else the exact branch, and with budget left the substitution, insertion and deletion branches |
| FuzzyMatch.FuzzyAtZero | Nutrion/src/lib/trieSearch.ts:89-109 | with budget 0 the fuzzy search collects exactly the list of the node that the rest of the query reaches |
| FuzzyMatch.FuzzyMonotone | Nutrion/src/lib/trieSearch.ts:81-149 | with any budget of at least 0 the fuzzy search finds at least what budget 0 finds |
| FuzzyMatch.ChildStored | Nutrion/src/lib/trieSearch.ts:114-147 | the records stored under a child are stored under its parent |
| FuzzyMatch.FuzzyStored | Nutrion/src/lib/trieSearch.ts:81-149 | every record the fuzzy search collects lies in the list of a node under the start node |
| FuzzyMatch.BelowStored | Nutrion/src/lib/trieSearch.ts:114-147 | what the searches started at children collect is stored under the parent |
| FuzzyMatch.FuzzyDescend | Nutrion/src/lib/trieSearch.ts:99-109 | following the query exactly keeps everything the search finds from the node reached |
| FuzzyMatch.LookupSplit | Nutrion/src/lib/trieSearch.ts:58-63 | a successful walk splits at any position into two successful walks |
| FuzzyMatch.FuzzyFindsSubstitution | Nutrion/src/lib/trieSearch.ts:113-125 | a key that differs from the query in one character is found with budget 1 or more |
| FuzzyMatch.FuzzyFindsInsertion | Nutrion/src/lib/trieSearch.ts:127-135 | a query with one extra character is found with budget 1 or more |
| FuzzyMatch.FuzzyFindsDeletion | Nutrion/src/lib/trieSearch.ts:137-147 | a key with one extra character that is not its last is found with budget 1 or more |
| FuzzyMatch.FuzzyFindsManzana | Nutrion/src/lib/trieSearch.ts:137-147 | the records under "manzana" are found for the query "mazana" with budget 1 |
| FuzzyMatch.FuzzyEmpty | Nutrion/src/lib/trieSearch.ts:81-149 | a fresh trie yields nothing for any query and budget |
| FuzzyMatch.BelowNone | Nutrion/src/lib/trieSearch.ts:114-147 | visiting no children collects nothing |
| FuzzyMatch.BelowAdd | Nutrion/src/lib/trieSearch.ts:114-147 | visiting one more child adds exactly what the search from that child collects |
| FuzzyMatch.FuzzyUnfold | Nutrion/src/lib/trieSearch.ts:97-148 | with budget left the search collects the union of its four branches: match, substitution, insertion and deletion |
| FuzzyMatch.FuzzyUnfoldSpent | Nutrion/src/lib/trieSearch.ts:97-111 | with no budget left only the exact-match branch runs |
| SearchResults.PrefixStep | Nutrion/src/lib/trieSearch.ts:210-213 | step 1: the first `limit` prefix results set into the map by name |
| SearchResults.PartialStep | Nutrion/src/lib/trieSearch.ts:216-223 | step 2: with room left, the first `limit - size` partial results, each added only when its name is new |
| SearchResults.FuzzyStep | Nutrion/src/lib/trieSearch.ts:226-233 | step 3: the same with the fuzzy results, only when the trimmed query is longer than three characters |
| SearchResults.Merge | Nutrion/src/lib/trieSearch.ts:210-235 | the three steps, then the map's values cut to `limit` |
| SearchResults.NameIn | Nutrion/src/lib/trieSearch.ts:180-185 | the name of every record is among the names |
| SearchResults.TakeLength | Nutrion/src/lib/trieSearch.ts:283 | how many records `slice(0, end)` keeps depends only on the length |
| SearchResults.Take | Nutrion/src/lib/trieSearch.ts:211 | `slice(0, end)` returns a prefix of at most `end` elements, and the whole sequence when it is no longer than `end` |
| SearchResults.FirstIndex | Nutrion/src/lib/trieSearch.ts:180-185 | the first position at which a name occurs |
| SearchResults.NamesAppend | Nutrion/src/lib/trieSearch.ts:180-185 | appending a record adds its name and the record itself |
| SearchResults.AppendNewName | Nutrion/src/lib/trieSearch.ts:219-221 | appending a record whose name is new keeps the names distinct |
| SearchResults.DistinctIndex | Nutrion/src/lib/trieSearch.ts:180-185 | in a name-distinct list a record's name first occurs at its own position |
| SearchResults.Upsert | Nutrion/src/lib/trieSearch.ts:182 | `map.set` grows the map by one exactly when the name is new |
| SearchResults.UpsertFacts | Nutrion/src/lib/trieSearch.ts:182 | `map.set` adds the name, introduces no record but the new one, and keeps the names distinct |
| SearchResults.SetAll | Nutrion/src/lib/trieSearch.ts:180-183 | setting a list into a map yields the union of names, only records from either, and distinct names |
| SearchResults.AddIfAbsent | Nutrion/src/lib/trieSearch.ts:219-221 | has-then-set keeps the map as a prefix, adds the name, and keeps the names distinct |
| SearchResults.AddAbsent | Nutrion/src/lib/trieSearch.ts:218-222 | has-then-set over a list keeps the earlier entries in front, adds every name, and introduces only records of the list |
| SearchResults.UpsertAt | Nutrion/src/lib/trieSearch.ts:182 | position by position, `map.set` replaces only the entry of the record's name, or appends it |
| SearchResults.SetAllKeepsLast | Nutrion/src/lib/trieSearch.ts:180-185 | each value `getAllWords` returns is the last record with its name in the list it collected (`ws` of `Trie.GetAllWords`) |
| SearchResults.SetAllSnoc | Nutrion/src/lib/trieSearch.ts:181-183 | setting a non-empty list is setting all but its last record, then the last one |
| SearchResults.LastOfNameExtend | Nutrion/src/lib/trieSearch.ts:181-183 | a last occurrence stays last when a record of another name follows |
| SearchResults.SetAllKeepsFirstPosition | Nutrion/src/lib/trieSearch.ts:180-185 | the names `getAllWords` returns are in the order of their first occurrence in the list it collected (`ws` of `Trie.GetAllWords`) |
| SearchResults.FirstPositionKnown | Nutrion/src/lib/trieSearch.ts:182 | setting a name already present keeps the first-occurrence order |
| SearchResults.FirstPositionNew | Nutrion/src/lib/trieSearch.ts:182 | setting a new name appends it after every earlier name |
| SearchResults.UpsertKeepsNames | Nutrion/src/lib/trieSearch.ts:182 | setting a name already present changes no name at any position |
| SearchResults.FirstIndexNew | Nutrion/src/lib/trieSearch.ts:180-185 | a name that first occurs at the end has its first occurrence there |
| SearchResults.FirstIndexExtend | Nutrion/src/lib/trieSearch.ts:180-185 | extending a list keeps the first occurrence of a name it already had |
| SearchResults.DistinctPrefix | Nutrion/src/lib/trieSearch.ts:235 | a prefix of a name-distinct list is name-distinct |
| SearchResults.MergeDistinct | Nutrion/src/lib/trieSearch.ts:203-236 | the combined search never returns two records with the same name |
| SearchResults.StepsBounded | Nutrion/src/lib/trieSearch.ts:210-233 | after each step the map holds at most `limit` entries |
| SearchResults.MergeBound | Nutrion/src/lib/trieSearch.ts:235 | the combined search returns at most `limit` records |
| SearchResults.PartialStepBound | Nutrion/src/lib/trieSearch.ts:216-223 | step 2 keeps step 1's entries in front and adds at most `limit - size` records |
| SearchResults.PartialStepUnderfills | Nutrion/src/lib/trieSearch.ts:218-222 | step 2 can add nothing although a slot is free and a new name is available |
| SearchResults.MergeStartsWithPrefix | Nutrion/src/lib/trieSearch.ts:210-213 | the combined result begins with the first `limit` prefix results, deduplicated by name, in order |
| SearchResults.MergeElements | Nutrion/src/lib/trieSearch.ts:203-236 | every record returned came from one of the three searches |
| SearchResults.MergeFuzzyGate | Nutrion/src/lib/trieSearch.ts:226 | when the trimmed query has at most three characters, no fuzzy result is used |
| SearchResults.TakeElems | Nutrion/src/lib/trieSearch.ts:211 | a slice holds only elements of the sequence |
| SearchResults.NamesConcat | Nutrion/src/lib/trieSearch.ts:176 | the names and records of a concatenation are those of both parts |
| SearchResults.SetAllStep | Nutrion/src/lib/trieSearch.ts:181-183 | one more iteration of the `forEach` sets one more record |
| SearchResults.SetEach | Nutrion/src/lib/trieSearch.ts:181-183 | the `forEach` loop of `map.set` computes `SetAll` of its list |
| SearchResults.AddEachAbsent | Nutrion/src/lib/trieSearch.ts:218-222 | the `forEach` loop of has-then-set computes `AddAbsent` of its list |
| Relevance.Includes | Nutrion/src/lib/trieSearch.ts:296 | `String.prototype.includes` |
| Relevance.IncludesIff | Nutrion/src/lib/trieSearch.ts:296 | `includes` succeeds exactly when the query occurs at some position, in both directions |
| Relevance.IncludesWitness | Nutrion/src/lib/trieSearch.ts:296 | where `includes` succeeds, the query occurs at the position returned |
| Relevance.OccursIncludes | Nutrion/src/lib/trieSearch.ts:296 | an occurrence at any position makes `includes` succeed |
| Relevance.StartsWithIncludes | Nutrion/src/lib/trieSearch.ts:291-297 | a name that starts with the query includes it |
| Relevance.Relevance | Nutrion/src/lib/trieSearch.ts:286-302 | the score lies between 0 and 100 |
| Relevance.RelevanceTop | Nutrion/src/lib/trieSearch.ts:291-293 | the score is 100 exactly when the normalised name starts with the normalised query |
| Relevance.RelevanceContains | Nutrion/src/lib/trieSearch.ts:296-298 | the score is 50 exactly when the normalised query occurs in the normalised name but not at its start |
| Relevance.RelevanceFallback | Nutrion/src/lib/trieSearch.ts:301 | without an occurrence the score is `max(0, 25 - abs(len(name) - len(query)))` on raw lengths; the score is above 25 exactly when the query occurs |
| Relevance.RelevanceEmptyQuery | Nutrion/src/lib/trieSearch.ts:287-293 | a query that normalises to nothing gives every name 100 |
| Relevance.Swapped | Nutrion/src/lib/trieSearch.ts:277-282 | swapping two neighbours keeps the length and the multiset and moves only those two |
| Relevance.SinkStart | Nutrion/src/lib/trieSearch.ts:277-282 | with the first `i` records in order, the record at `i` starts moving left |
| Relevance.SinkStep | Nutrion/src/lib/trieSearch.ts:277-282 | one swap keeps the moving record above everything to its right and the rest in order |
| Relevance.SinkDone | Nutrion/src/lib/trieSearch.ts:277-282 | when the moving record meets one that is not lower, the first `i + 1` records are in order |
| Relevance.SortByKey | Nutrion/src/lib/trieSearch.ts:277-282 | sorting the array in place by the comparator's key leaves it ordered by non-increasing key, holding the same records, and stable: records of equal key keep their original order |
| Relevance.Sink | Nutrion/src/lib/trieSearch.ts:277-282 | one pass moves the next record into place: the first `i + 1` records end in order, the multiset is unchanged, and records of equal key keep their order |
| Relevance.ScoreKey | Nutrion/src/lib/trieSearch.ts:278-281 | the comparator's score of a record, `calculateRelevance(item.name, query)`, as a key function |
| Relevance.OfKey | Nutrion/src/lib/trieSearch.ts:277-282 | the records with a given key, in order; two sequences keep the same order within every key exactly when these agree for every key |
| Relevance.OfKeyConcat | Nutrion/src/lib/trieSearch.ts:277-282 | the records of one key in a concatenation are those of the first part, then those of the second |
| Relevance.SwappedOfKey | Nutrion/src/lib/trieSearch.ts:277-282 | swapping two neighbours of different key does not change the order of the records of any one key |
| Relevance.SwappedKeepsKeyOrder | Nutrion/src/lib/trieSearch.ts:277-282 | a swap of two neighbours of different key, the only swap the sort makes, keeps the order within every key |
| Relevance.SinkSwap | Nutrion/src/lib/trieSearch.ts:277-282 | one swap of the inner loop keeps it sinking, a permutation, and stable |
| Relevance.OfKeyHead | Nutrion/src/lib/trieSearch.ts:277-282 | the first record is the first of its key |
| Relevance.OfKeyTail | Nutrion/src/lib/trieSearch.ts:277-282 | dropping the first record drops it from its own key's records only |
| Relevance.OfKeyMember | Nutrion/src/lib/trieSearch.ts:277-282 | a key with records is the key of some position |
| Relevance.NonEmptyMatch | Nutrion/src/lib/trieSearch.ts:277-282 | a sequence with the same order within every key as a non-empty one is non-empty |
| Relevance.SameHead | Nutrion/src/lib/trieSearch.ts:277-282 | two sorted sequences with the same order within every key start with the same record |
| Relevance.SortedTail | Nutrion/src/lib/trieSearch.ts:277-282 | the rest of a sorted sequence is sorted |
| Relevance.KeyOrderTail | Nutrion/src/lib/trieSearch.ts:277-282 | dropping a common first record keeps the same order within every key |
| Relevance.StableSortUnique | Nutrion/src/lib/trieSearch.ts:277-282 | a stable sort is unique: two sequences sorted by non-increasing key with the same order within every key are equal, so `getSuggestions` returns one determined sequence |
| TrieStatistics.Summary | Nutrion/src/lib/trieSearch.ts:249-261 | the counts of a subtree: its nodes, its records, and the depth of its deepest node |
| TrieStatistics.SummaryOver | Nutrion/src/lib/trieSearch.ts:258-260 | the counts of a group of children's subtrees, one level deeper |
| TrieStatistics.SummaryOverPick | Nutrion/src/lib/trieSearch.ts:258-260 | the counts do not depend on the order in which the children are visited |
| TrieStatistics.SummaryEmpty | Nutrion/src/lib/trieSearch.ts:241-247 | a fresh trie counts one node, no records and depth 0 |
| TrieStatistics.CappedWords | Nutrion/src/lib/trieSearch.ts:249-261 | the record count is at most 200 times the node count |
| TrieStatistics.CappedWordsOver | Nutrion/src/lib/trieSearch.ts:255-260 | the same bound for any group of children |
| TrieStatistics.PathWithinDepth | Nutrion/src/lib/trieSearch.ts:256-259 | every node lies at most `maxDepth` levels below the root |
| TrieStatistics.DeepestPath | Nutrion/src/lib/trieSearch.ts:256-259 | some node lies exactly `maxDepth` levels below the root |
| TrieStatistics.DeepestChild | Nutrion/src/lib/trieSearch.ts:256-259 | among a group of children, one subtree gives the group's depth |
| TrieStatistics.SummaryOverStep | Nutrion/src/lib/trieSearch.ts:258-260 | visiting one more child adds its counts and raises the depth to the larger value |
| TrieStatistics.Stats.constructor | Nutrion/src/lib/trieSearch.ts:242 | the counter object starts at zero |
| TrieStatistics.CalculateStats | Nutrion/src/lib/trieSearch.ts:249-261 | the counters grow by the subtree's node and record counts, and the depth becomes the larger of its old value and `depth` plus the subtree's depth |
| TrieSearch.PrefixResults | Nutrion/src/lib/trieSearch.ts:52-66 | `searchPrefix`: nothing for an empty prefix, else the records of the node the normalised prefix reaches |
| TrieSearch.MatchingNames | Nutrion/src/lib/trieSearch.ts:155-167 | the names of stored records whose normalised name contains the normalised query |
| TrieSearch.IsPartialResult | Nutrion/src/lib/trieSearch.ts:155-167 | what `partialSearch` returns: matching, name-distinct, stored records with exactly the matching names |
| TrieSearch.IsFuzzyResult | Nutrion/src/lib/trieSearch.ts:72-79 | what `fuzzySearch` returns: the collected records, each once |
| TrieSearch.IsCombinedResult | Nutrion/src/lib/trieSearch.ts:203-236 | what `intelligentSearch` returns: nothing for a blank query, else `Merge` of the searches its steps consulted |
| TrieSearch.PrefixResultsStored | Nutrion/src/lib/trieSearch.ts:65 | every record a prefix search returns is stored in the trie |
| TrieSearch.PrefixResultsBound | Nutrion/src/lib/trieSearch.ts:42-65 | a prefix search returns at most 200 records |
| TrieSearch.PrefixResultsEmpty | Nutrion/src/lib/trieSearch.ts:53-65 | a prefix search returns nothing for an empty prefix, a prefix that normalises to nothing, or a path that leaves the trie |
| TrieSearch.PrefixOfPunctuation | Nutrion/src/lib/trieSearch.ts:53-65 | the prefix `"!!!"` passes the raw-string test and finds nothing |
| TrieSearch.PrefixRoundTrip | Nutrion/src/lib/trieSearch.ts:31-66 | after an insertion with no full node on the path, the payload is found by the name and by every non-empty prefix of its key |
| TrieSearch.FuzzyZeroIsPrefix | Nutrion/src/lib/trieSearch.ts:52-79 | with budget 0 the fuzzy search finds exactly the records of the prefix search |
| TrieSearch.FuzzyCoversPrefix | Nutrion/src/lib/trieSearch.ts:52-79 | with any budget of at least 0 the fuzzy search finds every record of the prefix search |
| TrieSearch.NamesBelowAdd | Nutrion/src/lib/trieSearch.ts:175-177 | one more child contributes the names stored under it |
| TrieSearch.StoredNamesSplit | Nutrion/src/lib/trieSearch.ts:173-177 | the stored names are the node's own names and those under its children |
| TrieSearch.ElemsEmpty | Nutrion/src/lib/trieSearch.ts:78 | a list holds no record exactly when it is empty |
| TrieSearch.ClearedFindsNothing | Nutrion/src/lib/trieSearch.ts:266-268 | after `clear` the prefix, partial, fuzzy and combined searches find nothing, and the counts are one node, no records, depth 0 |
| TrieSearch.ClearedCombined | Nutrion/src/lib/trieSearch.ts:203-236 | on a fresh trie the combined search returns nothing |
| TrieSearch.CombinedIntro | Nutrion/src/lib/trieSearch.ts:203-236 | the three steps, each on the answer of the search it consulted, form a combined result |
| TrieSearch.CombinedFacts | Nutrion/src/lib/trieSearch.ts:203-236 | a combined result has distinct names, at most `limit` records, all of them stored in the trie |
| TrieSearch.PermutationKeepsDistinct | Nutrion/src/lib/trieSearch.ts:277-282 | a reordering of a name-distinct list is name-distinct |
| TrieSearch.TwoOccurrences | Nutrion/src/lib/trieSearch.ts:277-282 | a record at two positions occurs twice in the multiset |
| TrieSearch.OneOccurrence | Nutrion/src/lib/trieSearch.ts:277-282 | a record of a name-distinct list occurs once in the multiset |
| TrieSearch.CutSorted | Nutrion/src/lib/trieSearch.ts:277-283 | cutting the sorted results keeps them sorted and name-distinct; kept and dropped records together are the results; and each kept record scores at least as high as each dropped one |
| TrieSearch.CutOrdered | Nutrion/src/lib/trieSearch.ts:283 | the kept part is sorted, and outranks the dropped part |
| TrieSearch.CutMultiset | Nutrion/src/lib/trieSearch.ts:283 | the kept and dropped parts together are the whole |
| TrieSearch.CutDistinct | Nutrion/src/lib/trieSearch.ts:283 | the kept part is name-distinct and holds only results |
| TrieSearch.MatchingOfAll | Nutrion/src/lib/trieSearch.ts:159-164 | filtering a list that holds every stored name finds exactly the matching stored names |
| TrieSearch.Trie.constructor | Nutrion/src/lib/trieSearch.ts:24-26 | a new trie is a single empty root and satisfies the class invariant |
| TrieSearch.Trie.Insert | Nutrion/src/lib/trieSearch.ts:31-47 | the new root is `InsertBelow` of the old root for the normalised word, and the class invariant holds |
| TrieSearch.Trie.SearchPrefix | Nutrion/src/lib/trieSearch.ts:52-66 | returns exactly `PrefixResults` of the root, at most 200 records |
| TrieSearch.Trie.FuzzySearchHelper | Nutrion/src/lib/trieSearch.ts:81-149 | terminates under the measure budget plus remaining query; keeps the set built so far in front; adds exactly `FuzzyCollect` of its state; keeps the set free of duplicates |
| TrieSearch.Trie.FuzzyEdits | Nutrion/src/lib/trieSearch.ts:112-148 | the substitution, insertion and deletion branches add exactly what those branches collect |
| TrieSearch.Trie.FuzzyChildren | Nutrion/src/lib/trieSearch.ts:114-147 | a loop over children adds exactly what the searches from those children collect |
| TrieSearch.Trie.FuzzySearch | Nutrion/src/lib/trieSearch.ts:72-79 | the result has no duplicates, and its records are exactly `FuzzyCollect` from the root for the normalised query |
| TrieSearch.Trie.GetAllWords | Nutrion/src/lib/trieSearch.ts:172-186 | the result is `SetAll` of the collected list `ws` of stored records, so each name keeps the position of its first occurrence in `ws` and the last record with that name; it has distinct names, holds only stored records, and has exactly the stored names |
| TrieSearch.Trie.PartialSearch | Nutrion/src/lib/trieSearch.ts:155-167 | every result's normalised name contains the normalised query; names are distinct; every result is stored; the names are exactly those of the stored records that match |
| TrieSearch.Trie.IntelligentSearch | Nutrion/src/lib/trieSearch.ts:203-236 | a blank query returns nothing; otherwise the result is `Merge` of the prefix, partial and fuzzy results it consulted; names are distinct, records are stored, and at most `limit` are returned |
| TrieSearch.Trie.GetStats | Nutrion/src/lib/trieSearch.ts:241-247 | returns `Summary` of the root |
| TrieSearch.Trie.Clear | Nutrion/src/lib/trieSearch.ts:266-268 | the root becomes a fresh empty node, and the class invariant holds |
| TrieSearch.Trie.GetSuggestions | Nutrion/src/lib/trieSearch.ts:273-284 | the result comes from a combined search with `limit * 2`; together with the dropped records it is the stable sort of that search's results by non-increasing relevance; it keeps exactly as many records as `slice(0, limit)` of those results; it outranks every dropped record; names are distinct, records are stored, and a blank query gives nothing |
| TrieSearch.WalkCreating | Nutrion/src/lib/trieSearch.ts:32-45 | the loop of `insert` records each node it enters as the child of the previous one, made if missing, with the payload pushed |
| TrieSearch.Rebuild | Nutrion/src/lib/trieSearch.ts:36-46 | writing the walked nodes back from the bottom up gives `InsertBelow` of the start node |
| TrieSearch.SortByRelevance | Nutrion/src/lib/trieSearch.ts:277-282 | the sorted results are ordered by non-increasing relevance, are a reordering of the input, and keep records of equal relevance in their input order |
| TrieSearch.RankAndCut | Nutrion/src/lib/trieSearch.ts:277-283 | the results sorted stably by non-increasing relevance, then cut: the kept part has as many records as `slice(0, limit)` keeps and outranks the dropped part; with it, it is the stable sort of the results; its names are distinct |
| TrieSearch.Walk | Nutrion/src/lib/trieSearch.ts:55-63 | the loop of `searchPrefix` reaches exactly the node `Lookup` gives, or none |
| TrieSearch.MatchingInAppend | Nutrion/src/lib/trieSearch.ts:159-164 | one more record adds its name exactly when its name matches |
| TrieSearch.NewNameAt | Nutrion/src/lib/trieSearch.ts:159-164 | in a name-distinct list, a record does not share its name with any record taken from before it |
| TrieSearch.KeepMatching | Nutrion/src/lib/trieSearch.ts:159-164 | the filter loop keeps only matching records, with distinct names, and exactly the matching names |
| TrieSearch.AddEach | Nutrion/src/lib/trieSearch.ts:92 | adding a node's records to the set keeps the set in front, adds exactly those records, and adds no duplicate |

## Left out

- Unicode case mapping and canonical decomposition (lines 193-194): `Fold` replaces them with a per-character table. The table covers ASCII, the Latin-1 letters and a selection of other characters: U+0130, U+0178, U+212A, U+212B, U+2000 and U+2001. Every other character is kept as it is; the filter then removes it unless it is JavaScript white space, which stays, as in the original. That loses the base letter of hundreds of letters the real mapping keeps, including Latin Extended-A (ā, č, ő, ş) and U+1E00-U+1EFF. For example, the model gives `""` for `"ā"` where the original gives `"a"`.
- String lengths: JavaScript measures strings in UTF-16 code units, and the model measures them in code points. This matters for the raw lengths in `calculateRelevance` (line 301) and the fuzzy gate (line 226) when a query holds characters outside the Basic Multilingual Plane.
- Iteration order of `children` (`Object.entries`/`Object.values`, lines 114, 138, 175, 258): the model visits children in an unspecified order. It makes no claim about the order of fuzzy, partial or `getAllWords` results beyond membership, uniqueness and first-occurrence order of names.
- Object identity in the fuzzy `Set` (line 74): records are compared as values.
- `limit` and `maxDistance` are integers. Non-integer JavaScript numbers, `NaN` and the default arguments are not modelled.
- `Food` keeps the numeric fields of `Alimento` as reals; no operation here reads them.
- The `currentWord` parameter of `fuzzySearchHelper` is never read. It is left out.
- The unused `visited` parameter of `getAllWords` is left out.
- Aliasing: `searchPrefix` returns the node's own `words` array, so a caller that mutates it changes the trie. The model returns a value.
- `insert` mutates nodes in place. The model rebuilds the path as values, so sharing of nodes between tries is not modelled.
- The substitution loop (lines 114-125) is modelled as a loop over every child except the query character, rather than a loop over every child that skips that one.
- The sort algorithm itself: `Array.prototype.sort` is replaced by an insertion sort. Both are stable, so the result is the same (`StableSortUnique`); only the sequence of comparator calls differs.
- The module-level singleton `foodTrie` (line 306): the model works on explicitly constructed `Trie` objects.
