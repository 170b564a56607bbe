/**
 * Text normalisation used as the key of the food-name trie
 * (`Trie.normalizeText` in Nutrion/src/lib/trieSearch.ts).
 *
 * The original lower-cases the whole string, decomposes it canonically (NFD),
 * strips the combining diacritical marks U+0300..U+036F, removes every
 * character outside `[a-z0-9\s]` and trims.  Full Unicode case mapping and
 * NFD are replaced here by `Fold`, a per-character table covering ASCII, the
 * Latin-1 letters and a selection of other characters (U+0130, U+0178,
 * U+212A, U+212B, U+2000, U+2001).  Every other character is kept as it is,
 * so letters such as those of Latin Extended-A and Latin Extended Additional
 * lose their base letter here: the model gives "" for "ā" where the original
 * gives "a".  Filtering and trimming are exact.
 */
module TextNormalization {

  const GRAVE: char := '\U{0300}'
  const ACUTE: char := '\U{0301}'
  const CIRCUMFLEX: char := '\U{0302}'
  const TILDE: char := '\U{0303}'
  const DIAERESIS: char := '\U{0308}'
  const RING: char := '\U{030A}'
  const CEDILLA: char := '\U{0327}'
  const DOT_ABOVE: char := '\U{0307}'

  /** JavaScript's `\s` class, which is also exactly what `String.prototype.trim` removes. */
  predicate IsSpace(c: char) {
    c == '\t' || c == '\n' || c == '\U{000B}' || c == '\U{000C}' || c == '\r' || c == ' '
    || c == '\U{00A0}' || c == '\U{1680}' || ('\U{2000}' <= c <= '\U{200A}')
    || c == '\U{2028}' || c == '\U{2029}' || c == '\U{202F}' || c == '\U{205F}'
    || c == '\U{3000}' || c == '\U{FEFF}'
  }

  /** The characters the filter `/[^a-z0-9\s]/g` lets through. */
  predicate IsWordChar(c: char) {
    ('a' <= c <= 'z') || ('0' <= c <= '9') || IsSpace(c)
  }

  /** The combining diacritical marks U+0300..U+036F, which the original strips after decomposing. */
  predicate IsCombiningMark(c: char) {
    GRAVE <= c <= '\U{036F}'
  }

  predicate IsNotMark(c: char) {
    !IsCombiningMark(c)
  }

  /**
   * A character that normalisation leaves alone (see `KeyCharFixed`): every
   * character of a normalised key is one.  The two quads are white space but
   * decompose canonically into other spaces.
   */
  predicate IsKeyChar(c: char) {
    IsWordChar(c) && c != '\U{2000}' && c != '\U{2001}'
  }

  /** Canonical decomposition of a lower-case Latin-1 letter into base letter and mark. */
  function Decompose(c: char): seq<char> {
    match c
    case 'à' => ['a', GRAVE]
    case 'á' => ['a', ACUTE]
    case 'â' => ['a', CIRCUMFLEX]
    case 'ã' => ['a', TILDE]
    case 'ä' => ['a', DIAERESIS]
    case 'å' => ['a', RING]
    case 'ç' => ['c', CEDILLA]
    case 'è' => ['e', GRAVE]
    case 'é' => ['e', ACUTE]
    case 'ê' => ['e', CIRCUMFLEX]
    case 'ë' => ['e', DIAERESIS]
    case 'ì' => ['i', GRAVE]
    case 'í' => ['i', ACUTE]
    case 'î' => ['i', CIRCUMFLEX]
    case 'ï' => ['i', DIAERESIS]
    case 'ñ' => ['n', TILDE]
    case 'ò' => ['o', GRAVE]
    case 'ó' => ['o', ACUTE]
    case 'ô' => ['o', CIRCUMFLEX]
    case 'õ' => ['o', TILDE]
    case 'ö' => ['o', DIAERESIS]
    case 'ù' => ['u', GRAVE]
    case 'ú' => ['u', ACUTE]
    case 'û' => ['u', CIRCUMFLEX]
    case 'ü' => ['u', DIAERESIS]
    case 'ý' => ['y', ACUTE]
    case 'ÿ' => ['y', DIAERESIS]
    case _ => [c]
  }

  /** Lower case followed by canonical decomposition, for one character. */
  function Fold(c: char): seq<char> {
    if 'A' <= c <= 'Z' then [(c as int + 32) as char]
    else if '\U{00C0}' <= c <= '\U{00DE}' && c != '\U{00D7}' then Decompose((c as int + 32) as char)
    else if c == '\U{0178}' then ['y', DIAERESIS]   // LATIN CAPITAL LETTER Y WITH DIAERESIS
    else if c == '\U{0130}' then ['i', DOT_ABOVE]   // LATIN CAPITAL LETTER I WITH DOT ABOVE
    else if c == '\U{212A}' then ['k']              // KELVIN SIGN
    else if c == '\U{212B}' then ['a', RING]        // ANGSTROM SIGN
    else if c == '\U{2000}' then ['\U{2002}']       // EN QUAD is canonically EN SPACE
    else if c == '\U{2001}' then ['\U{2003}']       // EM QUAD is canonically EM SPACE
    else Decompose(c)
  }

  /** Folding a character never yields a kept character that folding would change again. */
  lemma FoldStable(c: char)
    ensures forall d :: d in Fold(c) && IsWordChar(d) ==> IsKeyChar(d)
  {
    if 'A' <= c <= 'Z' {
    } else if '\U{00C0}' <= c <= '\U{00DE}' && c != '\U{00D7}' {
      DecomposeStable((c as int + 32) as char);
    } else if !(c == '\U{0178}' || c == '\U{0130}' || c == '\U{212A}' || c == '\U{212B}' || c == '\U{2000}' || c == '\U{2001}') {
      DecomposeStable(c);
    }
  }

  /** A decomposition of anything but the two quads yields no kept character that folding would change again. */
  lemma DecomposeStable(c: char)
    requires c != '\U{2000}' && c != '\U{2001}'
    ensures forall d :: d in Decompose(c) && IsWordChar(d) ==> IsKeyChar(d)
  {
  }

  /** Key characters are fixed points of `Fold`. */
  lemma KeyCharFixed(c: char)
    requires IsKeyChar(c)
    ensures Fold(c) == [c]
  {
  }

  /** Lower case and canonical decomposition of a whole string, character by character. */
  function FoldAll(s: string): string {
    if s == [] then [] else Fold(s[0]) + FoldAll(s[1..])
  }

  /** Folding leaves no kept character that folding would change again. */
  lemma {:induction false} FoldAllStable(s: string)
    ensures forall d :: d in FoldAll(s) && IsWordChar(d) ==> IsKeyChar(d)
    decreases |s|
  {
    if s != [] {
      FoldStable(s[0]);
      FoldAllStable(s[1..]);
    }
  }

  /** Folding leaves a string of key characters alone. */
  lemma {:induction false} FoldAllKeyChars(s: string)
    requires forall i :: 0 <= i < |s| ==> IsKeyChar(s[i])
    ensures FoldAll(s) == s
    decreases |s|
  {
    if s != [] {
      KeyCharFixed(s[0]);
      assert forall i :: 0 <= i < |s[1..]| ==> IsKeyChar(s[1..][i]) by {
        forall i | 0 <= i < |s[1..]| ensures IsKeyChar(s[1..][i]) { assert s[1..][i] == s[i + 1]; }
      }
      FoldAllKeyChars(s[1..]);
    }
  }

  /** The characters of `s` that `keep` accepts, in order (`replace(/[^...]/g, '')`). */
  function Filter(s: string, keep: char -> bool): string {
    if s == [] then []
    else if keep(s[0]) then [s[0]] + Filter(s[1..], keep)
    else Filter(s[1..], keep)
  }

  /** The filter keeps exactly the accepted characters of its argument. */
  lemma {:induction false} FilterFacts(s: string, keep: char -> bool)
    ensures forall i :: 0 <= i < |Filter(s, keep)| ==> keep(Filter(s, keep)[i])
    ensures forall c :: c in Filter(s, keep) ==> c in s
    ensures forall c :: c in s && keep(c) ==> c in Filter(s, keep)
    decreases |s|
  {
    if s != [] {
      FilterFacts(s[1..], keep);
      var r, rest := Filter(s, keep), Filter(s[1..], keep);
      assert forall c :: c in s ==> c == s[0] || c in s[1..];
      if keep(s[0]) {
        assert r == [s[0]] + rest;
        assert forall i :: 1 <= i < |r| ==> r[i] == rest[i - 1];
      }
    }
  }

  /** The filter changes nothing when it accepts every character. */
  lemma {:induction false} FilterAll(s: string, keep: char -> bool)
    requires forall i :: 0 <= i < |s| ==> keep(s[i])
    ensures Filter(s, keep) == s
    decreases |s|
  {
    if s != [] {
      assert forall i :: 0 <= i < |s[1..]| ==> keep(s[1..][i]) by {
        forall i | 0 <= i < |s[1..]| ensures keep(s[1..][i]) { assert s[1..][i] == s[i + 1]; }
      }
      FilterAll(s[1..], keep);
    }
  }

  /** Removes leading white space. */
  function TrimStart(s: string): string {
    if s != [] && IsSpace(s[0]) then TrimStart(s[1..]) else s
  }

  /** What is dropped is white space, what is kept is a suffix that does not start with it. */
  lemma {:induction false} TrimStartFacts(s: string)
    ensures |TrimStart(s)| <= |s| && TrimStart(s) == s[|s| - |TrimStart(s)|..]
    ensures forall i :: 0 <= i < |s| - |TrimStart(s)| ==> IsSpace(s[i])
    ensures TrimStart(s) == [] || !IsSpace(TrimStart(s)[0])
    decreases |s|
  {
    if s != [] && IsSpace(s[0]) {
      TrimStartFacts(s[1..]);
      assert forall i :: 1 <= i < |s| ==> s[i] == s[1..][i - 1];
    }
  }

  /** Removes trailing white space. */
  function TrimEnd(s: string): string {
    if s != [] && IsSpace(s[|s| - 1]) then TrimEnd(s[..|s| - 1]) else s
  }

  /** What is dropped is white space, what is kept is a prefix that does not end with it. */
  lemma {:induction false} TrimEndFacts(s: string)
    ensures TrimEnd(s) <= s
    ensures forall i :: |TrimEnd(s)| <= i < |s| ==> IsSpace(s[i])
    ensures TrimEnd(s) == [] || !IsSpace(TrimEnd(s)[|TrimEnd(s)| - 1])
    ensures s != [] && !IsSpace(s[0]) ==> TrimEnd(s) != [] && TrimEnd(s)[0] == s[0]
    decreases |s|
  {
    if s != [] && IsSpace(s[|s| - 1]) {
      var init := s[..|s| - 1];
      TrimEndFacts(init);
      assert forall i :: 0 <= i < |init| ==> init[i] == s[i];
    }
  }

  /** `String.prototype.trim`. */
  function Trim(s: string): string {
    TrimEnd(TrimStart(s))
  }

  /** A trimmed string neither starts nor ends with white space. */
  lemma TrimFacts(s: string)
    ensures Trim(s) == [] || (!IsSpace(Trim(s)[0]) && !IsSpace(Trim(s)[|Trim(s)| - 1]))
  {
    TrimStartFacts(s);
    TrimEndFacts(TrimStart(s));
  }

  /** Trimming keeps only characters of its argument. */
  lemma TrimKeepsKeyChars(s: string)
    requires forall i :: 0 <= i < |s| ==> IsKeyChar(s[i])
    ensures forall i :: 0 <= i < |Trim(s)| ==> IsKeyChar(Trim(s)[i])
  {
    var t := TrimStart(s);
    TrimStartFacts(s);
    TrimEndFacts(t);
    assert forall i :: 0 <= i < |t| ==> t[i] == s[|s| - |t| + i];
  }

  /** Of the folded text, what survives both filters consists of key characters. */
  lemma FilteredAreKeyChars(s: string)
    ensures forall i :: 0 <= i < |Filter(Filter(FoldAll(s), IsNotMark), IsWordChar)| ==>
      IsKeyChar(Filter(Filter(FoldAll(s), IsNotMark), IsWordChar)[i])
  {
    var kept := Filter(Filter(FoldAll(s), IsNotMark), IsWordChar);
    FoldAllStable(s);
    FilterFacts(FoldAll(s), IsNotMark);
    FilterFacts(Filter(FoldAll(s), IsNotMark), IsWordChar);
    forall i | 0 <= i < |kept| ensures IsKeyChar(kept[i]) {
      assert kept[i] in kept;
    }
  }

  /** `normalizeText`: the trie key of a name. */
  function Normalize(s: string): string {
    Trim(Filter(Filter(FoldAll(s), IsNotMark), IsWordChar))
  }

  /**
   * A key holds only `[a-z0-9\s]` (and none of the characters that
   * normalisation would change again), and neither starts nor ends with
   * white space.
   */
  lemma NormalizeShape(s: string)
    ensures forall i :: 0 <= i < |Normalize(s)| ==> IsWordChar(Normalize(s)[i])
    ensures forall i :: 0 <= i < |Normalize(s)| ==> IsKeyChar(Normalize(s)[i])
    ensures Normalize(s) == [] || (!IsSpace(Normalize(s)[0]) && !IsSpace(Normalize(s)[|Normalize(s)| - 1]))
  {
    var kept := Filter(Filter(FoldAll(s), IsNotMark), IsWordChar);
    FilteredAreKeyChars(s);
    TrimKeepsKeyChars(kept);
    TrimFacts(kept);
  }

  /** Folding and both filters leave a string of key characters alone. */
  lemma KeyCharsSurvive(s: string)
    requires forall i :: 0 <= i < |s| ==> IsKeyChar(s[i])
    ensures Filter(Filter(FoldAll(s), IsNotMark), IsWordChar) == s
  {
    FoldAllKeyChars(s);
    FilterAll(s, IsNotMark);
    FilterAll(s, IsWordChar);
  }

  /** A string of key characters that neither starts nor ends with white space is its own key. */
  lemma NormalizeFixpoint(s: string)
    requires forall i :: 0 <= i < |s| ==> IsKeyChar(s[i])
    requires s == [] || (!IsSpace(s[0]) && !IsSpace(s[|s| - 1]))
    ensures Normalize(s) == s
  {
    KeyCharsSurvive(s);
    assert TrimStart(s) == s;
    assert TrimEnd(s) == s;
  }

  /** Normalising twice is normalising once. */
  lemma {:induction false} NormalizeIdempotent(s: string)
    ensures Normalize(Normalize(s)) == Normalize(s)
  {
    NormalizeShape(s);
    NormalizeFixpoint(Normalize(s));
  }

  /** The empty string has the empty key. */
  lemma NormalizeEmpty()
    ensures Normalize([]) == []
  {
  }

  /**
   * Every non-empty prefix of a key normalises to a non-empty prefix of itself
   * (only trailing white space can be lost).
   */
  lemma NormalizePrefixOfKey(key: string, q: string)
    requires forall i :: 0 <= i < |key| ==> IsKeyChar(key[i])
    requires key == [] || !IsSpace(key[0])
    requires q <= key && q != []
    ensures Normalize(q) != [] && Normalize(q) <= q
  {
    forall i | 0 <= i < |q| ensures IsKeyChar(q[i]) {
      assert q[i] == key[i];
    }
    KeyCharsSurvive(q);
    TrimEndFacts(q);
    assert TrimStart(q) == q;
  }
}
