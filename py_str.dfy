/**
 * The few Python `str` operations that media_archive.py relies on, with
 * CPython's semantics: `startswith`, `endswith`, `find`, `replace(old, new, 1)`
 * and `rsplit(sep, 1)`. Strings are sequences of characters.
 */
module PyStr {
  import opened Wrappers

  /** `s.startswith(p)` */
  predicate StartsWith(s: string, p: string) {
    p <= s
  }

  /** `s.endswith(p)` */
  predicate EndsWith(s: string, p: string) {
    |p| <= |s| && s[|s| - |p|..] == p
  }

  /** `pat` occurs in `s` starting at index `i`. */
  predicate OccursAt(s: string, pat: string, i: int) {
    0 <= i && i + |pat| <= |s| && s[i..i + |pat|] == pat
  }

  /** `i` is the leftmost occurrence of `pat` in `s`. */
  predicate FirstOccurrence(s: string, pat: string, i: int) {
    OccursAt(s, pat, i) && forall j :: 0 <= j < i ==> !OccursAt(s, pat, j)
  }

  /** `s.find(pat, i)`, with Python's -1 written as None. */
  function FindFrom(s: string, pat: string, i: nat): (r: Option<nat>)
    decreases |s| + 1 - i
    ensures r.Some? ==> i <= r.value && OccursAt(s, pat, r.value)
    ensures r.Some? ==> forall j :: i <= j < r.value ==> !OccursAt(s, pat, j)
    ensures r.None? ==> forall j :: i <= j ==> !OccursAt(s, pat, j)
  {
    if i + |pat| > |s| then None
    else if s[i..i + |pat|] == pat then Some(i)
    else FindFrom(s, pat, i + 1)
  }

  /** `s.find(pat)`: the leftmost occurrence, if any. */
  function Find(s: string, pat: string): (r: Option<nat>)
    ensures r.Some? ==> FirstOccurrence(s, pat, r.value)
    ensures r.None? ==> forall j :: !OccursAt(s, pat, j)
  {
    FindFrom(s, pat, 0)
  }

  /**
   * `s.replace(pat, rep, 1)`: only the leftmost occurrence of `pat` is
   * replaced; a string without `pat` comes back unchanged. As in CPython, an
   * empty `pat` occurs at index 0, so `rep` is put in front.
   */
  function ReplaceFirst(s: string, pat: string, rep: string): (r: string)
    ensures (forall j :: !OccursAt(s, pat, j)) ==> r == s
    ensures forall i :: FirstOccurrence(s, pat, i) ==>
              r == s[..i] + rep + s[i + |pat|..]
  {
    match Find(s, pat)
    case None => s
    case Some(i) => s[..i] + rep + s[i + |pat|..]
  }

  /** When `s` begins with `pat`, the replacement swaps that prefix for `rep`. */
  lemma ReplaceFirstAtStart(s: string, pat: string, rep: string)
    requires StartsWith(s, pat)
    ensures ReplaceFirst(s, pat, rep) == rep + s[|pat|..]
  {
    assert s[0..|pat|] == pat;
    assert Find(s, pat) == Some(0);
    assert s[..0] + rep == rep;
  }

  /** The index of the last `c` in `s` (`s.rfind(c)`), if any. */
  function LastIndexOf(s: string, c: char): (r: Option<nat>)
    ensures r.Some? ==> r.value < |s| && s[r.value] == c
    ensures r.Some? ==> forall j :: r.value < j < |s| ==> s[j] != c
    ensures r.None? <==> c !in s
  {
    if s == [] then None
    else if s[|s| - 1] == c then Some(|s| - 1)
    else LastIndexOf(s[..|s| - 1], c)
  }

  /**
   * `s.rsplit(sep, 1)` when `sep in s`: the text before and after the last
   * `sep`. None stands for the one-element list Python returns otherwise.
   */
  function RSplitOnce(s: string, sep: char): (r: Option<(string, string)>)
    ensures r.Some? <==> sep in s
    ensures r.Some? ==> r.value.0 + [sep] + r.value.1 == s && sep !in r.value.1
  {
    match LastIndexOf(s, sep)
    case None => None
    case Some(k) =>
      assert s[..k] + [sep] + s[k + 1..] == s;
      Some((s[..k], s[k + 1..]))
  }

  /** A split of `s` at a `sep` with no `sep` after it is the one `rsplit` makes. */
  lemma RSplitOnceUnique(s: string, sep: char, a: string, b: string)
    requires a + [sep] + b == s && sep !in b
    ensures RSplitOnce(s, sep) == Some((a, b))
  {
    var k := LastIndexOf(s, sep).value;
    assert s[|a|] == sep;
    assert forall j :: |a| < j < |s| ==> s[j] == b[j - |a| - 1];
    assert k == |a|;
    assert s[..k] == a;
    assert s[k + 1..] == b;
  }
}
