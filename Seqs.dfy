/** Sequence vocabulary shared by the model: duplicates and substrings. */
module Seqs {

  /** No item occurs twice. */
  predicate NoDuplicates<T(==)>(s: seq<T>) {
    forall i, j :: 0 <= i < j < |s| ==> s[i] != s[j]
  }

  /** `sub` occurs in `s` at offset `k` (Python's `s[k:k+len(sub)] == sub`). */
  predicate OccursAt<T(==)>(sub: seq<T>, s: seq<T>, k: int) {
    0 <= k && k + |sub| <= |s| && s[k..k + |sub|] == sub
  }

  /** Python's `sub in s` for strings. */
  predicate IsSubstring<T(==)>(sub: seq<T>, s: seq<T>) {
    exists k :: 0 <= k <= |s| && OccursAt(sub, s, k)
  }

  lemma SubstringOfConcat<T>(a: seq<T>, sub: seq<T>, b: seq<T>)
    ensures IsSubstring(sub, a + sub + b)
  {
    assert (a + sub + b)[|a|..|a| + |sub|] == sub;
    assert OccursAt(sub, a + sub + b, |a|);
  }
}
