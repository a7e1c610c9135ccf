/** The semantics of `llvm::SmallSetVector` as used by the release tracker: a
    sequence kept in insertion order that never holds an element twice. */
module SetVector {

  /** No element occurs at two positions. */
  predicate NoDuplicates<T(==)>(s: seq<T>) {
    forall i, j :: 0 <= i < j < |s| ==> s[i] != s[j]
  }

  /** `SetVector::insert`: append `x` unless it is already present. */
  function Insert<T(==)>(s: seq<T>, x: T): (r: seq<T>)
    ensures x in r && forall i :: 0 <= i < |r| ==> r[i] in s || r[i] == x
    ensures |s| <= |r| <= |s| + 1 && r[..|s|] == s
    ensures x in s ==> r == s
    ensures NoDuplicates(s) ==> NoDuplicates(r)
  {
    if x in s then s else s + [x]
  }

  /** Inserting the same element twice has the effect of inserting it once. */
  lemma InsertIdempotent<T>(s: seq<T>, x: T)
    ensures Insert(Insert(s, x), x) == Insert(s, x)
  {
  }
}
