/** `Array.prototype.sort` with the comparator both the index builder and the
    viewer use, `(a, b) => key(a) < key(b) ? 1 : -1`: newest (largest key)
    first. That comparator never answers "equal", so the order of records with
    equal keys is left to the engine; only what every engine guarantees is
    stated here: the result is a permutation whose keys never increase. */
module Sorting {
  import opened Strings

  /** No element's key is smaller than the key of an element after it. */
  predicate NonIncreasing<T>(s: seq<T>, key: T -> string) {
    forall i, j :: 0 <= i < j < |s| ==> !Less(key(s[i]), key(s[j]))
  }

  /** Sorts `a` in place, by key, largest first (insertion by adjacent swaps). */
  method SortDescending<T>(a: array<T>, key: T -> string)
    modifies a
    ensures NonIncreasing(a[..], key)
    ensures multiset(a[..]) == multiset(old(a[..]))
  {
    var i := 0;
    while i < a.Length
      invariant 0 <= i <= a.Length
      invariant forall k, l :: 0 <= k < l < i ==> !Less(key(a[k]), key(a[l]))
      invariant multiset(a[..]) == multiset(old(a[..]))
    {
      var j := i;
      while j > 0 && Less(key(a[j - 1]), key(a[j]))
        invariant 0 <= j <= i
        invariant forall k, l :: 0 <= k < l <= i && l != j ==> !Less(key(a[k]), key(a[l]))
        invariant multiset(a[..]) == multiset(old(a[..]))
      {
        LessAsymmetric(key(a[j - 1]), key(a[j]));
        a[j - 1], a[j] := a[j], a[j - 1];
        j := j - 1;
      }
      forall k | 0 <= k < j
        ensures !Less(key(a[k]), key(a[j]))
      {
        if k < j - 1 { NotLessTransitive(key(a[k]), key(a[j - 1]), key(a[j])); }
      }
      i := i + 1;
    }
  }

  /** In a non-increasing sequence, an element with a strictly larger key than
      another comes before it. */
  lemma LargerKeyFirst<T>(s: seq<T>, key: T -> string, i: nat, j: nat)
    requires NonIncreasing(s, key)
    requires i < |s| && j < |s| && Less(key(s[j]), key(s[i]))
    ensures i < j
  {
    LessIrreflexive(key(s[i]));
  }
}
