/** Definitions that several components share. */
module Basics {

  datatype Option<+A> = None | Some(value: A)

  // Block, node and ring numbers without repetition
  ghost predicate Distinct(s: seq<nat>) {
    forall i, j :: 0 <= i < j < |s| ==> s[i] != s[j]
  }

  lemma SliceOfSlice<T>(s: seq<T>, o: nat, n: nat, p: nat, e: nat)
    requires o + n <= |s| && p <= e <= n
    ensures s[o..o + n][p..e] == s[o + p..o + e]
  {
    var a, b := s[o..o + n][p..e], s[o + p..o + e];
    forall j | 0 <= j < e - p ensures a[j] == b[j] {
      assert a[j] == s[o..o + n][p + j];
    }
  }
}
