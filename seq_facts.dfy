/** Facts about concatenation and prefixes, stated once so that proofs need not compare sequences element by element. */
module SeqFacts {

  lemma AppendAssoc<T>(a: seq<T>, b: seq<T>, d: seq<T>)
    ensures a + b + d == a + (b + d)
  {
  }

  /** Appending the next element of s to its prefix leaves the prefix one longer. */
  lemma AppendNext<T>(a: seq<T>, s: seq<T>, n: nat)
    requires n < |s|
    ensures a + s[..n] + [s[n]] == a + s[..n + 1]
  {
    assert s[..n + 1] == s[..n] + [s[n]];
    AppendAssoc(a, s[..n], [s[n]]);
  }

  lemma TakeAll<T>(s: seq<T>, n: nat)
    requires n == |s|
    ensures s[..n] == s
  {
  }

  /** An array that agrees with s at every index holds s. */
  lemma ArrayHolds<T>(a: array<T>, s: seq<T>)
    requires a.Length == |s| && forall i :: 0 <= i < |s| ==> a[i] == s[i]
    ensures a[..] == s
  {
  }
}
