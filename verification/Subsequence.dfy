/** Subsequences: what remains of a sequence after losing some elements, in order. */
module Subsequence {

  ghost predicate Increasing(js: seq<nat>) {
    forall i, j :: 0 <= i < j < |js| ==> js[i] < js[j]
  }

  /** Element `i` of `a` is element `js[i]` of `b`. */
  ghost predicate EmbedsBy<T>(a: seq<T>, b: seq<T>, js: seq<nat>) {
    && |js| == |a| && Increasing(js)
    && (forall i :: 0 <= i < |a| ==> js[i] < |b|)
    && (forall i :: 0 <= i < |a| ==> a[i] == b[js[i]])
  }

  ghost predicate IsSubsequence<T>(a: seq<T>, b: seq<T>) {
    exists js :: EmbedsBy(a, b, js)
  }

  lemma EmptyIsSubsequence<T>(b: seq<T>)
    ensures IsSubsequence([], b)
  {
    assert EmbedsBy([], b, []);
  }

  lemma AppendBoth<T>(a: seq<T>, b: seq<T>, xs: seq<T>)
    requires IsSubsequence(a, b)
    ensures IsSubsequence(a + xs, b + xs)
  {
    var js :| EmbedsBy(a, b, js);
    var ks := js + seq(|xs|, i requires 0 <= i < |xs| => |b| + i);
    assert EmbedsBy(a + xs, b + xs, ks);
  }

  lemma LoseOne<T>(a: seq<T>, b: seq<T>, i: nat)
    requires IsSubsequence(a, b) && i < |a|
    ensures IsSubsequence(a[..i] + a[i + 1..], b)
  {
    var js :| EmbedsBy(a, b, js);
    assert EmbedsBy(a[..i] + a[i + 1..], b, js[..i] + js[i + 1..]);
  }
}
