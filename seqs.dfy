/** Order-preserving searches over sequences, shared by the traversal and the select model. */
module Seqs {
  /** The elements of `s` satisfying `p`, in their order in `s`. */
  function Filter<T>(s: seq<T>, p: T -> bool): (r: seq<T>)
    ensures |r| <= |s|
    ensures forall j :: 0 <= j < |r| ==> r[j] in s && p(r[j])
    ensures forall j :: 0 <= j < |s| && p(s[j]) ==> s[j] in r
  {
    if s == [] then []
    else (if p(s[0]) then [s[0]] else []) + Filter(s[1..], p)
  }

  /** Filtering distributes over concatenation, so it keeps relative order across the parts. */
  lemma {:induction false} FilterConcat<T>(a: seq<T>, b: seq<T>, p: T -> bool)
    ensures Filter(a + b, p) == Filter(a, p) + Filter(b, p)
  {
    if a == [] {
      assert a + b == b;
    } else {
      assert (a + b)[0] == a[0];
      assert (a + b)[1..] == a[1..] + b;
      FilterConcat(a[1..], b, p);
    }
  }

  /** `s` cut down to at most `k` elements. */
  function Truncate<T>(s: seq<T>, k: nat): (r: seq<T>)
    ensures |r| == if |s| <= k then |s| else k
    ensures r <= s
  {
    if |s| <= k then s else s[..k]
  }

  /** Truncating a concatenation truncates the first part, then spends what is left of `k` on the second. */
  lemma TruncateConcat<T>(a: seq<T>, b: seq<T>, k: nat)
    ensures Truncate(a + b, k) == Truncate(a, k) + Truncate(b, k - |Truncate(a, k)|)
  {
    if |a| >= k {
      assert (a + b)[..k] == a[..k];
    } else if |b| > k - |a| {
      assert (a + b)[..k] == a + b[..k - |a|];
    }
  }
}
