/**
 * Index permutations and NumPy's `argsort` on one axis, over integer keys.
 *
 * `argsort` returns the indices that put the keys in ascending order. NumPy's
 * default sort kind is not stable, so the specification below does not say in
 * which order equal keys come out.
 */
module Permutations {

  /** `s` lists each of 0, ..., n - 1 exactly once. */
  ghost predicate IsPermutation(s: seq<int>, n: nat) {
    && |s| == n
    && (forall k :: 0 <= k < n ==> 0 <= s[k] < n)
    && (forall k, l :: 0 <= k < l < n ==> s[k] != s[l])
  }

  /** `q` and `p` are permutations of the same length that undo each other. */
  ghost predicate IsInverse(p: seq<int>, q: seq<int>) {
    && IsPermutation(p, |p|)
    && IsPermutation(q, |p|)
    && (forall k :: 0 <= k < |p| ==> q[p[k]] == k)
    && (forall c :: 0 <= c < |p| ==> p[q[c]] == c)
  }

  /** `order` is a result `argsort` may give for `keys`: a permutation of the
      indices of `keys` along which the keys never decrease. */
  ghost predicate IsArgsort(keys: seq<int>, order: seq<int>) {
    && IsPermutation(order, |keys|)
    && (forall k, l :: 0 <= k < l < |keys| ==> keys[order[k]] <= keys[order[l]])
  }

  /** Pigeonhole: a permutation of 0, ..., n - 1 takes every value in that range. */
  lemma {:induction false} PermutationCovers(p: seq<int>, n: nat)
    requires IsPermutation(p, n)
    ensures forall c :: 0 <= c < n ==> c in p
    decreases n
  {
    if n > 0 {
      // Drop the last entry v and write v wherever n - 1 stood: a permutation of one less.
      var v := p[n - 1];
      var q := seq(n - 1, k requires 0 <= k < n - 1 => if p[k] == n - 1 then v else p[k]);
      PermutationCovers(q, n - 1);
      forall c | 0 <= c < n ensures c in p {
        if c == v {
          assert p[n - 1] == c;
        } else if c == n - 1 {
          assert v in q;
          var k :| 0 <= k < n - 1 && q[k] == v;
          assert p[k] == c;
        } else {
          assert c in q;
          var k :| 0 <= k < n - 1 && q[k] == c;
          assert p[k] == c;
        }
      }
    }
  }

  /** A permutation has exactly one inverse. */
  lemma InverseIsUnique(p: seq<int>, q1: seq<int>, q2: seq<int>)
    requires IsInverse(p, q1) && IsInverse(p, q2)
    ensures q1 == q2
  {
  }

  /** Helper: a strictly increasing sequence of `n` values in [0, n) is 0, 1, ..., n - 1,
      first from below. */
  lemma {:induction false} IncreasingAtLeastIndex(s: seq<int>, k: nat)
    requires forall i :: 0 <= i < |s| ==> 0 <= s[i]
    requires forall i :: 0 < i < |s| ==> s[i - 1] < s[i]
    requires k < |s|
    ensures s[k] >= k
  {
    if k > 0 {
      IncreasingAtLeastIndex(s, k - 1);
    }
  }

  /** Helper: the same, from above. */
  lemma {:induction false} IncreasingAtMostIndex(s: seq<int>, k: nat)
    requires forall i :: 0 <= i < |s| ==> s[i] < |s|
    requires forall i :: 0 < i < |s| ==> s[i - 1] < s[i]
    requires k < |s|
    ensures s[k] <= k
    decreases |s| - k
  {
    if k < |s| - 1 {
      IncreasingAtMostIndex(s, k + 1);
    }
  }

  /**
   * Argsorting a permutation inverts it: the indices that put a permutation
   * of 0, ..., n - 1 in ascending order are its inverse. Together with
   * InverseIsUnique this says the second `argsort` of the double-argsort idiom
   * is determined, whatever the sort does with ties.
   */
  lemma ArgsortOfPermutationIsInverse(p: seq<int>, r: seq<int>)
    requires IsPermutation(p, |p|)
    requires IsArgsort(p, r)
    ensures IsInverse(p, r)
  {
    var n := |p|;
    var s := seq(n, k requires 0 <= k < n => p[r[k]]);
    forall i | 0 < i < n ensures s[i - 1] < s[i] {
      assert r[i - 1] != r[i];
    }
    forall k | 0 <= k < n ensures p[r[k]] == k {
      IncreasingAtLeastIndex(s, k);
      IncreasingAtMostIndex(s, k);
    }
    forall j | 0 <= j < n ensures r[p[j]] == j {
      var c := p[j];
      assert p[r[c]] == c;
    }
  }

  /** Exchanging two entries keeps a permutation a permutation. */
  lemma SwapKeepsPermutation(s: seq<int>, n: nat, i: int, j: int)
    requires IsPermutation(s, n)
    requires 0 <= i < n && 0 <= j < n
    ensures IsPermutation(s[i := s[j]][j := s[i]], n)
  {
  }

  /** The entries of `order` before position `i` index `keys` in ascending order. */
  ghost predicate SortedBefore(keys: seq<int>, order: seq<int>, i: int)
    requires forall k :: 0 <= k < |order| ==> 0 <= order[k] < |keys|
  {
    forall k, l :: 0 <= k < l < i && l < |order| ==> keys[order[k]] <= keys[order[l]]
  }

  /**
   * `argsort` along one axis: the indices of `keys` in ascending order of key.
   * The model sorts by insertion; the contract promises only what NumPy's
   * unstable default sort does.
   */
  method Argsort(keys: seq<int>) returns (order: seq<int>)
    ensures IsArgsort(keys, order)
  {
    var n := |keys|;
    var a := new int[n](k => k);
    var i := 0;
    while i < n
      invariant 0 <= i <= n
      invariant IsPermutation(a[..], n)
      invariant SortedBefore(keys, a[..], i)
    {
      InsertBackwards(keys, a, i);
      i := i + 1;
    }
    order := a[..];
  }

  /** Indices into `keys`. */
  ghost predicate IndexesInto(keys: seq<int>, s: seq<int>) {
    forall k :: 0 <= k < |s| ==> 0 <= s[k] < |keys|
  }

  /**
   * While `s[i]` sinks into the sorted prefix: it now stands at `j`, and
   * `s[..i + 1]` without it is sorted and no smaller than it after `j`.
   */
  ghost predicate Sinking(keys: seq<int>, s: seq<int>, i: int, j: int)
    requires IndexesInto(keys, s)
  {
    && 0 <= j <= i < |s|
    && (forall k, l :: 0 <= k < l <= i && k != j && l != j ==> keys[s[k]] <= keys[s[l]])
    && (forall l :: j < l <= i ==> keys[s[j]] <= keys[s[l]])
    && (0 < j < i ==> keys[s[j - 1]] <= keys[s[j + 1]])
  }

  /** Helper: sinking starts from a sorted prefix. */
  lemma SinkingStarts(keys: seq<int>, s: seq<int>, i: int)
    requires IndexesInto(keys, s) && 0 <= i < |s|
    requires SortedBefore(keys, s, i)
    ensures Sinking(keys, s, i, i)
  {
  }

  /** Helper: exchanging the sinking entry with a larger left neighbour. */
  lemma SinkingSteps(keys: seq<int>, s: seq<int>, i: int, j: int)
    requires IndexesInto(keys, s)
    requires Sinking(keys, s, i, j) && j > 0 && keys[s[j - 1]] > keys[s[j]]
    ensures IndexesInto(keys, s[j - 1 := s[j]][j := s[j - 1]])
    ensures Sinking(keys, s[j - 1 := s[j]][j := s[j - 1]], i, j - 1)
  {
  }

  /** Helper: sinking stops at the front or behind a left neighbour no larger. */
  lemma SinkingStops(keys: seq<int>, s: seq<int>, i: int, j: int)
    requires IndexesInto(keys, s)
    requires Sinking(keys, s, i, j) && (j == 0 || keys[s[j - 1]] <= keys[s[j]])
    ensures SortedBefore(keys, s, i + 1)
  {
  }

  /** Helper: exchanging two neighbours below `hi` rearranges `s[..hi]` and leaves `s[hi..]` alone. */
  lemma SwapStaysInPrefix(s: seq<int>, j: int, hi: int)
    requires 0 < j < hi <= |s|
    ensures s[j - 1 := s[j]][j := s[j - 1]][hi..] == s[hi..]
    ensures multiset(s[j - 1 := s[j]][j := s[j - 1]][..hi]) == multiset(s[..hi])
  {
    var t := s[j - 1 := s[j]][j := s[j - 1]];
    assert t[..hi] == s[..hi][j - 1 := s[j]][j := s[j - 1]];
  }

  /** One step of insertion sort: sinks `a[i]` into the sorted prefix `a[..i]`. */
  method InsertBackwards(keys: seq<int>, a: array<int>, i: int)
    requires 0 <= i < a.Length == |keys|
    requires IsPermutation(a[..], a.Length)
    requires SortedBefore(keys, a[..], i)
    modifies a
    ensures IsPermutation(a[..], a.Length)
    ensures SortedBefore(keys, a[..], i + 1)
    ensures a[i + 1..] == old(a[i + 1..])
    ensures multiset(a[..i + 1]) == old(multiset(a[..i + 1]))
  {
    var n := a.Length;
    var j := i;
    SinkingStarts(keys, a[..], i);
    while j > 0 && keys[a[j - 1]] > keys[a[j]]
      invariant IsPermutation(a[..], n)
      invariant Sinking(keys, a[..], i, j)
      invariant a[i + 1..] == old(a[i + 1..])
      invariant multiset(a[..i + 1]) == old(multiset(a[..i + 1]))
    {
      ghost var s := a[..];
      SwapKeepsPermutation(s, n, j - 1, j);
      SinkingSteps(keys, s, i, j);
      SwapStaysInPrefix(s, j, i + 1);
      a[j - 1], a[j] := a[j], a[j - 1];
      assert a[..] == s[j - 1 := s[j]][j := s[j - 1]];
      j := j - 1;
    }
    SinkingStops(keys, a[..], i, j);
  }

  /** The inverse of a permutation, by the loop `rank[order[k]] := k`. */
  method Invert(order: seq<int>) returns (rank: seq<int>)
    requires IsPermutation(order, |order|)
    ensures IsInverse(order, rank)
  {
    var n := |order|;
    var r := new int[n];
    for k := 0 to n
      invariant forall j :: 0 <= j < k ==> r[order[j]] == j
    {
      r[order[k]] := k;
    }
    PermutationCovers(order, n);
    forall c | 0 <= c < n ensures 0 <= r[c] < n && order[r[c]] == c {
      assert c in order;
      var k :| 0 <= k < n && order[k] == c;
    }
    rank := r[..];
    forall k, l | 0 <= k < l < n ensures rank[k] != rank[l] {
      assert order[rank[k]] == k && order[rank[l]] == l;
    }
  }
}
