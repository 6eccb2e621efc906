/**
 The Fisher–Yates shuffle that fixes, once per forward run, the order in
 which the positions of the target are resolved.

 The shuffle walks `i` from `n - 1` down to `1` and swaps slot `i` with a
 slot `j` drawn from `[0, i]`.  The draws are an oracle: `draws[0]` is the
 draw for `i = n - 1`, `draws[1]` for `i = n - 2`, and so on, and an
 arbitrary natural `d` stands for `Math.floor(Math.random() * (i + 1))`
 through `d % (i + 1)`, which is always in `[0, i]` and reaches every value
 there.
 */
module Permutation {

  /** `[0, 1, ..., n - 1]`: the positions before shuffling. */
  function Iota(n: nat): (s: seq<nat>)
    ensures |s| == n
    ensures forall k :: 0 <= k < n ==> s[k] == k
  {
    seq(n, k => k)
  }

  /**
   `order` lists every position of a string of length `n` exactly once.  The
   bound on the entries follows from the multiset equation (see
   `PermutationBounds`); it is spelt out so that indexing by an entry needs no
   lemma call.
   */
  predicate IsPermutation(order: seq<nat>, n: nat)
  {
    && SameElements(order, n)
    && |order| == n
    && forall k :: 0 <= k < |order| ==> order[k] < n
  }

  /** The multiset equation alone already makes a permutation. */
  predicate SameElements(order: seq<nat>, n: nat)
  {
    multiset(order) == multiset(Iota(n))
  }

  /** No position occurs twice. */
  predicate Distinct(s: seq<nat>)
  {
    forall k, l :: 0 <= k < l < |s| ==> s[k] != s[l]
  }

  /** The swap `[array[i], array[j]] = [array[j], array[i]]`. */
  function Swap(a: seq<nat>, i: nat, j: nat): (r: seq<nat>)
    requires i < |a| && j < |a|
    ensures |r| == |a|
    ensures multiset(r) == multiset(a)
    ensures r[i] == a[j] && r[j] == a[i]
    ensures forall k :: 0 <= k < |a| && k != i && k != j ==> r[k] == a[k]
  {
    a[i := a[j]][j := a[i]]
  }

  /**
   The shuffle loop from `i = k - 1` down to `i = 1`: it permutes the slots
   below `k` and never touches the slots from `k` on.
   */
  function FisherYates(a: seq<nat>, k: nat, draws: seq<nat>): (r: seq<nat>)
    requires k <= |a|
    requires k <= |draws| + 1
    ensures |r| == |a|
    ensures multiset(r) == multiset(a)
    ensures r[k..] == a[k..]
    decreases k
  {
    if k <= 1 then
      a
    else
      var j := draws[0] % k;
      FisherYates(Swap(a, k - 1, j), k - 1, draws[1..])
  }

  /** `shuffle(positions)`: a shuffled order of the positions `0 .. n - 1`. */
  function Shuffle(n: nat, draws: seq<nat>): (order: seq<nat>)
    requires n <= |draws| + 1
    ensures IsPermutation(order, n)
  {
    var order := FisherYates(Iota(n), n, draws);
    PermutationBounds(order, n);
    order
  }

  /** Multiplicities in `Iota(n)`: each position once, nothing else. */
  lemma {:induction false} IotaCount(n: nat, v: nat)
    ensures multiset(Iota(n))[v] == if v < n then 1 else 0
  {
    if n > 0 {
      assert Iota(n) == Iota(n - 1) + [n - 1];
      IotaCount(n - 1, v);
    }
  }

  /** Every entry of a permutation is a position of the string. */
  lemma PermutationBounds(order: seq<nat>, n: nat)
    requires SameElements(order, n)
    ensures |order| == n
    ensures forall k :: 0 <= k < |order| ==> order[k] < n
  {
    assert |order| == |multiset(order)| == |multiset(Iota(n))| == n;
    forall k | 0 <= k < |order|
      ensures order[k] < n
    {
      assert order[k] in multiset(order);
      IotaCount(n, order[k]);
    }
  }

  /** Every position of the string occurs in a permutation. */
  lemma PermutationCovers(order: seq<nat>, n: nat)
    requires IsPermutation(order, n)
    ensures forall p :: 0 <= p < n ==> p in order
  {
    forall p | 0 <= p < n
      ensures p in order
    {
      IotaCount(n, p);
      assert p in multiset(order);
    }
  }

  /** No position occurs twice in a permutation. */
  lemma PermutationDistinct(order: seq<nat>, n: nat)
    requires IsPermutation(order, n)
    ensures Distinct(order)
  {
    forall k, l | 0 <= k < l < |order|
      ensures order[k] != order[l]
    {
      if order[k] == order[l] {
        var v := order[k];
        var s := order;
        assert s == s[..k] + [v] + s[k + 1..l] + [v] + s[l + 1..] by {
          assert s[k] == v && s[l] == v;
        }
        assert multiset(s)[v] >= 2 by {
          assert multiset(s) == multiset(s[..k]) + multiset{v} + multiset(s[k + 1..l])
                                + multiset{v} + multiset(s[l + 1..]);
        }
        IotaCount(n, v);
        assert false;
      }
    }
  }

  /** The index at which a position occurs. */
  lemma IndexOf(s: seq<nat>, p: nat) returns (k: nat)
    requires p in s
    ensures k < |s| && s[k] == p
  {
    k :| 0 <= k < |s| && s[k] == p;
  }

  /** Dropping a prefix keeps the entries distinct. */
  lemma DistinctSuffix(s: seq<nat>, m: nat)
    requires Distinct(s)
    requires m <= |s|
    ensures Distinct(s[m..])
  {
    forall k, l | 0 <= k < l < |s| - m
      ensures s[m..][k] != s[m..][l]
    {
      assert s[m..][k] == s[m + k] && s[m..][l] == s[m + l];
    }
  }

  /** The tail of a permutation from any point on has no repeated entry. */
  lemma PermutationSuffixDistinct(order: seq<nat>, n: nat, m: nat)
    requires IsPermutation(order, n)
    requires m <= |order|
    ensures Distinct(order[m..])
  {
    PermutationDistinct(order, n);
    DistinctSuffix(order, m);
  }

  /** In a sequence without repetitions, nothing of a prefix reappears after it. */
  lemma PrefixNotInSuffix(s: seq<nat>, m: nat, k: nat)
    requires Distinct(s)
    requires k < m <= |s|
    ensures s[k] !in s[m..]
  {
    forall l | 0 <= l < |s| - m
      ensures s[m..][l] != s[k]
    {
      assert s[m..][l] == s[m + l];
    }
  }
}
