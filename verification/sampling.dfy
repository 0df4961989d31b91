/** `random.sample` and `random.choice`, driven by an explicit stream of draws.
    Each draw picks a position among the elements not yet taken; a stream that
    runs out reads as zeros. */
module Sampling {
  import opened Seqs

  function Head(draws: seq<nat>): nat {
    if |draws| == 0 then 0 else draws[0]
  }

  function Tail(draws: seq<nat>): seq<nat> {
    if |draws| == 0 then [] else draws[1..]
  }

  /** `pool` without the element at position `j`. */
  function RemoveAt<T>(pool: seq<T>, j: nat): (r: seq<T>)
    requires j < |pool|
    ensures |r| == |pool| - 1
    ensures forall i :: 0 <= i < j ==> r[i] == pool[i]
    ensures forall i :: j <= i < |r| ==> r[i] == pool[i + 1]
  {
    pool[..j] + pool[j + 1..]
  }

  lemma RemoveAtMultiset<T>(pool: seq<T>, j: nat)
    requires j < |pool|
    ensures multiset(pool) == multiset(RemoveAt(pool, j)) + multiset{pool[j]}
  {
    assert pool == pool[..j] + [pool[j]] + pool[j + 1..];
  }

  /** `random.choice(pool)`. */
  function Choice<T>(pool: seq<T>, draw: nat): (r: T)
    requires |pool| > 0
    ensures exists i :: 0 <= i < |pool| && r == pool[i]
  {
    pool[draw % |pool|]
  }

  /** `random.sample(pool, k)`: `k` elements drawn without replacement, in drawing order. */
  function Sample<T(==)>(pool: seq<T>, k: nat, draws: seq<nat>): (r: seq<T>)
    requires k <= |pool|
    ensures |r| == k
    ensures multiset(r) <= multiset(pool)
    decreases k
  {
    if k == 0 then []
    else
      var j := Head(draws) % |pool|;
      RemoveAtMultiset(pool, j);
      [pool[j]] + Sample(RemoveAt(pool, j), k - 1, Tail(draws))
  }

  /** Occurrences of `x` in a sequence without repetitions. */
  lemma {:induction false} DistinctCount<T>(s: seq<T>, x: T)
    requires Distinct(s)
    ensures multiset(s)[x] <= 1
    decreases |s|
  {
    if |s| > 0 {
      assert s == [s[0]] + s[1..];
      assert Distinct(s[1..]) by {
        forall i, j | 0 <= i < j < |s| - 1 ensures s[1..][i] != s[1..][j] {
          assert s[1..][i] == s[i + 1] && s[1..][j] == s[j + 1];
        }
      }
      DistinctCount(s[1..], x);
      if s[0] == x {
        assert x !in s[1..];
      }
    }
  }

  /** Two equal elements at different positions give multiplicity two. */
  lemma RepeatCount<T>(s: seq<T>, i: nat, j: nat)
    requires i < j < |s| && s[i] == s[j]
    ensures multiset(s)[s[i]] >= 2
  {
    assert s == s[..i] + [s[i]] + s[i + 1..j] + [s[j]] + s[j + 1..];
  }

  /** A sample drawn from a pool without repetitions has no repetitions. */
  lemma SampleDistinct<T>(pool: seq<T>, r: seq<T>)
    requires Distinct(pool)
    requires multiset(r) <= multiset(pool)
    ensures Distinct(r)
  {
    forall i, j | 0 <= i < j < |r| ensures r[i] != r[j] {
      if r[i] == r[j] {
        RepeatCount(r, i, j);
        DistinctCount(pool, r[i]);
        assert false;
      }
    }
  }

  /** Asking for the whole pool returns a permutation of it. */
  lemma SampleAllIsPermutation<T>(pool: seq<T>, r: seq<T>)
    requires multiset(r) <= multiset(pool)
    requires |r| == |pool|
    ensures multiset(r) == multiset(pool)
  {
    var rest := multiset(pool) - multiset(r);
    assert multiset(pool) == multiset(r) + rest;
    assert |rest| == 0;
  }

  /** The first position of `x` in `s`. */
  function IndexOf<T(==)>(s: seq<T>, x: T): (i: nat)
    requires x in s
    ensures i < |s| && s[i] == x
    decreases |s|
  {
    if s[0] == x then 0 else 1 + IndexOf(s[1..], x)
  }

  lemma SubMultisetSize<T>(a: multiset<T>, b: multiset<T>)
    requires a <= b
    ensures |a| <= |b|
  {
    var rest := b - a;
    assert b == a + rest;
  }

  /** Taking one matching element from both sides keeps the sub-multiset relation. */
  lemma SubMultisetRemove<T>(pool: seq<T>, r: seq<T>, j: nat)
    requires |r| > 0 && j < |pool| && pool[j] == r[0]
    requires multiset(r) <= multiset(pool)
    ensures multiset(r[1..]) <= multiset(RemoveAt(pool, j))
  {
    RemoveAtMultiset(pool, j);
    assert r == [r[0]] + r[1..];
    assert multiset(r) == multiset(r[1..]) + multiset{r[0]};
    forall y ensures multiset(r[1..])[y] <= multiset(RemoveAt(pool, j))[y] {
      assert multiset(r)[y] <= multiset(pool)[y];
    }
  }

  lemma ModBelow(j: nat, n: nat)
    requires j < n
    ensures j % n == j
  {
  }

  /** Draws that make `Sample` pick the elements of `r` one after the other. */
  function DrawsFor<T(==)>(pool: seq<T>, r: seq<T>): seq<nat>
    requires multiset(r) <= multiset(pool)
    decreases |r|
  {
    if |r| == 0 then []
    else
      assert r[0] in multiset(r);
      var j := IndexOf(pool, r[0]);
      SubMultisetRemove(pool, r, j);
      [j] + DrawsFor(RemoveAt(pool, j), r[1..])
  }

  /** One draw of `Sample`: the element at the drawn position, then a sample of what is left. */
  lemma SampleStep<T>(pool: seq<T>, k: nat, j: nat, draws: seq<nat>)
    requires 0 < k <= |pool| && j < |pool|
    requires Head(draws) % |pool| == j
    ensures Sample(pool, k, draws) == [pool[j]] + Sample(RemoveAt(pool, j), k - 1, Tail(draws))
  {
  }

  /** The draws for `r` start with the position of `r[0]` and go on with the draws for the rest. */
  lemma DrawsForStep<T>(pool: seq<T>, r: seq<T>)
    requires multiset(r) <= multiset(pool)
    requires |r| > 0
    ensures r[0] in pool
    ensures Head(DrawsFor(pool, r)) == IndexOf(pool, r[0])
    ensures multiset(r[1..]) <= multiset(RemoveAt(pool, IndexOf(pool, r[0])))
    ensures Tail(DrawsFor(pool, r)) == DrawsFor(RemoveAt(pool, IndexOf(pool, r[0])), r[1..])
  {
    assert r[0] in multiset(r);
    SubMultisetRemove(pool, r, IndexOf(pool, r[0]));
  }

  /** If the first draw selects `r[0]` and the remaining draws sample `r[1..]` from
      what is left, the whole stream samples `r`. */
  lemma SampleCons<T>(pool: seq<T>, r: seq<T>, j: nat, draws: seq<nat>, later: seq<nat>)
    requires 0 < |r| <= |pool| && j < |pool| && pool[j] == r[0]
    requires Head(draws) % |pool| == j && Tail(draws) == later
    requires Sample(RemoveAt(pool, j), |r[1..]|, later) == r[1..]
    ensures Sample(pool, |r|, draws) == r
  {
    SampleStep(pool, |r|, j, draws);
    assert [r[0]] + r[1..] == r;
  }

  /** Every outcome `random.sample` may produce is produced by some draw stream:
      the model does not rule out any sample. */
  lemma {:induction false} SampleReachable<T>(pool: seq<T>, r: seq<T>)
    requires multiset(r) <= multiset(pool)
    ensures |r| <= |pool|
    ensures Sample(pool, |r|, DrawsFor(pool, r)) == r
    decreases |r|
  {
    SubMultisetSize(multiset(r), multiset(pool));
    if |r| > 0 {
      DrawsForStep(pool, r);
      var j := IndexOf(pool, r[0]);
      SampleReachable(RemoveAt(pool, j), r[1..]);
      ModBelow(j, |pool|);
      SampleCons(pool, r, j, DrawsFor(pool, r), DrawsFor(RemoveAt(pool, j), r[1..]));
    }
  }
}
