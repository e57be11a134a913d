/** Sequence helpers shared by the querysets of the model: filtering (a
    `WHERE` clause over an ordered result), the ids of a table below its
    auto-increment counter, and distinctness.
 */
module Seqs {

  /** The elements of `s` that satisfy `f`, in their original order. */
  function Filter<T(!new)>(s: seq<T>, f: T -> bool): (r: seq<T>)
    ensures |r| <= |s|
    ensures forall x :: x in r <==> x in s && f(x)
    decreases |s|
  {
    if |s| == 0 then [] else (if f(s[0]) then [s[0]] else []) + Filter(s[1..], f)
  }

  /** Filtering keeps every copy of a wanted element and no copy of any other. */
  lemma {:induction false} FilterCount<T(!new)>(s: seq<T>, f: T -> bool, x: T)
    ensures multiset(Filter(s, f))[x] == if f(x) then multiset(s)[x] else 0
    decreases |s|
  {
    if |s| > 0 {
      FilterCount(s[1..], f, x);
      assert s == [s[0]] + s[1..];
    }
  }

  /** Filtering two orderings of the same elements gives two orderings of
      the same elements. */
  lemma FilterPermutation<T(!new)>(a: seq<T>, b: seq<T>, f: T -> bool)
    requires multiset(a) == multiset(b)
    ensures multiset(Filter(a, f)) == multiset(Filter(b, f))
  {
    forall x
      ensures multiset(Filter(a, f))[x] == multiset(Filter(b, f))[x]
    {
      FilterCount(a, f, x);
      FilterCount(b, f, x);
    }
  }

  /** The wanted and the unwanted elements together are all of `s`. */
  lemma FilterPartition<T(!new)>(s: seq<T>, f: T -> bool, g: T -> bool)
    requires forall x :: g(x) == !f(x)
    ensures multiset(Filter(s, f)) + multiset(Filter(s, g)) == multiset(s)
  {
    forall x
      ensures (multiset(Filter(s, f)) + multiset(Filter(s, g)))[x] == multiset(s)[x]
    {
      FilterCount(s, f, x);
      FilterCount(s, g, x);
    }
  }

  /** Filtering by a weaker condition first changes nothing. */
  lemma {:induction false} FilterNarrow<T(!new)>(s: seq<T>, f: T -> bool, g: T -> bool)
    requires forall x :: f(x) ==> g(x)
    ensures Filter(Filter(s, g), f) == Filter(s, f)
    decreases |s|
  {
    if |s| > 0 {
      FilterNarrow(s[1..], f, g);
      var weak := Filter(s, g);
      if g(s[0]) {
        assert weak[0] == s[0] && weak[1..] == Filter(s[1..], g);
      } else {
        assert weak == Filter(s[1..], g);
      }
    }
  }

  /** Two filters that agree on the elements of `s` give the same result. */
  lemma {:induction false} FilterAgree<T(!new)>(s: seq<T>, f: T -> bool, g: T -> bool)
    requires forall i | 0 <= i < |s| :: f(s[i]) == g(s[i])
    ensures Filter(s, f) == Filter(s, g)
    decreases |s|
  {
    if |s| > 0 {
      FilterAgree(s[1..], f, g);
    }
  }

  /** `rel` holds between every element and every later one. */
  ghost predicate Chained<T>(s: seq<T>, rel: (T, T) -> bool) {
    forall i, j | 0 <= i < j < |s| :: rel(s[i], s[j])
  }

  /** Strictly increasing ids, as a relation for `Chained`. */
  function Ascending(): (nat, nat) -> bool {
    (x: nat, y: nat) => x < y
  }

  /** Dropping the first element keeps a chain. */
  lemma ChainedTail<T>(s: seq<T>, rel: (T, T) -> bool)
    requires |s| > 0 && Chained(s, rel)
    ensures Chained(s[1..], rel)
  {
    var rest := s[1..];
    forall i, j | 0 <= i < j < |rest|
      ensures rel(rest[i], rest[j])
    {
      assert rest[i] == s[i + 1] && rest[j] == s[j + 1];
    }
  }

  /** Filtering keeps the relative order of what it keeps. */
  lemma {:induction false} FilterChained<T(!new)>(s: seq<T>, f: T -> bool, rel: (T, T) -> bool)
    requires Chained(s, rel)
    ensures Chained(Filter(s, f), rel)
    decreases |s|
  {
    if |s| > 0 {
      var rest := s[1..];
      ChainedTail(s, rel);
      FilterChained(rest, f, rel);
      if f(s[0]) {
        var r := Filter(s, f);
        var tail := Filter(rest, f);
        assert r == [s[0]] + tail;
        forall i, j | 0 <= i < j < |r|
          ensures rel(r[i], r[j])
        {
          if i == 0 {
            assert r[j] == tail[j - 1];
            assert r[j] in rest;
            var k :| 0 <= k < |rest| && rest[k] == r[j];
            assert s[k + 1] == r[j];
          } else {
            assert r[i] == tail[i - 1] && r[j] == tail[j - 1];
          }
        }
      }
    }
  }

  /** No element occurs twice. */
  predicate Distinct<T(==)>(s: seq<T>) {
    forall i, j | 0 <= i < j < |s| :: s[i] != s[j]
  }

  /** The set of the elements of `s`. */
  function Elements<T>(s: seq<T>): set<T> {
    set x | x in s
  }

  /** A sequence without repetitions is as long as the set of its elements. */
  lemma {:induction false} DistinctCardinality<T>(s: seq<T>)
    requires Distinct(s)
    ensures |Elements(s)| == |s|
    decreases |s|
  {
    if |s| > 0 {
      var rest := s[1..];
      assert Distinct(rest) by {
        forall i, j | 0 <= i < j < |rest|
          ensures rest[i] != rest[j]
        {
          assert rest[i] == s[i + 1] && rest[j] == s[j + 1];
        }
      }
      DistinctCardinality(rest);
      assert s[0] !in rest by {
        forall k | 0 <= k < |rest|
          ensures rest[k] != s[0]
        {
          assert rest[k] == s[k + 1];
        }
      }
      assert Elements(s) == Elements(rest) + {s[0]};
    }
  }

  /** A permutation of a sequence without repetitions has none either. */
  lemma PermutationDistinct<T>(a: seq<T>, b: seq<T>)
    requires Distinct(a) && multiset(a) == multiset(b)
    ensures Distinct(b)
  {
    forall i, j | 0 <= i < j < |b|
      ensures b[i] != b[j]
    {
      var x := b[i];
      assert b == b[..i] + [x] + b[i + 1..j] + [b[j]] + b[j + 1..];
      assert multiset(b)[x] >= multiset([x])[x] + multiset([b[j]])[x];
      DistinctAtMostOnce(a, x);
    }
  }

  /** In a sequence without repetitions, each element occurs at most once. */
  lemma {:induction false} DistinctAtMostOnce<T>(s: seq<T>, x: T)
    requires Distinct(s)
    ensures multiset(s)[x] <= 1
    decreases |s|
  {
    if |s| > 0 {
      var rest := s[1..];
      assert Distinct(rest) by {
        forall i, j | 0 <= i < j < |rest|
          ensures rest[i] != rest[j]
        {
          assert rest[i] == s[i + 1] && rest[j] == s[j + 1];
        }
      }
      DistinctAtMostOnce(rest, x);
      assert s == [s[0]] + rest;
      if s[0] == x {
        assert x !in rest by {
          forall k | 0 <= k < |rest|
            ensures rest[k] != s[0]
          {
            assert rest[k] == s[k + 1];
          }
        }
      }
    }
  }

  /** The keys of `m` below `n` whose value passes `keep`, in increasing
      order: what a table scan up to the auto-increment counter returns. */
  function KeysBelow<V>(m: map<nat, V>, n: nat, keep: V -> bool): (ids: seq<nat>)
    ensures forall id :: id in ids <==> id < n && id in m && keep(m[id])
    ensures forall i | 0 <= i < |ids| :: ids[i] < n
    ensures forall i, j | 0 <= i < j < |ids| :: ids[i] < ids[j]
    decreases n
  {
    if n == 0 then []
    else KeysBelow(m, n - 1, keep) + (if n - 1 in m && keep(m[n - 1]) then [n - 1] else [])
  }
}
