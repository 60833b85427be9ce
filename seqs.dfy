/** Facts about sequences used by several modules: distinct elements and permutations. */
module Seqs {

  function Min(a: int, b: int): int { if a <= b then a else b }
  function Max(a: int, b: int): int { if a >= b then a else b }

  /** No element occurs twice. */
  predicate Distinct<T(==)>(s: seq<T>) {
    forall i, j | 0 <= i < j < |s| :: s[i] != s[j]
  }

  /** Distinct elements, stated through the multiset: every multiplicity is at most one. */
  ghost predicate AtMostOnce<T>(s: seq<T>) {
    forall x | x in s :: multiset(s)[x] <= 1
  }

  lemma {:induction false} DistinctHasMultiplicityOne<T>(s: seq<T>)
    requires Distinct(s)
    ensures AtMostOnce(s)
  {
    if |s| > 0 {
      assert s == [s[0]] + s[1..];
      DistinctHasMultiplicityOne(s[1..]);
      assert s[0] !in s[1..] by {
        forall k | 0 <= k < |s[1..]| ensures s[1..][k] != s[0] {
          assert s[1..][k] == s[k + 1];
        }
      }
      forall x | x in s ensures multiset(s)[x] <= 1 {
        assert multiset(s) == multiset{s[0]} + multiset(s[1..]);
      }
    }
  }

  lemma MultiplicityOneIsDistinct<T>(s: seq<T>)
    requires AtMostOnce(s)
    ensures Distinct(s)
  {
    forall i, j | 0 <= i < j < |s| ensures s[i] != s[j] {
      assert s == s[..j] + s[j..];
      assert multiset(s) == multiset(s[..j]) + multiset(s[j..]);
      assert s[i] in multiset(s[..j]);
      assert s[j] in multiset(s[j..]);
      assert s[j] in s;
      assert multiset(s)[s[j]] == multiset(s[..j])[s[j]] + multiset(s[j..])[s[j]];
    }
  }

  /** A permutation of a sequence without repetitions has none either. */
  lemma {:induction false} PermutationKeepsDistinct<T>(a: seq<T>, b: seq<T>)
    requires Distinct(a) && multiset(a) == multiset(b)
    ensures Distinct(b) && |b| == |a|
  {
    DistinctHasMultiplicityOne(a);
    assert |multiset(a)| == |a| && |multiset(b)| == |b|;
    MultiplicityOneIsDistinct(b);
  }

  /** Without repetitions, a sequence has as many elements as its set of elements. */
  lemma {:induction false} DistinctCardinality<T>(s: seq<T>)
    requires Distinct(s)
    ensures |set x | x in s| == |s|
  {
    if |s| > 0 {
      var rest := s[1..];
      DistinctCardinality(rest);
      assert forall x :: x in s <==> x == s[0] || x in rest;
      assert s[0] !in rest by {
        forall k | 0 <= k < |rest| ensures rest[k] != s[0] {
          assert rest[k] == s[k + 1];
        }
      }
      assert (set x | x in s) == (set x | x in rest) + {s[0]};
    }
  }

  lemma PrefixOfDistinct<T>(s: seq<T>, n: nat)
    requires Distinct(s) && n <= |s|
    ensures Distinct(s[..n])
  {
  }
}
