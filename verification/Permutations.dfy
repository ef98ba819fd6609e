/** Permutations of 0..n-1 as sequences, and the pigeonhole facts the sorting proofs rest on. */
module Permutations {

  predicate Distinct(s: seq<int>) {
    forall i, j :: 0 <= i < j < |s| ==> s[i] != s[j]
  }

  predicate InRange(s: seq<int>, lo: int, hi: int) {
    forall i :: 0 <= i < |s| ==> lo <= s[i] < hi
  }

  /** p lists every number of 0..|p|-1 once. */
  predicate IsPerm(p: seq<int>) {
    Distinct(p) && InRange(p, 0, |p|)
  }

  /** Two multisets that agree but for one part agree in that part. */
  lemma Cancel(a: multiset<int>, b: multiset<int>, b': multiset<int>, c: multiset<int>)
    requires a + b + c == a + b' + c
    ensures b == b'
  {
    forall x ensures b[x] == b'[x] {
      assert (a + b + c)[x] == (a + b' + c)[x];
    }
  }

  /** Distinct numbers from an interval are no more than the interval holds. */
  lemma {:induction false} Pigeonhole(s: seq<int>, lo: int, hi: int)
    requires Distinct(s) && InRange(s, lo, hi) && lo <= hi
    ensures |s| <= hi - lo
    decreases hi - lo
  {
    if |s| > 0 {
      if k :| 0 <= k < |s| && s[k] == hi - 1 {
        var t := s[..k] + s[k + 1..];
        forall i | 0 <= i < |t| ensures lo <= t[i] < hi - 1 {
          assert t[i] == if i < k then s[i] else s[i + 1];
        }
        Pigeonhole(t, lo, hi - 1);
      } else {
        assert lo <= s[0] < hi - 1;
        Pigeonhole(s, lo, hi - 1);
      }
    }
  }

  /** A permutation reaches every number of its range. */
  lemma Surjective(p: seq<int>, x: int)
    requires IsPerm(p) && 0 <= x < |p|
    ensures exists k :: 0 <= k < |p| && p[k] == x
  {
    if forall k :: 0 <= k < |p| ==> p[k] != x {
      var t := p + [x];
      Pigeonhole(t, 0, |p|);
    }
  }

  /** The position of x in the permutation p. */
  ghost function Index(p: seq<int>, x: int): (k: nat)
    requires IsPerm(p) && 0 <= x < |p|
    ensures k < |p| && p[k] == x
  {
    Surjective(p, x);
    var k :| 0 <= k < |p| && p[k] == x;
    k
  }

  lemma IndexUnique(p: seq<int>, k: int)
    requires IsPerm(p) && 0 <= k < |p|
    ensures Index(p, p[k]) == k
  {
  }

  lemma {:induction false} DistinctCount(s: seq<int>, x: int)
    requires Distinct(s)
    ensures multiset(s)[x] <= 1
  {
    if |s| > 0 {
      var t := s[..|s| - 1];
      assert s == t + [s[|s| - 1]];
      DistinctCount(t, x);
      if multiset(t)[x] > 0 {
        assert x in t;
      }
    }
  }

  lemma RepeatCount(s: seq<int>, i: nat, j: nat)
    requires i < j < |s| && s[i] == s[j]
    ensures multiset(s)[s[i]] >= 2
  {
    var p, q := s[..j], s[j..];
    assert s == p + q;
    assert p[i] in multiset(p) && q[0] in multiset(q);
  }

  /** Rearranging a permutation gives a permutation. */
  lemma PermReordered(p: seq<int>, q: seq<int>)
    requires IsPerm(p) && multiset(p) == multiset(q) && |p| == |q|
    ensures IsPerm(q)
  {
    forall i, j | 0 <= i < j < |q| ensures q[i] != q[j] {
      DistinctCount(p, q[i]);
      if q[i] == q[j] {
        RepeatCount(q, i, j);
      }
    }
    forall i | 0 <= i < |q| ensures 0 <= q[i] < |q| {
      assert q[i] in multiset(q);
      assert q[i] in p;
    }
  }

  /** What undoes a permutation is one too, and the two undo each other. */
  lemma InversePerm(p: seq<int>, t: seq<int>)
    requires IsPerm(p) && |t| == |p| && forall k :: 0 <= k < |p| ==> t[p[k]] == k
    ensures IsPerm(t)
    ensures forall a :: 0 <= a < |t| ==> p[t[a]] == a
  {
    forall a | 0 <= a < |t| ensures 0 <= t[a] < |t| && p[t[a]] == a {
      var k := Index(p, a);
    }
  }

  lemma {:induction false} SetBound(s: set<int>, n: nat)
    requires forall x :: x in s ==> 0 <= x < n
    ensures |s| <= n
  {
    if n == 0 {
      assert forall x :: x in s ==> x in {0} && x < 0;
      assert s == {};
    } else {
      var rest := s - {n - 1};
      SetBound(rest, n - 1);
      assert s == rest || s == rest + {n - 1};
    }
  }
}
