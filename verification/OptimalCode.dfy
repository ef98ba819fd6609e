/**
 Why Huffman's construction is optimal: of all code lengths that fit the code space, the depths
 in a tree built by merging two lightest roots at a time have the least total weight.  Nodes are
 numbers; the leaves are a set of them, and the k-th merge makes node first + k.
 */
module OptimalCode {
  import opened Powers

  function HalfPow(d: nat): (r: real)
    ensures r > 0.0
  {
    if d == 0 then 1.0 else HalfPow(d - 1) / 2.0
  }

  /** Total of weight times length over the members of s below n. */
  function Cost(w: seq<int>, l: seq<nat>, s: set<int>, n: nat): int
    requires n <= |w| && n <= |l|
  {
    if n == 0 then 0 else Cost(w, l, s, n - 1) + if n - 1 in s then w[n - 1] * l[n - 1] else 0
  }

  /** The code space that the members of s below n take. */
  function Space(l: seq<nat>, s: set<int>, n: nat): (r: real)
    requires n <= |l|
    ensures r >= 0.0
  {
    if n == 0 then 0.0 else Space(l, s, n - 1) + if n - 1 in s then HalfPow(l[n - 1]) else 0.0
  }

  predicate Within(s: set<int>, n: nat) {
    forall x :: x in s ==> 0 <= x < n
  }

  // ------------------------------------------------------------------
  // The sums, member by member

  lemma {:induction false} CostWithout(w: seq<int>, l: seq<nat>, s: set<int>, x: nat, n: nat)
    requires n <= |w| && n <= |l| && x in s
    ensures x < n ==> Cost(w, l, s, n) == Cost(w, l, s - {x}, n) + w[x] * l[x]
    ensures n <= x ==> Cost(w, l, s, n) == Cost(w, l, s - {x}, n)
  {
    if n > 0 {
      CostWithout(w, l, s, x, n - 1);
    }
  }

  lemma {:induction false} SpaceWithout(l: seq<nat>, s: set<int>, x: nat, n: nat)
    requires n <= |l| && x in s
    ensures x < n ==> Space(l, s, n) == Space(l, s - {x}, n) + HalfPow(l[x])
    ensures n <= x ==> Space(l, s, n) == Space(l, s - {x}, n)
  {
    if n > 0 {
      SpaceWithout(l, s, x, n - 1);
    }
  }

  lemma {:induction false} SumsSame(w: seq<int>, l: seq<nat>, w': seq<int>, l': seq<nat>, s: set<int>, n: nat)
    requires n <= |w| && n <= |l| && n <= |w'| && n <= |l'|
    requires forall x :: x in s && 0 <= x < n ==> w'[x] == w[x] && l'[x] == l[x]
    ensures Cost(w', l', s, n) == Cost(w, l, s, n) && Space(l', s, n) == Space(l, s, n)
  {
    if n > 0 {
      SumsSame(w, l, w', l', s, n - 1);
    }
  }

  /** Two members and the rest. */
  lemma SumsSplit(w: seq<int>, l: seq<nat>, s: set<int>, a: nat, b: nat)
    requires |w| == |l| && a in s && b in s && a != b && a < |w| && b < |w|
    ensures Cost(w, l, s, |w|) == Cost(w, l, s - {a} - {b}, |w|) + w[a] * l[a] + w[b] * l[b]
    ensures Space(l, s, |w|) == Space(l, s - {a} - {b}, |w|) + HalfPow(l[a]) + HalfPow(l[b])
  {
    CostWithout(w, l, s, a, |w|);
    CostWithout(w, l, s - {a}, b, |w|);
    SpaceWithout(l, s, a, |w|);
    SpaceWithout(l, s - {a}, b, |w|);
  }

  // ------------------------------------------------------------------
  // Making the two lightest members the longest, of equal length

  /** A longest member among those below n, or m if none is longer. */
  lemma {:induction false} Longest(l: seq<nat>, s: set<int>, m: nat, n: nat) returns (p: nat)
    requires m in s && m < |l| && n <= |l|
    ensures p in s && p < |l| && l[m] <= l[p] && forall x :: x in s && 0 <= x < n ==> l[x] <= l[p]
  {
    if n == 0 {
      p := m;
    } else {
      p := Longest(l, s, m, n - 1);
      if n - 1 in s && l[n - 1] > l[p] { p := n - 1; }
    }
  }

  /** Giving the lighter of two members the longer code costs nothing. */
  lemma Swap(w: seq<int>, l: seq<nat>, s: set<int>, a: nat, p: nat) returns (l': seq<nat>)
    requires |w| == |l| && Within(s, |w|) && a in s && p in s && w[a] <= w[p] && l[a] <= l[p]
    ensures l' == l[a := l[p]][p := l[a]]
    ensures Cost(w, l', s, |w|) <= Cost(w, l, s, |w|) && Space(l', s, |w|) == Space(l, s, |w|)
  {
    l' := l[a := l[p]][p := l[a]];
    if a == p {
      assert l' == l;
    } else {
      SumsSplit(w, l, s, a, p);
      SumsSplit(w, l', s, a, p);
      SumsSame(w, l, w, l', s - {a} - {p}, |w|);
      Cheaper(w[a], w[p], l[a], l[p]);
    }
  }

  lemma Cheaper(wa: int, wp: int, la: nat, lp: nat)
    requires wa <= wp && la <= lp
    ensures wa * lp + wp * la <= wa * la + wp * lp
  {
    MulMono(wa, wp, lp - la);
    MulDist(lp - la, la, wa);
    MulDist(lp - la, la, wp);
  }

  /** The space of k cells of size 2^-m. */
  function Cells(k: int, m: nat): real { k as real * HalfPow(m) }

  lemma {:induction false} CellsOf(d: nat, m: nat)
    requires d <= m
    ensures Cells(Pow2(m - d), m) == HalfPow(d)
    decreases m - d
  {
    if d < m {
      CellsOf(d + 1, m);
      CellsTwice(Pow2(m - d - 1), m);
    }
  }

  lemma CellsTwice(k: int, m: nat)
    ensures Cells(2 * k, m) == 2.0 * Cells(k, m)
  {
    assert (2 * k) as real == 2.0 * k as real;
  }

  lemma CellsAdd(j: int, k: int, m: nat)
    ensures Cells(j + k, m) == Cells(j, m) + Cells(k, m)
  {
    assert (j + k) as real == j as real + k as real;
  }

  lemma CellsMono(j: int, k: int, m: nat)
    requires j <= k
    ensures Cells(j, m) <= Cells(k, m)
  {
    RealMono(j as real, k as real, HalfPow(m));
  }

  lemma RealMono(x: real, y: real, h: real)
    requires x <= y && h > 0.0
    ensures x * h <= y * h
  {
  }

  lemma CellsUnit(m: nat)
    ensures Cells(0, m) == 0.0 && Cells(1, m) == HalfPow(m) && HalfPow(0) == 1.0
  {
  }

  /** Lengths up to m take a whole number of cells of size 2^-m. */
  lemma {:induction false} WholeCells(l: seq<nat>, s: set<int>, m: nat, n: nat) returns (k: nat)
    requires n <= |l| && forall x :: x in s && 0 <= x < n ==> l[x] <= m
    ensures Space(l, s, n) == Cells(k, m)
  {
    hide Cells, HalfPow, Pow2;
    if n == 0 {
      k := 0;
      CellsUnit(m);
    } else {
      k := WholeCells(l, s, m, n - 1);
      if n - 1 in s {
        CellsOf(l[n - 1], m);
        CellsAdd(k, Pow2(m - l[n - 1]), m);
        k := k + Pow2(m - l[n - 1]);
      }
    }
  }

  /** If whole cells leave any room, they leave a cell. */
  lemma OneMoreCell(k: nat, m: nat)
    requires Cells(k, m) < 1.0
    ensures Cells(k, m) + HalfPow(m) <= 1.0
  {
    hide Cells, HalfPow, Pow2;
    CellsUnit(m);
    CellsOf(0, m);
    if k >= Pow2(m - 0) {
      CellsMono(Pow2(m - 0), k, m);
    } else {
      CellsMono(k + 1, Pow2(m - 0), m);
      CellsAdd(k, 1, m);
    }
  }

  /** The single longest member may be shortened to the length of the next. */
  lemma Shorten(w: seq<int>, l: seq<nat>, s: set<int>, a: nat, b: nat) returns (l': seq<nat>)
    requires |w| == |l| && Within(s, |w|) && a in s && b in s && a != b && w[a] >= 0
    requires Space(l, s, |w|) <= 1.0 && l[b] <= l[a] && forall x :: x in s && x != a ==> l[x] <= l[b]
    ensures l' == l[a := l[b]]
    ensures Cost(w, l', s, |w|) <= Cost(w, l, s, |w|) && Space(l', s, |w|) <= 1.0
  {
    l' := l[a := l[b]];
    if l[a] == l[b] {
      assert l' == l;
      return;
    }
    hide Space, Cost, HalfPow, Cells;
    SpaceWithout(l, s, a, |w|);
    SpaceWithout(l', s, a, |w|);
    CostWithout(w, l, s, a, |w|);
    CostWithout(w, l', s, a, |w|);
    SumsSame(w, l, w, l', s - {a}, |w|);
    var k := WholeCells(l, s - {a}, l[b], |w|);
    OneMoreCell(k, l[b]);
    MulMono(l[b], l[a], w[a]);
  }

  predicate Lightest(w: seq<int>, s: set<int>, a: int, b: int) {
    && Within(s, |w|) && a in s && b in s && a != b && 0 <= w[a] <= w[b]
    && forall x :: x in s && x != a ==> w[b] <= w[x]
  }

  lemma Equalise(w: seq<int>, l: seq<nat>, s: set<int>, a: nat, b: nat) returns (l': seq<nat>)
    requires |w| == |l| && Lightest(w, s, a, b) && Space(l, s, |w|) <= 1.0
    ensures |l'| == |w| && Space(l', s, |w|) <= 1.0 && Cost(w, l', s, |w|) <= Cost(w, l, s, |w|)
    ensures l'[a] == l'[b] > 0
  {
    var p := Longest(l, s, a, |l|);
    var l1 := Swap(w, l, s, a, p);
    assert forall x :: x in s ==> l1[x] <= l1[a];
    assert b in s - {a};
    var q := Longest(l1, s - {a}, b, |l1|);
    var l2 := Swap(w, l1, s, b, q);
    assert forall x :: x in s && x != a ==> l2[x] <= l2[b];
    l' := Shorten(w, l2, s, a, b);
    SumsSplit(w, l', s, a, b);
  }

  // ------------------------------------------------------------------
  // One merge

  /** No lengths that fit the code space cost less than c. */
  ghost predicate AtLeast(w: seq<int>, s: set<int>, c: int) {
    forall l: seq<nat> :: |l| == |w| && Space(l, s, |w|) <= 1.0 ==> Cost(w, l, s, |w|) >= c
  }

  lemma HalfPowTwice(d: nat)
    requires d > 0
    ensures HalfPow(d - 1) == HalfPow(d) + HalfPow(d)
  {
  }

  lemma MergedLengths(w: seq<int>, l: seq<nat>, s: set<int>, a: nat, b: nat, t: nat) returns (l': seq<nat>)
    requires |w| == |l| && Lightest(w, s, a, b) && t < |w| && t !in s && w[t] == w[a] + w[b]
    requires l[a] == l[b] > 0
    ensures l' == l[t := l[a] - 1]
    ensures Space(l', s - {a} - {b} + {t}, |w|) == Space(l, s, |w|)
    ensures Cost(w, l', s - {a} - {b} + {t}, |w|) + w[t] == Cost(w, l, s, |w|)
  {
    hide Cost, Space, HalfPow;
    l' := l[t := l[a] - 1];
    var r := s - {a} - {b};
    SumsSplit(w, l, s, a, b);
    assert r + {t} - {t} == r;
    CostWithout(w, l', r + {t}, t, |w|);
    SpaceWithout(l', r + {t}, t, |w|);
    SumsSame(w, l, w, l', r, |w|);
    HalfPowTwice(l[a]);
    MulDist(w[a], w[b], l[a]);
    MulDist(l[a] - 1, 1, w[t]);
  }

  /** A lower bound after merging the two lightest is one before, with the merged weight added. */
  lemma MergeBound(w: seq<int>, s: set<int>, a: nat, b: nat, t: nat, c: int)
    requires Lightest(w, s, a, b) && t < |w| && t !in s && w[t] == w[a] + w[b]
    requires AtLeast(w, s - {a} - {b} + {t}, c)
    ensures AtLeast(w, s, c + w[t])
  {
    forall l: seq<nat> | |l| == |w| && Space(l, s, |w|) <= 1.0 ensures Cost(w, l, s, |w|) >= c + w[t] {
      var e := Equalise(w, l, s, a, b);
      var l' := MergedLengths(w, e, s, a, b, t);
    }
  }

  // ------------------------------------------------------------------
  // The whole construction

  datatype Pair = Pair(a: int, b: int)

  /** The roots left after the merges ms. */
  ghost function RootsAfter(leaves: set<int>, first: int, ms: seq<Pair>): set<int> {
    if ms == [] then leaves
    else
      var k := |ms| - 1;
      RootsAfter(leaves, first, ms[..k]) - {ms[k].a} - {ms[k].b} + {first + k}
  }

  /** Every merge joined the two lightest roots of its time. */
  ghost predicate Greedy(w: seq<int>, leaves: set<int>, first: int, ms: seq<Pair>) {
    ms == [] ||
    var k := |ms| - 1;
    var r := RootsAfter(leaves, first, ms[..k]);
    && Greedy(w, leaves, first, ms[..k]) && 0 <= first + k < |w| && first + k !in r
    && Lightest(w, r, ms[k].a, ms[k].b) && w[first + k] == w[ms[k].a] + w[ms[k].b]
  }

  /** Depths: each merged node lies one below the node it was merged into. */
  predicate Hung(d: seq<nat>, first: int, ms: seq<Pair>) {
    forall k :: 0 <= k < |ms| ==>
      && 0 <= first + k < |d| && 0 <= ms[k].a < |d| && 0 <= ms[k].b < |d|
      && d[ms[k].a] == d[ms[k].b] == d[first + k] + 1
  }

  /**
   The depths cost a bound on what follows plus the weights of all nodes made, and no lengths cost
   less; undoing a merge keeps the space taken.
   */
  lemma {:induction false} GreedyOptimal(w: seq<int>, leaves: set<int>, first: int, ms: seq<Pair>, d: seq<nat>, c: int)
    requires Greedy(w, leaves, first, ms) && |d| == |w| && Hung(d, first, ms)
    requires AtLeast(w, RootsAfter(leaves, first, ms), c) && Cost(w, d, RootsAfter(leaves, first, ms), |w|) == c
    ensures AtLeast(w, leaves, Cost(w, d, leaves, |w|))
    ensures Space(d, leaves, |w|) == Space(d, RootsAfter(leaves, first, ms), |w|)
    decreases |ms|
  {
    if ms != [] {
      var k := |ms| - 1;
      var r, t := RootsAfter(leaves, first, ms[..k]), first + k;
      MergeBound(w, r, ms[k].a, ms[k].b, t, c);
      var l' := MergedLengths(w, d, r, ms[k].a, ms[k].b, t);
      assert l' == d;
      GreedyOptimal(w, leaves, first, ms[..k], d, c + w[t]);
    }
  }

  /** With one root left at depth 0 the depths of the leaves fill the code space and are optimal. */
  lemma TreeOptimal(w: seq<int>, leaves: set<int>, first: int, ms: seq<Pair>, d: seq<nat>, root: nat)
    requires Greedy(w, leaves, first, ms) && |d| == |w| && Hung(d, first, ms)
    requires RootsAfter(leaves, first, ms) == {root} && root < |w| && d[root] == 0 && w[root] >= 0
    ensures Space(d, leaves, |w|) == 1.0 && AtLeast(w, leaves, Cost(w, d, leaves, |w|))
  {
    var s := {root};
    forall l: seq<nat> | |l| == |w| ensures Cost(w, l, s, |w|) == w[root] * l[root] {
      CostWithout(w, l, s, root, |w|);
      CostNone(w, l, |w|);
      assert s - {root} == {};
    }
    assert AtLeast(w, s, 0) by {
      forall l: seq<nat> | |l| == |w| && Space(l, s, |w|) <= 1.0 ensures Cost(w, l, s, |w|) >= 0 {
        assert Cost(w, l, s, |w|) == w[root] * l[root];
      }
    }
    assert Cost(w, d, s, |w|) == w[root] * d[root];
    SpaceWithout(d, s, root, |w|);
    assert s - {root} == {};
    SpaceNone(d, |w|);
    GreedyOptimal(w, leaves, first, ms, d, 0);
  }

  lemma {:induction false} CostNone(w: seq<int>, l: seq<nat>, n: nat)
    requires n <= |w| && n <= |l|
    ensures Cost(w, l, {}, n) == 0
  {
    if n > 0 { CostNone(w, l, n - 1); }
  }

  lemma {:induction false} SpaceNone(l: seq<nat>, n: nat)
    requires n <= |l|
    ensures Space(l, {}, n) == 0.0
  {
    if n > 0 { SpaceNone(l, n - 1); }
  }

  lemma GreedyNone(w: seq<int>, leaves: set<int>, first: nat)
    ensures Greedy(w, leaves, first, []) && RootsAfter(leaves, first, []) == leaves
  {
  }

  /** One more merge of two lightest roots. */
  lemma GreedySnoc(w: seq<int>, leaves: set<int>, first: nat, ms: seq<Pair>, m: Pair, r: set<int>)
    requires Greedy(w, leaves, first, ms) && r == RootsAfter(leaves, first, ms)
    requires first + |ms| < |w| && first + |ms| !in r && Lightest(w, r, m.a, m.b)
    requires w[first + |ms|] == w[m.a] + w[m.b]
    ensures Greedy(w, leaves, first, ms + [m])
    ensures RootsAfter(leaves, first, ms + [m]) == r - {m.a} - {m.b} + {first + |ms|}
  {
    assert (ms + [m])[..|ms|] == ms;
  }

  // ------------------------------------------------------------------
  // Lengths of the leaves alone

  /** l fits the code space, and no lengths for s that do have a lower total. */
  ghost predicate Optimal(w: seq<int>, l: seq<nat>, s: set<int>) {
    |w| == |l| && Space(l, s, |w|) <= 1.0 && AtLeast(w, s, Cost(w, l, s, |w|))
  }

  /** Some optimal lengths for these weights exceed the limit. */
  ghost predicate Exceeds(w: seq<int>, s: set<int>, limit: int) {
    exists l: seq<nat> :: Optimal(w, l, s) && exists x :: x in s && 0 <= x < |l| && l[x] > limit
  }

  /** In optimal lengths a heavier member is never longer than a lighter one. */
  lemma HeavierShorter(w: seq<int>, l: seq<nat>, s: set<int>, a: nat, b: nat)
    requires Optimal(w, l, s) && Within(s, |w|) && a in s && b in s && w[a] > w[b]
    ensures l[a] <= l[b]
  {
    hide Cost, Space, HalfPow;
    var l' := l[a := l[b]][b := l[a]];
    SumsSplit(w, l, s, a, b);
    SumsSplit(w, l', s, a, b);
    SumsSame(w, l, w, l', s - {a} - {b}, |w|);
    assert w[a] * l[b] + w[b] * l[a] >= w[a] * l[a] + w[b] * l[b];
    SwapGain(w[a], w[b], l[a], l[b]);
  }

  lemma SwapGain(wa: int, wb: int, la: nat, lb: nat)
    requires wa > wb && wa * lb + wb * la >= wa * la + wb * lb
    ensures la <= lb
  {
    if la > lb {
      MulMono(wb + 1, wa, la - lb);
      MulDist(la - lb, lb, wa);
      MulDist(la - lb, lb, wb);
    }
  }

  /** s and s' hold the same members, those of s' numbered from off. */
  ghost predicate Moved(s: set<int>, s': set<int>, off: nat, n: nat, n': nat) {
    Within(s, n) && off + n <= n' && forall x :: x in s' <==> x - off in s
  }

  lemma {:induction false} SumsMoved(w: seq<int>, l: seq<nat>, s: set<int>, w': seq<int>, l': seq<nat>, s': set<int>,
                                     off: nat, n: nat)
    requires |w| == |l| && |w'| == |l'| && n <= |w'| && Moved(s, s', off, |w|, |w'|)
    requires forall x :: x in s ==> w'[off + x] == w[x] && l'[off + x] == l[x]
    ensures var m := if n <= off then 0 else if n - off <= |w| then n - off else |w|;
      Cost(w', l', s', n) == Cost(w, l, s, m) && Space(l', s', n) == Space(l, s, m)
  {
    if n > 0 {
      SumsMoved(w, l, s, w', l', s', off, n - 1);
    }
  }

  lemma OptimalMoved(w: seq<int>, l: seq<nat>, s: set<int>, w': seq<int>, l': seq<nat>, s': set<int>, off: nat)
    requires Optimal(w', l', s') && |w| == |l| && Moved(s, s', off, |w|, |w'|)
    requires forall x :: x in s ==> w'[off + x] == w[x] && l'[off + x] == l[x]
    ensures Optimal(w, l, s)
  {
    SumsMoved(w, l, s, w', l', s', off, |w'|);
    forall m: seq<nat> | |m| == |w| && Space(m, s, |w|) <= 1.0 ensures Cost(w, m, s, |w|) >= Cost(w, l, s, |w|) {
      var m' := seq(|w'|, y requires 0 <= y < |w'| => if off <= y < off + |m| then m[y - off] else 0);
      SumsMoved(w, m, s, w', m', s', off, |w'|);
    }
  }
}
