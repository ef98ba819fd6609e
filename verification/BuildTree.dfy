/**
 build_tree (trees.c): a Huffman tree for the frequencies of a block, its nodes listed at the far
 end of the heap array from the root down, then code lengths and codes.
 */
module BuildTree {
  import opened Powers
  import opened BitStrings
  import opened CanonicalCode
  import opened BinaryHeap
  import opened TreeHeap
  import opened GenBitlen
  import opened GenCodes
  import opened OptimalCode
  import T = InflateTable
  import TableSize

  // ---------------------------------------------------------------- the list of removed nodes

  /**
   list holds the nodes taken off the queue, newest first, in pairs; the k pairs taken so far
   became the sons of nodes elems, elems + 1, ...; roots is what the queue still holds.
   */
  ghost predicate Taken(list: seq<nat>, roots: set<int>, leaves: set<int>, elems: nat, k: nat, dl: seq<nat>)
    ensures Taken(list, roots, leaves, elems, k, dl) ==> |list| == 2 * k
  {
    && |list| == 2 * k && Different(list)
    && (forall i :: 0 <= i < |list| ==> Sonship(list, elems, dl, i))
    && (forall x :: x in leaves ==> 0 <= x < elems)
    && (forall x :: x in roots <==> (x in leaves || elems <= x < elems + k) && x !in list)
    && (forall i :: 0 <= i < |list| ==> list[i] in leaves || elems <= list[i] < elems + k)
  }

  /** The i-th entry is a son of the node made of its pair, and was made before that. */
  predicate Sonship(list: seq<nat>, elems: nat, dl: seq<nat>, i: nat)
    requires i < |list|
  {
    var j := (|list| - 1 - i) / 2;
    && list[i] < |dl| && dl[list[i]] == elems + j
    && (list[i] >= elems ==> list[i] - elems < j)
  }

  lemma TakePair(list: seq<nat>, roots: set<int>, leaves: set<int>, elems: nat, k: nat, dl: seq<nat>, n: nat, m: nat)
    requires Taken(list, roots, leaves, elems, k, dl) && n in roots && m in roots && n != m
    requires n < |dl| && m < |dl|
    ensures Taken([m, n] + list, roots - {n} - {m} + {elems + k}, leaves, elems, k + 1, dl[n := elems + k][m := elems + k])
  {
    var list', dl' := [m, n] + list, dl[n := elems + k][m := elems + k];
    var roots' := roots - {n} - {m} + {elems + k};
    forall i | 0 <= i < |list'| ensures Sonship(list', elems, dl', i) {
      if i >= 2 {
        assert list'[i] == list[i - 2];
        assert Sonship(list, elems, dl, i - 2);
        assert list[i - 2] in list;
      }
    }
    assert Different(list') by {
      forall a, b | 0 <= a < b < |list'| ensures list'[a] != list'[b] {
        assert b >= 2 ==> list'[b] == list[b - 2] && list[b - 2] in list;
        assert a >= 2 ==> list'[a] == list[a - 2];
      }
    }
    forall x | x in list ensures x < elems + k && x != elems + k {
      var i :| 0 <= i < |list| && list[i] == x;
    }
    forall x ensures x in roots' <==> (x in leaves || elems <= x < elems + (k + 1)) && x !in list' {
      assert x in list' <==> x == m || x == n || x in list;
    }
  }

  // ---------------------------------------------------------------- the finished tree

  /** Place of node x in the order. */
  function Place(order: seq<nat>, x: nat): (r: nat)
    requires x in order
    ensures r < |order| && order[r] == x
  {
    if order[0] == x then 0 else
      assert x in order[1..];
      1 + Place(order[1..], x)
  }

  /** The inner nodes, half of all nodes rounded down, are in the list. */
  ghost predicate InnerIn(order: seq<nat>, elems: nat) {
    |order| % 2 == 1 && forall x: nat :: elems <= x < elems + |order| / 2 ==> x in order
  }

  function FatherAt(order: seq<nat>, elems: nat, i: nat): (r: nat)
    requires InnerIn(order, elems) && i < |order|
    ensures i > 0 ==> r < |order| && order[r] == elems + (|order| - 1 - i) / 2
  {
    if i == 0 then 0 else Place(order, elems + (|order| - 1 - i) / 2)
  }

  function SonAt(n: nat, x: nat, elems: nat): nat {
    if x >= elems && 2 * (x - elems) + 2 <= n then n - 2 - 2 * (x - elems) else 0
  }

  ghost function ShapeOf(order: seq<nat>, elems: nat, maxCode: int): (sh: Shape)
    requires InnerIn(order, elems)
    ensures sh.order == order && sh.maxCode == maxCode && |sh.up| == |sh.left| == |sh.right| == |order|
    ensures forall i: nat :: i < |order| ==> sh.up[i] == FatherAt(order, elems, i)
    ensures forall i: nat :: i < |order| ==>
      sh.left[i] == SonAt(|order|, order[i], elems) && sh.right[i] == sh.left[i] + 1
  {
    var n := |order|;
    Shape(order,
          seq(n, i requires 0 <= i < n => FatherAt(order, elems, i)),
          seq(n, p requires 0 <= p < n => SonAt(n, order[p], elems)),
          seq(n, p requires 0 <= p < n => SonAt(n, order[p], elems) + 1),
          maxCode)
  }

  /** What the list looks like when one root is left. */
  ghost predicate Finished(order: seq<nat>, elems: nat, maxCode: int) {
    && InnerIn(order, elems) && Different(order) && 0 <= maxCode < elems && |order| >= 3
    && order[0] == elems + |order| / 2 - 1
    && (forall i :: 0 <= i < |order| && order[i] > maxCode ==> elems <= order[i] < elems + |order| / 2)
    && (forall i :: 1 <= i < |order| && order[i] >= elems ==> order[i] - elems < (|order| - 1 - i) / 2)
  }

  /** A father comes before its sons. */
  lemma FatherFirst(order: seq<nat>, elems: nat, maxCode: int, i: nat)
    requires Finished(order, elems, maxCode) && i < |order| && order[i] > maxCode
    ensures var j := order[i] - elems; 0 <= j && i < |order| - 2 - 2 * j
  {
    var n, j := |order|, order[i] - elems;
    if i == 0 {
      assert n == 2 * (n / 2) + 1;
    } else {
      assert j + 1 <= (n - 1 - i) / 2;
    }
  }

  lemma SonOf(order: seq<nat>, elems: nat, maxCode: int, i: nat)
    requires Finished(order, elems, maxCode) && 0 < i < |order|
    ensures var sh := ShapeOf(order, elems, maxCode);
      sh.up[i] < i && !Leaf(sh, sh.up[i]) && (sh.left[sh.up[i]] == i || sh.right[sh.up[i]] == i)
  {
    hide Different;
    var sh := ShapeOf(order, elems, maxCode);
    var n, p, j := |order|, FatherAt(order, elems, i), (|order| - 1 - i) / 2;
    assert sh.up[i] == p && order[p] == elems + j;
    FatherFirst(order, elems, maxCode, p);
    assert sh.left[p] == n - 2 - 2 * j;
  }

  lemma FatherOf(order: seq<nat>, elems: nat, maxCode: int, i: nat)
    requires Finished(order, elems, maxCode) && i < |order| && order[i] > maxCode
    ensures var sh := ShapeOf(order, elems, maxCode);
      && i < sh.left[i] < sh.right[i] < |order| && sh.up[sh.left[i]] == i && sh.up[sh.right[i]] == i
  {
    hide InnerIn;
    var sh := ShapeOf(order, elems, maxCode);
    var n, j := |order|, order[i] - elems;
    FatherFirst(order, elems, maxCode, i);
    var a := n - 2 - 2 * j;
    assert sh.left[i] == a && sh.right[i] == a + 1;
    assert (n - 1 - a) / 2 == j && (n - 1 - (a + 1)) / 2 == j;
    assert sh.up[a] == FatherAt(order, elems, a) && sh.up[a + 1] == FatherAt(order, elems, a + 1);
    assert order[FatherAt(order, elems, a)] == order[i] == order[FatherAt(order, elems, a + 1)];
  }

  lemma NodeOf(order: seq<nat>, elems: nat, maxCode: int, i: nat)
    requires Finished(order, elems, maxCode) && i < |order|
    ensures Node(ShapeOf(order, elems, maxCode), i)
  {
    if i > 0 { SonOf(order, elems, maxCode, i); }
    if order[i] > maxCode { FatherOf(order, elems, maxCode, i); }
  }

  lemma TreeOf(order: seq<nat>, elems: nat, maxCode: int)
    requires Finished(order, elems, maxCode)
    ensures Tree(ShapeOf(order, elems, maxCode))
  {
    hide Node, InnerIn;
    var sh := ShapeOf(order, elems, maxCode);
    forall i: nat | i < |order| ensures Node(sh, i) {
      NodeOf(order, elems, maxCode, i);
    }
  }

  // ---------------------------------------------------------------- merging

  /** The j-th pair taken, counted from the end of the list, gave node elems + j its frequency. */
  predicate SumAt(list: seq<nat>, elems: nat, freq: seq<nat>, j: nat)
    requires 2 * j + 2 <= |list|
  {
    var n, m := list[|list| - 1 - 2 * j], list[|list| - 2 - 2 * j];
    elems + j < |freq| && n < |freq| && m < |freq| && freq[elems + j] == freq[n] + freq[m]
  }

  ghost predicate Sums(list: seq<nat>, elems: nat, freq: seq<nat>) {
    forall j: nat :: 2 * j + 2 <= |list| ==> SumAt(list, elems, freq, j)
  }

  /** Frequencies fall along the list, and nothing in the queue is rarer than anything in it. */
  ghost predicate ByFrequency(list: seq<nat>, roots: set<int>, elems: nat, freq: seq<nat>) {
    && Sums(list, elems, freq)
    && (forall i :: 0 <= i < |list| ==> list[i] < |freq|)
    && (forall x :: x in roots ==> 0 <= x < |freq|)
    && (forall i, j :: 0 <= i <= j < |list| ==> freq[list[i]] >= freq[list[j]])
    && (forall x, i :: x in roots && 0 <= i < |list| ==> freq[x] >= freq[list[i]])
  }

  lemma KeyFreq(f: nat, d: nat, f': nat, d': nat)
    requires d < 256 && d' < 256 && Key(f, d) <= Key(f', d')
    ensures f <= f'
  {
  }

  lemma SumsStep(list: seq<nat>, elems: nat, k: nat, freq: seq<nat>, n: nat, m: nat)
    requires Sums(list, elems, freq) && |list| == 2 * k && elems + k !in list && elems + k < |freq|
    requires n < |freq| && m < |freq| && n != elems + k && m != elems + k
    ensures Sums([m, n] + list, elems, freq[elems + k := freq[n] + freq[m]])
  {
    var list', freq' := [m, n] + list, freq[elems + k := freq[n] + freq[m]];
    forall j: nat | 2 * j + 2 <= |list'| ensures SumAt(list', elems, freq', j) {
      if j < k {
        assert SumAt(list, elems, freq, j);
        assert list'[|list'| - 1 - 2 * j] == list[|list| - 1 - 2 * j] && list[|list| - 1 - 2 * j] in list;
        assert list'[|list'| - 2 - 2 * j] == list[|list| - 2 - 2 * j] && list[|list| - 2 - 2 * j] in list;
      }
    }
  }

  lemma ByFrequencyStep(list: seq<nat>, roots: set<int>, elems: nat, k: nat, freq: seq<nat>, n: nat, m: nat, node: nat)
    requires ByFrequency(list, roots, elems, freq) && |list| == 2 * k && node == elems + k && n in roots &&
      m in roots && n != m
    requires forall x :: x in roots ==> freq[n] <= freq[x]
    requires forall x :: x in roots && x != n ==> freq[m] <= freq[x]
    requires node < |freq| && node !in roots && node !in list
    ensures ByFrequency([m, n] + list, roots - {n} - {m} + {node}, elems, freq[node := freq[n] + freq[m]])
  {
    hide SumAt, Sums;
    SumsStep(list, elems, k, freq, n, m);
    var list', freq' := [m, n] + list, freq[node := freq[n] + freq[m]];
    forall i | 0 <= i < |list'| ensures list'[i] < |freq| && freq'[list'[i]] == freq[list'[i]] {
      if i >= 2 { assert list'[i] == list[i - 2] && list[i - 2] in list; }
    }
    forall i, j | 0 <= i <= j < |list'| ensures freq'[list'[i]] >= freq'[list'[j]] {
      assert j >= 2 ==> list'[j] == list[j - 2];
      assert i >= 2 ==> list'[i] == list[i - 2];
    }
    forall x, i | x in roots - {n} - {m} + {node} && 0 <= i < |list'| ensures freq'[x] >= freq'[list'[i]] {
      assert i >= 2 ==> list'[i] == list[i - 2];
    }
  }

  lemma PrefixSame(h: seq<nat>, h': seq<nat>, w: seq<int>, n: nat, s: set<int>)
    requires |h'| == |h| && Names(h, w, n) && HeapFrom(h, w, n, 1) && Holds(h, n, s)
    requires forall i :: 1 <= i <= n ==> h'[i] == h[i]
    ensures Names(h', w, n) && HeapFrom(h', w, n, 1) && Holds(h', n, s)
  {
    forall i | 2 <= i <= n && i / 2 >= 1 ensures Le(h', w, n, i) {
      assert Le(h, w, n, i);
    }
    assert h'[1..n + 1] == h[1..n + 1];
  }

  // ---------------------------------------------------------------- optimality

  /** The merges a finished list records, oldest first. */
  function MergesOf(order: seq<nat>, k: nat): (r: seq<Pair>)
    requires 2 * k < |order|
    ensures |r| == k && forall j :: 0 <= j < k ==> r[j] == Pair(order[|order| - 1 - 2 * j], order[|order| - 2 - 2 * j])
  {
    seq(k, j requires 0 <= j < k => Pair(order[|order| - 1 - 2 * j], order[|order| - 2 - 2 * j]))
  }

  /** The nodes still in the queue after j merges: those listed later and made by then. */
  ghost function RootsAt(order: seq<nat>, elems: nat, j: nat): (r: set<int>)
    requires 2 * j < |order|
    ensures forall x :: x in r <==> x in order[..|order| - 2 * j] && x < elems + j
  {
    var waiting := order[..|order| - 2 * j];
    set x: nat | x in waiting && x < elems + j
  }

  lemma PairIn(order: seq<nat>, elems: nat, maxCode: int, j: nat)
    requires Finished(order, elems, maxCode) && 2 * j + 2 < |order|
    ensures order[|order| - 1 - 2 * j] in RootsAt(order, elems, j) &&
      order[|order| - 2 - 2 * j] in RootsAt(order, elems, j)
    ensures order[|order| - 1 - 2 * j] != order[|order| - 2 - 2 * j]
  {
    var n := |order|;
    var cut := order[..n - 2 * j];
    assert cut[n - 1 - 2 * j] == order[n - 1 - 2 * j] && cut[n - 2 - 2 * j] == order[n - 2 - 2 * j];
    assert (n - 1 - (n - 1 - 2 * j)) / 2 == j && (n - 1 - (n - 2 - 2 * j)) / 2 == j;
  }

  /** Node elems + j stands in the list before the pair it was made of. */
  lemma NodeBefore(order: seq<nat>, elems: nat, maxCode: int, j: nat)
    requires Finished(order, elems, maxCode) && 2 * j + 2 < |order|
    ensures elems + j in order[..|order| - 2 * j - 2]
  {
    var n := |order|;
    var i := Place(order, elems + j);
    if i > 0 {
      assert order[i] - elems < (n - 1 - i) / 2;
    }
    assert order[..n - 2 * j - 2][i] == order[i];
  }

  lemma RootsStep(order: seq<nat>, elems: nat, maxCode: int, j: nat)
    requires Finished(order, elems, maxCode) && 2 * j + 2 < |order|
    ensures RootsAt(order, elems, j + 1) ==
      RootsAt(order, elems, j) - {order[|order| - 1 - 2 * j]} - {order[|order| - 2 - 2 * j]} + {elems + j}
  {
    var n := |order|;
    var big, small := order[..n - 2 * j], order[..n - 2 * j - 2];
    assert big == small + [order[n - 2 - 2 * j], order[n - 1 - 2 * j]];
    NodeBefore(order, elems, maxCode, j);
    forall x: nat | x in small ensures x != order[n - 2 - 2 * j] && x != order[n - 1 - 2 * j] {
      var i :| 0 <= i < |small| && small[i] == x;
      assert order[i] == x;
    }
  }

  /** Frequencies fall along the list, so the pair taken is the rarest of the queue. */
  lemma PairLightest(order: seq<nat>, elems: nat, maxCode: int, freq: seq<nat>, j: nat)
    requires Finished(order, elems, maxCode) && Falling(order, elems, freq) && 2 * j + 2 < |order|
    ensures Lightest(freq, RootsAt(order, elems, j), order[|order| - 1 - 2 * j], order[|order| - 2 - 2 * j])
  {
    hide Finished, Sums;
    var n, r := |order|, RootsAt(order, elems, j);
    var a, b := order[n - 1 - 2 * j], order[n - 2 - 2 * j];
    PairIn(order, elems, maxCode, j);
    forall x | x in r ensures 0 <= x < |freq| && (x != a ==> freq[b] <= freq[x]) {
      var i :| 0 <= i < n - 2 * j && order[..n - 2 * j][i] == x;
      assert order[i] == x;
    }
  }

  /** The list was made by merging two rarest nodes at a time. */
  lemma {:induction false} ListGreedy(order: seq<nat>, elems: nat, maxCode: int, freq: seq<nat>, leaves: set<int>,
                                      j: nat)
    requires Finished(order, elems, maxCode) && Falling(order, elems, freq) && 2 * j < |order|
    requires leaves == RootsAt(order, elems, 0)
    ensures Greedy(freq, leaves, elems, MergesOf(order, j))
    ensures RootsAfter(leaves, elems, MergesOf(order, j)) == RootsAt(order, elems, j)
  {
    hide Finished, Lightest, Greedy, RootsAfter;
    if j == 0 {
      GreedyNone(freq, leaves, elems);
      assert MergesOf(order, 0) == [];
    } else {
      var k := j - 1;
      ListGreedy(order, elems, maxCode, freq, leaves, k);
      RootsStep(order, elems, maxCode, k);
      PairLightest(order, elems, maxCode, freq, k);
      assert SumAt(order, elems, freq, k);
      var m := Pair(order[|order| - 1 - 2 * k], order[|order| - 2 - 2 * k]);
      assert MergesOf(order, j) == MergesOf(order, k) + [m];
      GreedySnoc(freq, leaves, elems, MergesOf(order, k), m, RootsAt(order, elems, k));
    }
  }

  lemma SonDepth(order: seq<nat>, elems: nat, maxCode: int, d: seq<nat>, i: nat, k: nat)
    requires Finished(order, elems, maxCode) && Tree(ShapeOf(order, elems, maxCode))
    requires Measured(ShapeOf(order, elems, maxCode), d) && 0 < i < |order| && (|order| - 1 - i) / 2 == k
    ensures order[i] < |d| && elems + k < |d| && d[order[i]] == d[elems + k] + 1
  {
    hide Finished, Node, Depth, Tree;
    FinishedFacts(order, elems, maxCode);
    var sh := ShapeOf(order, elems, maxCode);
    DepthNext(sh, i);
    assert sh.up[i] == FatherAt(order, elems, i);
  }

  lemma RootDepth(sh: Shape, d: seq<nat>)
    requires Tree(sh) && Measured(sh, d)
    ensures sh.order[0] < |d| && d[sh.order[0]] == 0
  {
  }

  /** Slots that hold the depths hang every pair one below the node made of it. */
  lemma DepthsHung(order: seq<nat>, elems: nat, maxCode: int, d: seq<nat>)
    requires Finished(order, elems, maxCode) && Tree(ShapeOf(order, elems, maxCode))
    requires Measured(ShapeOf(order, elems, maxCode), d)
    ensures Hung(d, elems, MergesOf(order, |order| / 2))
    ensures order[0] < |d| && d[order[0]] == 0
  {
    hide Finished, Tree, Measured, ShapeOf, MergesOf;
    FinishedFacts(order, elems, maxCode);
    RootDepth(ShapeOf(order, elems, maxCode), d);
    var n := |order|;
    assert ShapeOf(order, elems, maxCode).order == order;
    var ms := MergesOf(order, n / 2);
    forall k | 0 <= k < |ms|
      ensures 0 <= elems + k < |d| && 0 <= ms[k].a < |d| && 0 <= ms[k].b < |d|
      ensures d[ms[k].a] == d[ms[k].b] == d[elems + k] + 1
    {
      assert ms[k] == Pair(order[n - 1 - 2 * k], order[n - 2 - 2 * k]);
      SonDepth(order, elems, maxCode, d, n - 1 - 2 * k, k);
      SonDepth(order, elems, maxCode, d, n - 2 - 2 * k, k);
    }
  }

  /** The depths of the tree are optimal for the frequencies of its leaves. */
  lemma ListOptimal(order: seq<nat>, elems: nat, maxCode: int, freq: seq<nat>, leaves: set<int>, d: seq<nat>)
    requires Finished(order, elems, maxCode) && Falling(order, elems, freq) && |freq| == |d|
    requires Tree(ShapeOf(order, elems, maxCode)) && Measured(ShapeOf(order, elems, maxCode), d)
    requires leaves == RootsAt(order, elems, 0)
    ensures Optimal(freq, d, leaves)
  {
    hide Greedy, RootsAfter, Hung, Measured, Tree, AtLeast;
    var k := |order| / 2;
    ListGreedy(order, elems, maxCode, freq, leaves, k);
    DepthsHung(order, elems, maxCode, d);
    assert order[..|order| - 2 * k] == [order[0]];
    assert RootsAt(order, elems, k) == {order[0]};
    TreeOptimal(freq, leaves, elems, MergesOf(order, k), d, order[0]);
  }

  ghost function NodeDepths(sh: Shape, n: nat): (d: seq<nat>)
    requires Tree(sh)
    ensures |d| == n
    ensures Different(sh.order) ==> forall j: nat :: j < |sh.order| && sh.order[j] < n ==>
      d[sh.order[j]] == Depth(sh, j)
  {
    seq(n, x requires 0 <= x < n => if x in sh.order then Depth(sh, Place(sh.order, x)) else 0)
  }

  lemma ListExceeds(order: seq<nat>, elems: nat, maxCode: int, freq: seq<nat>, leaves: set<int>, top: nat)
    requires Finished(order, elems, maxCode) && Falling(order, elems, freq)
    requires Tree(ShapeOf(order, elems, maxCode)) && TooDeep(ShapeOf(order, elems, maxCode), top)
    requires leaves == RootsAt(order, elems, 0)
    ensures Exceeds(freq, leaves, top)
  {
    hide Finished, Tree, Optimal, Depth;
    FinishedFacts(order, elems, maxCode);
    var sh := ShapeOf(order, elems, maxCode);
    var d := NodeDepths(sh, |freq|);
    assert Measured(sh, d);
    ListOptimal(order, elems, maxCode, freq, leaves, d);
    var j: nat :| j < |order| && Leaf(sh, j) && Depth(sh, j) > top;
    assert order[..|order| - 0][j] == order[j] && order[j] in leaves;
  }

  /** The symbols that have a code. */
  ghost function InUse(lens: seq<nat>): (s: set<int>)
    ensures forall x :: x in s <==> 0 <= x < |lens| && lens[x] >= 1
  {
    set x | 0 <= x < |lens| && lens[x] >= 1
  }

  /** The symbols that occur. */
  ghost function Occurring(freq: seq<nat>, elems: nat): (s: set<int>)
    requires elems <= |freq|
    ensures forall x :: x in s <==> 0 <= x < elems && freq[x] > 0
  {
    set x | 0 <= x < elems && freq[x] > 0
  }

  /** Only the symbols up to n matter. */
  lemma OptimalBelow(freq: seq<int>, d: seq<nat>, s: set<int>, n: nat)
    requires Optimal(freq, d, s) && n <= |d| && forall x :: x in s ==> 0 <= x < n
    ensures Optimal(freq[..n], d[..n], s)
  {
    OptimalMoved(freq[..n], d[..n], s, freq, d, s, 0);
  }

  lemma ExceedsBelow(freq: seq<int>, s: set<int>, top: nat, n: nat)
    requires Exceeds(freq, s, top) && n <= |freq| && forall x :: x in s ==> 0 <= x < n
    ensures Exceeds(freq[..n], s, top)
  {
    hide Optimal;
    var d: seq<nat> :| Optimal(freq, d, s) && exists x :: x in s && 0 <= x < |d| && d[x] > top;
    OptimalSize(freq, d, s);
    OptimalBelow(freq, d, s, n);
    var x :| x in s && 0 <= x < |d| && d[x] > top;
    assert d[..n][x] > top;
  }

  lemma OrderFinished(order: seq<nat>, leaves: set<int>, elems: nat, maxCode: int, dl: seq<nat>)
    requires InOrder(order, leaves, elems, maxCode, dl)
    ensures Finished(order, elems, maxCode) && Tree(ShapeOf(order, elems, maxCode))
  {
    TreeOf(order, elems, maxCode);
  }

  lemma OptimalSize(freq: seq<int>, d: seq<nat>, s: set<int>)
    requires Optimal(freq, d, s)
    ensures |d| == |freq|
  {
  }

  lemma LeavesListed(order: seq<nat>, leaves: set<int>, elems: nat, maxCode: int, dl: seq<nat>)
    requires InOrder(order, leaves, elems, maxCode, dl) && forall x :: x in leaves ==> 0 <= x <= maxCode
    ensures |order| > 0 && leaves == RootsAt(order, elems, 0)
  {
    assert order[..|order| - 2 * 0] == order;
    forall x ensures x in leaves <==> x in RootsAt(order, elems, 0) {
      if x in leaves {
        assert x in order;
      }
      if x in RootsAt(order, elems, 0) {
        var i :| 0 <= i < |order| && order[i] == x;
      }
    }
  }

  /** The fields of deflate_state used for one tree: Freq, Dad and Len by node, and the heap. */
  class Builder {
    const freq: array<nat>
    const dl: array<nat>
    const depth: array<nat>
    const heap: array<nat>
    const blCount: array<int>
    var heapLen: nat
    var heapMax: nat

    /** No symbol has occurred yet. */
    constructor (elems: nat)
      requires elems >= 3
      ensures Apart(elems) && fresh(freq) && fresh(dl) && fresh(depth) && fresh(heap) && fresh(blCount)
      ensures forall x :: 0 <= x < freq.Length ==> freq[x] == depth[x] == 0
    {
      freq, dl := new nat[2 * elems + 1](_ => 0), new nat[2 * elems + 1](_ => 0);
      depth, heap := new nat[2 * elems + 1](_ => 0), new nat[2 * elems + 1](_ => 0);
      blCount := new int[MAXBITS + 1](_ => 0);
      heapLen, heapMax := 0, 0;
    }

    ghost predicate Apart(elems: nat)
      reads this
    {
      && heap != freq && heap != depth && heap != dl && freq != depth && freq != dl && depth != dl
      && elems >= 3 && freq.Length == depth.Length == dl.Length == 2 * elems + 1
      && heap.Length >= 2 * elems + 1 && blCount.Length == MAXBITS + 1
    }

    /** heap[1..n] is a priority queue of the nodes in s. */
    ghost predicate Queue(n: nat, s: set<int>)
      reads this, heap, freq, depth
    {
      && freq.Length == depth.Length && (forall x :: 0 <= x < depth.Length ==> depth[x] < 256)
      && var w := Keys(freq[..], depth[..]);
         Names(heap[..], w, n) && HeapFrom(heap[..], w, n, 1) && Holds(heap[..], n, s)
    }

    /** k merges have been made. */
    ghost predicate Merging(elems: nat, leaves: set<int>, roots: set<int>, k: nat)
      reads this, heap, freq, depth, dl
    {
      && Apart(elems) && Queue(heapLen, roots) && heapLen + k == |leaves| <= elems
      && heapMax == heap.Length - 2 * k
      && Taken(heap[heapMax..], roots, leaves, elems, k, dl[..])
      && ByFrequency(heap[heapMax..], roots, elems, freq[..])
      && (k > 0 ==> elems + k - 1 in roots)
      && (forall s :: 0 <= s < elems && s !in leaves ==> dl[s] == 0)
    }

    /** Put the pair at the front of the list. */
    method Push(n: nat, m: nat)
      requires 2 <= heapMax <= heap.Length
      modifies this`heapMax, heap
      ensures heapMax == old(heapMax) - 2 && heap[heapMax..] == [m, n] + old(heap[heapMax..])
      ensures forall i :: 0 <= i < heapMax ==> heap[i] == old(heap[i])
    {
      heapMax := heapMax - 1;
      heap[heapMax] := n;
      heapMax := heapMax - 1;
      heap[heapMax] := m;
    }

    /** Make node the father of n and m. */
    method Adopt(node: nat, n: nat, m: nat)
      requires freq.Length == depth.Length == dl.Length && freq != depth && freq != dl && depth != dl
      requires node < freq.Length && n < freq.Length && m < freq.Length
      modifies freq, depth, dl
      ensures freq[..] == old(freq[..])[node := old(freq[n] + freq[m])]
      ensures dl[..] == old(dl[..])[n := node][m := node]
      ensures forall x :: 0 <= x < depth.Length && x != node ==> depth[x] == old(depth[x])
      ensures depth[node] < 256
    {
      freq[node] := freq[n] + freq[m];
      depth[node] := ((if depth[n] >= depth[m] then depth[n] else depth[m]) + 1) % 256;
      dl[n] := node;
      dl[m] := node;
    }

    /** n is one of the rarest nodes of s. */
    ghost predicate Rarest(n: nat, s: set<int>)
      reads this, freq
    {
      n in s && (forall x :: x in s ==> 0 <= x < freq.Length) && forall x :: x in s ==> freq[n] <= freq[x]
    }

    lemma RarestByKey(n: nat, s: set<int>)
      requires n in s && freq.Length == depth.Length && (forall x :: 0 <= x < depth.Length ==> depth[x] < 256)
      requires n < freq.Length && var w := Keys(freq[..], depth[..]); forall y :: y in s ==>
        0 <= y < |w| && w[n] <= w[y]
      ensures Rarest(n, s)
    {
      var w := Keys(freq[..], depth[..]);
      forall x | x in s ensures freq[n] <= freq[x] {
        KeyFreq(freq[n], depth[n], freq[x], depth[x]);
      }
    }

    /** Take the two rarest nodes, the second staying at the front of the queue for now. */
    method TakeTwo(ghost roots: set<int>) returns (n: nat, m: nat)
      requires heapLen >= 2 && Queue(heapLen, roots) && heap != freq && heap != depth
      requires heapLen + 2 <= heapMax <= heap.Length
      modifies this`heapLen, this`heapMax, heap
      ensures heapLen == old(heapLen) - 1 && heapMax == old(heapMax) - 2
      ensures heap[heapMax..] == [m, n] + old(heap[heapMax..])
      ensures Queue(heapLen, roots - {n}) && heap[1] == m && n != m
      ensures Rarest(n, roots) && Rarest(m, roots - {n})
    {
      hide Names, HeapFrom, Holds, Keys;
      ghost var w, list := Keys(freq[..], depth[..]), heap[heapMax..];
      n := PqRemove(heap, freq, depth, heapLen, w, roots);
      RarestByKey(n, roots);
      heapLen := heapLen - 1;
      assert heap[heapMax..] == list;
      ghost var rest := roots - {n};
      LeastOfAll(heap[..], w, heapLen, rest);
      m := heap[1];
      RarestByKey(m, rest);
      ghost var h := heap[..];
      Push(n, m);
      PrefixSame(h, heap[..], w, heapLen, rest);
    }

    /** Their father takes the place of the second one in the queue. */
    method Replace(node: nat, n: nat, m: nat, ghost s: set<int>)
      requires Queue(heapLen, s) && heapLen >= 1 && heap[1] == m && node !in s && heapLen < heapMax <= heap.Length
      requires heap != freq && heap != depth && heap != dl && freq != depth && freq != dl && depth != dl
      requires dl.Length == freq.Length && node < freq.Length && n < freq.Length && m < freq.Length
      modifies heap, freq, depth, dl
      ensures Queue(heapLen, s - {m} + {node})
      ensures heap[heapMax..] == old(heap[heapMax..])
      ensures freq[..] == old(freq[..])[node := old(freq[n] + freq[m])]
      ensures dl[..] == old(dl[..])[n := node][m := node]
    {
      hide Names, HeapFrom, Holds, Key;
      ghost var w := Keys(freq[..], depth[..]);
      Adopt(node, n, m);
      PqReplace(heap, freq, depth, heapLen, node, w, Keys(freq[..], depth[..]), s);
    }

    /** Combine the two least frequent nodes of the queue. */
    method MergeStep(elems: nat, node: nat, ghost leaves: set<int>, ghost roots: set<int>, ghost k: nat)
      returns (ghost roots': set<int>)
      requires Merging(elems, leaves, roots, k) && heapLen >= 2 && node == elems + k
      modifies this`heapLen, this`heapMax, heap, freq, depth, dl
      ensures Merging(elems, leaves, roots', k + 1) && heapLen == old(heapLen) - 1
      ensures forall s :: 0 <= s < elems ==> freq[s] == old(freq[s])
    {
      hide Taken, ByFrequency, Queue;
      ghost var f, d, list := freq[..], dl[..], heap[heapMax..];
      NotYet(list, roots, leaves, elems, k, dl[..]);
      RootsFit(list, roots, elems, f);
      var n, m := TakeTwo(roots);
      roots' := roots - {n} - {m} + {node};
      ByFrequencyStep(list, roots, elems, k, f, n, m, node);
      TakePair(list, roots, leaves, elems, k, d, n, m);
      Replace(node, n, m, roots - {n});
    }

    // -------------------------------------------------------------- the leaves

    /** heap[1..heapLen] lists the symbols in use. */
    ghost predicate Gathered(elems: nat, upTo: nat, leaves: set<int>, maxCode: int)
      reads this, heap, freq, depth, dl
    {
      && Apart(elems) && Holds(heap[..], heapLen, leaves) && heapLen <= upTo <= elems && heapMax == heap.Length
      && (forall x :: 0 <= x < depth.Length ==> depth[x] < 256)
      && (forall x :: x in leaves ==> 0 <= x <= maxCode) && -1 <= maxCode < elems
      && (maxCode >= 0 ==> maxCode in leaves) && (heapLen > 0 ==> maxCode >= 0)
      && (forall s :: 0 <= s < upTo ==> (s in leaves <==> freq[s] > 0) && (s !in leaves ==> dl[s] == 0))
    }

    method AddLeaf(x: nat, ghost leaves: set<int>)
      requires heapLen + 1 < heap.Length && Holds(heap[..], heapLen, leaves) && x !in leaves
      requires x < depth.Length && depth != heap
      modifies this`heapLen, heap, depth
      ensures heapLen == old(heapLen) + 1 && Holds(heap[..], heapLen, leaves + {x})
      ensures depth[..] == old(depth[..])[x := 0]
    {
      hide Holds;
      HoldsPush(heap[..], heapLen, leaves, x);
      heapLen := heapLen + 1;
      heap[heapLen] := x;
      depth[x] := 0;
    }

    method Gather(elems: nat) returns (maxCode: int, ghost leaves: set<int>)
      requires Apart(elems) && forall x :: 0 <= x < depth.Length ==> depth[x] < 256
      modifies this, heap, depth, dl
      ensures Gathered(elems, elems, leaves, maxCode)
    {
      hide Holds;
      heapLen, heapMax := 0, heap.Length;
      leaves, maxCode := {}, -1;
      HoldsNothing(heap[..]);
      for n := 0 to elems
        invariant Gathered(elems, n, leaves, maxCode) && maxCode < n
      {
        if freq[n] != 0 {
          AddLeaf(n, leaves);
          leaves := leaves + {n};
          maxCode := n;
        } else {
          dl[n] := 0;
        }
      }
    }

    /** At least two codes of non zero frequency. */
    method AtLeastTwo(elems: nat, maxCode: int, ghost leaves: set<int>) returns (maxCode': int, ghost leaves': set<int>)
      requires Gathered(elems, elems, leaves, maxCode)
      modifies this`heapLen, heap, freq, depth
      ensures Gathered(elems, elems, leaves', maxCode') && heapLen >= 2 && maxCode' >= 0
      ensures leaves <= leaves' && (|leaves| >= 2 ==> leaves' == leaves)
      ensures forall s :: s in leaves ==> freq[s] == old(freq[s])
      ensures |leaves'| == if |leaves| >= 2 then |leaves| else 2
    {
      hide Holds;
      maxCode', leaves' := maxCode, leaves;
      while heapLen < 2
        invariant Gathered(elems, elems, leaves', maxCode')
        invariant leaves <= leaves' && (|leaves| >= 2 ==> leaves' == leaves)
        invariant forall s :: s in leaves ==> freq[s] == old(freq[s])
        invariant heapLen <= 2 || leaves' == leaves
        decreases 2 - heapLen
      {
        maxCode', leaves' := ForceOne(elems, maxCode', leaves');
      }
    }

    method ForceOne(elems: nat, maxCode: int, ghost leaves: set<int>) returns (maxCode': int, ghost leaves': set<int>)
      requires Gathered(elems, elems, leaves, maxCode) && heapLen < 2
      modifies this`heapLen, heap, freq, depth
      ensures Gathered(elems, elems, leaves', maxCode') && heapLen == old(heapLen) + 1 && leaves <= leaves'
      ensures forall s :: s in leaves ==> freq[s] == old(freq[s])
    {
      hide Holds;
      var node: nat := 0;
      maxCode' := maxCode;
      if maxCode < 2 {
        maxCode' := maxCode + 1;
        node := maxCode';
      } else {
        OnlyOne(leaves, maxCode, 0);
      }
      AddLeaf(node, leaves);
      leaves' := leaves + {node};
      freq[node] := 1;
    }

    // -------------------------------------------------------------- build_tree

    /** From the leaves to a single root. */
    method MergeAll(elems: nat, ghost leaves: set<int>, maxCode: int) returns (ghost k: nat)
      requires Gathered(elems, elems, leaves, maxCode) && heapLen >= 2
      modifies this`heapLen, this`heapMax, heap, freq, depth, dl
      ensures heapLen == 1 && k == |leaves| - 1 && exists roots :: Merging(elems, leaves, roots, k)
      ensures forall s :: 0 <= s < elems ==> freq[s] == old(freq[s])
    {
      hide Taken, ByFrequency, HeapFrom, Holds;
      ghost var w := Keys(freq[..], depth[..]);
      HoldsNames(heap[..], w, heapLen, leaves);
      Heapify(heap, freq, depth, heapLen, w, leaves);
      k := 0;
      var node := elems;
      ghost var roots := leaves;
      TakenNone(heap[heapMax..], leaves, elems, dl[..], freq[..]);
      while true
        invariant Merging(elems, leaves, roots, k) && heapLen >= 2 && node == elems + k
        invariant forall s :: 0 <= s < elems ==> freq[s] == old(freq[s])
        decreases heapLen
      {
        roots := MergeStep(elems, node, leaves, roots, k);
        k := k + 1;
        node := node + 1;
        if heapLen < 2 {
          break;
        }
      }
    }

    /** The list is complete, the root in front. */
    ghost predicate Rooted(elems: nat, leaves: set<int>, maxCode: int)
      reads this, heap, freq, dl
    {
      && Apart(elems) && heapMax <= heap.Length && 0 <= maxCode < elems
      && InOrder(heap[heapMax..], leaves, elems, maxCode, dl[..]) && Falling(heap[heapMax..], elems, freq[..])
      && (forall s :: 0 <= s < elems && s !in leaves ==> dl[s] == 0)
    }

    method AddRoot(elems: nat, ghost leaves: set<int>, maxCode: int, ghost k: nat)
      requires heapLen == 1 && k == |leaves| - 1 >= 1 && exists roots :: Merging(elems, leaves, roots, k)
      requires 0 <= maxCode < elems && forall x :: x in leaves ==> 0 <= x <= maxCode
      modifies this`heapMax, heap
      ensures Rooted(elems, leaves, maxCode)
    {
      hide Holds, HeapFrom, Taken, ByFrequency, InOrder, Falling, Names;
      ghost var roots :| Merging(elems, leaves, roots, k);
      ghost var list := heap[heapMax..];
      LastRoot(roots, elems + k - 1, heap[1]);
      heapMax := heapMax - 1;
      heap[heapMax] := heap[1];
      assert heap[heapMax..] == [elems + k - 1] + list;
      Assembled(list, roots, leaves, elems, k, dl[..], maxCode);
      AssembledFreq(list, roots, elems, freq[..], elems + k - 1);
    }

    /** The symbols of one length table, rarer ones never shorter. */
    ghost predicate Graded(maxCode: int)
      reads this, freq, dl
    {
      && 0 <= maxCode < freq.Length == dl.Length
      && forall s, t :: 0 <= s <= maxCode && 0 <= t <= maxCode && dl[s] > 0 && dl[t] > 0 && freq[s] > freq[t] ==>
        dl[s] <= dl[t]
    }

    /** gen_bitlen on the finished list. */
    method Measure(elems: nat, top: nat, ghost leaves: set<int>, maxCode: int) returns (ghost repaired: bool)
      requires Rooted(elems, leaves, maxCode) && 1 <= top <= MAXBITS && |leaves| <= Pow2(top)
      requires forall s :: s in leaves ==> 0 <= s <= maxCode
      modifies dl, blCount
      ensures Complete(dl[..maxCode + 1]) && Tallies(blCount[..], dl[..maxCode + 1]) && blCount[0] == 0
      ensures forall s :: 0 <= s <= maxCode ==> dl[s] <= top && (dl[s] >= 1 <==> s in leaves)
      ensures repaired ==> Graded(maxCode) && Exceeds(freq[..], leaves, top)
      ensures !repaired ==> Optimal(freq[..], dl[..], leaves)
      ensures forall s :: maxCode < s < elems ==> dl[s] == 0
    {
      hide Complete, Tallies, Finished, Tree, Pow2, Ascending, InOrder, Falling, Listed, Recorded, ShapeOf;
      hide Optimal, Exceeds, Measured, TooDeep, RootsAt;
      ghost var order := heap[heapMax..];
      Measurable(heap[..], heapMax, leaves, elems, maxCode, dl[..]);
      LeavesListed(order, leaves, elems, maxCode, dl[..]);
      NoneBeyond(order, leaves, elems, maxCode, dl[..]);
      OrderFinished(order, leaves, elems, maxCode, dl[..]);
      ghost var sh := ShapeOf(order, elems, maxCode);
      repaired := BitLengths(heap, heapMax, dl, blCount, maxCode, top, sh);
      if repaired {
        GradedByOrder(sh, elems, freq[..], dl[..]);
        ListExceeds(order, elems, maxCode, freq[..], leaves, top);
      } else {
        ListOptimal(order, elems, maxCode, freq[..], leaves, dl[..]);
      }
    }

    /**
     build_tree: the symbols of non zero frequency, or two symbols at least, get lengths of 1 to
     top that use up the code space, and the canonical codes of those lengths.  The lengths are
     optimal for the frequencies unless some optimal lengths exceed top.
     */
    method Build(elems: nat, top: nat) returns (maxCode: int, code: array<nat>, ghost repaired: bool)
      requires Apart(elems) && 1 <= top <= MAXBITS && elems <= Pow2(top)
      requires forall x :: 0 <= x < depth.Length ==> depth[x] < 256
      modifies this, heap, freq, depth, dl, blCount
      ensures 0 <= maxCode < elems && Complete(dl[..maxCode + 1])
      ensures forall s :: 0 <= s <= maxCode ==> dl[s] <= top
      ensures forall s :: maxCode < s < elems ==> dl[s] == 0
      ensures forall s :: 0 <= s < elems && old(freq[s]) > 0 ==> s <= maxCode && dl[s] >= 1
      ensures forall s :: 0 <= s < elems && old(freq[s]) > 0 ==> freq[s] == old(freq[s])
      ensures |old(Occurring(freq[..], elems))| >= 2 ==> InUse(dl[..maxCode + 1]) == old(Occurring(freq[..], elems))
      ensures !repaired ==> Optimal(freq[..maxCode + 1], dl[..maxCode + 1], InUse(dl[..maxCode + 1]))
      ensures repaired ==> Graded(maxCode) && Exceeds(freq[..maxCode + 1], InUse(dl[..maxCode + 1]), top)
      ensures fresh(code) && code.Length == maxCode + 1
      ensures Coded(code[..], dl[..maxCode + 1])
    {
      hide Complete, Used, Tallies, Rooted, Graded, Coded, Pow2, Optimal, Exceeds, Occurring;
      ghost var leaves;
      maxCode, leaves := Prepare(elems);
      repaired := Measure(elems, top, leaves, maxCode);
      ghost var lens := dl[..maxCode + 1];
      assert InUse(lens) == leaves;
      if repaired {
        ExceedsBelow(freq[..], leaves, top, maxCode + 1);
      } else {
        OptimalBelow(freq[..], dl[..], leaves, maxCode + 1);
      }
      code := Codes(maxCode);
      assert dl[..maxCode + 1] == lens;
    }

    /** The tree itself. */
    method Prepare(elems: nat) returns (maxCode: int, ghost leaves: set<int>)
      requires Apart(elems) && forall x :: 0 <= x < depth.Length ==> depth[x] < 256
      modifies this, heap, freq, depth, dl
      ensures Rooted(elems, leaves, maxCode) && |leaves| <= elems && 0 <= maxCode < elems
      ensures forall s :: 0 <= s < elems && old(freq[s]) > 0 ==> s in leaves
      ensures forall s :: s in leaves ==> 0 <= s <= maxCode
      ensures forall s :: 0 <= s < elems && old(freq[s]) > 0 ==> freq[s] == old(freq[s])
      ensures |old(Occurring(freq[..], elems))| >= 2 ==> leaves == old(Occurring(freq[..], elems))
    {
      hide Holds, Rooted, Occurring;
      maxCode, leaves := Gather(elems);
      ghost var used := leaves;
      ghost var all := Occurring(freq[..], elems);
      assert freq[..] == old(freq[..]);
      forall x ensures x in used <==> x in all {
        if 0 <= x < elems { assert freq[..][x] == freq[x]; }
      }
      assert used == all;
      maxCode, leaves := AtLeastTwo(elems, maxCode, leaves);
      var k := MergeAll(elems, leaves, maxCode);
      AddRoot(elems, leaves, maxCode, k);
    }

    method Codes(maxCode: int) returns (code: array<nat>)
      requires 0 <= maxCode < dl.Length && blCount.Length == MAXBITS + 1 && blCount[0] == 0
      requires Complete(dl[..maxCode + 1]) && Tallies(blCount[..], dl[..maxCode + 1])
      requires forall s :: 0 <= s <= maxCode ==> dl[s] <= MAXBITS
      ensures fresh(code) && code.Length == maxCode + 1
      ensures Coded(code[..], dl[..maxCode + 1])
    {
      hide Complete, Used, Tallies, Idx, SymBits;
      CompleteFits(dl[..maxCode + 1], blCount[..]);
      code := Assign(dl[..maxCode + 1], blCount);
    }
  }

  /**
   The codes build_tree assigns, read back through inflate_table: the lengths are never refused,
   and whenever the next bits are the code of a symbol in use, the lookup finds that symbol and
   its length; and the space that inflate reserves is enough.
   */
  method Exchange(b: Builder, elems: nat, top: nat, kind: T.Kind, table: array<T.Entry>, bits: nat)
    returns (ret: int, root: nat, code: array<nat>, lens: seq<nat>)
    requires b.Apart(elems) && 1 <= top <= MAXBITS && elems <= Pow2(top) && elems <= T.MaxSymbols(kind)
    requires forall x :: 0 <= x < b.depth.Length ==> b.depth[x] < 256
    requires bits >= 1
    requires kind.LENS? ==> table.Length >= T.ENOUGH_LENS
    requires kind.DISTS? ==> table.Length >= T.ENOUGH_DISTS
    requires kind.CODES? ==> top <= bits <= MAXBITS && table.Length >= Pow2(bits)
    requires table as object != b.heap && table as object != b.freq && table as object != b.depth
    requires table as object != b.dl && table as object != b.blCount
    modifies b, b.heap, b.freq, b.depth, b.dl, b.blCount, table
    ensures ret == 0 || ret == 1
    ensures root <= MAXBITS && root == T.RootBits(lens, bits)
    ensures ret == 1 <==> T.Over(kind, TableSize.Size(lens, root))
    ensures kind.LENS? && elems <= 286 && bits == 9 ==> ret == 0
    ensures kind.DISTS? && elems <= 30 && bits == 6 ==> ret == 0
    ensures forall s :: 0 <= s < elems && old(b.freq[s]) > 0 ==> s < |lens| == code.Length && lens[s] >= 1
    ensures ret == 0 ==> forall s, hold: nat :: 0 <= s < elems && old(b.freq[s]) > 0 && hold % Pow2(lens[s]) == code[s] ==>
      Decodes(table[..], root, kind, s, lens[s], hold)
  {
    hide Complete, Coded, Pow2, Used, T.AllDone, T.Fits, T.MaxLen, T.Look, Builder.Graded;
    hide Optimal, Exceeds, InUse, Occurring, T.Refused, TableSize.Size, T.RootBits;
    ghost var links, repaired, used;
    var maxCode;
    maxCode, code, repaired := b.Build(elems, top);
    lens := b.dl[..maxCode + 1];
    ghost var codes := code[..];
    Acceptable(kind, lens, top);
    ret, root, used, links := T.Build(kind, lens, table, bits);
    assert code[..] == codes;
    if ret == 0 {
      forall s, hold: nat | 0 <= s < elems && old(b.freq[s]) > 0 && hold % Pow2(lens[s]) == code[s]
        ensures Decodes(table[..], root, kind, s, lens[s], hold)
      {
        CodedAt(codes, lens, s);
        EncodeDecode(table[..], root, links, kind, lens, s, code[s], hold);
      }
    }
  }

  lemma Acceptable(kind: T.Kind, lens: seq<nat>, top: nat)
    requires Complete(lens) && top <= MAXBITS && forall s :: 0 <= s < |lens| ==> lens[s] <= top
    ensures Lengths(lens) && !T.Refused(kind, lens) && 0 < T.MaxLen(lens) <= top
  {
    hide Used, T.MaxLen, SymBits;
    var s := Covers(lens, Run(0, MAXBITS));
    assert lens[s] <= T.MaxLen(lens);
  }

  lemma CodedAt(code: seq<nat>, lens: seq<nat>, s: nat)
    requires Coded(code, lens) && s < |lens| && lens[s] >= 1
    ensures |code| == |lens| && Lengths(lens) && NotOver(lens) && code[s] == Idx(SymBits(lens, s))
  {
  }

  ghost predicate Decodes(tab: seq<T.Entry>, root: nat, kind: T.Kind, s: nat, len: nat, hold: nat)
    requires s < T.MaxSymbols(kind)
  {
    hold % Pow2(root) < |tab| && T.Look(tab, root, hold) == T.Found(T.Plain(kind, s, 0).op, T.Plain(kind, s, 0).val, len)
  }

  /** code[s] is the canonical code of s, its first bit lowest. */
  ghost predicate Coded(code: seq<nat>, lens: seq<nat>) {
    && |code| == |lens| && Lengths(lens) && NotOver(lens)
    && forall s :: 0 <= s < |lens| && lens[s] >= 1 ==> code[s] == Idx(SymBits(lens, s))
  }

  lemma CompleteFits(lens: seq<nat>, bl: seq<int>)
    requires Complete(lens) && Tallies(bl, lens)
    ensures NotOver(lens) && |bl| == MAXBITS + 1 && forall l :: 1 <= l <= MAXBITS ==> bl[l] == Total(lens, l)
  {
  }

  lemma NoneBeyond(order: seq<nat>, leaves: set<int>, elems: nat, maxCode: int, dl: seq<nat>)
    requires InOrder(order, leaves, elems, maxCode, dl)
    ensures forall s :: maxCode < s < elems ==> s !in order
  {
  }

  lemma FinishedFacts(order: seq<nat>, elems: nat, maxCode: int)
    requires Finished(order, elems, maxCode)
    ensures InnerIn(order, elems) && Different(order) && 0 <= maxCode < elems && |order| >= 3 && order[0] > maxCode
  {
  }

  /** The list is what gen_bitlen asks for. */
  lemma Measurable(heap: seq<nat>, heapMax: nat, leaves: set<int>, elems: nat, maxCode: int, dl: seq<nat>)
    requires heapMax <= |heap| && InOrder(heap[heapMax..], leaves, elems, maxCode, dl) && elems < |dl|
    requires forall s :: 0 <= s <= maxCode && s !in leaves ==> dl[s] == 0
    ensures 0 <= maxCode < elems && InnerIn(heap[heapMax..], elems)
    ensures var order := heap[heapMax..];
      var sh := ShapeOf(order, elems, maxCode);
      && Listed(sh, heap, heapMax, dl) && Recorded(sh, dl) && sh.order == order && sh.maxCode == maxCode
      && LeafCount(sh, |order|) <= |leaves| && (forall s :: 0 <= s <= maxCode ==> (s in leaves <==> s in order))
  {
    hide Tree, InnerIn, Finished, LeafCount, LeafSet, ShapeOf, Recorded;
    var order := heap[heapMax..];
    FinishedFacts(order, elems, maxCode);
    var sh := ShapeOf(order, elems, maxCode);
    TreeOf(order, elems, maxCode);
    FathersRecorded(order, leaves, elems, maxCode, dl);
    LeavesOf(sh, leaves, |order|);
    SubsetSize(LeafSet(sh, |order|), leaves);
  }

  lemma FathersRecorded(order: seq<nat>, leaves: set<int>, elems: nat, maxCode: int, dl: seq<nat>)
    requires InOrder(order, leaves, elems, maxCode, dl) && InnerIn(order, elems) && Tree(ShapeOf(order, elems, maxCode))
    ensures Recorded(ShapeOf(order, elems, maxCode), dl)
  {
    hide Finished, InnerIn, Tree;
    var sh := ShapeOf(order, elems, maxCode);
    forall j: nat | 1 <= j < |order| ensures sh.up[j] < |order| && dl[order[j]] == order[sh.up[j]] {
      assert sh.up[j] == FatherAt(order, elems, j);
    }
  }

  function LeafSet(sh: Shape, i: nat): set<int>
    requires i <= |sh.order|
  {
    if i == 0 then {} else LeafSet(sh, i - 1) + if Leaf(sh, i - 1) then {sh.order[i - 1]} else {}
  }

  lemma {:induction false} LeavesOf(sh: Shape, leaves: set<int>, i: nat)
    requires i <= |sh.order| && Different(sh.order)
    requires forall s :: 0 <= s <= sh.maxCode && s in sh.order ==> s in leaves
    ensures |LeafSet(sh, i)| == LeafCount(sh, i) && LeafSet(sh, i) <= leaves
    ensures forall x :: x in LeafSet(sh, i) ==> x in sh.order[..i]
  {
    if i > 0 {
      LeavesOf(sh, leaves, i - 1);
      assert sh.order[..i] == sh.order[..i - 1] + [sh.order[i - 1]];
      assert sh.order[i - 1] !in sh.order[..i - 1];
    }
  }

  lemma SubsetSize(s: set<int>, t: set<int>)
    requires s <= t
    ensures |s| <= |t|
  {
    assert t == s + (t - s);
    assert |t| == |s| + |t - s|;
  }

  lemma GradedByOrder(sh: Shape, elems: nat, freq: seq<nat>, dl: seq<nat>)
    requires Falling(sh.order, elems, freq) && Ascending(sh, dl) && 0 <= sh.maxCode < |freq| == |dl|
    ensures forall s, t :: s in sh.order && t in sh.order && s <= sh.maxCode && t <= sh.maxCode && freq[s] > freq[t] ==>
      dl[s] <= dl[t]
  {
    forall s, t | s in sh.order && t in sh.order && s <= sh.maxCode && t <= sh.maxCode && freq[s] > freq[t]
      ensures dl[s] <= dl[t]
    {
      var i :| 0 <= i < |sh.order| && sh.order[i] == s;
      var j :| 0 <= j < |sh.order| && sh.order[j] == t;
      assert i <= j;
      assert Leaf(sh, i) && Leaf(sh, j);
    }
  }

  /** The finished list: a tree whose leaves are the symbols in use, fathers recorded in dl. */
  ghost predicate InOrder(order: seq<nat>, leaves: set<int>, elems: nat, maxCode: int, dl: seq<nat>) {
    && Finished(order, elems, maxCode)
    && (forall i :: 0 <= i < |order| ==> order[i] < |dl|)
    && (forall i :: 1 <= i < |order| ==> dl[order[i]] == elems + (|order| - 1 - i) / 2)
    && (forall s :: 0 <= s <= maxCode ==> (s in leaves <==> s in order))
  }

  ghost predicate Falling(order: seq<nat>, elems: nat, freq: seq<nat>) {
    && Sums(order, elems, freq)
    && (forall i :: 0 <= i < |order| ==> order[i] < |freq|)
    && (forall i, j :: 0 <= i <= j < |order| ==> freq[order[i]] >= freq[order[j]])
  }

  lemma LastRoot(roots: set<int>, x: int, y: int)
    requires |roots| == 1 && x in roots && y in roots
    ensures x == y && roots == {x}
  {
    assert |roots - {x}| == 0;
    assert y != x ==> y in roots - {x};
    forall z | z in roots ensures z == x {
      assert z != x ==> z in roots - {x};
    }
  }

  lemma Assembled(list: seq<nat>, roots: set<int>, leaves: set<int>, elems: nat, k: nat, dl: seq<nat>, maxCode: int)
    requires Taken(list, roots, leaves, elems, k, dl) && k >= 1 && roots == {elems + k - 1}
    requires 0 <= maxCode < elems && |dl| == 2 * elems + 1 && k < elems && forall x :: x in leaves ==> 0 <= x <= maxCode
    ensures InOrder([elems + k - 1] + list, leaves, elems, maxCode, dl)
  {
    var order: seq<nat> := [elems + k - 1] + list;
    assert |order| / 2 == k && |order| % 2 == 1;
    forall i | 1 <= i < |order|
      ensures order[i] < |dl| && dl[order[i]] == elems + (|order| - 1 - i) / 2
      ensures order[i] >= elems ==> order[i] - elems < (|order| - 1 - i) / 2
      ensures order[i] > maxCode ==> elems <= order[i] < elems + k
    {
      assert order[i] == list[i - 1];
      assert Sonship(list, elems, dl, i - 1);
    }
    assert Different(order) by {
      forall a, b | 0 <= a < b < |order| ensures order[a] != order[b] {
        assert order[b] == list[b - 1] && list[b - 1] in list;
        assert a > 0 ==> order[a] == list[a - 1];
      }
    }
    forall x | x in list || x in roots ensures x in order {
    }
  }

  lemma AssembledFreq(list: seq<nat>, roots: set<int>, elems: nat, freq: seq<nat>, root: nat)
    requires ByFrequency(list, roots, elems, freq) && root in roots && |list| % 2 == 0
    ensures Falling([root] + list, elems, freq)
  {
    var order := [root] + list;
    forall j: nat | 2 * j + 2 <= |order| ensures SumAt(order, elems, freq, j) {
      assert SumAt(list, elems, freq, j);
    }
    forall i | 1 <= i < |order| ensures order[i] == list[i - 1] {
    }
  }

  lemma HoldsNothing(h: seq<nat>)
    requires |h| > 0
    ensures Holds(h, 0, {})
  {
    assert h[1..1] == [];
  }

  lemma OnlyOne(s: set<int>, x: int, y: int)
    requires x in s && |s| < 2 && y != x
    ensures y !in s
  {
    assert |s - {x}| == 0;
    assert y in s ==> y in s - {x};
  }

  lemma TakenNone(list: seq<nat>, leaves: set<int>, elems: nat, dl: seq<nat>, freq: seq<nat>)
    requires list == [] && (forall x :: x in leaves ==> 0 <= x < elems) && |freq| > elems
    ensures Taken(list, leaves, leaves, elems, 0, dl) && ByFrequency(list, leaves, elems, freq)
  {
  }

  lemma NotYet(list: seq<nat>, roots: set<int>, leaves: set<int>, elems: nat, k: nat, dl: seq<nat>)
    requires Taken(list, roots, leaves, elems, k, dl)
    ensures elems + k !in roots && elems + k !in list
    ensures forall x :: x in roots ==> x in leaves || elems <= x < elems + k
  {
  }

  lemma RootsFit(list: seq<nat>, roots: set<int>, elems: nat, freq: seq<nat>)
    requires ByFrequency(list, roots, elems, freq)
    ensures forall x :: x in roots ==> 0 <= x < |freq|
  {
  }
}
