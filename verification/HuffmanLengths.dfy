/**
 BZ2_hbMakeCodeLengths (huffman.c): Huffman's construction on node weights that carry the
 subtree height in their low byte, repeated on halved weights until no code is too long.
 */
module HuffmanLengths {
  import opened BinaryHeap
  import opened OptimalCode
  import opened Powers

  const MAX_ALPHA := 258

  /** WEIGHTOF(w) / 256 and DEPTHOF(w). */
  function Wt(w: int): int { w / 256 }
  function Ht(w: int): (r: nat) { w % 256 }

  /** ADDWEIGHTS: weights add, heights take the maximum plus one. */
  function AddWeights(w1: int, w2: int): int {
    (Wt(w1) + Wt(w2)) * 256 + 1 + if Ht(w1) > Ht(w2) then Ht(w1) else Ht(w2)
  }

  function Fib(n: nat): (r: nat)
    ensures n >= 1 ==> r >= 1
  {
    if n < 2 then n else Fib(n - 1) + Fib(n - 2)
  }

  lemma {:induction false} FibMono(m: nat, n: nat)
    requires m <= n
    ensures Fib(m) <= Fib(n)
    decreases n
  {
    if m < n {
      FibMono(m, n - 1);
    }
  }

  lemma FibValues()
    ensures Fib(2) == 1 && Fib(15) == 610 && Fib(36) == 14930352
  {
    assert Fib(10) == 55 && Fib(11) == 89;
    assert Fib(20) == 6765 && Fib(21) == 10946;
    assert Fib(30) == 832040 && Fib(31) == 1346269;
  }

  // ---------------------------------------------------------------- the forest

  /** The two nodes that were merged into t. */
  datatype Kids = Kids(a: int, b: int)

  function KidMax(w: seq<int>, k: Kids): int
    requires 0 <= k.a < |w| && 0 <= k.b < |w|
  {
    if Wt(w[k.a]) > Wt(w[k.b]) then Wt(w[k.a]) else Wt(w[k.b])
  }

  /**
   Internal node t is the father of exactly its two kids; its weight is theirs combined; its
   heavier kid has a weight of at least Fib(height + 1) and at most floor.
   */
  predicate Inner(p: seq<int>, w: seq<int>, kids: seq<Kids>, floor: int, t: int)
    requires 0 < t < |p| == |w| == |kids|
  {
    var k := kids[t];
    && 1 <= k.a < t && 1 <= k.b < t && k.a != k.b && p[k.a] == t && p[k.b] == t
    && w[t] == AddWeights(w[k.a], w[k.b]) && Ht(w[t]) >= 1
    && Ht(w[k.a]) < Ht(w[t]) && Ht(w[k.b]) < Ht(w[t])
    && Fib(Ht(w[t]) + 1) <= KidMax(w, k) <= floor
  }

  /** Node x is a root not lighter than floor, or a kid of a later internal node. */
  predicate Placed(p: seq<int>, w: seq<int>, kids: seq<Kids>, alpha: int, nn: int, floor: int, x: int)
    requires 0 < x <= nn < |p| == |w| == |kids|
  {
    && (p[x] == -1 ==> Wt(w[x]) >= floor)
    && (p[x] != -1 ==> x < p[x] <= nn && alpha < p[x] && (kids[p[x]].a == x || kids[p[x]].b == x))
    && Wt(w[x]) >= Fib(Ht(w[x]) + 2)
  }

  /** Among the nodes before t that were still roots when t was made, its kids were two lightest. */
  predicate Light(p: seq<int>, w: seq<int>, kids: seq<Kids>, t: int)
    requires 0 < t < |p| == |w| == |kids|
  {
    var k := kids[t];
    && 0 <= k.a < |w| && 0 <= k.b < |w| && 0 <= Wt(w[k.a]) <= Wt(w[k.b])
    && forall x :: 1 <= x < t && (p[x] == -1 || p[x] >= t) && x != k.a ==> Wt(w[k.b]) <= Wt(w[x])
  }

  ghost predicate Forest(p: seq<int>, w: seq<int>, kids: seq<Kids>, alpha: int, nn: int, floor: int)
    ensures Forest(p, w, kids, alpha, nn, floor) ==> 1 <= alpha <= nn < |p| == |w| == |kids|
  {
    && 1 <= alpha <= nn < |p| == |w| == |kids|
    && (forall x :: 1 <= x <= alpha ==> Ht(w[x]) == 0)
    && (forall t :: alpha < t <= nn ==> Inner(p, w, kids, floor, t) && Light(p, w, kids, t))
    && (forall x :: 1 <= x <= nn ==> Placed(p, w, kids, alpha, nn, floor, x))
  }

  ghost function Roots(p: seq<int>, nn: int): (r: set<int>)
    requires nn < |p|
  {
    set x | 1 <= x <= nn && p[x] == -1
  }

  /** Total weight of the roots among nodes 1..k. */
  function RootSum(p: seq<int>, w: seq<int>, k: nat): int
    requires k < |p| == |w|
  {
    if k == 0 then 0 else RootSum(p, w, k - 1) + if p[k] == -1 then Wt(w[k]) else 0
  }

  lemma {:induction false} RootSumGrow(p: seq<int>, w: seq<int>, k: nat)
    requires k < |p| == |w| && forall x :: 1 <= x <= k ==> Wt(w[x]) >= 0
    ensures RootSum(p, w, k) >= 0
    ensures forall x :: 1 <= x <= k && p[x] == -1 ==> Wt(w[x]) <= RootSum(p, w, k)
  {
    if k > 0 {
      RootSumGrow(p, w, k - 1);
    }
  }

  lemma {:induction false} RootSumSame(p: seq<int>, w: seq<int>, p': seq<int>, w': seq<int>, k: nat)
    requires k < |p| == |w| && k < |p'| == |w'|
    requires forall x :: 1 <= x <= k ==> p'[x] == p[x] && w'[x] == w[x]
    ensures RootSum(p', w', k) == RootSum(p, w, k)
  {
    if k > 0 {
      RootSumSame(p, w, p', w', k - 1);
    }
  }

  /** Giving root a a father takes its weight out of the sum. */
  lemma {:induction false} RootSumTake(p: seq<int>, w: seq<int>, a: int, t: int, k: nat)
    requires k < |p| == |w| && 1 <= a <= k && p[a] == -1 && t != -1
    ensures RootSum(p[a := t], w, k) == RootSum(p, w, k) - Wt(w[a])
  {
    if a < k {
      RootSumTake(p, w, a, t, k - 1);
    } else {
      RootSumSame(p, w, p[a := t], w, k - 1);
    }
  }

  const WEIGHT_LIMIT := 0x80_0000  // 2^23: a weight shifted left by 8 fits a 32-bit Int32

  /** Below the weight limit the height byte cannot overflow. */
  lemma HeightFits(w: int)
    requires Fib(Ht(w) + 2) <= Wt(w) < WEIGHT_LIMIT
    ensures Ht(w) < 34
  {
    FibValues();
    hide Fib;
    if Ht(w) >= 34 {
      FibMono(36, Ht(w) + 2);
    }
  }

  lemma AddWeightsParts(w1: int, w2: int)
    requires Ht(w1) < 34 && Ht(w2) < 34
    ensures var m := if Ht(w1) > Ht(w2) then Ht(w1) else Ht(w2);
            Ht(AddWeights(w1, w2)) == 1 + m && Wt(AddWeights(w1, w2)) == Wt(w1) + Wt(w2)
  {
  }

  /** The Fibonacci step: a merged node of height g + 1 weighs at least Fib(g + 3). */
  lemma MergeHeavy(p: seq<int>, w: seq<int>, kids: seq<Kids>, alpha: int, nn: int, floor: int, m: int, o: int)
    requires Forest(p, w, kids, alpha, nn, floor)
    requires 1 <= m <= nn && 1 <= o <= nn && p[m] == -1 && p[o] == -1 && Ht(w[o]) <= Ht(w[m])
    ensures Wt(w[m]) + Wt(w[o]) >= Fib(Ht(w[m]) + 3)
    ensures Wt(w[m]) >= Fib(Ht(w[m]) + 2)
  {
    assert Placed(p, w, kids, alpha, nn, floor, m) && Placed(p, w, kids, alpha, nn, floor, o);
    if Ht(w[m]) > 0 {
      assert m > alpha;
      assert Inner(p, w, kids, floor, m);
    }
  }

  lemma WtMono(v: int, w: int)
    requires v <= w
    ensures Wt(v) <= Wt(w)
  {
  }

  /** Roots a and b are the two lightest, and (p', w', kids') merges them into node nn + 1. */
  ghost predicate Merges(p: seq<int>, w: seq<int>, kids: seq<Kids>, nn: int, a: int, b: int,
                         p': seq<int>, w': seq<int>, kids': seq<Kids>)
    requires 0 <= nn && nn + 1 < |p| == |w| == |kids|
    ensures Merges(p, w, kids, nn, a, b, p', w', kids') ==> |p'| == |w'| == |kids'| == |p|
  {
    && a != b && a in Roots(p, nn) && b in Roots(p, nn) && w[a] <= w[b]
    && (forall r :: r in Roots(p, nn) && r != a ==> w[b] <= w[r])
    && Wt(w[a]) < WEIGHT_LIMIT && Wt(w[b]) < WEIGHT_LIMIT
    && p' == p[a := nn + 1][b := nn + 1][nn + 1 := -1]
    && w' == w[nn + 1 := AddWeights(w[a], w[b])] && kids' == kids[nn + 1 := Kids(a, b)]
  }

  lemma MergeNew(p: seq<int>, w: seq<int>, kids: seq<Kids>, alpha: int, nn: int, floor: int, a: int, b: int,
                 p': seq<int>, w': seq<int>, kids': seq<Kids>)
    requires Forest(p, w, kids, alpha, nn, floor) && nn + 1 < |p| && Merges(p, w, kids, nn, a, b, p', w', kids')
    ensures Inner(p', w', kids', Wt(w[b]), nn + 1)
    ensures Placed(p', w', kids', alpha, nn + 1, Wt(w[b]), nn + 1)
  {
    hide Fib;
    assert Placed(p, w, kids, alpha, nn, floor, a) && Placed(p, w, kids, alpha, nn, floor, b);
    HeightFits(w[a]);
    HeightFits(w[b]);
    AddWeightsParts(w[a], w[b]);
    WtMono(w[a], w[b]);
    if Ht(w[a]) > Ht(w[b]) {
      MergeHeavy(p, w, kids, alpha, nn, floor, a, b);
    } else {
      MergeHeavy(p, w, kids, alpha, nn, floor, b, a);
    }
  }

  lemma MergeInner(p: seq<int>, w: seq<int>, kids: seq<Kids>, alpha: int, nn: int, floor: int, a: int, b: int,
                   p': seq<int>, w': seq<int>, kids': seq<Kids>, u: int)
    requires Forest(p, w, kids, alpha, nn, floor) && nn + 1 < |p| && Merges(p, w, kids, nn, a, b, p', w', kids')
    requires alpha < u <= nn
    ensures Inner(p', w', kids', Wt(w[b]), u)
  {
    assert Inner(p, w, kids, floor, u);
    assert Placed(p, w, kids, alpha, nn, floor, b);
  }

  lemma MergePlaced(p: seq<int>, w: seq<int>, kids: seq<Kids>, alpha: int, nn: int, floor: int, a: int, b: int,
                    p': seq<int>, w': seq<int>, kids': seq<Kids>, x: int)
    requires Forest(p, w, kids, alpha, nn, floor) && nn + 1 < |p| && Merges(p, w, kids, nn, a, b, p', w', kids')
    requires 1 <= x <= nn
    ensures Placed(p', w', kids', alpha, nn + 1, Wt(w[b]), x)
  {
    assert Placed(p, w, kids, alpha, nn, floor, x);
    if p[x] == -1 && x != a && x != b {
      assert x in Roots(p, nn);
      WtMono(w[b], w[x]);
    }
  }

  lemma MergeLight(p: seq<int>, w: seq<int>, kids: seq<Kids>, alpha: int, nn: int, floor: int, a: int, b: int,
                   p': seq<int>, w': seq<int>, kids': seq<Kids>, u: int)
    requires Forest(p, w, kids, alpha, nn, floor) && nn + 1 < |p| && Merges(p, w, kids, nn, a, b, p', w', kids')
    requires alpha < u <= nn + 1
    ensures Light(p', w', kids', u)
  {
    if u <= nn {
      assert Inner(p, w, kids, floor, u) && Light(p, w, kids, u);
    } else {
      assert Placed(p, w, kids, alpha, nn, floor, a);
      WtMono(w[a], w[b]);
      forall x | 1 <= x < u && (p'[x] == -1 || p'[x] >= u) && x != a ensures Wt(w'[b]) <= Wt(w'[x]) {
        assert Placed(p, w, kids, alpha, nn, floor, x);
        if x != b {
          assert x in Roots(p, nn);
          WtMono(w[b], w[x]);
        }
      }
    }
  }

  /** The merge of the two lightest roots keeps the forest and raises the floor. */
  lemma Merge(p: seq<int>, w: seq<int>, kids: seq<Kids>, alpha: int, nn: int, floor: int, a: int, b: int,
              p': seq<int>, w': seq<int>, kids': seq<Kids>)
    requires Forest(p, w, kids, alpha, nn, floor) && nn + 1 < |p| && Merges(p, w, kids, nn, a, b, p', w', kids')
    ensures Forest(p', w', kids', alpha, nn + 1, Wt(w[b]))
  {
    MergeNew(p, w, kids, alpha, nn, floor, a, b, p', w', kids');
    hide Inner, Placed, Light;
    forall u | alpha < u <= nn + 1 ensures Inner(p', w', kids', Wt(w[b]), u) && Light(p', w', kids', u) {
      MergeLight(p, w, kids, alpha, nn, floor, a, b, p', w', kids', u);
      if u <= nn { MergeInner(p, w, kids, alpha, nn, floor, a, b, p', w', kids', u); }
    }
    var t := nn + 1;
    forall x | 1 <= x <= t ensures Placed(p', w', kids', alpha, t, Wt(w[b]), x) {
      if x <= nn { MergePlaced(p, w, kids, alpha, nn, floor, a, b, p', w', kids', x); }
    }
  }

  lemma MergeRoots(p: seq<int>, nn: int, a: int, b: int, p': seq<int>)
    requires 0 <= nn && nn + 1 < |p| && a != b && a in Roots(p, nn) && b in Roots(p, nn)
    requires p' == p[a := nn + 1][b := nn + 1][nn + 1 := -1]
    ensures Roots(p', nn + 1) == Roots(p, nn) - {a, b} + {nn + 1}
  {
  }

  /** Merging conserves the total weight. */
  lemma MergeSum(p: seq<int>, w: seq<int>, nn: nat, a: int, b: int, p': seq<int>, w': seq<int>)
    requires nn + 1 < |p| == |w| && a != b && a in Roots(p, nn) && b in Roots(p, nn)
    requires Ht(w[a]) < 34 && Ht(w[b]) < 34
    requires p' == p[a := nn + 1][b := nn + 1][nn + 1 := -1] && w' == w[nn + 1 := AddWeights(w[a], w[b])]
    ensures RootSum(p', w', nn + 1) == RootSum(p, w, nn)
  {
    RootSumTake(p, w, a, nn + 1, nn);
    RootSumTake(p[a := nn + 1], w, b, nn + 1, nn);
    RootSumSame(p[a := nn + 1][b := nn + 1], w, p', w', nn);
    AddWeightsParts(w[a], w[b]);
  }

  // ---------------------------------------------------------------- depths and the Kraft sum

  /** Steps from node x to its root. */
  function DepthOf(p: seq<int>, nn: nat, x: nat): (d: nat)
    requires 1 <= x <= nn < |p|
    requires forall y :: 1 <= y <= nn && p[y] != -1 ==> y < p[y] <= nn
    ensures d <= nn - x
    decreases nn - x
  {
    if p[x] == -1 then 0 else 1 + DepthOf(p, nn, p[x])
  }

  lemma ForestUp(p: seq<int>, w: seq<int>, kids: seq<Kids>, alpha: int, nn: int, floor: int)
    requires Forest(p, w, kids, alpha, nn, floor)
    ensures forall y :: 1 <= y <= nn && p[y] != -1 ==> y < p[y] <= nn && alpha < p[y]
  {
    forall y | 1 <= y <= nn && p[y] != -1 ensures y < p[y] <= nn && alpha < p[y] {
      assert Placed(p, w, kids, alpha, nn, floor, y);
    }
  }

  /** A node's depth and height together are at most the height of the tree. */
  lemma {:induction false} DepthHeight(p: seq<int>, w: seq<int>, kids: seq<Kids>, alpha: int, nn: int, floor: int,
                                       x: nat)
    requires Forest(p, w, kids, alpha, nn, floor) && 1 <= x <= nn
    requires forall y :: 1 <= y < nn ==> p[y] != -1
    requires forall y :: 1 <= y <= nn && p[y] != -1 ==> y < p[y] <= nn
    ensures DepthOf(p, nn, x) + Ht(w[x]) <= Ht(w[nn])
    decreases nn - x
  {
    if p[x] != -1 {
      var t := p[x];
      assert Placed(p, w, kids, alpha, nn, floor, x);
      assert Inner(p, w, kids, floor, t);
      DepthHeight(p, w, kids, alpha, nn, floor, t);
    }
  }

  /** Sum of 2^-depth over the nodes 1..m whose father is a node after t, or none. */
  ghost function Frontier(p: seq<int>, nn: nat, t: int, m: nat): (r: real)
    requires m <= nn < |p|
    requires forall y :: 1 <= y <= nn && p[y] != -1 ==> y < p[y] <= nn
  {
    if m == 0 then 0.0
    else Frontier(p, nn, t, m - 1) + if p[m] == -1 || p[m] > t then HalfPow(DepthOf(p, nn, m)) else 0.0
  }

  /** Opening node t replaces it by its two kids, one level down. */
  lemma {:induction false} FrontierOpen(p: seq<int>, nn: nat, t: nat, a: nat, b: nat, m: nat)
    requires m <= nn < |p| && 1 <= t <= nn
    requires forall y :: 1 <= y <= nn && p[y] != -1 ==> y < p[y] <= nn
    requires 1 <= a <= nn && 1 <= b <= nn && a != b && p[a] == t && p[b] == t
    requires forall y :: 1 <= y <= nn && p[y] == t ==> y == a || y == b
    ensures Frontier(p, nn, t - 1, m) == Frontier(p, nn, t, m)
              + (if a <= m then HalfPow(DepthOf(p, nn, t)) / 2.0 else 0.0)
              + (if b <= m then HalfPow(DepthOf(p, nn, t)) / 2.0 else 0.0)
  {
    if m > 0 {
      FrontierOpen(p, nn, t, a, b, m - 1);
    }
  }

  lemma FrontierStep(p: seq<int>, w: seq<int>, kids: seq<Kids>, alpha: int, nn: int, floor: int, t: nat)
    requires Forest(p, w, kids, alpha, nn, floor) && alpha < t <= nn
    requires forall y :: 1 <= y <= nn && p[y] != -1 ==> y < p[y] <= nn
    ensures Frontier(p, nn, t - 1, t - 1) == Frontier(p, nn, t, t)
  {
    var k := kids[t];
    assert Inner(p, w, kids, floor, t);
    forall y | 1 <= y <= nn && p[y] == t ensures y == k.a || y == k.b {
      assert Placed(p, w, kids, alpha, nn, floor, y);
    }
    FrontierOpen(p, nn, t, k.a, k.b, t - 1);
  }

  lemma {:induction false} FrontierAll(p: seq<int>, w: seq<int>, kids: seq<Kids>, alpha: int, nn: int, floor: int,
                                       t: nat)
    requires Forest(p, w, kids, alpha, nn, floor) && alpha <= t <= nn
    requires forall y :: 1 <= y <= nn && p[y] != -1 ==> y < p[y] <= nn
    ensures Frontier(p, nn, alpha, alpha) == Frontier(p, nn, t, t)
    decreases t
  {
    if t > alpha {
      FrontierStep(p, w, kids, alpha, nn, floor, t);
      FrontierAll(p, w, kids, alpha, nn, floor, t - 1);
    }
  }

  lemma {:induction false} FrontierTop(p: seq<int>, nn: nat, m: nat)
    requires m < nn < |p|
    requires forall y :: 1 <= y <= nn && p[y] != -1 ==> y < p[y] <= nn
    requires forall y :: 1 <= y < nn ==> p[y] != -1
    ensures Frontier(p, nn, nn, m) == 0.0
  {
    if m > 0 {
      FrontierTop(p, nn, m - 1);
    }
  }

  /** The Kraft sum of code lengths: 1 for a complete prefix code. */
  function Kraft(len: seq<nat>): (r: real)
    ensures r >= 0.0
  {
    if |len| == 0 then 0.0 else Kraft(len[..|len| - 1]) + HalfPow(len[|len| - 1])
  }

  lemma {:induction false} FrontierKraft(p: seq<int>, nn: nat, alpha: nat, len: seq<nat>)
    requires |len| <= alpha <= nn < |p|
    requires forall y :: 1 <= y <= nn && p[y] != -1 ==> y < p[y] <= nn
    requires forall i :: 0 <= i < |len| ==> len[i] == DepthOf(p, nn, i + 1)
    requires forall y :: 1 <= y <= alpha ==> p[y] == -1 || p[y] > alpha
    ensures Kraft(len) == Frontier(p, nn, alpha, |len|)
  {
    if |len| > 0 {
      FrontierKraft(p, nn, alpha, len[..|len| - 1]);
    }
  }

  /** A finished tree's leaf depths have Kraft sum 1. */
  lemma TreeKraft(p: seq<int>, w: seq<int>, kids: seq<Kids>, alpha: int, nn: int, floor: int, len: seq<nat>)
    requires Forest(p, w, kids, alpha, nn, floor) && |len| == alpha
    requires p[nn] == -1 && forall y :: 1 <= y < nn ==> p[y] != -1
    requires forall y :: 1 <= y <= nn && p[y] != -1 ==> y < p[y] <= nn && alpha < p[y]
    requires forall i :: 0 <= i < |len| ==> len[i] == DepthOf(p, nn, i + 1)
    ensures Kraft(len) == 1.0
  {
    FrontierKraft(p, nn, alpha, len);
    FrontierAll(p, w, kids, alpha, nn, floor, nn);
    FrontierTop(p, nn, nn - 1);
  }

  // ---------------------------------------------------------------- optimality

  function Weights(w: seq<int>): (r: seq<int>)
    ensures |r| == |w| && forall i :: 0 <= i < |r| ==> r[i] == Wt(w[i])
  {
    seq(|w|, i requires 0 <= i < |w| => Wt(w[i]))
  }

  /** The numbers below n. */
  function All(n: nat): (s: set<int>)
    ensures forall x :: x in s <==> 0 <= x < n
  {
    if n == 0 then {} else All(n - 1) + {n - 1}
  }

  function Leaves(alpha: nat): (s: set<int>)
    ensures forall x :: x in s <==> 1 <= x <= alpha
  {
    All(alpha + 1) - {0}
  }

  /** The merges that made nodes alpha + 1..nn. */
  function MergesOf(kids: seq<Kids>, alpha: int, nn: int): (r: seq<Pair>)
    requires 0 <= alpha <= nn < |kids|
    ensures |r| == nn - alpha && forall k :: 0 <= k < |r| ==> r[k] == Pair(kids[alpha + 1 + k].a, kids[alpha + 1 + k].b)
  {
    seq(nn - alpha, k requires 0 <= k < nn - alpha => Pair(kids[alpha + 1 + k].a, kids[alpha + 1 + k].b))
  }

  /** The nodes before t that were roots when t was made. */
  ghost function RootsAt(p: seq<int>, t: int): (r: set<int>)
    requires t <= |p|
    ensures forall x :: x in r <==> 1 <= x < t && (p[x] == -1 || p[x] >= t)
  {
    set x | 1 <= x < t && (p[x] == -1 || p[x] >= t)
  }

  lemma AddedWeight(w1: int, w2: int)
    requires Ht(AddWeights(w1, w2)) >= 1
    ensures Wt(AddWeights(w1, w2)) == Wt(w1) + Wt(w2)
  {
  }

  /** Making node t took its two kids, the lightest roots, and put t in their place. */
  lemma RootsStep(p: seq<int>, w: seq<int>, kids: seq<Kids>, alpha: int, nn: int, floor: int, t: int)
    requires Forest(p, w, kids, alpha, nn, floor) && alpha < t <= nn
    ensures RootsAt(p, t + 1) == RootsAt(p, t) - {kids[t].a} - {kids[t].b} + {t}
    ensures Lightest(Weights(w), RootsAt(p, t), kids[t].a, kids[t].b)
    ensures 1 <= kids[t].a < t && 1 <= kids[t].b < t && Wt(w[t]) == Wt(w[kids[t].a]) + Wt(w[kids[t].b])
  {
    hide AddWeights, Fib, Wt, Ht;
    assert Inner(p, w, kids, floor, t) && Light(p, w, kids, t);
    assert Placed(p, w, kids, alpha, nn, floor, t);
    AddedWeight(w[kids[t].a], w[kids[t].b]);
    forall x | x in RootsAt(p, t) && x !in RootsAt(p, t + 1) ensures x == kids[t].a || x == kids[t].b {
      assert Placed(p, w, kids, alpha, nn, floor, x);
    }
  }

  lemma MergesInit(kids: seq<Kids>, alpha: int, t: int)
    requires 0 <= alpha < t < |kids|
    ensures MergesOf(kids, alpha, t) == MergesOf(kids, alpha, t - 1) + [Pair(kids[t].a, kids[t].b)]
  {
  }

  /** The forest grew by merging two lightest roots at a time. */
  lemma {:induction false} ForestGreedy(p: seq<int>, w: seq<int>, kids: seq<Kids>, alpha: int, nn: int, floor: int,
                                        t: int)
    requires Forest(p, w, kids, alpha, nn, floor) && alpha <= t <= nn
    ensures Greedy(Weights(w), Leaves(alpha), alpha + 1, MergesOf(kids, alpha, t))
    ensures RootsAfter(Leaves(alpha), alpha + 1, MergesOf(kids, alpha, t)) == RootsAt(p, t + 1)
    decreases t
  {
    hide Forest, Lightest, Wt, MergesOf, Weights, Greedy, RootsAfter;
    if t > alpha {
      ForestGreedy(p, w, kids, alpha, nn, floor, t - 1);
      RootsStep(p, w, kids, alpha, nn, floor, t);
      MergesInit(kids, alpha, t);
      GreedySnoc(Weights(w), Leaves(alpha), alpha + 1, MergesOf(kids, alpha, t - 1), Pair(kids[t].a, kids[t].b), RootsAt(p, t));
    } else {
      ForestRoots(p, w, kids, alpha, nn, floor);
      assert MergesOf(kids, alpha, t) == [];
      GreedyNone(Weights(w), Leaves(alpha), alpha + 1);
    }
  }

  lemma ForestRoots(p: seq<int>, w: seq<int>, kids: seq<Kids>, alpha: int, nn: int, floor: int)
    requires Forest(p, w, kids, alpha, nn, floor)
    ensures Leaves(alpha) == RootsAt(p, alpha + 1)
  {
    forall x | 1 <= x <= alpha ensures p[x] == -1 || p[x] >= alpha + 1 {
      assert Placed(p, w, kids, alpha, nn, floor, x);
    }
  }

  ghost function Depths(p: seq<int>, nn: nat): (d: seq<nat>)
    requires nn < |p| && forall y :: 1 <= y <= nn && p[y] != -1 ==> y < p[y] <= nn
    ensures |d| == |p| && forall x :: 1 <= x <= nn ==> d[x] == DepthOf(p, nn, x)
  {
    seq(|p|, x requires 0 <= x < |p| => if 1 <= x <= nn then DepthOf(p, nn, x) else 0)
  }

  lemma DepthsHung(p: seq<int>, w: seq<int>, kids: seq<Kids>, alpha: int, nn: int, floor: int)
    requires Forest(p, w, kids, alpha, nn, floor) && forall y :: 1 <= y <= nn && p[y] != -1 ==> y < p[y] <= nn
    ensures Hung(Depths(p, nn), alpha + 1, MergesOf(kids, alpha, nn))
  {
    var ms, d := MergesOf(kids, alpha, nn), Depths(p, nn);
    forall k | 0 <= k < |ms|
      ensures 0 <= ms[k].a < |d| && 0 <= ms[k].b < |d| && d[ms[k].a] == d[ms[k].b] == d[alpha + 1 + k] + 1
    {
      assert Inner(p, w, kids, floor, alpha + 1 + k);
    }
  }

  lemma RootWeight(p: seq<int>, w: seq<int>, kids: seq<Kids>, alpha: int, nn: int, floor: int)
    requires Forest(p, w, kids, alpha, nn, floor)
    ensures Wt(w[nn]) >= 0
  {
    assert Placed(p, w, kids, alpha, nn, floor, nn);
  }

  lemma LeavesMoved(w: seq<int>, lw: seq<int>)
    requires LeafWeights(w, lw)
    ensures forall x :: 0 <= x < |lw| ==> Weights(w)[1 + x] == lw[x]
  {
    forall x | 0 <= x < |lw| ensures Wt(w[1 + x]) == lw[x] {
      assert w[x + 1] == lw[x] * 256;
    }
  }

  /** The leaf depths of a tree grown by merging two lightest roots are optimal for the leaf weights. */
  lemma DepthsOptimal(p: seq<int>, w: seq<int>, kids: seq<Kids>, alpha: int, nn: int, floor: int, total: int,
                      lw: seq<int>, len: seq<nat>)
    requires Tree(p, w, kids, alpha, nn, floor, total)
    requires LeafWeights(w, lw) && alpha == |lw| == |len| && forall i :: 0 <= i < |len| ==>
      len[i] == DepthOf(p, nn, i + 1)
    ensures Optimal(lw, len, All(alpha))
  {
    hide Greedy, AtLeast, Forest, Tree, Inner, Hung, Weights, MergesOf, Wt;
    var ms, d := MergesOf(kids, alpha, nn), Depths(p, nn);
    DepthsHung(p, w, kids, alpha, nn, floor);
    ForestGreedy(p, w, kids, alpha, nn, floor, nn);
    assert RootsAt(p, nn + 1) == {nn};
    RootWeight(p, w, kids, alpha, nn, floor);
    LeavesMoved(w, lw);
    TreeOptimal(Weights(w), Leaves(alpha), alpha + 1, ms, d, nn);
    OptimalMoved(lw, len, All(alpha), Weights(w), d, Leaves(alpha), 1);
  }

  // ---------------------------------------------------------------- the construction

  /** Weights that agree on the heap's nodes give the same heap. */
  lemma HeapFrame(h: seq<int>, w: seq<int>, w': seq<int>, n: int)
    requires Named(h, w, n) && IsHeap(h, w, n) && |w| == |w'|
    requires forall i :: 0 <= i <= n ==> w'[h[i]] == w[h[i]]
    ensures Named(h, w', n) && IsHeap(h, w', n)
  {
    forall i | 2 <= i <= n ensures FatherLe(h, w', n, i) {
      assert FatherLe(h, w, n, i);
    }
  }

  lemma HeapFrameNew(h: seq<int>, w: seq<int>, n: int, s: set<int>, t: int, v: int)
    requires Named(h, w, n) && IsHeap(h, w, n) && Holds(h, n, s) && h[0] == 0 && t !in s && 0 < t < |w|
    ensures Named(h, w[t := v], n) && IsHeap(h, w[t := v], n)
  {
    HeapFrame(h, w, w[t := v], n);
  }

  /** The state between merges: the heap holds the roots, whose weights add up to total. */
  ghost predicate Building(h: seq<int>, n: int, p: seq<int>, w: seq<int>, kids: seq<Kids>, alpha: int, nn: int,
                           floor: int, total: int)
    ensures Building(h, n, p, w, kids, alpha, nn, floor, total) ==>
      Forest(p, w, kids, alpha, nn, floor) && n + nn == 2 * alpha
    ensures Building(h, n, p, w, kids, alpha, nn, floor, total) ==>
      Named(h, w, n) && IsHeap(h, w, n) && Holds(h, n, Roots(p, nn)) && h[0] == 0 && w[0] == 0
    ensures Building(h, n, p, w, kids, alpha, nn, floor, total) ==> RootSum(p, w, nn) == total
  {
    && Forest(p, w, kids, alpha, nn, floor) && n + nn == 2 * alpha
    && Named(h, w, n) && IsHeap(h, w, n) && Holds(h, n, Roots(p, nn)) && h[0] == 0 && w[0] == 0
    && RootSum(p, w, nn) == total
  }

  /** Roots are within the total weight, so no sum of weights overflows. */
  lemma RootsLight(p: seq<int>, w: seq<int>, kids: seq<Kids>, alpha: int, nn: int, floor: int, x: int)
    requires Forest(p, w, kids, alpha, nn, floor) && RootSum(p, w, nn) < WEIGHT_LIMIT && x in Roots(p, nn)
    ensures Wt(w[x]) <= RootSum(p, w, nn) && Ht(w[x]) < 34
  {
    forall y | 1 <= y <= nn ensures Wt(w[y]) >= 0 {
      assert Placed(p, w, kids, alpha, nn, floor, y);
    }
    RootSumGrow(p, w, nn);
    assert Placed(p, w, kids, alpha, nn, floor, x);
    HeightFits(w[x]);
  }

  lemma RootWeights(p: seq<int>, w: seq<int>, kids: seq<Kids>, alpha: int, nn: int, floor: int, a: int)
    requires Forest(p, w, kids, alpha, nn, floor) && a in Roots(p, nn)
    ensures w[a] >= 0
  {
    assert Placed(p, w, kids, alpha, nn, floor, a);
  }

  lemma MergeAll(p: seq<int>, w: seq<int>, kids: seq<Kids>, alpha: int, nn: int, floor: int, a: int, b: int,
                 p': seq<int>, w': seq<int>, kids': seq<Kids>)
    requires Forest(p, w, kids, alpha, nn, floor) && nn + 1 < |p| && RootSum(p, w, nn) < WEIGHT_LIMIT
    requires Merges(p, w, kids, nn, a, b, p', w', kids')
    ensures Forest(p', w', kids', alpha, nn + 1, Wt(w[b]))
    ensures Roots(p', nn + 1) == Roots(p, nn) - {a} - {b} + {nn + 1}
    ensures RootSum(p', w', nn + 1) == RootSum(p, w, nn)
    ensures w'[nn + 1] >= 0
  {
    hide Forest, RootSum;
    Merge(p, w, kids, alpha, nn, floor, a, b, p', w', kids');
    MergeRoots(p, nn, a, b, p');
    RootsLight(p, w, kids, alpha, nn, floor, a);
    RootsLight(p, w, kids, alpha, nn, floor, b);
    MergeSum(p, w, nn, a, b, p', w');
    RootWeights(p, w, kids, alpha, nn, floor, a);
    RootWeights(p, w, kids, alpha, nn, floor, b);
  }

  /** The two lightest entries leave the heap. */
  method PopTwo(heap: array<int>, weight: array<int>, n: int, ghost s: set<int>) returns (n1: int, n2: int)
    requires heap != weight && Named(heap[..], weight[..], n) && n >= 2 && heap[0] == 0
    requires IsHeap(heap[..], weight[..], n) && Holds(heap[..], n, s)
    modifies heap
    ensures heap[0] == 0 && Named(heap[..], weight[..], n - 2)
    ensures IsHeap(heap[..], weight[..], n - 2) && Holds(heap[..], n - 2, s - {n1} - {n2})
    ensures n1 in s && n2 in s && n1 != n2
    ensures forall y :: y in s ==> 0 <= y < weight.Length
    ensures weight[n1] <= weight[n2] && forall y :: y in s && y != n1 ==> weight[n2] <= weight[y]
  {
    hide Holds, IsHeap, Named;
    n1 := PopMin(heap, weight, n, s);
    n2 := PopMin(heap, weight, n - 1, s - {n1});
  }

  lemma LightEnough(p: seq<int>, w: seq<int>, kids: seq<Kids>, alpha: int, nn: int, floor: int, a: int, b: int,
                    p': seq<int>, w': seq<int>, kids': seq<Kids>)
    requires Forest(p, w, kids, alpha, nn, floor) && nn + 1 < |p| && RootSum(p, w, nn) < WEIGHT_LIMIT
    requires a != b && a in Roots(p, nn) && b in Roots(p, nn) && w[a] <= w[b]
    requires forall r :: r in Roots(p, nn) && r != a ==> w[b] <= w[r]
    requires p' == p[a := nn + 1][b := nn + 1][nn + 1 := -1]
    requires w' == w[nn + 1 := AddWeights(w[a], w[b])] && kids' == kids[nn + 1 := Kids(a, b)]
    ensures Merges(p, w, kids, nn, a, b, p', w', kids')
  {
    RootsLight(p, w, kids, alpha, nn, floor, a);
    RootsLight(p, w, kids, alpha, nn, floor, b);
  }

  /** Make t the father of n1 and n2. */
  method Link(weight: array<int>, parent: array<int>, n1: int, n2: int, t: int)
    requires weight != parent && weight.Length == parent.Length
    requires 0 <= n1 < t < parent.Length && 0 <= n2 < t
    modifies weight, parent
    ensures parent[..] == old(parent[..])[n1 := t][n2 := t][t := -1]
    ensures weight[..] == old(weight[..])[t := AddWeights(old(weight[..])[n1], old(weight[..])[n2])]
  {
    parent[n1] := t;
    parent[n2] := t;
    weight[t] := AddWeights(weight[n1], weight[n2]);
    parent[t] := -1;
  }

  /** One turn of the merge loop. */
  method MergeTwo(heap: array<int>, weight: array<int>, parent: array<int>, n: int, nn: int,
                  ghost kids0: seq<Kids>, ghost alpha: int, ghost floor0: int, ghost total: int)
    returns (ghost kids: seq<Kids>, ghost floor: int)
    requires heap != weight && heap != parent && weight != parent && weight.Length == parent.Length
    requires nn + 1 < parent.Length && n >= 2 && total < WEIGHT_LIMIT
    requires Building(heap[..], n, parent[..], weight[..], kids0, alpha, nn, floor0, total)
    modifies heap, weight, parent
    ensures Building(heap[..], n - 1, parent[..], weight[..], kids, alpha, nn + 1, floor, total)
    ensures forall i :: 0 <= i <= nn ==> weight[i] == old(weight[i])
  {
    ghost var p, w, s := parent[..], weight[..], Roots(parent[..], nn);
    hide Building, Forest, Holds, IsHeap, RootSum, AddWeights, Merges, Named, Wt;
    var n1, n2 := PopTwo(heap, weight, n, s);
    Link(weight, parent, n1, n2, nn + 1);
    ghost var p', w', h := parent[..], weight[..], heap[..];
    kids, floor := kids0[nn + 1 := Kids(n1, n2)], Wt(w[n2]);
    LightEnough(p, w, kids0, alpha, nn, floor0, n1, n2, p', w', kids);
    MergeAll(p, w, kids0, alpha, nn, floor0, n1, n2, p', w', kids);
    HeapFrameNew(h, w, n - 2, s - {n1} - {n2}, nn + 1, AddWeights(w[n1], w[n2]));
    Insert(heap, weight, n - 2, nn + 1, s - {n1} - {n2});
    BuildingIntro(heap[..], n - 1, p', w', kids, alpha, nn + 1, floor, total, s - {n1} - {n2} + {nn + 1});
  }

  lemma BuildingIntro(h: seq<int>, n: int, p: seq<int>, w: seq<int>, kids: seq<Kids>, alpha: int, nn: int,
                      floor: int, total: int, s: set<int>)
    requires Forest(p, w, kids, alpha, nn, floor) && n + nn == 2 * alpha && s == Roots(p, nn)
    requires Named(h, w, n) && IsHeap(h, w, n) && Holds(h, n, s) && h[0] == 0 && w[0] == 0
    requires RootSum(p, w, nn) == total
    ensures Building(h, n, p, w, kids, alpha, nn, floor, total)
  {
  }

  // ---------------------------------------------------------------- the whole procedure

  /** Leaf i carries weight lw[i - 1] >= 1 and height 0. */
  predicate LeafWeights(w: seq<int>, lw: seq<int>) {
    |w| > |lw| && forall i :: 0 <= i < |lw| ==> lw[i] >= 1 && w[i + 1] == lw[i] * 256
  }

  lemma LeafFrame(w: seq<int>, w': seq<int>, lw: seq<int>)
    requires LeafWeights(w, lw) && |w| == |w'| && forall i :: 1 <= i <= |lw| ==> w'[i] == w[i]
    ensures LeafWeights(w', lw)
  {
    forall i | 0 <= i < |lw| ensures lw[i] >= 1 && w'[i + 1] == lw[i] * 256 {
      assert w'[i + 1] == w[i + 1];
    }
  }

  function Sum(s: seq<int>): int {
    if |s| == 0 then 0 else Sum(s[..|s| - 1]) + s[|s| - 1]
  }

  lemma {:induction false} LeafSum(p: seq<int>, w: seq<int>, lw: seq<int>, k: nat)
    requires k <= |lw| && k < |p| == |w| && LeafWeights(w, lw) && forall i :: 1 <= i <= k ==> p[i] == -1
    ensures RootSum(p, w, k) == Sum(lw[..k])
  {
    if k > 0 {
      LeafSum(p, w, lw, k - 1);
      assert lw[..k][..k - 1] == lw[..k - 1];
    }
  }

  /** Every leaf is a root of its own: the forest the construction starts from. */
  lemma StartForest(h: seq<int>, p: seq<int>, w: seq<int>, kids: seq<Kids>, lw: seq<int>, alpha: int)
    requires 1 <= alpha == |lw| < |p| == |w| == |kids| && LeafWeights(w, lw)
    requires forall i :: 1 <= i <= alpha ==> p[i] == -1
    requires Named(h, w, alpha) && IsHeap(h, w, alpha) && Holds(h, alpha, Roots(p, alpha)) && h[0] == 0 && w[0] == 0
    ensures Building(h, alpha, p, w, kids, alpha, alpha, 0, Sum(lw))
  {
    hide Sum, IsHeap, Named, Holds, Fib;
    FibValues();
    LeafSum(p, w, lw, alpha);
    assert lw[..alpha] == lw;
    forall x | 1 <= x <= alpha ensures Placed(p, w, kids, alpha, alpha, 0, x) && Ht(w[x]) == 0 {
      assert w[x] == lw[x - 1] * 256;
    }
  }

  /** All leaves enter the heap. */
  method InsertLeaves(heap: array<int>, weight: array<int>, parent: array<int>, alpha: int, ghost lw: seq<int>)
    requires heap != weight && heap != parent && weight != parent && weight.Length == parent.Length
    requires 1 <= alpha == |lw| && alpha + 1 < heap.Length && alpha < parent.Length
    requires LeafWeights(weight[..], lw) && heap[0] == 0 && weight[0] == 0
    modifies heap, parent
    ensures forall i :: 1 <= i <= alpha ==> parent[i] == -1
    ensures Named(heap[..], weight[..], alpha) && IsHeap(heap[..], weight[..], alpha) && heap[0] == 0
    ensures Holds(heap[..], alpha, Roots(parent[..], alpha))
  {
    ghost var s: set<int> := {};
    HoldsIntro(heap[..], 0, s);
    ghost var w := weight[..];
    hide Holds, IsHeap, Named;
    var i := 1;
    HeapOne(heap[..], w);
    while i <= alpha
      invariant 1 <= i <= alpha + 1
      invariant forall k :: 1 <= k < i ==> parent[k] == -1
      invariant forall k :: k in s <==> 1 <= k < i
      invariant Named(heap[..], w, i - 1) && IsHeap(heap[..], w, i - 1) && heap[0] == 0
      invariant Holds(heap[..], i - 1, s)
    {
      parent[i] := -1;
      assert w[i] == lw[i - 1] * 256;
      Insert(heap, weight, i - 1, i, s);
      s := s + {i};
      i := i + 1;
    }
    assert s == Roots(parent[..], alpha);
  }

  lemma HeapOne(h: seq<int>, w: seq<int>)
    requires |h| > 0 && |w| > 0 && h[0] == 0
    ensures Named(h, w, 0) && IsHeap(h, w, 0)
  {
  }

  /** What the tree guarantees of the finished forest: one root, the node built last. */
  ghost predicate Tree(p: seq<int>, w: seq<int>, kids: seq<Kids>, alpha: int, nn: int, floor: int, total: int)
    ensures Tree(p, w, kids, alpha, nn, floor, total) ==> Forest(p, w, kids, alpha, nn, floor)
    ensures Tree(p, w, kids, alpha, nn, floor, total) ==> p[nn] == -1 && forall y :: 1 <= y < nn ==> p[y] != -1
    ensures Tree(p, w, kids, alpha, nn, floor, total) ==> forall y :: 1 <= y <= nn && p[y] != -1 ==>
      y < p[y] <= nn && alpha < p[y]
  {
    && Forest(p, w, kids, alpha, nn, floor)
    && p[nn] == -1 && (forall y :: 1 <= y < nn ==> p[y] != -1)
    && (forall y :: 1 <= y <= nn && p[y] != -1 ==> y < p[y] <= nn && alpha < p[y])
    && Wt(w[nn]) == total
  }

  lemma TreeDone(h: seq<int>, p: seq<int>, w: seq<int>, kids: seq<Kids>, alpha: int, nn: int, floor: int, total: int)
    requires Building(h, 1, p, w, kids, alpha, nn, floor, total)
    ensures Tree(p, w, kids, alpha, nn, floor, total)
  {
    ForestUp(p, w, kids, alpha, nn, floor);
    var s := Roots(p, nn);
    assert nn in s by {
      assert Placed(p, w, kids, alpha, nn, floor, nn);
    }
    OnlyRoot(s, nn);
    RootSumOne(p, w, nn, nn - 1);
  }

  lemma OnlyRoot(s: set<int>, x: int)
    requires |s| == 1 && x in s
    ensures s == {x}
  {
    assert |s - {x}| == 0;
  }

  lemma {:induction false} RootSumOne(p: seq<int>, w: seq<int>, nn: nat, k: nat)
    requires k < nn < |p| == |w| && Roots(p, nn) == {nn}
    ensures RootSum(p, w, k) == 0
    ensures forall y :: 1 <= y <= k ==> p[y] != -1
  {
    if k > 0 {
      RootSumOne(p, w, nn, k - 1);
      assert k in Roots(p, nn) <==> p[k] == -1;
    }
  }

  /** Build the tree by merging until one root is left. */
  method BuildTree(heap: array<int>, weight: array<int>, parent: array<int>, alpha: int, ghost lw: seq<int>)
    returns (nn: int, ghost kids: seq<Kids>, ghost floor: int)
    requires heap != weight && heap != parent && weight != parent
    requires weight.Length == parent.Length == 2 * MAX_ALPHA && heap.Length == MAX_ALPHA + 2
    requires 1 <= alpha == |lw| <= MAX_ALPHA && LeafWeights(weight[..], lw) && Sum(lw) < WEIGHT_LIMIT
    modifies heap, weight, parent
    ensures nn == 2 * alpha - 1 && Tree(parent[..], weight[..], kids, alpha, nn, floor, Sum(lw))
    ensures LeafWeights(weight[..], lw)
  {
    hide Building, Tree, Forest, IsHeap, Named, Holds;
    ghost var w0 := weight[..];
    heap[0] := 0;
    weight[0] := 0;
    parent[0] := -2;
    LeafFrame(w0, weight[..], lw);
    InsertLeaves(heap, weight, parent, alpha, lw);
    nn := alpha;
    var nHeap := alpha;
    kids := seq(parent.Length, i => Kids(0, 0));
    floor := 0;
    StartForest(heap[..], parent[..], weight[..], kids, lw, alpha);
    while nHeap > 1
      invariant nHeap >= 1 && nHeap + nn == 2 * alpha && alpha <= nn
      invariant Building(heap[..], nHeap, parent[..], weight[..], kids, alpha, nn, floor, Sum(lw))
      invariant LeafWeights(weight[..], lw)
    {
      ghost var w := weight[..];
      kids, floor := MergeTwo(heap, weight, parent, nHeap, nn, kids, alpha, floor, Sum(lw));
      LeafFrame(w, weight[..], lw);
      nHeap := nHeap - 1;
      nn := nn + 1;
    }
    TreeDone(heap[..], parent[..], weight[..], kids, alpha, nn, floor, Sum(lw));
  }

  /** Walk every leaf up to the root and note whether a code is longer than maxLen. */
  method Measure(parent: array<int>, len: array<nat>, alpha: int, maxLen: int, nn: int)
    returns (tooLong: bool, ghost bad: int)
    requires len.Length >= alpha >= 1 && alpha <= nn < parent.Length && parent as object != len
    requires forall y :: 1 <= y <= nn && parent[y] != -1 ==> y < parent[y] <= nn
    modifies len
    ensures parent[..] == old(parent[..])
    ensures forall i :: 0 <= i < alpha ==> len[i] == DepthOf(parent[..], nn, i + 1)
    ensures tooLong ==> 0 <= bad < alpha && len[bad] > maxLen
    ensures !tooLong ==> forall i :: 0 <= i < alpha ==> len[i] <= maxLen
  {
    ghost var p := parent[..];
    tooLong, bad := false, 0;
    var i := 1;
    while i <= alpha
      invariant 1 <= i <= alpha + 1 && parent[..] == p
      invariant forall k :: 0 <= k < i - 1 ==> len[k] == DepthOf(p, nn, k + 1)
      invariant tooLong ==> 0 <= bad < i - 1 && len[bad] > maxLen
      invariant !tooLong ==> forall k :: 0 <= k < i - 1 ==> len[k] <= maxLen
    {
      var j, k := 0, i;
      while parent[k] >= 0
        invariant 1 <= k <= nn && 0 <= j && j + DepthOf(p, nn, k) == DepthOf(p, nn, i)
        decreases nn - k
      {
        k := parent[k];
        j := j + 1;
      }
      len[i - 1] := j;
      if j > maxLen { tooLong, bad := true, i - 1; }
      i := i + 1;
    }
  }

  /** The initial leaf weights: the frequencies, with 0 counted as 1. */
  function StartWeights(freq: seq<int>): (r: seq<int>)
    ensures |r| == |freq|
    ensures forall i :: 0 <= i < |r| ==> r[i] == if freq[i] == 0 then 1 else freq[i]
  {
    seq(|freq|, i requires 0 <= i < |freq| => if freq[i] == 0 then 1 else freq[i])
  }

  /** The halving of every weight. */
  function Rescale(lw: seq<int>): (r: seq<int>)
    ensures |r| == |lw|
    ensures forall i :: 0 <= i < |r| ==> r[i] == 1 + lw[i] / 2
  {
    seq(|lw|, i requires 0 <= i < |lw| => 1 + lw[i] / 2)
  }

  /** Halving lowers the total unless every weight is already 1 or 2. */
  lemma {:induction false} RescaleLowers(lw: seq<int>)
    requires forall i :: 0 <= i < |lw| ==> lw[i] >= 1
    ensures 0 <= Sum(Rescale(lw)) <= Sum(lw)
    ensures Sum(Rescale(lw)) == Sum(lw) ==> Sum(lw) <= 2 * |lw|
  {
    if |lw| > 0 {
      var t := lw[..|lw| - 1];
      RescaleLowers(t);
      assert Rescale(lw)[..|lw| - 1] == Rescale(t);
    }
  }

  lemma {:induction false} SumPositive(lw: seq<int>)
    requires forall i :: 0 <= i < |lw| ==> lw[i] >= 1
    ensures Sum(lw) >= |lw|
  {
    if |lw| > 0 { SumPositive(lw[..|lw| - 1]); }
  }

  /** A code longer than maxLen >= 12 needs a total weight of at least Fib(15). */
  lemma LongCodeHeavy(p: seq<int>, w: seq<int>, kids: seq<Kids>, alpha: int, nn: int, floor: int, total: int,
                      x: nat, maxLen: int)
    requires Tree(p, w, kids, alpha, nn, floor, total) && 1 <= x <= nn && maxLen >= 12
    requires DepthOf(p, nn, x) > maxLen
    ensures total >= 610
  {
    FibValues();
    hide Fib, DepthOf;
    DepthHeight(p, w, kids, alpha, nn, floor, x);
    assert Placed(p, w, kids, alpha, nn, floor, nn);
    FibMono(15, Ht(w[nn]) + 2);
  }

  /** Leaves of a tree with two or more leaves are not the root. */
  lemma LeafDepth(p: seq<int>, w: seq<int>, kids: seq<Kids>, alpha: int, nn: int, floor: int, total: int, x: nat)
    requires Tree(p, w, kids, alpha, nn, floor, total) && 1 <= x < nn
    ensures DepthOf(p, nn, x) >= 1
  {
  }

  method SetWeights(weight: array<int>, freq: array<int>, alpha: int)
    requires weight != freq && 0 <= alpha <= freq.Length && alpha < weight.Length
    requires forall i :: 0 <= i < alpha ==> freq[i] >= 0
    modifies weight
    ensures LeafWeights(weight[..], StartWeights(freq[..alpha]))
  {
    ghost var lw := StartWeights(freq[..alpha]);
    for i := 0 to alpha
      invariant forall k :: 0 <= k < i ==> lw[k] >= 1 && weight[k + 1] == lw[k] * 256
    {
      weight[i + 1] := (if freq[i] == 0 then 1 else freq[i]) * 256;
    }
  }

  method HalveWeights(weight: array<int>, alpha: int, ghost lw: seq<int>)
    requires 0 <= alpha == |lw| < weight.Length && LeafWeights(weight[..], lw)
    modifies weight
    ensures LeafWeights(weight[..], Rescale(lw))
  {
    ghost var lw' := Rescale(lw);
    var i := 1;
    while i <= alpha
      invariant 1 <= i <= alpha + 1
      invariant forall k :: 0 <= k < i - 1 ==> lw'[k] >= 1 && weight[k + 1] == lw'[k] * 256
      invariant forall k :: i - 1 <= k < alpha ==> lw[k] >= 1 && weight[k + 1] == lw[k] * 256
    {
      assert weight[i] == lw[i - 1] * 256;
      var j := weight[i] / 256;
      j := 1 + j / 2;
      weight[i] := j * 256;
      i := i + 1;
    }
  }

  /** The weights after k rounds of halving. */
  function Rescaled(lw: seq<int>, k: nat): (r: seq<int>)
    ensures |r| == |lw|
  {
    if k == 0 then lw else Rescale(Rescaled(lw, k - 1))
  }

  /** What k rounds of halving leave of a weight. */
  lemma {:induction false} RescaledIs(lw: seq<int>, k: nat, i: nat)
    requires i < |lw|
    ensures Rescaled(lw, k)[i] == 2 + (lw[i] - 2) / Pow2(k)
  {
    if k > 0 {
      RescaledIs(lw, k - 1, i);
      DivTwice(lw[i] - 2, Pow2(k - 1));
    }
  }

  lemma DivTwice(x: int, m: nat)
    requires m > 0
    ensures x / (2 * m) == x / m / 2
  {
    var q, r := x / m, x % m;
    var h, b := q / 2, q % 2;
    MulDist(2 * h, b, m);
    assert 2 * h * m == h * (2 * m);
    MulMono(b, 1, m);
    MulMono(0, b, m);
    DivModUnique(x, 2 * m, h, b * m + r);
  }

  lemma WholeSet(n: nat)
    ensures Within(All(n), n) && forall i :: 0 <= i < n ==> i in All(n)
  {
  }

  /** f is the greater frequency even after k rounds of halving. */
  predicate Outweighs(f: int, g: int, k: nat) {
    f >= 2 && (f - 2) / Pow2(k) > (g - 2) / Pow2(k)
  }

  /** The more frequent of two symbols, as far as halving has not made them equal, is not longer. */
  predicate Graded(freq: seq<int>, len: seq<nat>, rounds: nat) {
    forall i, j :: 0 <= i < |freq| == |len| && 0 <= j < |freq| && Outweighs(freq[i], freq[j], rounds) ==>
      len[i] <= len[j]
  }

  lemma HalvedLess(f: int, g: int, k: nat)
    requires Outweighs(f, g, k) && g >= 0
    ensures (f - 2) / Pow2(k) > ((if g == 0 then 1 else g) - 2) / Pow2(k)
  {
    hide Pow2;
    var m := Pow2(k);
    DivModUnique(-1, m, -1, m - 1);
  }

  lemma GradedAt(freq: seq<int>, len: seq<nat>, rounds: nat, i: nat, j: nat)
    requires Optimal(Rescaled(StartWeights(freq), rounds), len, All(|freq|)) && |len| == |freq|
    requires i < |freq| && j < |freq| && freq[j] >= 0 && Outweighs(freq[i], freq[j], rounds)
    ensures len[i] <= len[j]
  {
    hide Optimal, Rescaled, All, Pow2;
    RescaledIs(StartWeights(freq), rounds, i);
    RescaledIs(StartWeights(freq), rounds, j);
    WholeSet(|freq|);
    HalvedLess(freq[i], freq[j], rounds);
    HeavierShorter(Rescaled(StartWeights(freq), rounds), len, All(|freq|), i, j);
  }

  /** The lengths by the frequencies alone. */
  lemma ByFrequency(freq: seq<int>, len: seq<nat>, rounds: nat)
    requires (forall i :: 0 <= i < |freq| ==> freq[i] >= 0) && |len| == |freq|
    requires Optimal(Rescaled(StartWeights(freq), rounds), len, All(|freq|))
    ensures Graded(freq, len, rounds)
    ensures rounds == 0 && (forall i :: 0 <= i < |freq| ==> freq[i] > 0) ==> Optimal(freq, len, All(|freq|))
  {
    hide Optimal, Outweighs;
    forall i, j | 0 <= i < |freq| && 0 <= j < |freq| && Outweighs(freq[i], freq[j], rounds) ensures len[i] <= len[j] {
      GradedAt(freq, len, rounds, i, j);
    }
    if forall i :: 0 <= i < |freq| ==> freq[i] > 0 {
      assert StartWeights(freq) == freq;
    }
  }

  lemma ExceedsIntro(lw: seq<int>, d: seq<nat>, i: nat, maxLen: int)
    requires Optimal(lw, d, All(|lw|)) && i < |d| && d[i] > maxLen
    ensures Exceeds(lw, All(|lw|), maxLen)
  {
  }

  /**
   BZ2_hbMakeCodeLengths: for every frequency table it ends, and the lengths are those of a
   complete prefix code with no code longer than maxLen.  Once every weight is 1 or 2 the total
   is at most 516, while a tree of height 13 weighs at least Fib(15) = 610.  The lengths are
   optimal for the weights of the last round, and halving happens only while optimal lengths
   are too long.  Without halving they are optimal for the frequencies themselves.
   */
  method MakeCodeLengths(len: array<nat>, freq: array<int>, alphaSize: int, maxLen: int)
    returns (ghost rounds: nat)
    requires 2 <= alphaSize <= MAX_ALPHA && maxLen >= 12
    requires len.Length >= alphaSize && freq.Length >= alphaSize && freq as object != len
    requires forall i :: 0 <= i < alphaSize ==> freq[i] >= 0
    requires Sum(StartWeights(freq[..alphaSize])) < WEIGHT_LIMIT
    modifies len
    ensures forall i :: 0 <= i < alphaSize ==> 1 <= len[i] <= maxLen
    ensures Kraft(len[..alphaSize]) == 1.0
    ensures Optimal(Rescaled(StartWeights(freq[..alphaSize]), rounds), len[..alphaSize], All(alphaSize))
    ensures forall k: nat :: k < rounds ==>
      Exceeds(Rescaled(StartWeights(freq[..alphaSize]), k), All(alphaSize), maxLen)
    ensures Sum(StartWeights(freq[..alphaSize])) < 610 ==> rounds == 0
    ensures rounds == 0 && (forall i :: 0 <= i < alphaSize ==> freq[i] > 0) ==>
      Optimal(freq[..alphaSize], len[..alphaSize], All(alphaSize))
    ensures Graded(freq[..alphaSize], len[..alphaSize], rounds)
  {
    hide Tree, Sum, Kraft, Optimal, Exceeds, All, Rescale, Forest, Pow2, Graded;
    var heap := new int[MAX_ALPHA + 2];
    var weight, parent := new int[2 * MAX_ALPHA], new int[2 * MAX_ALPHA];
    ghost var start := StartWeights(freq[..alphaSize]);
    ghost var lw := start;
    rounds := 0;
    SetWeights(weight, freq, alphaSize);
    while true
      invariant |lw| == alphaSize && LeafWeights(weight[..], lw) && Sum(lw) < WEIGHT_LIMIT
      invariant lw == Rescaled(start, rounds)
      invariant forall k: nat :: k < rounds ==> Exceeds(Rescaled(start, k), All(alphaSize), maxLen)
      invariant rounds > 0 ==> Sum(start) >= 610
      decreases Sum(lw)
    {
      SumPositive(lw);
      ghost var kids, floor;
      var nn;
      nn, kids, floor := BuildTree(heap, weight, parent, alphaSize, lw);
      ghost var p, w := parent[..], weight[..];
      var tooLong;
      ghost var bad;
      tooLong, bad := Measure(parent, len, alphaSize, maxLen, nn);
      DepthsOptimal(p, w, kids, alphaSize, nn, floor, Sum(lw), lw, len[..alphaSize]);
      if !tooLong {
        forall i | 0 <= i < alphaSize ensures len[i] >= 1 {
          LeafDepth(p, w, kids, alphaSize, nn, floor, Sum(lw), i + 1);
        }
        TreeKraft(p, w, kids, alphaSize, nn, floor, len[..alphaSize]);
        break;
      }
      ExceedsIntro(lw, len[..alphaSize], bad, maxLen);
      LongCodeHeavy(p, w, kids, alphaSize, nn, floor, Sum(lw), bad + 1, maxLen);
      HalveWeights(weight, alphaSize, lw);
      RescaleLowers(lw);
      lw := Rescale(lw);
      rounds := rounds + 1;
    }
    ByFrequency(freq[..alphaSize], len[..alphaSize], rounds);
  }
}
