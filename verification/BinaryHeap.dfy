/**
 The binary heap of huffman.c: heap[1..n] holds node numbers ordered by weight, heap[0] is a
 sentinel node of weight 0 that stops UPHEAP.
 */
module BinaryHeap {
  import Permutations

  /** h[0..n] names nodes of w. */
  predicate Named(h: seq<int>, w: seq<int>, n: int) {
    0 <= n < |h| && forall i :: 0 <= i <= n ==> 0 <= h[i] < |w|
  }

  /** Position i is no lighter than its father. */
  predicate FatherLe(h: seq<int>, w: seq<int>, n: int, i: int)
    requires Named(h, w, n) && 2 <= i <= n
  {
    w[h[i / 2]] <= w[h[i]]
  }

  predicate IsHeap(h: seq<int>, w: seq<int>, n: int)
    requires Named(h, w, n)
  {
    forall i :: 2 <= i <= n ==> FatherLe(h, w, n, i)
  }

  /** The first entry of a heap is the lightest. */
  lemma {:induction false} HeapMin(h: seq<int>, w: seq<int>, n: int, i: int)
    requires Named(h, w, n) && IsHeap(h, w, n) && 1 <= i <= n
    ensures w[h[1]] <= w[h[i]]
    decreases i
  {
    if i > 1 {
      HeapMin(h, w, n, i / 2);
      assert FatherLe(h, w, n, i);
    }
  }

  /** Same entries, position 0 and everything after n untouched. */
  predicate Rearranged(h: seq<int>, h': seq<int>, n: int)
    ensures Rearranged(h, h', n) ==> |h| == |h'|
  {
    && |h| == |h'| && multiset(h) == multiset(h')
    && forall i :: 0 <= i < |h| && !(1 <= i <= n) ==> h'[i] == h[i]
  }

  lemma RearrangedStep(h: seq<int>, v: seq<int>, v': seq<int>, w: seq<int>, n: int, a: int, c: int)
    requires Rearranged(h, v, n) && Named(v, w, n) && 1 <= a <= n && 1 <= c <= n
    requires v' == v[a := v[c]][c := v[a]]
    ensures Rearranged(h, v', n) && Named(v', w, n)
  {
  }

  /** A heap but for position z, which may be lighter than its father; z's sons respect z's father. */
  predicate HeapUp(h: seq<int>, w: seq<int>, n: int, z: int)
    requires Named(h, w, n) && 1 <= z <= n
  {
    && (forall i :: 2 <= i <= n && i != z ==> FatherLe(h, w, n, i))
    && (z > 1 ==> forall i :: 2 <= i <= n && i / 2 == z ==> w[h[z / 2]] <= w[h[i]])
  }

  lemma HeapUpStep(v: seq<int>, v': seq<int>, w: seq<int>, n: int, z: int)
    requires Named(v, w, n) && Named(v', w, n) && 2 <= z <= n && HeapUp(v, w, n, z) && w[v[z]] < w[v[z / 2]]
    requires v' == v[z := v[z / 2]][z / 2 := v[z]]
    ensures HeapUp(v', w, n, z / 2)
  {
    var y := z / 2;
    forall i | 2 <= i <= n && i != y ensures FatherLe(v', w, n, i) {
      if i != z { assert FatherLe(v, w, n, i); }
    }
    if y > 1 {
      assert FatherLe(v, w, n, y);
      forall i | 2 <= i <= n && i / 2 == y ensures w[v'[y / 2]] <= w[v'[i]] {
        if i != z { assert FatherLe(v, w, n, i); }
      }
    }
  }

  /** UPHEAP(z). */
  method UpHeap(heap: array<int>, weight: array<int>, n: int)
    requires heap != weight && Named(heap[..], weight[..], n) && n >= 1
    requires heap[0] == 0 && weight[0] == 0 && weight[heap[n]] >= 0
    requires HeapUp(heap[..], weight[..], n, n)
    modifies heap
    ensures Rearranged(old(heap[..]), heap[..], n) && Named(heap[..], weight[..], n)
    ensures IsHeap(heap[..], weight[..], n)
  {
    ghost var h0, w := heap[..], weight[..];
    var zz := n;
    var tmp := heap[zz];
    ghost var v := h0;
    hide Rearranged, HeapUp, IsHeap;
    RearrangedRefl(h0, n);
    while weight[tmp] < weight[heap[zz / 2]]
      invariant 1 <= zz <= n && 0 <= tmp < weight.Length
      invariant Rearranged(h0, v, n) && Named(v, w, n) && HeapUp(v, w, n, zz) && v[zz] == tmp && v[0] == 0
      invariant forall i :: 0 <= i < heap.Length && i != zz ==> heap[i] == v[i]
      decreases zz
    {
      ghost var v' := v[zz := v[zz / 2]][zz / 2 := v[zz]];
      RearrangedStep(h0, v, v', w, n, zz, zz / 2);
      HeapUpStep(v, v', w, n, zz);
      heap[zz] := heap[zz / 2];
      zz := zz / 2;
      v := v';
    }
    heap[zz] := tmp;
    assert heap[..] == v;
    HeapUpDone(v, w, n, zz);
  }

  lemma RearrangedRefl(h: seq<int>, n: int)
    ensures Rearranged(h, h, n)
  {
  }

  lemma HeapUpDone(v: seq<int>, w: seq<int>, n: int, z: int)
    requires Named(v, w, n) && 1 <= z <= n && HeapUp(v, w, n, z) && (z > 1 ==> w[v[z / 2]] <= w[v[z]])
    ensures IsHeap(v, w, n)
  {
    forall i | 2 <= i <= n ensures FatherLe(v, w, n, i) {
    }
  }

  /** A heap but for position z, which may be heavier than its sons; they respect z's father. */
  predicate HeapDown(h: seq<int>, w: seq<int>, n: int, z: int)
    requires Named(h, w, n) && 1 <= z <= n
  {
    && (forall i :: 2 <= i <= n && i / 2 != z ==> FatherLe(h, w, n, i))
    && (z > 1 ==> forall i :: 2 <= i <= n && i / 2 == z ==> w[h[z / 2]] <= w[h[i]])
  }

  lemma HeapDownStep(v: seq<int>, v': seq<int>, w: seq<int>, n: int, z: int, y: int)
    requires Named(v, w, n) && Named(v', w, n) && 1 <= z && 2 <= y <= n && y / 2 == z && HeapDown(v, w, n, z)
    requires w[v[y]] <= w[v[z]]
    requires forall i :: 2 <= i <= n && i / 2 == z ==> w[v[y]] <= w[v[i]]
    requires v' == v[z := v[y]][y := v[z]]
    ensures HeapDown(v', w, n, y)
  {
    forall i | 2 <= i <= n && i / 2 != y ensures FatherLe(v', w, n, i) {
      if i / 2 != z {
        assert FatherLe(v, w, n, i);
      }
    }
    forall i | 2 <= i <= n && i / 2 == y ensures w[v'[y / 2]] <= w[v'[i]] {
      assert FatherLe(v, w, n, i);
    }
  }

  /** DOWNHEAP(1) on a heap of n entries. */
  method DownHeap(heap: array<int>, weight: array<int>, n: int)
    requires heap != weight && Named(heap[..], weight[..], n) && n >= 1
    requires HeapDown(heap[..], weight[..], n, 1)
    modifies heap
    ensures Rearranged(old(heap[..]), heap[..], n) && Named(heap[..], weight[..], n)
    ensures IsHeap(heap[..], weight[..], n)
  {
    ghost var h0, w := heap[..], weight[..];
    var zz := 1;
    var tmp := heap[zz];
    ghost var v := h0;
    hide Rearranged, HeapDown, IsHeap;
    RearrangedRefl(h0, n);
    while true
      invariant 1 <= zz <= n && 0 <= tmp < weight.Length
      invariant Rearranged(h0, v, n) && Named(v, w, n) && HeapDown(v, w, n, zz) && v[zz] == tmp
      invariant forall i :: 0 <= i < heap.Length && i != zz ==> heap[i] == v[i]
      decreases n - zz
    {
      var yy := 2 * zz;
      if yy > n { break; }
      if yy < n && weight[heap[yy + 1]] < weight[heap[yy]] { yy := yy + 1; }
      if weight[tmp] < weight[heap[yy]] { break; }
      ghost var v' := v[zz := v[yy]][yy := v[zz]];
      RearrangedStep(h0, v, v', w, n, zz, yy);
      HeapDownStep(v, v', w, n, zz, yy);
      heap[zz] := heap[yy];
      zz := yy;
      v := v';
    }
    heap[zz] := tmp;
    assert heap[..] == v;
    HeapDownDone(v, w, n, zz);
  }

  lemma HeapDownDone(v: seq<int>, w: seq<int>, n: int, z: int)
    requires Named(v, w, n) && 1 <= z <= n && HeapDown(v, w, n, z)
    requires forall i :: 2 <= i <= n && i / 2 == z ==> w[v[z]] <= w[v[i]]
    ensures IsHeap(v, w, n)
  {
    forall i | 2 <= i <= n ensures FatherLe(v, w, n, i) {
    }
  }

  /** Positions 1..n hold exactly the nodes of s, once each. */
  ghost predicate Holds(h: seq<int>, n: int, s: set<int>)
    ensures Holds(h, n, s) ==> 0 <= n < |h| && n == |s|
    ensures Holds(h, n, s) ==> forall i :: 1 <= i <= n ==> h[i] in s
  {
    && 0 <= n < |h| && n == |s|
    && multiset(h[1..n + 1]) == multiset(s)
    && (forall i :: 1 <= i <= n ==> h[i] in s)
  }

  lemma HoldsAt(h: seq<int>, n: int, s: set<int>, x: int) returns (i: int)
    requires Holds(h, n, s) && x in s
    ensures 1 <= i <= n && h[i] == x
  {
    assert x in multiset(s);
    assert x in h[1..n + 1];
    var k :| 0 <= k < n && h[1..n + 1][k] == x;
    i := k + 1;
  }

  lemma HoldsIntro(h: seq<int>, n: int, s: set<int>)
    requires 0 <= n < |h| && multiset(h[1..n + 1]) == multiset(s)
    ensures Holds(h, n, s)
  {
    assert |multiset(h[1..n + 1])| == n && |multiset(s)| == |s|;
    forall i | 1 <= i <= n ensures h[i] in s {
      assert h[i] == h[1..n + 1][i - 1];
      assert h[i] in multiset(h[1..n + 1]);
    }
  }

  lemma HoldsRearranged(h: seq<int>, h': seq<int>, n: int, s: set<int>)
    requires Holds(h, n, s) && Rearranged(h, h', n)
    ensures Holds(h', n, s)
  {
    hide Holds;
    HoldsSize(h, n, s);
    var b, b' := h[1..n + 1], h'[1..n + 1];
    MiddleSame(h[..1], b, b', h[n + 1..], h, h');
    HoldsContents(h, n, s);
    HoldsIntro(h', n, s);
  }

  lemma HoldsSize(h: seq<int>, n: int, s: set<int>)
    requires Holds(h, n, s)
    ensures 0 <= n < |h|
  {
  }

  lemma HoldsContents(h: seq<int>, n: int, s: set<int>)
    requires Holds(h, n, s)
    ensures multiset(h[1..n + 1]) == multiset(s)
  {
  }

  /** Two sequences with the same contents and equal ends have middles with the same contents. */
  lemma MiddleSame(a: seq<int>, b: seq<int>, b': seq<int>, c: seq<int>, h: seq<int>, h': seq<int>)
    requires h == a + b + c && h' == a + b' + c && multiset(h) == multiset(h')
    ensures multiset(b) == multiset(b')
  {
    assert multiset(h) == multiset(a) + multiset(b) + multiset(c);
    assert multiset(h') == multiset(a) + multiset(b') + multiset(c);
    Permutations.Cancel(multiset(a), multiset(b), multiset(b'), multiset(c));
  }

  lemma HoldsPush(h: seq<int>, n: int, s: set<int>, x: int)
    requires Holds(h, n, s) && x !in s && n + 1 < |h|
    ensures Holds(h[n + 1 := x], n + 1, s + {x})
  {
    var h' := h[n + 1 := x];
    assert h'[1..n + 2] == h[1..n + 1] + [x];
    assert multiset(s + {x}) == multiset(s) + multiset{x};
    HoldsIntro(h', n + 1, s + {x});
  }

  lemma HoldsPop(h: seq<int>, n: int, s: set<int>)
    requires Holds(h, n, s) && n >= 1
    ensures Holds(h[1 := h[n]], n - 1, s - {h[1]})
  {
    var h', x := h[1 := h[n]], h[1];
    assert multiset(s - {x}) == multiset(s) - multiset{x};
    if n == 1 {
      assert h[1..2] == [x];
      assert h'[1..1] == [];
    } else {
      assert h[1..n + 1] == [x] + h[2..n] + [h[n]];
      assert h'[1..n] == [h[n]] + h[2..n];
    }
    HoldsIntro(h', n - 1, s - {x});
  }

  /** Take the lightest entry: heap[1] leaves, the last entry takes its place and sinks. */
  method PopMin(heap: array<int>, weight: array<int>, n: int, ghost s: set<int>) returns (x: int)
    requires heap != weight && Named(heap[..], weight[..], n) && n >= 1
    requires IsHeap(heap[..], weight[..], n) && Holds(heap[..], n, s)
    modifies heap
    ensures heap[0] == old(heap[0]) && Named(heap[..], weight[..], n - 1)
    ensures IsHeap(heap[..], weight[..], n - 1) && Holds(heap[..], n - 1, s - {x})
    ensures x in s && 0 <= x < weight.Length
    ensures forall y :: y in s ==> 0 <= y < weight.Length && weight[x] <= weight[y]
  {
    ghost var h, w := heap[..], weight[..];
    x := heap[1];
    forall y | y in s ensures 0 <= y < |w| && w[x] <= w[y] {
      var i := HoldsAt(h, n, s, y);
      HeapMin(h, w, n, i);
    }
    HoldsPop(h, n, s);
    heap[1] := heap[n];
    ghost var h1 := heap[..];
    assert h1 == h[1 := h[n]];
    if n > 1 {
      PopShape(h, h1, w, n);
      hide HeapDown, IsHeap, Holds, Rearranged;
      DownHeap(heap, weight, n - 1);
      HoldsRearranged(h1, heap[..], n - 1, s - {x});
      assert heap[0] == h1[0] by { RearrangedFirst(h1, heap[..], n - 1); }
    }
  }

  lemma RearrangedFirst(h: seq<int>, h': seq<int>, n: int)
    requires Rearranged(h, h', n) && |h| > 0
    ensures h'[0] == h[0]
  {
  }

  lemma PopShape(h: seq<int>, h': seq<int>, w: seq<int>, n: int)
    requires Named(h, w, n) && IsHeap(h, w, n) && n > 1 && h' == h[1 := h[n]]
    ensures Named(h', w, n - 1) && HeapDown(h', w, n - 1, 1)
  {
    forall i | 2 <= i <= n - 1 && i / 2 != 1 ensures FatherLe(h', w, n - 1, i) {
      assert FatherLe(h, w, n, i);
    }
  }

  /** Add node x at the end and let it rise. */
  method Insert(heap: array<int>, weight: array<int>, n: int, x: int, ghost s: set<int>)
    requires heap != weight && Named(heap[..], weight[..], n) && n + 1 < heap.Length
    requires IsHeap(heap[..], weight[..], n) && Holds(heap[..], n, s) && x !in s
    requires 0 <= x < weight.Length && weight[x] >= 0 && heap[0] == 0 && weight[0] == 0
    modifies heap
    ensures heap[0] == 0 && Named(heap[..], weight[..], n + 1)
    ensures IsHeap(heap[..], weight[..], n + 1) && Holds(heap[..], n + 1, s + {x})
  {
    ghost var h, w := heap[..], weight[..];
    HoldsPush(h, n, s, x);
    heap[n + 1] := x;
    ghost var h1 := heap[..];
    assert h1 == h[n + 1 := x];
    PushShape(h, h1, w, n, x);
    hide HeapUp, IsHeap, Holds, Rearranged;
    UpHeap(heap, weight, n + 1);
    HoldsRearranged(h1, heap[..], n + 1, s + {x});
    assert heap[0] == h1[0] by { RearrangedFirst(h1, heap[..], n + 1); }
  }

  lemma PushShape(h: seq<int>, h': seq<int>, w: seq<int>, n: int, x: int)
    requires Named(h, w, n) && IsHeap(h, w, n) && n + 1 < |h| && h' == h[n + 1 := x] && 0 <= x < |w|
    ensures Named(h', w, n + 1) && HeapUp(h', w, n + 1, n + 1)
  {
    var m := n + 1;
    forall i | 2 <= i <= m && i != m ensures FatherLe(h', w, m, i) {
      assert FatherLe(h, w, n, i);
    }
  }
}
