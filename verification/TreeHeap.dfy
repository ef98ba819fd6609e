/**
 The priority queue of trees.c: heap[1..n] holds node numbers ordered by frequency, with the
 height of the subtree breaking ties.
 */
module TreeHeap {
  import opened BinaryHeap

  /** smaller(tree, n, m, depth) compares these. */
  function Key(freq: nat, depth: nat): int
    requires depth < 256
  {
    freq * 256 + depth
  }

  ghost function Keys(freq: seq<nat>, depth: seq<nat>): (r: seq<int>)
    requires |freq| == |depth| && forall x :: 0 <= x < |depth| ==> depth[x] < 256
    ensures |r| == |freq| && forall x :: 0 <= x < |freq| ==> r[x] == Key(freq[x], depth[x])
  {
    seq(|freq|, x requires 0 <= x < |freq| => Key(freq[x], depth[x]))
  }

  method Smaller(freq: array<nat>, depth: array<nat>, n: nat, m: nat) returns (r: bool)
    requires n < freq.Length && m < freq.Length && freq.Length == depth.Length
    requires depth[n] < 256 && depth[m] < 256
    ensures r <==> Key(freq[n], depth[n]) <= Key(freq[m], depth[m])
  {
    r := freq[n] < freq[m] || (freq[n] == freq[m] && depth[n] <= depth[m]);
  }

  predicate Names(h: seq<nat>, w: seq<int>, n: nat) {
    n < |h| && forall i :: 1 <= i <= n ==> h[i] < |w|
  }

  predicate Le(h: seq<nat>, w: seq<int>, n: nat, i: nat)
    requires Names(h, w, n) && 2 <= i <= n
  {
    w[h[i / 2]] <= w[h[i]]
  }

  /** Every father from position lo on is at most its sons. */
  predicate HeapFrom(h: seq<nat>, w: seq<int>, n: nat, lo: nat)
    requires Names(h, w, n)
  {
    forall i :: 2 <= i <= n && i / 2 >= lo ==> Le(h, w, n, i)
  }

  /** The same but for position z, which may be more than its sons. */
  predicate Sinking(h: seq<nat>, w: seq<int>, n: nat, lo: nat, z: nat)
    requires Names(h, w, n) && 1 <= lo <= z <= n
  {
    && (forall i :: 2 <= i <= n && i / 2 >= lo && i / 2 != z ==> Le(h, w, n, i))
    && (z / 2 >= lo ==> forall i :: 2 <= i <= n && i / 2 == z ==> w[h[z / 2]] <= w[h[i]])
  }

  lemma SinkStep(v: seq<nat>, v': seq<nat>, w: seq<int>, n: nat, lo: nat, z: nat, y: nat)
    requires Names(v, w, n) && Names(v', w, n) && 1 <= lo <= z && 2 <= y <= n && y / 2 == z && Sinking(v, w, n, lo, z)
    requires w[v[y]] <= w[v[z]]
    requires forall i :: 2 <= i <= n && i / 2 == z ==> w[v[y]] <= w[v[i]]
    requires v' == v[z := v[y]][y := v[z]]
    ensures Sinking(v', w, n, lo, y)
  {
    forall i | 2 <= i <= n && i / 2 >= lo && i / 2 != y ensures Le(v', w, n, i) {
      if i / 2 != z {
        assert Le(v, w, n, i);
      }
    }
    forall i | 2 <= i <= n && i / 2 == y ensures w[v'[y / 2]] <= w[v'[i]] {
      assert Le(v, w, n, i);
    }
  }

  lemma SinkDone(v: seq<nat>, w: seq<int>, n: nat, lo: nat, z: nat)
    requires Names(v, w, n) && 1 <= lo <= z <= n && Sinking(v, w, n, lo, z)
    requires forall i :: 2 <= i <= n && i / 2 == z ==> w[v[z]] <= w[v[i]]
    ensures HeapFrom(v, w, n, lo)
  {
    forall i | 2 <= i <= n && i / 2 >= lo ensures Le(v, w, n, i) {
    }
  }

  lemma {:induction false} LeastFirst(h: seq<nat>, w: seq<int>, n: nat, i: nat)
    requires Names(h, w, n) && HeapFrom(h, w, n, 1) && 1 <= i <= n
    ensures w[h[1]] <= w[h[i]]
    decreases i
  {
    if i > 1 {
      LeastFirst(h, w, n, i / 2);
      assert Le(h, w, n, i);
    }
  }

  lemma SwapNames(h: seq<nat>, v: seq<nat>, v': seq<nat>, w: seq<int>, n: nat, a: nat, c: nat)
    requires Rearranged(h, v, n) && Names(v, w, n) && 1 <= a <= n && 1 <= c <= n
    requires v' == v[a := v[c]][c := v[a]]
    ensures Rearranged(h, v', n) && Names(v', w, n)
  {
  }

  /** pqdownheap */
  method PqDownHeap(heap: array<nat>, freq: array<nat>, depth: array<nat>, n: nat, start: nat, ghost w: seq<int>)
    requires heap != freq && heap != depth && freq.Length == depth.Length
    requires (forall x :: 0 <= x < depth.Length ==> depth[x] < 256) && w == Keys(freq[..], depth[..])
    requires Names(heap[..], w, n) && 1 <= start <= n && Sinking(heap[..], w, n, start, start)
    modifies heap
    ensures Rearranged(old(heap[..]), heap[..], n) && Names(heap[..], w, n)
    ensures HeapFrom(heap[..], w, n, start)
  {
    hide Rearranged, Sinking, HeapFrom, Key;
    ghost var h0 := heap[..];
    var k := start;
    var v := heap[k];
    ghost var now: seq<nat> := h0;
    RearrangedRefl(h0, n);
    var j := 2 * k;
    while j <= n
      invariant start <= k <= n && v < freq.Length && j == 2 * k
      invariant Rearranged(h0, now, n) && Names(now, w, n) && Sinking(now, w, n, start, k) && now[k] == v
      invariant forall i :: 0 <= i < heap.Length && i != k ==> heap[i] == now[i]
      decreases n - k
    {
      if j < n {
        var right := Smaller(freq, depth, heap[j + 1], heap[j]);
        if right {
          j := j + 1;
        }
      }
      var stop := Smaller(freq, depth, v, heap[j]);
      if stop {
        break;
      }
      ghost var next := now[k := now[j]][j := now[k]];
      SwapNames(h0, now, next, w, n, k, j);
      SinkStep(now, next, w, n, start, k, j);
      heap[k] := heap[j];
      k := j;
      now := next;
      j := 2 * j;
    }
    heap[k] := v;
    assert heap[..] == now;
    SinkDone(now, w, n, start, k);
  }

  lemma HoldsNames(h: seq<nat>, w: seq<int>, n: nat, s: set<int>)
    requires Holds(h, n, s) && forall x :: x in s ==> 0 <= x < |w|
    ensures Names(h, w, n)
  {
  }

  lemma Untouched(h: seq<nat>, h': seq<nat>, n: nat)
    requires Rearranged(h, h', n)
    ensures |h'| == |h| && forall i :: n < i < |h| ==> h'[i] == h[i]
  {
  }

  lemma LeastOfAll(h: seq<nat>, w: seq<int>, n: nat, s: set<int>)
    requires Names(h, w, n) && n >= 1 && HeapFrom(h, w, n, 1) && Holds(h, n, s)
    ensures h[1] in s && forall y :: y in s ==> 0 <= y < |w| && w[h[1]] <= w[y]
  {
    forall y | y in s ensures 0 <= y < |w| && w[h[1]] <= w[y] {
      var i := HoldsAt(h, n, s, y);
      LeastFirst(h, w, n, i);
    }
  }

  /** Moving the last entry to the front leaves only the front out of order. */
  lemma LastToFront(h: seq<nat>, h': seq<nat>, w: seq<int>, n: nat)
    requires Names(h, w, n) && HeapFrom(h, w, n, 1) && n > 1 && h' == h[1 := h[n]]
    ensures Names(h', w, n - 1) && Sinking(h', w, n - 1, 1, 1)
  {
    var m := n - 1;
    forall i | 2 <= i <= m && i / 2 >= 1 && i / 2 != 1 ensures Le(h', w, m, i) {
      assert Le(h, w, n, i);
    }
  }

  /** pqremove */
  method PqRemove(heap: array<nat>, freq: array<nat>, depth: array<nat>, n: nat, ghost w: seq<int>, ghost s: set<int>)
    returns (top: nat)
    requires heap != freq && heap != depth && freq.Length == depth.Length
    requires (forall x :: 0 <= x < depth.Length ==> depth[x] < 256) && w == Keys(freq[..], depth[..])
    requires n >= 2 && Names(heap[..], w, n) && HeapFrom(heap[..], w, n, 1) && Holds(heap[..], n, s)
    modifies heap
    ensures Names(heap[..], w, n - 1) && HeapFrom(heap[..], w, n - 1, 1) && Holds(heap[..], n - 1, s - {top})
    ensures top in s && top < |w| && forall y :: y in s ==> 0 <= y < |w| && w[top] <= w[y]
    ensures forall i :: n < i < heap.Length ==> heap[i] == old(heap[i])
  {
    hide Rearranged, Sinking, HeapFrom, Holds, Keys, Key;
    ghost var h := heap[..];
    LeastOfAll(h, w, n, s);
    HoldsPop(h, n, s);
    LastToFront(h, h[1 := h[n]], w, n);
    top := heap[1];
    heap[1] := heap[n];
    ghost var h1 := heap[..];
    assert h1 == h[1 := h[n]];
    PqDownHeap(heap, freq, depth, n - 1, 1, w);
    HoldsRearranged(h1, heap[..], n - 1, s - {top});
    Untouched(h1, heap[..], n - 1);
  }

  lemma HoldsReplace(h: seq<nat>, n: nat, s: set<int>, x: nat)
    requires Holds(h, n, s) && n >= 1 && x !in s
    ensures Holds(h[1 := x], n, s - {h[1]} + {x})
  {
    var h', m := h[1 := x], h[1];
    assert h[1..n + 1] == [m] + h[2..n + 1];
    assert h'[1..n + 1] == [x] + h[2..n + 1];
    assert multiset(s - {m} + {x}) == multiset(s) - multiset{m} + multiset{x};
    HoldsIntro(h', n, s - {m} + {x});
  }

  lemma FrontReplaced(h: seq<nat>, h': seq<nat>, w: seq<int>, w': seq<int>, n: nat, s: set<int>, x: nat)
    requires Names(h, w, n) && HeapFrom(h, w, n, 1) && Holds(h, n, s) && n >= 1
    requires x !in s && x < |w| == |w'| && (forall y :: 0 <= y < |w| && y != x ==> w'[y] == w[y]) && h' == h[1 := x]
    ensures Names(h', w', n) && Sinking(h', w', n, 1, 1)
  {
    forall i | 2 <= i <= n && i / 2 >= 1 && i / 2 != 1 ensures Le(h', w', n, i) {
      assert Le(h, w, n, i);
    }
  }

  /** The new node takes the place of its second son, and sinks. */
  method PqReplace(heap: array<nat>, freq: array<nat>, depth: array<nat>, n: nat, x: nat,
                   ghost w: seq<int>, ghost w': seq<int>, ghost s: set<int>)
    requires heap != freq && heap != depth && freq.Length == depth.Length
    requires (forall y :: 0 <= y < depth.Length ==> depth[y] < 256) && w' == Keys(freq[..], depth[..])
    requires n >= 1 && Names(heap[..], w, n) && HeapFrom(heap[..], w, n, 1) && Holds(heap[..], n, s)
    requires x !in s && x < |w| == |w'| && (forall y :: 0 <= y < |w| && y != x ==> w'[y] == w[y])
    modifies heap
    ensures Names(heap[..], w', n) && HeapFrom(heap[..], w', n, 1)
    ensures Holds(heap[..], n, s - {old(heap[1])} + {x})
    ensures forall i :: n < i < heap.Length ==> heap[i] == old(heap[i])
  {
    hide Rearranged, Sinking, HeapFrom, Holds, Keys, Key;
    ghost var h := heap[..];
    HoldsReplace(h, n, s, x);
    FrontReplaced(h, h[1 := x], w, w', n, s, x);
    heap[1] := x;
    ghost var h1 := heap[..];
    assert h1 == h[1 := x];
    PqDownHeap(heap, freq, depth, n, 1, w');
    HoldsRearranged(h1, heap[..], n, s - {h[1]} + {x});
    Untouched(h1, heap[..], n);
  }

  lemma SubHeap(h: seq<nat>, w: seq<int>, n: nat, k: nat)
    requires Names(h, w, n) && 1 <= k && 2 * k <= n
    requires HeapFrom(h, w, n, k + 1)
    ensures Sinking(h, w, n, k, k)
  {
  }

  /** Establish sub-heaps of increasing lengths. */
  method Heapify(heap: array<nat>, freq: array<nat>, depth: array<nat>, n: nat, ghost w: seq<int>, ghost s: set<int>)
    requires heap != freq && heap != depth && freq.Length == depth.Length
    requires (forall x :: 0 <= x < depth.Length ==> depth[x] < 256) && w == Keys(freq[..], depth[..])
    requires Names(heap[..], w, n) && Holds(heap[..], n, s)
    modifies heap
    ensures Names(heap[..], w, n) && HeapFrom(heap[..], w, n, 1) && Holds(heap[..], n, s)
    ensures forall i :: n < i < heap.Length ==> heap[i] == old(heap[i])
  {
    hide Rearranged, Sinking, Holds, Keys, Key;
    var k := n / 2;
    assert HeapFrom(heap[..], w, n, k + 1);
    while k >= 1
      invariant 0 <= k <= n / 2 && Names(heap[..], w, n) && HeapFrom(heap[..], w, n, k + 1) && Holds(heap[..], n, s)
      invariant forall i :: n < i < heap.Length ==> heap[i] == old(heap[i])
    {
      ghost var h := heap[..];
      SubHeap(h, w, n, k);
      PqDownHeap(heap, freq, depth, n, k, w);
      HoldsRearranged(h, heap[..], n, s);
      Untouched(h, heap[..], n);
      k := k - 1;
    }
  }
}
