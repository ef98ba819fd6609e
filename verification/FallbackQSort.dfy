/**
 The fallback sorter's bucket sort (blocksort.c): a three-way quicksort with an explicit stack
 over an index map fmap, ordering the indices by their equivalence class eclass.
 */
module FallbackQSort {
  import Permutations
  import opened Powers

  const SMALL_THRESH := 10
  const STACK_SIZE := 100

  /** Every entry of f is a valid index into the classes e. */
  predicate Keyed(f: seq<int>, e: seq<int>) {
    forall k :: 0 <= k < |f| ==> 0 <= f[k] < |e|
  }

  /** f' is f with the entries lo..hi permuted and nothing else changed. */
  predicate Reordered(f: seq<int>, f': seq<int>, lo: int, hi: int)
    ensures Reordered(f, f', lo, hi) ==> |f| == |f'|
  {
    && |f| == |f'|
    && multiset(f) == multiset(f')
    && forall k :: 0 <= k < |f| && !(lo <= k <= hi) ==> f'[k] == f[k]
  }

  predicate SortedSeg(f: seq<int>, e: seq<int>, lo: int, hi: int)
    requires Keyed(f, e) && 0 <= lo && hi < |f|
  {
    forall a, b :: lo <= a < b <= hi ==> e[f[a]] <= e[f[b]]
  }

  lemma KeyedAt(f: seq<int>, e: seq<int>, k: int)
    requires Keyed(f, e) && 0 <= k < |f|
    ensures 0 <= f[k] < |e|
  {
  }

  lemma ReorderedTrans(f: seq<int>, g: seq<int>, h: seq<int>, lo: int, hi: int, lo': int, hi': int)
    requires Reordered(f, g, lo, hi) && Reordered(g, h, lo', hi') && lo <= lo' && hi' <= hi
    ensures Reordered(f, h, lo, hi)
  {
  }

  /** Each entry of a reordered segment was an entry of that segment before. */
  lemma ReorderedSource(f: seq<int>, f': seq<int>, lo: int, hi: int, a: int) returns (a': int)
    requires Reordered(f, f', lo, hi) && 0 <= lo <= a <= hi < |f|
    ensures lo <= a' <= hi && f[a'] == f'[a]
  {
    var p, q, r := f[..lo], f[lo..hi + 1], f[hi + 1..];
    var q' := f'[lo..hi + 1];
    assert f'[..lo] == p && f'[hi + 1..] == r;
    assert f == p + q + r && f' == p + q' + r;
    assert multiset(f) == multiset(p) + multiset(q) + multiset(r);
    assert multiset(f') == multiset(p) + multiset(q') + multiset(r);
    Permutations.Cancel(multiset(p), multiset(q), multiset(q'), multiset(r));
    assert q'[a - lo] in multiset(q');
    assert q'[a - lo] in q;
    var k :| 0 <= k < |q| && q[k] == q'[a - lo];
    a' := lo + k;
  }

  /** Segment i..hi of f is sorted if the entry at h is left out, and what precedes h is smaller. */
  ghost predicate SortedBut(f: seq<int>, e: seq<int>, i: int, hi: int, h: int)
    requires Keyed(f, e) && 0 <= i <= h <= hi < |f|
  {
    && (forall a, b :: i <= a < b <= hi && a != h && b != h ==> e[f[a]] <= e[f[b]])
    && (forall a :: i <= a < h ==> e[f[a]] < e[f[h]])
  }

  lemma SwapReorders(f: seq<int>, e: seq<int>, a: nat, b: nat)
    requires Keyed(f, e) && a <= b < |f|
    ensures Reordered(f, f[a := f[b]][b := f[a]], a, b)
    ensures Keyed(f[a := f[b]][b := f[a]], e)
  {
  }

  lemma SortedButStep(f: seq<int>, f': seq<int>, e: seq<int>, i: int, hi: int, h: int)
    requires Keyed(f, e) && Keyed(f', e) && 0 <= i <= h < hi < |f|
    requires SortedBut(f, e, i, hi, h) && e[f[h + 1]] < e[f[h]]
    requires f' == f[h := f[h + 1]][h + 1 := f[h]]
    ensures SortedBut(f', e, i, hi, h + 1)
  {
    forall a, b | i <= a < b <= hi && a != h + 1 && b != h + 1 ensures e[f'[a]] <= e[f'[b]] {
      var a0, b0 := if a == h then h + 1 else a, if b == h then h + 1 else b;
      assert f'[a] == f[a0] && f'[b] == f[b0];
    }
    forall a | i <= a < h + 1 ensures e[f'[a]] < e[f'[h + 1]] {
      assert f'[a] == f[if a == h then h + 1 else a];
    }
  }

  lemma SortedButDone(f: seq<int>, e: seq<int>, i: int, hi: int, h: int)
    requires Keyed(f, e) && 0 <= i <= h <= hi < |f|
    requires SortedBut(f, e, i, hi, h) && (h < hi ==> e[f[h]] <= e[f[h + 1]])
    ensures SortedSeg(f, e, i, hi)
  {
    forall b | h < b <= hi ensures e[f[h]] <= e[f[b]] {
      assert b == h + 1 || e[f[h + 1]] <= e[f[b]];
    }
  }

  /**
   A sinking pass seen as exchanges: v is the original f0 with the sinking entry moved to h;
   when the rest was sorted it still is.
   */
  ghost predicate Sinking(f0: seq<int>, v: seq<int>, e: seq<int>, i: int, hi: int, h: int, insertion: bool)
    requires 0 <= i <= h <= hi < |f0|
    ensures Sinking(f0, v, e, i, hi, h, insertion) ==> |v| == |f0| && Keyed(v, e) && v[h] == f0[i]
  {
    Reordered(f0, v, i, hi) && Keyed(v, e) && v[h] == f0[i] && (insertion ==> SortedBut(v, e, i, hi, h))
  }

  lemma SinkStart(f0: seq<int>, e: seq<int>, i: int, hi: int, insertion: bool)
    requires 0 <= i <= hi < |f0| && Keyed(f0, e) && (insertion ==> SortedSeg(f0, e, i + 1, hi))
    ensures Sinking(f0, f0, e, i, hi, i, insertion)
  {
  }

  lemma SinkDone(f0: seq<int>, v: seq<int>, e: seq<int>, i: int, hi: int, h: int, insertion: bool)
    requires 0 <= i <= h <= hi < |f0| && Sinking(f0, v, e, i, hi, h, insertion)
    requires insertion && h < hi ==> e[v[h]] <= e[v[h + 1]]
    ensures Reordered(f0, v, i, hi)
    ensures insertion ==> SortedSeg(v, e, i, hi)
  {
    if insertion { SortedButDone(v, e, i, hi, h); }
  }

  lemma SinkStep(f0: seq<int>, v: seq<int>, v': seq<int>, e: seq<int>, i: int, hi: int, h: int, g: int, insertion: bool)
    requires 0 <= i <= h && h + g <= hi < |f0| && g > 0 && (insertion ==> g == 1)
    requires Sinking(f0, v, e, i, hi, h, insertion) && e[v[h + g]] < e[v[h]]
    requires v' == v[h := v[h + g]][h + g := v[h]]
    ensures Sinking(f0, v', e, i, hi, h + g, insertion)
  {
    hide Reordered, SortedBut;
    SwapReorders(v, e, h, h + g);
    ReorderedTrans(f0, v, v', i, hi, h, h + g);
    if insertion {
      SortedButStep(v, v', e, i, hi, h);
    }
  }

  /** f is v except at the hole z. */
  predicate ButHole(f: seq<int>, v: seq<int>, z: int) {
    |f| == |v| && forall k :: 0 <= k < |f| && k != z ==> f[k] == v[k]
  }

  /** The entry at j moves down into the hole at z. */
  method MoveBack(fmap: array<int>, ghost e: seq<int>, ghost f0: seq<int>, ghost v: seq<int>, ghost i: int,
                  ghost hi: int,
                  z: int, j: int, ghost insertion: bool) returns (ghost v': seq<int>)
    requires 0 <= i <= z < j <= hi < |f0| == fmap.Length && Sinking(f0, v, e, i, hi, z, insertion)
    requires insertion ==> j == z + 1
    requires ButHole(fmap[..], v, z) && e[v[j]] < e[v[z]]
    modifies fmap
    ensures Sinking(f0, v', e, i, hi, j, insertion) && ButHole(fmap[..], v', j)
    ensures forall next :: j < next <= hi ==> fmap[next] == v'[next] && 0 <= v'[next] < |e|
  {
    hide Sinking, SortedSeg, Reordered;
    v' := v[z := v[j]][j := v[z]];
    SinkStep(f0, v, v', e, i, hi, z, j - z, insertion);
    fmap[z] := fmap[j];
  }

  lemma HoleStart(f: seq<int>, z: int)
    ensures ButHole(f, f, z)
  {
  }

  lemma HoleFilled(f: seq<int>, v: seq<int>, z: int, x: int)
    requires ButHole(f, v, z) && 0 <= z < |v| && v[z] == x
    ensures |f| == |v| && f[z := x] == v
  {
  }

  /** The sinking entry fills the hole it has come to. */
  method PutDown(fmap: array<int>, ghost e: seq<int>, ghost f0: seq<int>, ghost v: seq<int>, ghost i: int,
                 ghost hi: int,
                 z: int, x: int, ghost insertion: bool)
    requires 0 <= i <= z <= hi < |f0| == fmap.Length && x == f0[i] && Sinking(f0, v, e, i, hi, z, insertion)
    requires ButHole(fmap[..], v, z) && (insertion && z < hi ==> e[v[z]] <= e[v[z + 1]])
    modifies fmap
    ensures Reordered(f0, fmap[..], i, hi) && Keyed(fmap[..], e) && (insertion ==> SortedSeg(fmap[..], e, i, hi))
  {
    hide Sinking, SortedSeg, Reordered, ButHole, Keyed;
    HoleFilled(fmap[..], v, z, x);
    fmap[z] := x;
    assert fmap[..] == v;
    SinkDone(f0, v, e, i, hi, z, insertion);
  }

  /** Sink the entry at i towards hi in steps of g, moving smaller-keyed entries down. */
  method Sink(fmap: array<int>, eclass: array<int>, i: int, hi: int, g: int)
    requires fmap != eclass && Keyed(fmap[..], eclass[..])
    requires 0 <= i && i + g <= hi < fmap.Length && g > 0
    modifies fmap
    ensures Reordered(old(fmap[..]), fmap[..], i, hi) && Keyed(fmap[..], eclass[..])
    ensures g == 1 && old(SortedSeg(fmap[..], eclass[..], i + 1, hi)) ==> SortedSeg(fmap[..], eclass[..], i, hi)
  {
    hide Sinking, SortedSeg, Reordered, ButHole, Keyed;
    ghost var e, f0 := eclass[..], fmap[..];
    ghost var insertion := g == 1 && SortedSeg(f0, e, i + 1, hi);
    KeyedAt(f0, e, i);
    var tmp := fmap[i];
    var ecTmp := eclass[tmp];
    var j := i + g;
    ghost var v := f0;
    SinkStart(f0, e, i, hi, insertion);
    HoleStart(f0, i);
    KeyedAt(f0, e, j);
    while j <= hi && ecTmp > eclass[fmap[j]]
      invariant i + g <= j <= hi + g
      invariant Sinking(f0, v, e, i, hi, j - g, insertion)
      invariant ButHole(fmap[..], v, j - g)
      invariant |v| == fmap.Length && (j <= hi ==> fmap[j] == v[j] && 0 <= v[j] < |e|)
    {
      v := MoveBack(fmap, e, f0, v, i, hi, j - g, j, insertion);
      j := j + g;
    }
    PutDown(fmap, e, f0, v, i, hi, j - g, tmp, insertion);
  }

  /** fallbackSimpleSort: a stride-4 insertion pass, then a plain one. */
  method SimpleSort(fmap: array<int>, eclass: array<int>, lo: int, hi: int)
    requires fmap != eclass && Keyed(fmap[..], eclass[..])
    requires 0 <= lo <= hi + 1 && hi < fmap.Length
    modifies fmap
    ensures Reordered(old(fmap[..]), fmap[..], lo, hi) && Keyed(fmap[..], eclass[..])
    ensures SortedSeg(fmap[..], eclass[..], lo, hi)
  {
    if lo == hi { return; }
    ghost var f0 := fmap[..];
    if hi - lo > 3 {
      var i := hi - 4;
      while i >= lo
        invariant lo - 1 <= i <= hi - 4
        invariant Reordered(f0, fmap[..], lo, hi) && Keyed(fmap[..], eclass[..])
      {
        ghost var s := fmap[..];
        Sink(fmap, eclass, i, hi, 4);
        ReorderedTrans(f0, s, fmap[..], lo, hi, i, hi);
        i := i - 1;
      }
    }
    var i := hi - 1;
    while i >= lo
      invariant lo - 1 <= i <= hi - 1 || (lo == hi + 1 && i == hi - 1)
      invariant Reordered(f0, fmap[..], lo, hi) && Keyed(fmap[..], eclass[..])
      invariant i >= -1 ==> SortedSeg(fmap[..], eclass[..], i + 1, hi)
    {
      ghost var s := fmap[..];
      Sink(fmap, eclass, i, hi, 1);
      ReorderedTrans(f0, s, fmap[..], lo, hi, i, hi);
      i := i - 1;
    }
  }

  /**
   The partition's regions: equal to med in lo..lt-1 and gt+1..hi, below it in lt..ul-1,
   above it in uh+1..gt, and ul..uh not looked at yet.  Either an equal entry has been put
   aside or the pivot still waits at w.
   */
  ghost predicate Regions(f: seq<int>, e: seq<int>, med: int,
                          lo: int, lt: int, ul: int, uh: int, gt: int, hi: int, w: int)
    ensures Regions(f, e, med, lo, lt, ul, uh, gt, hi, w) ==>
      Keyed(f, e) && 0 <= lo <= lt <= ul <= uh + 1 && uh <= gt <= hi < |f|
    ensures Regions(f, e, med, lo, lt, ul, uh, gt, hi, w) && ul == uh + 1 ==> lo < lt || gt < hi
  {
    && Keyed(f, e) && 0 <= lo <= lt <= ul <= uh + 1 && uh <= gt <= hi < |f|
    && (forall k :: lo <= k < lt ==> e[f[k]] == med)
    && (forall k :: lt <= k < ul ==> e[f[k]] < med)
    && (forall k :: uh < k <= gt ==> e[f[k]] > med)
    && (forall k :: gt < k <= hi ==> e[f[k]] == med)
    && (lo < lt || gt < hi || (ul <= w <= uh && e[f[w]] == med))
  }

  method Swap(fmap: array<int>, ghost e: seq<int>, a: nat, b: nat)
    requires a <= b < fmap.Length && Keyed(fmap[..], e)
    modifies fmap
    ensures fmap[..] == old(fmap[..])[a := old(fmap[..])[b]][b := old(fmap[..])[a]]
    ensures Keyed(fmap[..], e) && Reordered(old(fmap[..]), fmap[..], a, b)
  {
    SwapReorders(fmap[..], e, a, b);
    fmap[a], fmap[b] := fmap[b], fmap[a];
    assert fmap[..] == old(fmap[..])[a := old(fmap[..])[b]][b := old(fmap[..])[a]];
  }

  /** The scan of fallbackQSort3 over lo..hi around the class med, found at index w. */
  method Partition(fmap: array<int>, eclass: array<int>, lo: int, hi: int, med: int, ghost w: int)
    returns (lt: int, ul: int, uh: int, gt: int)
    requires fmap != eclass && Keyed(fmap[..], eclass[..])
    requires 0 <= lo <= w <= hi < fmap.Length && eclass[fmap[w]] == med
    modifies fmap
    ensures Reordered(old(fmap[..]), fmap[..], lo, hi)
    ensures Regions(fmap[..], eclass[..], med, lo, lt, ul, uh, gt, hi, w) && ul == uh + 1
  {
    ghost var e, f0 := eclass[..], fmap[..];
    lt, ul, uh, gt := lo, lo, hi, hi;
    assert Regions(f0, e, med, lo, lt, ul, uh, gt, hi, w);
    hide Regions, Reordered, Keyed;
    ReorderedRefl(f0, lo, hi);
    while true
      invariant Regions(fmap[..], e, med, lo, lt, ul, uh, gt, hi, w)
      invariant Reordered(f0, fmap[..], lo, hi)
      decreases uh + 1 - ul
    {
      lt, ul := ScanLow(fmap, eclass, lo, lt, ul, uh, gt, hi, med, w, f0);
      uh, gt := ScanHigh(fmap, eclass, lo, lt, ul, uh, gt, hi, med, w, f0);
      if ul > uh { break; }
      ghost var f := fmap[..];
      Swap(fmap, e, ul, uh);
      ReorderedTrans(f0, f, fmap[..], lo, hi, ul, uh);
      RegionsExchange(f, fmap[..], e, med, lo, lt, ul, uh, gt, hi, w);
      ul, uh := ul + 1, uh - 1;
    }
  }

  lemma ReorderedRefl(f: seq<int>, lo: int, hi: int)
    ensures Reordered(f, f, lo, hi)
  {
  }

  lemma RegionsExchange(f: seq<int>, f': seq<int>, e: seq<int>, med: int,
                        lo: int, lt: int, ul: int, uh: int, gt: int, hi: int, w: int)
    requires Regions(f, e, med, lo, lt, ul, uh, gt, hi, w) && ul <= uh
    requires e[f[ul]] > med && e[f[uh]] < med
    requires f' == f[ul := f[uh]][uh := f[ul]]
    ensures Regions(f', e, med, lo, lt, ul + 1, uh - 1, gt, hi, w)
  {
  }

  lemma RegionsLow(f: seq<int>, f': seq<int>, e: seq<int>, med: int,
                   lo: int, lt: int, ul: int, uh: int, gt: int, hi: int, w: int)
    requires Regions(f, e, med, lo, lt, ul, uh, gt, hi, w) && ul <= uh && e[f[ul]] <= med
    requires f' == if e[f[ul]] == med then f[lt := f[ul]][ul := f[lt]] else f
    ensures Regions(f', e, med, lo, if e[f[ul]] == med then lt + 1 else lt, ul + 1, uh, gt, hi, w)
  {
    hide Regions, Keyed;
    KeyedAt(f, e, ul);
    if e[f[ul]] == med {
      RegionsEqualLow(f, f', e, med, lo, lt, ul, uh, gt, hi, w);
    } else {
      RegionsMoreBelow(f, e, med, lo, lt, ul, uh, gt, hi, w);
    }
  }

  lemma RegionsEqualLow(f: seq<int>, f': seq<int>, e: seq<int>, med: int,
                        lo: int, lt: int, ul: int, uh: int, gt: int, hi: int, w: int)
    requires Regions(f, e, med, lo, lt, ul, uh, gt, hi, w) && ul <= uh && e[f[ul]] == med
    requires f' == f[lt := f[ul]][ul := f[lt]]
    ensures Regions(f', e, med, lo, lt + 1, ul + 1, uh, gt, hi, w)
  {
    forall k | 0 <= k < |f| ensures f'[k] == if k == ul then f[lt] else if k == lt then f[ul] else f[k] {
    }
  }

  lemma RegionsHigh(f: seq<int>, f': seq<int>, e: seq<int>, med: int,
                    lo: int, lt: int, ul: int, uh: int, gt: int, hi: int, w: int)
    requires Regions(f, e, med, lo, lt, ul, uh, gt, hi, w) && ul <= uh && e[f[uh]] >= med
    requires f' == if e[f[uh]] == med then f[uh := f[gt]][gt := f[uh]] else f
    ensures Regions(f', e, med, lo, lt, ul, uh - 1, if e[f[uh]] == med then gt - 1 else gt, hi, w)
    ensures ul < uh ==> f'[ul] == f[ul]
  {
    hide Regions, Keyed;
    KeyedAt(f, e, uh);
    if e[f[uh]] == med {
      RegionsEqual(f, f', e, med, lo, lt, ul, uh, gt, hi, w);
    } else {
      RegionsMoreAbove(f, e, med, lo, lt, ul, uh, gt, hi, w);
    }
  }

  lemma RegionsMoreAbove(f: seq<int>, e: seq<int>, med: int, lo: int, lt: int, ul: int, uh: int, gt: int, hi: int,
                         w: int)
    requires Regions(f, e, med, lo, lt, ul, uh, gt, hi, w) && ul <= uh && e[f[uh]] > med
    ensures Regions(f, e, med, lo, lt, ul, uh - 1, gt, hi, w)
  {
  }

  lemma RegionsMoreBelow(f: seq<int>, e: seq<int>, med: int, lo: int, lt: int, ul: int, uh: int, gt: int, hi: int,
                         w: int)
    requires Regions(f, e, med, lo, lt, ul, uh, gt, hi, w) && ul <= uh && e[f[ul]] < med
    ensures Regions(f, e, med, lo, lt, ul + 1, uh, gt, hi, w)
  {
  }

  lemma RegionsEqual(f: seq<int>, f': seq<int>, e: seq<int>, med: int,
                     lo: int, lt: int, ul: int, uh: int, gt: int, hi: int, w: int)
    requires Regions(f, e, med, lo, lt, ul, uh, gt, hi, w) && ul <= uh && e[f[uh]] == med
    requires f' == f[uh := f[gt]][gt := f[uh]]
    ensures Regions(f', e, med, lo, lt, ul, uh - 1, gt - 1, hi, w)
    ensures ul < uh ==> f'[ul] == f[ul]
  {
    forall k | 0 <= k < |f| ensures f'[k] == if k == gt then f[uh] else if k == uh then f[gt] else f[k] {
    }
  }

  /** An entry equal to the pivot joins those at the low end. */
  method EqualLow(fmap: array<int>, ghost e: seq<int>, ghost lo: int, lt: int, ul: int, ghost uh: int, ghost gt: int,
                  ghost hi: int, ghost med: int, ghost w: int, ghost f0: seq<int>)
    requires Regions(fmap[..], e, med, lo, lt, ul, uh, gt, hi, w) && ul <= uh && e[fmap[ul]] == med
    requires Reordered(f0, fmap[..], lo, hi)
    modifies fmap
    ensures Regions(fmap[..], e, med, lo, lt + 1, ul + 1, uh, gt, hi, w) && Reordered(f0, fmap[..], lo, hi)
  {
    hide Regions, Reordered, Keyed;
    ghost var f := fmap[..];
    Swap(fmap, e, lt, ul);
    ReorderedTrans(f0, f, fmap[..], lo, hi, lt, ul);
    RegionsLow(f, fmap[..], e, med, lo, lt, ul, uh, gt, hi, w);
  }

  /** And at the high end. */
  method EqualHigh(fmap: array<int>, ghost e: seq<int>, ghost lo: int, ghost lt: int, ghost ul: int, uh: int, gt: int,
                   ghost hi: int, ghost med: int, ghost w: int, ghost f0: seq<int>)
    requires Regions(fmap[..], e, med, lo, lt, ul, uh, gt, hi, w) && ul <= uh && e[fmap[uh]] == med
    requires Reordered(f0, fmap[..], lo, hi)
    modifies fmap
    ensures Regions(fmap[..], e, med, lo, lt, ul, uh - 1, gt - 1, hi, w) && Reordered(f0, fmap[..], lo, hi)
    ensures ul < uh ==> fmap[ul] == old(fmap[ul])
  {
    hide Regions, Reordered, Keyed;
    ghost var f := fmap[..];
    Swap(fmap, e, uh, gt);
    ReorderedTrans(f0, f, fmap[..], lo, hi, uh, gt);
    RegionsHigh(f, fmap[..], e, med, lo, lt, ul, uh, gt, hi, w);
  }

  method ScanLow(fmap: array<int>, eclass: array<int>, lo: int, lt0: int, ul0: int, uh: int, gt: int, hi: int,
                 med: int, ghost w: int, ghost f0: seq<int>)
    returns (lt: int, ul: int)
    requires fmap != eclass
    requires Regions(fmap[..], eclass[..], med, lo, lt0, ul0, uh, gt, hi, w)
    requires Reordered(f0, fmap[..], lo, hi)
    modifies fmap
    ensures Regions(fmap[..], eclass[..], med, lo, lt, ul, uh, gt, hi, w)
    ensures Reordered(f0, fmap[..], lo, hi)
    ensures ul0 <= ul && (ul <= uh ==> eclass[fmap[ul]] > med)
  {
    hide Regions, Reordered, Keyed;
    ghost var e := eclass[..];
    lt, ul := lt0, ul0;
    while true
      invariant Regions(fmap[..], e, med, lo, lt, ul, uh, gt, hi, w)
      invariant Reordered(f0, fmap[..], lo, hi)
      invariant ul0 <= ul
      decreases uh + 1 - ul
    {
      if ul > uh { break; }
      KeyedAt(fmap[..], e, ul);
      var n := eclass[fmap[ul]] - med;
      if n == 0 {
        EqualLow(fmap, e, lo, lt, ul, uh, gt, hi, med, w, f0);
        lt, ul := lt + 1, ul + 1;
        continue;
      }
      if n > 0 { break; }
      RegionsLow(fmap[..], fmap[..], e, med, lo, lt, ul, uh, gt, hi, w);
      ul := ul + 1;
    }
  }

  method ScanHigh(fmap: array<int>, eclass: array<int>, lo: int, lt: int, ul: int, uh0: int, gt0: int, hi: int,
                  med: int, ghost w: int, ghost f0: seq<int>)
    returns (uh: int, gt: int)
    requires fmap != eclass
    requires Regions(fmap[..], eclass[..], med, lo, lt, ul, uh0, gt0, hi, w)
    requires Reordered(f0, fmap[..], lo, hi)
    requires ul <= uh0 ==> eclass[fmap[ul]] > med
    modifies fmap
    ensures Regions(fmap[..], eclass[..], med, lo, lt, ul, uh, gt, hi, w)
    ensures Reordered(f0, fmap[..], lo, hi)
    ensures uh <= uh0 && (ul <= uh ==> eclass[fmap[uh]] < med && eclass[fmap[ul]] > med)
  {
    hide Regions, Reordered, Keyed;
    ghost var e := eclass[..];
    ghost var x := if ul <= uh0 then fmap[ul] else 0;
    uh, gt := uh0, gt0;
    while true
      invariant Regions(fmap[..], e, med, lo, lt, ul, uh, gt, hi, w)
      invariant Reordered(f0, fmap[..], lo, hi)
      invariant uh <= uh0 && (ul <= uh ==> x == fmap[..][ul])
      decreases uh + 1 - ul
    {
      if ul > uh { break; }
      KeyedAt(fmap[..], e, uh);
      var n := eclass[fmap[uh]] - med;
      if n == 0 {
        EqualHigh(fmap, e, lo, lt, ul, uh, gt, hi, med, w, f0);
        gt, uh := gt - 1, uh - 1;
        continue;
      }
      if n < 0 { break; }
      RegionsHigh(fmap[..], fmap[..], e, med, lo, lt, ul, uh, gt, hi, w);
      uh := uh - 1;
    }
  }

  /** f' is f with the runs of n entries at p and at q exchanged. */
  predicate RunsSwapped(f: seq<int>, f': seq<int>, p: int, q: int, n: int)
    requires 0 <= p && p + n <= q && q + n <= |f| && |f'| == |f| && 0 <= n
  {
    && (forall k :: p <= k < p + n ==> f'[k] == f[k + (q - p)])
    && (forall k :: q <= k < q + n ==> f'[k] == f[k - (q - p)])
    && (forall k :: 0 <= k < |f| && !(p <= k < p + n) && !(q <= k < q + n) ==> f'[k] == f[k])
  }

  lemma RunsStep(f0: seq<int>, f: seq<int>, f': seq<int>, p: int, q: int, n: int)
    requires 0 <= p && 0 <= n && p + n < q && q + n < |f0| && |f0| == |f|
    requires RunsSwapped(f0, f, p, q, n) && f' == f[p + n := f[q + n]][q + n := f[p + n]]
    ensures RunsSwapped(f0, f', p, q, n + 1)
  {
  }

  /** fvswap: exchange two runs entry by entry. */
  method SwapRuns(fmap: array<int>, ghost e: seq<int>, p: int, q: int, n: int, ghost lo: int, ghost hi: int)
    requires Keyed(fmap[..], e) && 0 <= n
    requires 0 <= lo <= p && p + n <= q && q + n <= hi + 1 <= fmap.Length
    modifies fmap
    ensures Keyed(fmap[..], e) && Reordered(old(fmap[..]), fmap[..], lo, hi)
    ensures RunsSwapped(old(fmap[..]), fmap[..], p, q, n)
  {
    ghost var f0 := fmap[..];
    ReorderedRefl(f0, lo, hi);
    assert RunsSwapped(f0, f0, p, q, 0);
    hide Reordered, RunsSwapped, Keyed;
    var yyp1, yyp2, yyn := p, q, n;
    while yyn > 0
      invariant 0 <= yyn <= n && yyp1 == p + (n - yyn) && yyp2 == q + (n - yyn)
      invariant Keyed(fmap[..], e) && Reordered(f0, fmap[..], lo, hi)
      invariant RunsSwapped(f0, fmap[..], p, q, n - yyn)
    {
      ghost var f := fmap[..];
      Swap(fmap, e, yyp1, yyp2);
      ReorderedTrans(f0, f, fmap[..], lo, hi, yyp1, yyp2);
      RunsStep(f0, f, fmap[..], p, q, n - yyn);
      yyp1, yyp2, yyn := yyp1 + 1, yyp2 + 1, yyn - 1;
    }
  }

  /** lo..n below med, n+1..m-1 equal to it, m..hi above it. */
  predicate ThreeWay(f: seq<int>, e: seq<int>, med: int, lo: int, n: int, m: int, hi: int)
    requires Keyed(f, e)
    ensures ThreeWay(f, e, med, lo, n, m, hi) ==> 0 <= lo <= n + 1 < m <= hi + 1 <= |f|
  {
    && 0 <= lo <= n + 1 < m <= hi + 1 <= |f|
    && (forall k :: lo <= k <= n ==> e[f[k]] < med)
    && (forall k :: n < k < m ==> e[f[k]] == med)
    && (forall k :: m <= k <= hi ==> e[f[k]] > med)
  }

  lemma SwapLow(f: seq<int>, f': seq<int>, e: seq<int>, med: int,
                lo: int, lt: int, ul: int, uh: int, gt: int, hi: int, w: int, n: int)
    requires Regions(f, e, med, lo, lt, ul, uh, gt, hi, w) && ul == uh + 1
    requires n == if lt - lo < ul - lt then lt - lo else ul - lt
    requires |f'| == |f| && RunsSwapped(f, f', lo, ul - n, n)
    ensures forall k :: lo <= k < lo + ul - lt ==> 0 <= f'[k] < |e| && e[f'[k]] < med
    ensures forall k :: lo + ul - lt <= k < ul ==> 0 <= f'[k] < |e| && e[f'[k]] == med
    ensures forall k :: ul <= k <= hi ==> f'[k] == f[k]
  {
    forall k | lo <= k < ul
      ensures 0 <= f'[k] < |e| && (if k < lo + ul - lt then e[f'[k]] < med else e[f'[k]] == med)
    {
      var d := ul - n - lo;
      var k0 := if k < lo + n then k + d else if ul - n <= k then k - d else k;
      assert f'[k] == f[k0];
    }
  }

  lemma SwapHigh(f: seq<int>, f': seq<int>, e: seq<int>, med: int, ul: int, gt: int, hi: int, m: int)
    requires Keyed(f, e) && 0 <= ul <= gt + 1 && gt <= hi < |f|
    requires forall k :: ul <= k <= gt ==> e[f[k]] > med
    requires forall k :: gt < k <= hi ==> e[f[k]] == med
    requires m == if hi - gt < gt - ul + 1 then hi - gt else gt - ul + 1
    requires |f'| == |f| && RunsSwapped(f, f', ul, hi - m + 1, m)
    ensures forall k :: ul <= k < ul + (hi - gt) ==> 0 <= f'[k] < |e| && e[f'[k]] == med
    ensures forall k :: ul + (hi - gt) <= k <= hi ==> 0 <= f'[k] < |e| && e[f'[k]] > med
    ensures forall k :: 0 <= k < ul ==> f'[k] == f[k]
  {
    forall k | ul <= k <= hi
      ensures 0 <= f'[k] < |e| && (if k < ul + (hi - gt) then e[f'[k]] == med else e[f'[k]] > med)
    {
      var d := hi - m + 1 - ul;
      var k0 := if k < ul + m then k + d else if hi - m + 1 <= k then k - d else k;
      assert f'[k] == f[k0];
    }
  }

  /** The two run exchanges that bring the equal entries to the middle. */
  method Gather(fmap: array<int>, ghost e: seq<int>, ghost med: int,
                lo: int, lt: int, ul: int, uh: int, gt: int, hi: int, ghost w: int)
    returns (n: int, m: int)
    requires Regions(fmap[..], e, med, lo, lt, ul, uh, gt, hi, w) && ul == uh + 1
    modifies fmap
    ensures Keyed(fmap[..], e) && Reordered(old(fmap[..]), fmap[..], lo, hi)
    ensures ThreeWay(fmap[..], e, med, lo, n, m, hi)
  {
    hide Reordered, Regions, RunsSwapped, ThreeWay, Keyed;
    ghost var f1 := fmap[..];
    n := if lt - lo < ul - lt then lt - lo else ul - lt;
    SwapRuns(fmap, e, lo, ul - n, n, lo, hi);
    ghost var f2 := fmap[..];
    m := if hi - gt < gt - uh then hi - gt else gt - uh;
    SwapRuns(fmap, e, ul, hi - m + 1, m, lo, hi);
    SwapBoth(f1, f2, fmap[..], e, med, lo, lt, ul, uh, gt, hi, w, n, m);
    ReorderedTrans(f1, f2, fmap[..], lo, hi, lo, hi);
    n := lo + ul - lt - 1;
    m := hi - (gt - uh) + 1;
  }

  /** One quicksort step: split lo..hi into below, equal and above, or find it all equal. */
  method Split(fmap: array<int>, eclass: array<int>, lo: int, hi: int, med: int, ghost w: int)
    returns (allEqual: bool, n: int, m: int)
    requires fmap != eclass && Keyed(fmap[..], eclass[..])
    requires 0 <= lo <= w <= hi < fmap.Length && eclass[fmap[w]] == med
    modifies fmap
    ensures Keyed(fmap[..], eclass[..]) && Reordered(old(fmap[..]), fmap[..], lo, hi)
    ensures allEqual ==> SortedSeg(fmap[..], eclass[..], lo, hi)
    ensures !allEqual ==> ThreeWay(fmap[..], eclass[..], med, lo, n, m, hi)
  {
    hide Reordered, Regions, ThreeWay, SortedSeg, Keyed;
    ghost var e, f0 := eclass[..], fmap[..];
    var lt, ul, uh, gt := Partition(fmap, eclass, lo, hi, med, w);
    ghost var f1 := fmap[..];
    allEqual, n, m := gt < lt, lo - 1, hi + 1;
    if allEqual {
      RegionsAllEqual(f1, e, med, lo, lt, ul, uh, gt, hi, w);
    } else {
      n, m := Gather(fmap, e, med, lo, lt, ul, uh, gt, hi, w);
      ReorderedTrans(f0, f1, fmap[..], lo, hi, lo, hi);
    }
  }

  /** The split around a pivot picked by the generator state r: first, middle or last entry. */
  method SplitRandom(fmap: array<int>, eclass: array<int>, lo: int, hi: int, r: nat)
    returns (allEqual: bool, med: int, n: int, m: int)
    requires fmap != eclass && Keyed(fmap[..], eclass[..])
    requires 0 <= lo <= hi < fmap.Length
    modifies fmap
    ensures Keyed(fmap[..], eclass[..]) && Reordered(old(fmap[..]), fmap[..], lo, hi)
    ensures allEqual ==> SortedSeg(fmap[..], eclass[..], lo, hi)
    ensures !allEqual ==> ThreeWay(fmap[..], eclass[..], med, lo, n, m, hi)
  {
    hide Reordered, ThreeWay, SortedSeg;
    var w := if r % 3 == 0 then lo else if r % 3 == 1 then (lo + hi) / 2 else hi;
    med := eclass[fmap[w]];
    allEqual, n, m := Split(fmap, eclass, lo, hi, med, w);
  }

  lemma RegionsAbove(f: seq<int>, e: seq<int>, med: int,
                     lo: int, lt: int, ul: int, uh: int, gt: int, hi: int, w: int)
    requires Regions(f, e, med, lo, lt, ul, uh, gt, hi, w) && ul == uh + 1
    ensures forall k :: ul <= k <= gt ==> e[f[k]] > med
    ensures forall k :: gt < k <= hi ==> e[f[k]] == med
  {
  }

  /** Both exchanges together bring the equal entries to the middle. */
  lemma SwapBoth(f1: seq<int>, f2: seq<int>, f3: seq<int>, e: seq<int>, med: int,
                 lo: int, lt: int, ul: int, uh: int, gt: int, hi: int, w: int, n: int, m: int)
    requires Regions(f1, e, med, lo, lt, ul, uh, gt, hi, w) && ul == uh + 1
    requires |f1| == |f2| == |f3| && Keyed(f2, e) && Keyed(f3, e)
    requires n == if lt - lo < ul - lt then lt - lo else ul - lt
    requires m == if hi - gt < gt - uh then hi - gt else gt - uh
    requires RunsSwapped(f1, f2, lo, ul - n, n) && RunsSwapped(f2, f3, ul, hi - m + 1, m)
    ensures ThreeWay(f3, e, med, lo, lo + ul - lt - 1, hi - (gt - uh) + 1, hi)
  {
    hide Regions, RunsSwapped;
    SwapLow(f1, f2, e, med, lo, lt, ul, uh, gt, hi, w, n);
    RegionsAbove(f1, e, med, lo, lt, ul, uh, gt, hi, w);
    SwapHigh(f2, f3, e, med, ul, gt, hi, m);
  }

  lemma RegionsAllEqual(f: seq<int>, e: seq<int>, med: int,
                        lo: int, lt: int, ul: int, uh: int, gt: int, hi: int, w: int)
    requires Regions(f, e, med, lo, lt, ul, uh, gt, hi, w) && ul == uh + 1 && gt < lt
    ensures SortedSeg(f, e, lo, hi)
  {
    forall k | lo <= k <= hi ensures e[f[k]] == med {
    }
  }

  /**
   The stack holds disjoint pending segments of loSt..hiSt; cls tells which one an index is in,
   -1 for none.  The segment at depth k has at most size / 2^k entries, because the larger part
   is always pushed first, and only segments of more than SMALL_THRESH entries are split.
   */
  ghost predicate Stack(los: seq<int>, his: seq<int>, cls: seq<int>, loSt: int, hiSt: int)
    ensures Stack(los, his, cls, loSt, hiSt) ==> |los| == |his| && 0 <= loSt <= hiSt + 1 <= |cls|
    ensures Stack(los, his, cls, loSt, hiSt) ==> forall k :: 0 <= k < |los| ==> loSt <= los[k] <= his[k] + 1 <= hiSt + 1
  {
    && |los| == |his| && 0 <= loSt <= hiSt + 1 <= |cls|
    && (forall k :: 0 <= k < |los| ==> loSt <= los[k] <= his[k] + 1 <= hiSt + 1)
    && (forall k :: 0 <= k < |los| ==> (his[k] - los[k] + 1) * Pow2(k) <= hiSt - loSt + 1)
    && (forall k, a :: 0 <= k < |los| && loSt <= a <= hiSt ==> (cls[a] == k <==> los[k] <= a <= his[k]))
    && (forall a :: loSt <= a <= hiSt ==> cls[a] < |los|)
    && (|los| >= 2 ==> (SMALL_THRESH + 1) * Pow2(|los| - 2) <= hiSt - loSt + 1)
  }

  /** Two indices not waiting in the same segment are already in order. */
  ghost predicate Ordered(f: seq<int>, e: seq<int>, cls: seq<int>, lo: int, hi: int)
    requires Keyed(f, e) && |cls| == |f| && 0 <= lo && hi < |f|
  {
    forall a, b :: lo <= a < b <= hi ==> (cls[a] == cls[b] && cls[a] >= 0) || e[f[a]] <= e[f[b]]
  }

  /** Segment lo..hi resolved into lo1..hi1 in class c, lo2..hi2 in class c + 1, the rest settled. */
  function Resolve(cls: seq<int>, lo: int, hi: int, c: int, lo1: int, hi1: int, lo2: int, hi2: int): (r: seq<int>)
    ensures |r| == |cls|
  {
    seq(|cls|, a requires 0 <= a < |cls| =>
      if lo1 <= a <= hi1 then c else if lo2 <= a <= hi2 then c + 1 else if lo <= a <= hi then -1 else cls[a])
  }

  lemma OrderedResolve(f: seq<int>, f': seq<int>, e: seq<int>, cls: seq<int>, cls': seq<int>,
                       loSt: int, hiSt: int, lo: int, hi: int, c: int)
    requires Keyed(f, e) && Keyed(f', e) && |cls| == |f| == |cls'| && Reordered(f, f', lo, hi)
    requires 0 <= loSt <= lo && hi <= hiSt < |f|
    requires Ordered(f, e, cls, loSt, hiSt)
    requires forall a :: loSt <= a <= hiSt ==> (cls[a] == c <==> lo <= a <= hi) && cls[a] <= c
    requires forall a :: loSt <= a <= hiSt && !(lo <= a <= hi) ==> cls'[a] == cls[a]
    requires forall a, b :: lo <= a < b <= hi ==> (cls'[a] == cls'[b] && cls'[a] >= 0) || e[f'[a]] <= e[f'[b]]
    ensures Ordered(f', e, cls', loSt, hiSt)
  {
    forall a, b | loSt <= a < b <= hiSt
      ensures (cls'[a] == cls'[b] && cls'[a] >= 0) || e[f'[a]] <= e[f'[b]]
    {
      if lo <= a <= hi < b {
        var a0 := ReorderedSource(f, f', lo, hi, a);
        assert cls[a0] != cls[b];
      } else if a < lo <= b <= hi {
        var b0 := ReorderedSource(f, f', lo, hi, b);
        assert cls[a] != cls[b0];
      }
    }
  }

  ghost function Work(los: seq<int>, his: seq<int>): (r: int)
    requires |los| == |his|
  {
    if |los| == 0 then 0
    else Work(los[..|los| - 1], his[..|los| - 1]) + 2 * (his[|los| - 1] - los[|los| - 1] + 1) + 1
  }

  lemma {:induction false} WorkNat(los: seq<int>, his: seq<int>)
    requires |los| == |his| && forall k :: 0 <= k < |los| ==> los[k] <= his[k] + 1
    ensures Work(los, his) >= 0
  {
    if |los| > 0 {
      WorkNat(los[..|los| - 1], his[..|los| - 1]);
    }
  }

  lemma WorkPush(los: seq<int>, his: seq<int>, lo: int, hi: int)
    requires |los| == |his|
    ensures Work(los + [lo], his + [hi]) == Work(los, his) + 2 * (hi - lo + 1) + 1
  {
    var l, h := los + [lo], his + [hi];
    assert l[..|l| - 1] == los && h[..|h| - 1] == his;
  }

  lemma Pow2Thirty()
    ensures Pow2(30) == 0x4000_0000
  {
    assert Pow2(10) == 0x400;
    assert Pow2(20) == 0x10_0000;
  }

  /** The AssertH of the pop: the stack never fills. */
  lemma StackBounded(los: seq<int>, his: seq<int>, cls: seq<int>, loSt: int, hiSt: int)
    requires Stack(los, his, cls, loSt, hiSt) && hiSt - loSt < 0x8000_0000
    ensures |los| <= 31
  {
    Pow2Thirty();
    if |los| > 31 {
      Pow2Mono(30, |los| - 2);
    }
  }

  lemma StackPop(los: seq<int>, his: seq<int>, cls: seq<int>, loSt: int, hiSt: int, cls': seq<int>)
    requires Stack(los, his, cls, loSt, hiSt) && |los| > 0
    requires var t := |los| - 1; cls' == Resolve(cls, los[t], his[t], t, 0, -1, 0, -1)
    ensures Stack(los[..|los| - 1], his[..|los| - 1], cls', loSt, hiSt)
  {
    var t := |los| - 1;
    var l, h := los[..t], his[..t];
    if t >= 2 {
      assert Pow2(t - 1) == 2 * Pow2(t - 2);
    }
    forall k, a | 0 <= k < |l| && loSt <= a <= hiSt ensures cls'[a] == k <==> l[k] <= a <= h[k] {
      assert cls[a] == k <==> los[k] <= a <= his[k];
      assert cls[a] == t <==> los[t] <= a <= his[t];
    }
    forall a | loSt <= a <= hiSt ensures cls'[a] < t {
      assert cls[a] == t <==> los[t] <= a <= his[t];
    }
  }

  /** Splitting the top segment into two, larger first, keeps the stack's shape and lowers the work. */
  lemma StackSplit(los: seq<int>, his: seq<int>, cls: seq<int>, loSt: int, hiSt: int, l: seq<int>, h: seq<int>,
                   lo: int, hi: int, lo1: int, hi1: int, lo2: int, hi2: int, cls': seq<int>)
    requires Stack(los, his, cls, loSt, hiSt)
    requires |l| == |h| && los == l + [lo] && his == h + [hi]
    requires lo + SMALL_THRESH <= hi && lo <= lo1 <= hi1 + 1 && hi1 <= hi && lo <= lo2 <= hi2 + 1 && hi2 <= hi
    requires hi1 < lo2 || hi2 < lo1
    requires hi2 - lo2 <= hi1 - lo1 && (hi2 - lo2 + 1) + (hi1 - lo1 + 1) <= hi - lo
    requires cls' == Resolve(cls, lo, hi, |l|, lo1, hi1, lo2, hi2)
    ensures Stack(l + [lo1] + [lo2], h + [hi1] + [hi2], cls', loSt, hiSt)
  {
    var t, los', his' := |l|, l + [lo1] + [lo2], h + [hi1] + [hi2];
    assert los[t] == lo && his[t] == hi;
    assert (hi - lo + 1) * Pow2(t) <= hiSt - loSt + 1 by {
      assert (his[t] - los[t] + 1) * Pow2(t) <= hiSt - loSt + 1;
    }
    SizesHalve(hi - lo + 1, hi1 - lo1 + 1, hi2 - lo2 + 1, t, hiSt - loSt + 1);
    forall k | 0 <= k < |los'|
      ensures (his'[k] - los'[k] + 1) * Pow2(k) <= hiSt - loSt + 1
      ensures loSt <= los'[k] <= his'[k] + 1 <= hiSt + 1
    {
      if k < t { assert los'[k] == los[k] && his'[k] == his[k]; }
    }
    SplitClasses(los, his, cls, loSt, hiSt, l, h, lo, hi, lo1, hi1, lo2, hi2, cls');
  }

  lemma SplitClasses(los: seq<int>, his: seq<int>, cls: seq<int>, loSt: int, hiSt: int, l: seq<int>, h: seq<int>,
                     lo: int, hi: int, lo1: int, hi1: int, lo2: int, hi2: int, cls': seq<int>)
    requires Stack(los, his, cls, loSt, hiSt)
    requires |l| == |h| && los == l + [lo] && his == h + [hi]
    requires lo <= lo1 && hi1 <= hi && lo <= lo2 && hi2 <= hi && (hi1 < lo2 || hi2 < lo1)
    requires cls' == Resolve(cls, lo, hi, |l|, lo1, hi1, lo2, hi2)
    ensures var los', his' := l + [lo1] + [lo2], h + [hi1] + [hi2];
            forall k, a :: 0 <= k < |l| + 2 && loSt <= a <= hiSt ==> (cls'[a] == k <==> los'[k] <= a <= his'[k])
    ensures forall a :: loSt <= a <= hiSt ==> cls'[a] < |l| + 2
  {
    var t, los', his' := |l|, l + [lo1] + [lo2], h + [hi1] + [hi2];
    assert los[t] == lo && his[t] == hi;
    forall a | loSt <= a <= hiSt ensures cls'[a] < t + 2 && (cls[a] == t <==> lo <= a <= hi) {
      assert cls[a] == t <==> los[t] <= a <= his[t];
    }
    forall k, a | 0 <= k < t + 2 && loSt <= a <= hiSt ensures cls'[a] == k <==> los'[k] <= a <= his'[k] {
      if k < t {
        assert los'[k] == los[k] && his'[k] == his[k];
        assert cls[a] == k <==> los[k] <= a <= his[k];
      }
    }
  }

  lemma SplitWork(l: seq<int>, h: seq<int>, lo: int, hi: int, lo1: int, hi1: int, lo2: int, hi2: int)
    requires |l| == |h| && (hi2 - lo2 + 1) + (hi1 - lo1 + 1) <= hi - lo
    ensures Work(l + [lo1] + [lo2], h + [hi1] + [hi2]) < Work(l + [lo], h + [hi])
  {
    WorkPush(l, h, lo, hi);
    WorkPush(l, h, lo1, hi1);
    WorkPush(l + [lo1], h + [hi1], lo2, hi2);
  }

  lemma SizesHalve(s: nat, s1: nat, s2: nat, t: nat, n: nat)
    requires s * Pow2(t) <= n && s2 <= s1 && s1 + s2 < s && s >= SMALL_THRESH + 1
    ensures s1 * Pow2(t) <= n && s2 * Pow2(t + 1) <= n && (SMALL_THRESH + 1) * Pow2(t) <= n
  {
    var p := Pow2(t);
    MulMono(s1, s, p);
    MulMono(2 * s2, s, p);
    MulMono(SMALL_THRESH + 1, s, p);
    assert Pow2(t + 1) == 2 * p;
    assert s2 * (2 * p) == (2 * s2) * p;
  }

  /** The loop invariant of fallbackQSort3. */
  ghost predicate Sorting(f0: seq<int>, f: seq<int>, e: seq<int>, los: seq<int>, his: seq<int>, cls: seq<int>,
                          loSt: int, hiSt: int)
    ensures Sorting(f0, f, e, los, his, cls, loSt, hiSt) ==>
      Stack(los, his, cls, loSt, hiSt) && Keyed(f, e) && |f| == |f0| == |cls|
    ensures Sorting(f0, f, e, los, his, cls, loSt, hiSt) ==> Reordered(f0, f, loSt, hiSt)
  {
    && Stack(los, his, cls, loSt, hiSt) && Keyed(f, e) && |f| == |f0| == |cls|
    && Ordered(f, e, cls, loSt, hiSt) && Reordered(f0, f, loSt, hiSt)
  }

  lemma SortingStart(f: seq<int>, e: seq<int>, cls: seq<int>, loSt: int, hiSt: int)
    requires Keyed(f, e) && 0 <= loSt <= hiSt < |f| == |cls|
    requires forall a :: 0 <= a < |f| ==> cls[a] == if loSt <= a <= hiSt then 0 else -1
    ensures Sorting(f, f, e, [loSt], [hiSt], cls, loSt, hiSt)
  {
    ReorderedRefl(f, loSt, hiSt);
  }

  /** A popped segment that has been sorted is settled. */
  lemma SortingSettle(f0: seq<int>, f: seq<int>, f': seq<int>, e: seq<int>, los: seq<int>, his: seq<int>, cls: seq<int>,
                      loSt: int, hiSt: int, l: seq<int>, h: seq<int>, lo: int, hi: int, cls': seq<int>)
    requires Sorting(f0, f, e, los, his, cls, loSt, hiSt)
    requires |l| == |h| && los == l + [lo] && his == h + [hi] && hiSt < |f|
    requires 0 <= lo && hi < |f|
    requires Keyed(f', e) && Reordered(f, f', lo, hi) && SortedSeg(f', e, lo, hi)
    requires cls' == Resolve(cls, lo, hi, |l|, 0, -1, 0, -1)
    ensures Sorting(f0, f', e, l, h, cls', loSt, hiSt)
    ensures 0 <= Work(l, h) < Work(los, his)
  {
    hide Stack, Reordered, Ordered, Work;
    var t := |l|;
    assert los[..t] == l && his[..t] == h && los[t] == lo && his[t] == hi;
    StackPop(los, his, cls, loSt, hiSt, cls');
    SegmentOf(los, his, cls, loSt, hiSt, l, h, lo, hi);
    OrderedResolve(f, f', e, cls, cls', loSt, hiSt, lo, hi, t);
    ReorderedTrans(f0, f, f', loSt, hiSt, lo, hi);
    WorkPush(l, h, lo, hi);
    WorkNat(l, h);
  }

  lemma SegmentOf(los: seq<int>, his: seq<int>, cls: seq<int>, loSt: int, hiSt: int,
                  l: seq<int>, h: seq<int>, lo: int, hi: int)
    requires Stack(los, his, cls, loSt, hiSt)
    requires |l| == |h| && los == l + [lo] && his == h + [hi]
    ensures loSt <= lo <= hi + 1 <= hiSt + 1
    ensures forall a :: loSt <= a <= hiSt ==> (cls[a] == |l| <==> lo <= a <= hi) && cls[a] <= |l|
  {
    var t := |l|;
    assert los[t] == lo && his[t] == hi;
    forall a | loSt <= a <= hiSt ensures cls[a] == t <==> lo <= a <= hi {
      assert cls[a] == t <==> los[t] <= a <= his[t];
    }
  }

  lemma SortingSplit(f0: seq<int>, f: seq<int>, f': seq<int>, e: seq<int>, los: seq<int>, his: seq<int>, cls: seq<int>,
                     loSt: int, hiSt: int, l: seq<int>, h: seq<int>, lo: int, hi: int, med: int, n: int, m: int,
                     lo1: int, hi1: int, lo2: int, hi2: int, cls': seq<int>)
    requires Sorting(f0, f, e, los, his, cls, loSt, hiSt)
    requires |l| == |h| && los == l + [lo] && his == h + [hi] && lo + SMALL_THRESH <= hi && hiSt < |f|
    requires Keyed(f', e) && Reordered(f, f', lo, hi) && ThreeWay(f', e, med, lo, n, m, hi)
    requires if n - lo > hi - m then lo1 == lo && hi1 == n && lo2 == m && hi2 == hi
             else lo1 == m && hi1 == hi && lo2 == lo && hi2 == n
    requires cls' == Resolve(cls, lo, hi, |l|, lo1, hi1, lo2, hi2)
    ensures Sorting(f0, f', e, l + [lo1] + [lo2], h + [hi1] + [hi2], cls', loSt, hiSt)
    ensures 0 <= Work(l + [lo1] + [lo2], h + [hi1] + [hi2]) < Work(los, his)
  {
    hide Stack, Reordered, ThreeWay, Ordered, Work;
    StackSplit(los, his, cls, loSt, hiSt, l, h, lo, hi, lo1, hi1, lo2, hi2, cls');
    SegmentOf(los, his, cls, loSt, hiSt, l, h, lo, hi);
    ThreeWayOrdered(f', e, med, lo, n, m, hi, cls, |l|, lo1, hi1, lo2, hi2, cls');
    OrderedResolve(f, f', e, cls, cls', loSt, hiSt, lo, hi, |l|);
    ReorderedTrans(f0, f, f', loSt, hiSt, lo, hi);
    SplitWork(l, h, lo, hi, lo1, hi1, lo2, hi2);
    WorkNat(l + [lo1] + [lo2], h + [hi1] + [hi2]);
  }

  lemma ThreeWayOrdered(f: seq<int>, e: seq<int>, med: int, lo: int, n: int, m: int, hi: int, cls: seq<int>, c: nat,
                        lo1: int, hi1: int, lo2: int, hi2: int, cls': seq<int>)
    requires Keyed(f, e) && |f| == |cls| && ThreeWay(f, e, med, lo, n, m, hi)
    requires (lo1 == lo && hi1 == n && lo2 == m && hi2 == hi) || (lo1 == m && hi1 == hi && lo2 == lo && hi2 == n)
    requires cls' == Resolve(cls, lo, hi, c, lo1, hi1, lo2, hi2)
    ensures forall a, b :: lo <= a < b <= hi ==> (cls'[a] == cls'[b] && cls'[a] >= 0) || e[f[a]] <= e[f[b]]
  {
    forall a, b | lo <= a < b <= hi ensures (cls'[a] == cls'[b] && cls'[a] >= 0) || e[f[a]] <= e[f[b]] {
      if b <= n || m <= a {
        assert cls'[a] == cls'[b];
      }
    }
  }

  lemma SortingDone(f0: seq<int>, f: seq<int>, e: seq<int>, cls: seq<int>, loSt: int, hiSt: int)
    requires Sorting(f0, f, e, [], [], cls, loSt, hiSt) && hiSt < |f|
    ensures Reordered(f0, f, loSt, hiSt) && SortedSeg(f, e, loSt, hiSt)
  {
    forall a | loSt <= a <= hiSt ensures cls[a] < 0 {
    }
  }

  /** The first sp entries of the two stack arrays. */
  ghost predicate OnStack(a: seq<int>, b: seq<int>, sp: int, los: seq<int>, his: seq<int>)
    ensures OnStack(a, b, sp, los, his) ==> 0 <= sp == |los| == |his| <= |a| == |b|
  {
    0 <= sp == |los| == |his| <= |a| == |b| && a[..sp] == los && b[..sp] == his
  }

  method Push(stackLo: array<int>, stackHi: array<int>, sp: nat, lo: int, hi: int, ghost los: seq<int>,
              ghost his: seq<int>)
    requires stackLo != stackHi && sp < stackLo.Length && OnStack(stackLo[..], stackHi[..], sp, los, his)
    modifies stackLo, stackHi
    ensures OnStack(stackLo[..], stackHi[..], sp + 1, los + [lo], his + [hi])
  {
    stackLo[sp] := lo;
    stackHi[sp] := hi;
  }

  lemma EmptyStack(a: seq<int>, b: seq<int>)
    requires |a| == |b|
    ensures OnStack(a, b, 0, [], [])
  {
  }

  lemma OnTop(a: seq<int>, b: seq<int>, sp: int, los: seq<int>, his: seq<int>)
    requires OnStack(a, b, sp, los, his) && sp > 0
    ensures OnStack(a, b, sp - 1, los[..sp - 1], his[..sp - 1])
    ensures los == los[..sp - 1] + [a[sp - 1]] && his == his[..sp - 1] + [b[sp - 1]]
  {
  }

  /**
   fallbackQSort3: sort fmap[loSt..hiSt] by class.  The explicit stack of STACK_SIZE entries is
   enough for every segment a 32-bit count can describe.
   */
  method QSort3(fmap: array<int>, eclass: array<int>, loSt: int, hiSt: int)
    requires fmap != eclass && Keyed(fmap[..], eclass[..])
    requires 0 <= loSt <= hiSt < fmap.Length && hiSt - loSt < 0x8000_0000
    modifies fmap
    ensures Keyed(fmap[..], eclass[..]) && Reordered(old(fmap[..]), fmap[..], loSt, hiSt)
    ensures SortedSeg(fmap[..], eclass[..], loSt, hiSt)
  {
    hide Stack, Sorting, Reordered, SortedSeg, Keyed, ThreeWay, Work, OnStack;
    ghost var e, f0 := eclass[..], fmap[..];
    var stackLo, stackHi := new int[STACK_SIZE], new int[STACK_SIZE];
    var r, sp := 0, 0;
    EmptyStack(stackLo[..], stackHi[..]);
    Push(stackLo, stackHi, sp, loSt, hiSt, [], []);
    sp := sp + 1;
    ghost var los, his := [loSt], [hiSt];
    assert [] + [loSt] == los && [] + [hiSt] == his;
    ghost var cls := seq(fmap.Length, a => if loSt <= a <= hiSt then 0 else -1);
    SortingStart(f0, e, cls, loSt, hiSt);
    WorkNat(los, his);
    while sp > 0
      invariant 0 <= sp < STACK_SIZE && OnStack(stackLo[..], stackHi[..], sp, los, his)
      invariant eclass[..] == e && fresh(stackLo) && fresh(stackHi) && stackLo != stackHi
      invariant Sorting(f0, fmap[..], e, los, his, cls, loSt, hiSt)
      decreases Work(los, his)
    {
      StackBounded(los, his, cls, loSt, hiSt);
      assert sp < STACK_SIZE - 1;  // AssertH 1004
      OnTop(stackLo[..], stackHi[..], sp, los, his);
      sp := sp - 1;
      var lo, hi := stackLo[sp], stackHi[sp];
      ghost var l, h, f := los[..sp], his[..sp], fmap[..];
      assert 0 <= lo <= hi + 1 <= fmap.Length by { SegmentOf(los, his, cls, loSt, hiSt, l, h, lo, hi); }
      if hi - lo < SMALL_THRESH {
        SimpleSort(fmap, eclass, lo, hi);
        ghost var cls' := Resolve(cls, lo, hi, |l|, 0, -1, 0, -1);
        assert eclass[..] == e;
        SortingSettle(f0, f, fmap[..], e, los, his, cls, loSt, hiSt, l, h, lo, hi, cls');
        los, his, cls := l, h, cls';
        continue;
      }
      r := (r * 7621 + 1) % 32768;
      var allEqual, med, n, m := SplitRandom(fmap, eclass, lo, hi, r);
      assert eclass[..] == e;
      if allEqual {
        ghost var cls' := Resolve(cls, lo, hi, |l|, 0, -1, 0, -1);
        SortingSettle(f0, f, fmap[..], e, los, his, cls, loSt, hiSt, l, h, lo, hi, cls');
        los, his, cls := l, h, cls';
        continue;
      }
      var lo1, hi1, lo2, hi2 := m, hi, lo, n;
      if n - lo > hi - m {
        lo1, hi1, lo2, hi2 := lo, n, m, hi;
      }
      ghost var cls' := Resolve(cls, lo, hi, |l|, lo1, hi1, lo2, hi2);
      SortingSplit(f0, f, fmap[..], e, los, his, cls, loSt, hiSt, l, h, lo, hi, med, n, m, lo1, hi1, lo2, hi2, cls');
      Push(stackLo, stackHi, sp, lo1, hi1, l, h);
      Push(stackLo, stackHi, sp + 1, lo2, hi2, l + [lo1], h + [hi1]);
      sp := sp + 2;
      los, his, cls := l + [lo1] + [lo2], h + [hi1] + [hi2], cls';
    }
    SortingDone(f0, fmap[..], e, cls, loSt, hiSt);
  }
}
