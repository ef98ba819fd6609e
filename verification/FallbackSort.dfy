/**
 fallbackSort (blocksort.c): a one-byte radix sort, then passes that double the sorted depth H.
 The header bits of bhtab mark where a new class of rotations with equal H-byte prefix starts.
 */
module FallbackSort {
  import opened Permutations
  import opened Rotations
  import opened Bwt
  import Q = FallbackQSort

  /** f has, at every row, a byte of the bucket that the row lies in. */
  ghost predicate InBuckets(b: Block, f: seq<int>)
  {
    && |f| == |b| && InRange(f, 0, |b|)
    && forall a :: 0 <= a < |f| ==> CountLess(b, b[f[a]], |b|) <= a < CountLess(b, b[f[a]] as int + 1, |b|)
  }

  /** The alternating bits after the block that stop every scan. */
  predicate Sentinels(bits: seq<bool>, n: nat) {
    && |bits| >= n + 64 && |bits| % 32 == 0
    && forall i :: 0 <= i < 32 ==> bits[n + 2 * i] && !bits[n + 2 * i + 1]
  }

  /** Adjacent rows a - 1 and a are in order to depth h, and bit a says whether they differ. */
  predicate RowDone(b: Block, f: seq<int>, bits: seq<bool>, h: nat, a: int)
    requires InRange(f, 0, |b|) && 0 < a < |f| <= |bits|
  {
    Cmp(b, f[a - 1], f[a], h) <= 0 && (bits[a] <==> Cmp(b, f[a - 1], f[a], h) < 0)
  }

  /** State at the start of the pass with depth h: the header bits delimit the h-byte classes. */
  ghost predicate Depth(b: Block, f: seq<int>, bits: seq<bool>, h: nat)
    ensures Depth(b, f, bits, h) ==> |f| == |b| && IsPerm(f) && Sentinels(bits, |b|) && InBuckets(b, f) && bits[0]
  {
    && |f| == |b| && IsPerm(f) && InBuckets(b, f) && Sentinels(bits, |b|) && bits[0]
    && forall a :: 0 < a < |f| ==> RowDone(b, f, bits, h, a)
  }

  // ---------------------------------------------------------------- classes

  /** Start of the class that row i belongs to. */
  function Head(bits: seq<bool>, i: nat): (r: nat)
    requires i < |bits|
    ensures r <= i
  {
    if i == 0 || bits[i] then i else Head(bits, i - 1)
  }

  /** Class starts order rows exactly as their h-byte prefixes do. */
  lemma {:induction false} HeadOrders(b: Block, f: seq<int>, bits: seq<bool>, h: nat, i: nat, k: nat)
    requires Depth(b, f, bits, h) && i <= k < |b|
    ensures Cmp(b, f[i], f[k], h) <= 0
    ensures Head(bits, i) <= Head(bits, k)
    ensures Head(bits, i) == Head(bits, k) <==> Cmp(b, f[i], f[k], h) == 0
    decreases k
  {
    if i == k {
      CmpSame(b, f[i], h);
    } else {
      HeadOrders(b, f, bits, h, i, k - 1);
      assert RowDone(b, f, bits, h, k);
      CmpTrans(b, f[i], f[k - 1], f[k], h);
      if !bits[k] && Cmp(b, f[i], f[k], h) == 0 {
        CmpTrans(b, f[i], f[k - 1], f[k], h);
      }
    }
  }

  /** e gives every rotation x the class of the rotation h bytes on. */
  ghost predicate Classes(b: Block, f: seq<int>, bits: seq<bool>, e: seq<int>, h: nat)
    requires |f| == |b| && IsPerm(f) && |bits| >= |b| && h <= |b|
    ensures Classes(b, f, bits, e, h) ==> |e| == |b|
  {
    |e| == |b| && forall x :: 0 <= x < |b| ==> e[x] == Head(bits, Index(f, Shift(|b|, x, h)))
  }

  /** Hence comparing classes is comparing the next h bytes. */
  lemma ClassCompare(b: Block, f: seq<int>, bits: seq<bool>, e: seq<int>, h: nat, x: nat, y: nat)
    requires Depth(b, f, bits, h) && h <= |b| && Classes(b, f, bits, e, h) && x < |b| && y < |b|
    ensures e[x] < e[y] <==> Cmp(b, Shift(|b|, x, h), Shift(|b|, y, h), h) < 0
    ensures e[x] == e[y] <==> Cmp(b, Shift(|b|, x, h), Shift(|b|, y, h), h) == 0
  {
    var i, k := Index(f, Shift(|b|, x, h)), Index(f, Shift(|b|, y, h));
    if i <= k {
      HeadOrders(b, f, bits, h, i, k);
    } else {
      HeadOrders(b, f, bits, h, k, i);
      CmpFlip(b, f[i], f[k], h);
    }
  }

  /** Rows of one class, ordered by the class of the rotation h bytes on, are in order to depth 2h. */
  lemma Doubles(b: Block, f: seq<int>, bits: seq<bool>, e: seq<int>, h: nat, x: nat, y: nat)
    requires Depth(b, f, bits, h) && h <= |b| && Classes(b, f, bits, e, h) && x < |b| && y < |b|
    requires Cmp(b, x, y, h) == 0
    ensures e[x] <= e[y] <==> Cmp(b, x, y, 2 * h) <= 0
    ensures e[x] < e[y] <==> Cmp(b, x, y, 2 * h) < 0
  {
    hide Depth, Classes, Cmp;
    ClassCompare(b, f, bits, e, h, x, y);
    CmpSplit(b, x, y, h, h);
  }

  method Classify(b: Block, fmap: array<int>, bits: array<bool>, eclass: array<int>, h: nat)
    requires fmap != eclass && 1 <= h <= |b| && eclass.Length == |b|
    requires Depth(b, fmap[..], bits[..], h)
    modifies eclass
    ensures Classes(b, fmap[..], bits[..], eclass[..], h)
  {
    var n := |b|;
    ghost var f, bs := fmap[..], bits[..];
    var j := 0;
    for i := 0 to n
      invariant i > 0 ==> j == Head(bs, i - 1)
      invariant i == 0 ==> j == 0
      invariant forall a :: 0 <= a < i ==> eclass[Unshift(n, f[a], h)] == Head(bs, a)
    {
      if bits[i] { j := i; }
      assert j == Head(bs, i);
      var k := fmap[i] - h;
      if k < 0 { k := k + n; }
      assert k == Unshift(n, f[i], h);
      eclass[k] := j;
    }
    forall x | 0 <= x < n ensures eclass[x] == Head(bs, Index(f, Shift(n, x, h))) {
      var a := Index(f, Shift(n, x, h));
      assert Unshift(n, f[a], h) == x;
    }
  }

  function Unshift(n: nat, i: nat, h: nat): (r: nat)
    requires i < n && h <= n
    ensures r < n && Shift(n, r, h) == i
  {
    if i < h then i + n - h else i - h
  }

  // ---------------------------------------------------------------- one pass

  /** WORD_BH(k) is all v: the 32 bits of the word at k. */
  predicate WordIs(bits: array<bool>, k: nat, v: bool)
    requires k + 32 <= bits.Length
    reads bits
  {
    forall j :: k <= j < k + 32 ==> bits[j] == v
  }

  /** First bit at or after k0 that is not v: bit by bit to a word boundary, then word by word. */
  method Scan(bits: array<bool>, k0: nat, v: bool, ghost lim: nat) returns (k: nat)
    requires k0 <= lim < bits.Length && bits.Length % 32 == 0 && bits[lim] != v
    ensures k0 <= k <= lim && bits[k] != v
    ensures forall j :: k0 <= j < k ==> bits[j] == v
  {
    k := k0;
    while bits[k] == v && k % 32 != 0
      invariant k0 <= k <= lim && forall j :: k0 <= j < k ==> bits[j] == v
      decreases lim - k
    {
      k := k + 1;
    }
    if bits[k] == v {
      while WordIs(bits, k, v)
        invariant k0 <= k <= lim && k % 32 == 0 && forall j :: k0 <= j < k ==> bits[j] == v
        decreases lim - k
      {
        k := k + 32;
      }
      while bits[k] == v
        invariant k0 <= k <= lim && forall j :: k0 <= j < k ==> bits[j] == v
        decreases lim - k
      {
        k := k + 1;
      }
    }
  }

  predicate HeaderAt(bits0: seq<bool>, bits: seq<bool>, f: seq<int>, e: seq<int>, a: int)
    requires Q.Keyed(f, e) && 0 < a < |f| && a < |bits| == |bits0|
  {
    bits[a] <==> bits0[a] || e[f[a - 1]] != e[f[a]]
  }

  /** Set a header bit wherever the class changes along the sorted bucket l..r. */
  method MarkHeaders(fmap: array<int>, eclass: array<int>, bits: array<bool>, l: int, r: int)
    requires Q.Keyed(fmap[..], eclass[..]) && 0 <= l < r < fmap.Length <= bits.Length
    requires forall x :: 0 <= x < eclass.Length ==> eclass[x] >= 0
    modifies bits
    ensures forall a :: 0 <= a < bits.Length && !(l <= a <= r) ==> bits[a] == old(bits[a])
    ensures bits[l]
    ensures forall a :: l < a <= r ==> HeaderAt(old(bits[..]), bits[..], fmap[..], eclass[..], a)
  {
    ghost var bs0, f, e := bits[..], fmap[..], eclass[..];
    var cc := -1;
    var i := l;
    while i <= r
      invariant l <= i <= r + 1
      invariant cc == if i == l then -1 else eclass[fmap[i - 1]]
      invariant forall a :: 0 <= a < bits.Length && !(l <= a < i) ==> bits[a] == old(bits[a])
      invariant i > l ==> bits[l]
      invariant forall a :: l < a < i ==> HeaderAt(bs0, bits[..], f, e, a)
    {
      var cc1 := eclass[fmap[i]];
      ghost var bs := bits[..];
      if cc != cc1 { bits[i] := true; cc := cc1; }
      assert forall a :: l < a < i && HeaderAt(bs0, bs, f, e, a) ==> HeaderAt(bs0, bits[..], f, e, a);
      i := i + 1;
    }
  }

  /**
   Inside a pass that started from (f0, bits0) at depth h: rows up to r are finished to depth 2h,
   rows after r are untouched, and every row still holds a rotation of its old class.
   */
  ghost predicate Refining(b: Block, f0: seq<int>, bits0: seq<bool>, f: seq<int>, bits: seq<bool>, h: nat, r: int)
    ensures Refining(b, f0, bits0, f, bits, h, r) ==>
      |f0| == |f| == |b| && IsPerm(f0) && IsPerm(f) && Sentinels(bits, |b|) && |bits| == |bits0|
    ensures Refining(b, f0, bits0, f, bits, h, r) ==> -1 <= r < |b| && Depth(b, f0, bits0, h)
  {
    && Depth(b, f0, bits0, h) && |f| == |b| && IsPerm(f) && |bits| == |bits0| && -1 <= r < |b|
    && Sentinels(bits, |b|) && bits[0]
    && (forall a :: 0 <= a < |b| ==> SameClass(b, f0, f, h, a))
    && (forall a :: r < a < |b| ==> f[a] == f0[a])
    && (forall a :: r < a < |bits| ==> bits[a] == bits0[a])
    && (forall a :: 0 < a <= r ==> RowDone(b, f, bits, 2 * h, a))
  }

  predicate SameClass(b: Block, f0: seq<int>, f: seq<int>, h: nat, a: int)
    requires |f0| == |f| == |b| && InRange(f0, 0, |b|) && InRange(f, 0, |b|) && 0 <= a < |b|
  {
    Cmp(b, f0[a], f[a], h) == 0
  }

  lemma RefiningStart(b: Block, f: seq<int>, bits: seq<bool>, h: nat)
    requires Depth(b, f, bits, h)
    ensures Refining(b, f, bits, f, bits, h, -1)
  {
    forall a | 0 <= a < |b| ensures SameClass(b, f, f, h, a) {
      CmpSame(b, f[a], h);
    }
  }

  /** Rows compared to depth h keep their relation when each is replaced within its class. */
  lemma ClassSwap(b: Block, x0: nat, x: nat, y0: nat, y: nat, h: nat)
    requires x0 < |b| && x < |b| && y0 < |b| && y < |b|
    requires Cmp(b, x0, x, h) == 0 && Cmp(b, y0, y, h) == 0
    ensures Cmp(b, x, y, h) == Cmp(b, x0, y0, h)
  {
    CmpFlip(b, x0, x, h);
    CmpFlip(b, y0, y, h);
    CmpFlip(b, x0, y0, h);
    CmpFlip(b, x, y, h);
    CmpFlip(b, x0, y, h);
    if Cmp(b, x0, y0, h) <= 0 {
      CmpTrans(b, x, x0, y0, h);
      CmpTrans(b, x, y0, y, h);
    } else {
      CmpTrans(b, y, y0, x0, h);
      CmpTrans(b, y, x0, x, h);
    }
  }

  lemma {:induction false} HeadIs(bits: seq<bool>, l: nat, a: nat)
    requires l <= a < |bits| && bits[l] && forall k :: l < k <= a ==> !bits[k]
    ensures Head(bits, a) == l
  {
    if l < a {
      HeadIs(bits, l, a - 1);
    }
  }

  /** Rows of one bucket l..r are of one class. */
  lemma OneBucket(b: Block, f: seq<int>, bits: seq<bool>, h: nat, l: nat, r: nat, a: nat, c: nat)
    requires Depth(b, f, bits, h) && l <= a <= r < |b| && l <= c <= r
    requires bits[l] && forall k :: l < k <= r ==> !bits[k]
    ensures Cmp(b, f[a], f[c], h) == 0
  {
    HeadIs(bits, l, a);
    HeadIs(bits, l, c);
    if a <= c {
      HeadOrders(b, f, bits, h, a, c);
    } else {
      HeadOrders(b, f, bits, h, c, a);
      CmpFlip(b, f[a], f[c], h);
    }
  }

  /** A pass's next bucket: the bits from r + 1 to l are set, those from l + 1 to r' are not. */
  predicate NextBucket(bits0: seq<bool>, n: nat, r: int, l: int, r': int)
    requires n <= |bits0|
  {
    && -1 <= r < l < r' < n
    && (forall a :: r < a <= l ==> bits0[a])
    && (forall a :: l < a <= r' ==> !bits0[a])
  }

  /** Sorting a bucket by class leaves every row in its class. */
  lemma BucketClasses(b: Block, f0: seq<int>, bits0: seq<bool>, f: seq<int>, bits: seq<bool>, h: nat, r: int,
                      l: int, r': int, f': seq<int>, a: nat)
    requires Refining(b, f0, bits0, f, bits, h, r) && NextBucket(bits0, |b|, r, l, r')
    requires Q.Reordered(f, f', l, r') && IsPerm(f') && a < |b|
    ensures SameClass(b, f0, f', h, a)
    ensures l <= a <= r' ==> Cmp(b, f0[l], f'[a], h) == 0
  {
    assert SameClass(b, f0, f, h, a);
    if l <= a <= r' {
      var a0 := Q.ReorderedSource(f, f', l, r', a);
      OneBucket(b, f0, bits0, h, l, r', a, a0);
      OneBucket(b, f0, bits0, h, l, r', l, a0);
    }
  }

  /** A set bit between rows of different classes stays right at depth 2h. */
  lemma RowKept(b: Block, f0: seq<int>, bits0: seq<bool>, f': seq<int>, bits': seq<bool>, h: nat, a: nat)
    requires Depth(b, f0, bits0, h) && |f'| == |b| && IsPerm(f') && |bits'| >= |b| && 0 < a < |b|
    requires SameClass(b, f0, f', h, a - 1) && SameClass(b, f0, f', h, a)
    requires bits0[a] && bits'[a]
    ensures RowDone(b, f', bits', 2 * h, a)
  {
    assert RowDone(b, f0, bits0, h, a);
    ClassSwap(b, f0[a - 1], f'[a - 1], f0[a], f'[a], h);
    CmpPrefix(b, f'[a - 1], f'[a], h, 2 * h);
  }

  /** Within the sorted bucket the marked bits are right at depth 2h. */
  lemma RowMarked(b: Block, f0: seq<int>, bits0: seq<bool>, e: seq<int>, f': seq<int>, bits: seq<bool>,
                  bits': seq<bool>,
                  h: nat, l: int, a: nat)
    requires Depth(b, f0, bits0, h) && h <= |b| && Classes(b, f0, bits0, e, h)
    requires |f'| == |b| && IsPerm(f') && |bits| == |bits'| >= |b| && 0 <= l < a < |b|
    requires Cmp(b, f0[l], f'[a - 1], h) == 0 && Cmp(b, f0[l], f'[a], h) == 0
    requires Q.Keyed(f', e) && e[f'[a - 1]] <= e[f'[a]] && !bits[a] && HeaderAt(bits, bits', f', e, a)
    ensures RowDone(b, f', bits', 2 * h, a)
  {
    var x, y := f'[a - 1], f'[a];
    CmpFlip(b, f0[l], x, h);
    CmpTrans(b, x, f0[l], y, h);
    Doubles(b, f0, bits0, e, h, x, y);
  }

  /** What sorting bucket l..r' and marking its headers does to the rows. */
  ghost predicate BucketSorted(f: seq<int>, bits: seq<bool>, e: seq<int>, f': seq<int>, bits': seq<bool>, n: nat,
                               l: int, r': int)
    requires Q.Keyed(f', e)
    ensures BucketSorted(f, bits, e, f', bits', n, l, r') ==>
      |f| == |f'| == n && |bits| == |bits'| >= n && 0 <= l < r' < n
    ensures BucketSorted(f, bits, e, f', bits', n, l, r') ==> Q.Reordered(f, f', l, r')
  {
    && |f| == |f'| == n && |bits| == |bits'| >= n && 0 <= l < r' < n
    && Q.Reordered(f, f', l, r') && Q.SortedSeg(f', e, l, r')
    && (forall a :: 0 <= a < |bits| && !(l <= a <= r') ==> bits'[a] == bits[a])
    && bits'[l]
    && (forall a :: l < a <= r' ==> HeaderAt(bits, bits', f', e, a))
  }

  lemma RefineRow(b: Block, f0: seq<int>, bits0: seq<bool>, e: seq<int>, f: seq<int>, bits: seq<bool>, h: nat, r: int,
                  l: int, r': int, f': seq<int>, bits': seq<bool>, a: nat)
    requires Refining(b, f0, bits0, f, bits, h, r) && NextBucket(bits0, |b|, r, l, r')
    requires h <= |b| && Classes(b, f0, bits0, e, h) && Q.Keyed(f', e)
    requires BucketSorted(f, bits, e, f', bits', |b|, l, r') && IsPerm(f') && 0 < a <= r'
    ensures RowDone(b, f', bits', 2 * h, a)
  {
    if a <= r {
      RowBefore(b, f0, bits0, e, f, bits, h, r, l, r', f', bits', a);
    } else {
      RowAfter(b, f0, bits0, e, f, bits, h, r, l, r', f', bits', a);
    }
  }

  lemma RowBefore(b: Block, f0: seq<int>, bits0: seq<bool>, e: seq<int>, f: seq<int>, bits: seq<bool>, h: nat, r: int,
                  l: int, r': int, f': seq<int>, bits': seq<bool>, a: nat)
    requires Refining(b, f0, bits0, f, bits, h, r) && NextBucket(bits0, |b|, r, l, r')
    requires h <= |b| && Q.Keyed(f', e) && BucketSorted(f, bits, e, f', bits', |b|, l, r') && IsPerm(f') && 0 < a <= r
    ensures RowDone(b, f', bits', 2 * h, a)
  {
    hide Cmp;
    assert RowDone(b, f, bits, 2 * h, a);
    assert f'[a] == f[a] && f'[a - 1] == f[a - 1];
  }

  lemma RowAfter(b: Block, f0: seq<int>, bits0: seq<bool>, e: seq<int>, f: seq<int>, bits: seq<bool>, h: nat, r: int,
                 l: int, r': int, f': seq<int>, bits': seq<bool>, a: nat)
    requires Refining(b, f0, bits0, f, bits, h, r) && NextBucket(bits0, |b|, r, l, r')
    requires h <= |b| && Classes(b, f0, bits0, e, h) && Q.Keyed(f', e)
    requires BucketSorted(f, bits, e, f', bits', |b|, l, r') && IsPerm(f') && 0 < a && r < a <= r'
    ensures RowDone(b, f', bits', 2 * h, a)
  {
    hide Cmp, RowDone;
    BucketClasses(b, f0, bits0, f, bits, h, r, l, r', f', a);
    BucketClasses(b, f0, bits0, f, bits, h, r, l, r', f', a - 1);
    if a <= l {
      RowKept(b, f0, bits0, f', bits', h, a);
    } else {
      assert HeaderAt(bits, bits', f', e, a);
      RowMarked(b, f0, bits0, e, f', bits, bits', h, l, a);
    }
  }

  lemma RefineBucket(b: Block, f0: seq<int>, bits0: seq<bool>, e: seq<int>, f: seq<int>, bits: seq<bool>, h: nat,
                     r: int,
                     l: int, r': int, f': seq<int>, bits': seq<bool>)
    requires Refining(b, f0, bits0, f, bits, h, r) && NextBucket(bits0, |b|, r, l, r')
    requires h <= |b| && Classes(b, f0, bits0, e, h) && Q.Keyed(f', e)
    requires BucketSorted(f, bits, e, f', bits', |b|, l, r')
    ensures Refining(b, f0, bits0, f', bits', h, r')
  {
    PermReordered(f, f');
    forall a | 0 < a <= r' ensures RowDone(b, f', bits', 2 * h, a) {
      RefineRow(b, f0, bits0, e, f, bits, h, r, l, r', f', bits', a);
    }
    forall a | 0 <= a < |b| ensures SameClass(b, f0, f', h, a) {
      BucketClasses(b, f0, bits0, f, bits, h, r, l, r', f', a);
    }
    RefineRest(b, f0, bits0, e, f, bits, h, r, l, r', f', bits');
  }

  lemma RefineRest(b: Block, f0: seq<int>, bits0: seq<bool>, e: seq<int>, f: seq<int>, bits: seq<bool>, h: nat, r: int,
                   l: int, r': int, f': seq<int>, bits': seq<bool>)
    requires Refining(b, f0, bits0, f, bits, h, r) && NextBucket(bits0, |b|, r, l, r')
    requires Q.Keyed(f', e) && BucketSorted(f, bits, e, f', bits', |b|, l, r')
    ensures Sentinels(bits', |b|) && bits'[0]
    ensures forall a :: r' < a < |b| ==> f'[a] == f0[a]
    ensures forall a :: r' < a < |bits'| ==> bits'[a] == bits0[a]
  {
  }

  /** When only singleton rows remain the pass is complete: the state has depth 2h. */
  lemma RefineDone(b: Block, f0: seq<int>, bits0: seq<bool>, f: seq<int>, bits: seq<bool>, h: nat, r: int)
    requires Refining(b, f0, bits0, f, bits, h, r) && 1 <= h
    requires forall a :: r < a < |b| ==> bits0[a]
    ensures Depth(b, f, bits, 2 * h)
  {
    forall a | 0 < a < |b| ensures RowDone(b, f, bits, 2 * h, a) {
      if a > r {
        assert SameClass(b, f0, f, h, a) && SameClass(b, f0, f, h, a - 1);
        RowKept(b, f0, bits0, f, bits, h, a);
      }
    }
    forall a | 0 <= a < |b| ensures b[f[a]] == b[f0[a]] {
      assert SameClass(b, f0, f, h, a);
    }
  }

  lemma PermKeyed(f: seq<int>, e: seq<int>)
    requires IsPerm(f) && |f| == |e|
    ensures Q.Keyed(f, e)
  {
  }

  lemma ClassesNat(b: Block, f: seq<int>, bits: seq<bool>, e: seq<int>, h: nat)
    requires |f| == |b| && IsPerm(f) && |bits| >= |b| && h <= |b| && Classes(b, f, bits, e, h)
    ensures forall x :: 0 <= x < |e| ==> e[x] >= 0
  {
  }

  lemma RefiningBits(b: Block, f0: seq<int>, bits0: seq<bool>, f: seq<int>, bits: seq<bool>, h: nat, r: int)
    requires Refining(b, f0, bits0, f, bits, h, r)
    ensures forall a :: r < a < |bits| ==> bits[a] == bits0[a]
    ensures bits[|b|] && !bits[|b| + 1] && bits0[|b|] && !bits0[|b| + 1] && bits0[0]
  {
    var n := |b|;
    assert bits[n + 2 * 0] && !bits[n + 2 * 0 + 1];
    assert bits0[n + 2 * 0] && !bits0[n + 2 * 0 + 1];
  }

  /** Sort one bucket and mark its headers. */
  method SortBucket(ghost b: Block, fmap: array<int>, eclass: array<int>, bits: array<bool>, h: nat, l: int, r': int,
                    ghost f0: seq<int>, ghost bits0: seq<bool>, ghost r: int)
    requires fmap != eclass && eclass.Length == |b| < 0x8000_0000
    requires Refining(b, f0, bits0, fmap[..], bits[..], h, r) && NextBucket(bits0, |b|, r, l, r')
    requires h <= |b| && Classes(b, f0, bits0, eclass[..], h)
    modifies fmap, bits
    ensures Refining(b, f0, bits0, fmap[..], bits[..], h, r')
  {
    ghost var f, bs, e := fmap[..], bits[..], eclass[..];
    PermKeyed(f, e);
    ClassesNat(b, f0, bits0, e, h);
    hide Refining, Classes, NextBucket, Q.Reordered, Q.SortedSeg, Q.Keyed, Depth;
    assert 0 <= l < r' < fmap.Length by { BucketBounds(bits0, |b|, r, l, r'); }
    Q.QSort3(fmap, eclass, l, r');
    assert eclass[..] == e && bits[..] == bs;
    MarkHeaders(fmap, eclass, bits, l, r');
    assert eclass[..] == e;
    assert BucketSorted(f, bs, e, fmap[..], bits[..], |b|, l, r');
    RefineBucket(b, f0, bits0, e, f, bs, h, r, l, r', fmap[..], bits[..]);
  }

  lemma BucketBounds(bits0: seq<bool>, n: nat, r: int, l: int, r': int)
    requires n <= |bits0| && NextBucket(bits0, n, r, l, r')
    ensures -1 <= r < l < r' < n
  {
  }

  /** One pass of the log(N) loop: from depth h to depth 2h. */
  method Pass(ghost b: Block, fmap: array<int>, eclass: array<int>, bits: array<bool>, n: nat, h: nat)
    returns (nNotDone: nat)
    requires fmap != eclass && eclass.Length == |b| == n < 0x8000_0000 && 1 <= h <= n
    requires Depth(b, fmap[..], bits[..], h) && Classes(b, fmap[..], bits[..], eclass[..], h)
    modifies fmap, bits
    ensures Depth(b, fmap[..], bits[..], 2 * h)
    ensures nNotDone == 0 ==> forall a :: 0 < a < n ==> bits[a]
  {
    hide Refining, Classes, Depth;
    ghost var f0, bits0, e := fmap[..], bits[..], eclass[..];
    RefiningStart(b, f0, bits0, h);
    RefiningBits(b, f0, bits0, f0, bits0, h, -1);
    var r := -1;
    nNotDone := 0;
    while true
      invariant Refining(b, f0, bits0, fmap[..], bits[..], h, r)
      invariant eclass[..] == e
      invariant r + 1 <= n && bits0[r + 1]
      invariant nNotDone == 0 ==> r == -1
      decreases n - r
    {
      ghost var bs := bits[..];
      RefiningBits(b, f0, bits0, fmap[..], bs, h, r);
      var k := Scan(bits, r + 1, true, n + 1);
      assert forall j :: r < j < k ==> bs[j] && bits0[j];
      var l := k - 1;
      if l >= n { break; }
      k := Scan(bits, k, false, n);
      assert forall j :: l < j < k ==> !bs[j] && !bits0[j];
      ghost var r0 := r;
      r := k - 1;
      assert bits0[r + 1];
      if r >= n { break; }
      if r > l {
        nNotDone := nNotDone + (r - l + 1);
        assert NextBucket(bits0, n, r0, l, r);
        SortBucket(b, fmap, eclass, bits, h, l, r, f0, bits0, r0);
      }
    }
    RefineDone(b, f0, bits0, fmap[..], bits[..], h, r);
  }

  // ---------------------------------------------------------------- radix sort and header bits

  /** Row that the radix sort gives to position i: buckets ascending, each filled from its end. */
  function Slot(b: Block, i: nat): (r: int)
    requires i < |b|
  {
    CountLess(b, b[i] as int + 1, |b|) - 1 - CountEq(b, b[i], i)
  }

  lemma SlotBound(b: Block, i: nat)
    requires i < |b|
    ensures CountLess(b, b[i], |b|) <= Slot(b, i) < CountLess(b, b[i] as int + 1, |b|) <= |b|
  {
    CountEqMono(b, b[i], i, |b|);
    CountLessStep(b, b[i], |b|);
  }

  lemma SlotDistinct(b: Block, i: nat, k: nat)
    requires i < k < |b|
    ensures Slot(b, i) != Slot(b, k)
  {
    SlotBound(b, i);
    SlotBound(b, k);
    if b[i] == b[k] {
      CountEqMono(b, b[i], i, k);
    } else if b[i] < b[k] {
      LessMono(b, b[i] as int + 1, b[k]);
    } else {
      LessMono(b, b[k] as int + 1, b[i]);
    }
  }

  lemma LessMono(b: Block, c: int, d: int)
    requires c <= d
    ensures CountLess(b, c, |b|) <= CountLess(b, d, |b|)
  {
    if c < d { CountLessMono(b, c, d, |b|); }
  }

  lemma SlotsFill(b: Block, f: seq<int>)
    requires |f| == |b| && forall i :: 0 <= i < |b| ==> (SlotBound(b, i); f[Slot(b, i)] == i)
    ensures IsPerm(f) && InBuckets(b, f)
  {
    var n := |b|;
    var p := seq(n, i requires 0 <= i < n => Slot(b, i));
    forall i | 0 <= i < n ensures 0 <= p[i] < n { SlotBound(b, i); }
    forall i, k | 0 <= i < k < n ensures p[i] != p[k] { SlotDistinct(b, i, k); }
    InversePerm(p, f);
    forall a | 0 <= a < n ensures CountLess(b, b[f[a]], n) <= a < CountLess(b, b[f[a]] as int + 1, n) {
      assert p[f[a]] == a;
      SlotBound(b, f[a]);
    }
  }

  /** a is where the bucket of some byte below i starts. */
  ghost predicate IsStart(b: Block, a: int, i: int) {
    exists c :: 0 <= c < i && CountLess(b, c, |b|) == a
  }

  /** Bucket starts are exactly the rows whose first byte differs from the row before. */
  lemma StartRow(b: Block, f: seq<int>, bits: seq<bool>, a: nat)
    requires InBuckets(b, f) && 0 < a < |b| <= |bits| && (bits[a] <==> IsStart(b, a, 256))
    ensures RowDone(b, f, bits, 1, a)
  {
    var n, x, y := |b|, b[f[a - 1]], b[f[a]];
    assert Cmp(b, f[a - 1], f[a], 1) == if x < y then -1 else if x > y then 1 else 0;
    assert CountLess(b, x, n) <= a - 1 < CountLess(b, x as int + 1, n);
    assert CountLess(b, y, n) <= a < CountLess(b, y as int + 1, n);
    if y < x {
      LessMono(b, y as int + 1, x);
    } else if x < y {
      LessMono(b, x as int + 1, y);
      assert CountLess(b, y, n) == a;
    } else if IsStart(b, a, 256) {
      var c :| 0 <= c < 256 && CountLess(b, c, n) == a;
      if c <= x { LessMono(b, c, x); } else { LessMono(b, x as int + 1, c); }
    }
  }

  lemma RadixDepth(b: Block, f: seq<int>, bits: seq<bool>)
    requires IsPerm(f) && InBuckets(b, f) && Sentinels(bits, |b|)
    requires forall a :: 0 <= a < |b| ==> (bits[a] <==> IsStart(b, a, 256))
    ensures Depth(b, f, bits, 1)
  {
    CountLessAll(b, |b|);
    assert CountLess(b, 0, |b|) == 0;
    assert IsStart(b, 0, 256);
    forall a | 0 < a < |f| ensures RowDone(b, f, bits, 1, a) {
      StartRow(b, f, bits, a);
    }
  }

  /** Byte counts, then cumulative counts: ftab[i] rows hold a byte of at most i. */
  method CountBytes(block: array<Byte>, b: Block, ftab: array<int>, ftabCopy: array<int>)
    requires b == block[..] && ftab.Length == 257 && ftabCopy.Length == 256 && ftab != ftabCopy
    modifies ftab, ftabCopy
    ensures forall c :: 0 <= c < 256 ==> ftabCopy[c] == CountEq(b, c, |b|)
    ensures forall c :: 0 <= c < 257 ==> ftab[c] == CountLess(b, c + 1, |b|)
  {
    var n := block.Length;
    for i := 0 to 257
      invariant forall c :: 0 <= c < i ==> ftab[c] == 0
    {
      ftab[i] := 0;
    }
    for i := 0 to n
      invariant forall c :: 0 <= c < 256 ==> ftab[c] == CountEq(b, c, i)
      invariant ftab[256] == 0
    {
      ftab[block[i]] := ftab[block[i]] + 1;
    }
    for i := 0 to 256
      invariant forall c :: 0 <= c < i ==> ftabCopy[c] == CountEq(b, c, n)
      invariant forall c :: 0 <= c < 256 ==> ftab[c] == CountEq(b, c, n)
      invariant ftab[256] == 0
    {
      ftabCopy[i] := ftab[i];
    }
    CountLessAll(b, n);
    CountLessStep(b, 0, n);
    for i := 1 to 257
      invariant forall c :: 0 <= c < i ==> ftab[c] == CountLess(b, c + 1, n)
      invariant forall c :: i <= c < 256 ==> ftab[c] == CountEq(b, c, n)
      invariant i <= 256 ==> ftab[256] == 0
      invariant forall c :: 0 <= c < 256 ==> ftabCopy[c] == CountEq(b, c, n)
    {
      CountLessStep(b, i, n);
      CountEq256(b, n);
      ftab[i] := ftab[i] + ftab[i - 1];
    }
  }

  lemma {:induction false} CountEq256(l: seq<Byte>, k: nat)
    requires k <= |l|
    ensures CountEq(l, 256, k) == 0
  {
    if k > 0 { CountEq256(l, k - 1); }
  }

  /** Place every position; each ftab entry ends as the start of its bucket. */
  method PlaceBytes(block: array<Byte>, b: Block, ftab: array<int>, fmap: array<int>)
    requires b == block[..] && ftab.Length == 257 && fmap.Length == |b| && ftab != fmap
    requires forall c :: 0 <= c < 257 ==> ftab[c] == CountLess(b, c + 1, |b|)
    modifies ftab, fmap
    ensures forall c :: 0 <= c < 256 ==> ftab[c] == CountLess(b, c, |b|)
    ensures IsPerm(fmap[..]) && InBuckets(b, fmap[..])
  {
    var n := block.Length;
    for i := 0 to n
      invariant forall c :: 0 <= c < 256 ==> ftab[c] == CountLess(b, c + 1, n) - CountEq(b, c, i)
      invariant forall k :: 0 <= k < i ==> (SlotBound(b, k); fmap[Slot(b, k)] == k)
    {
      var j := block[i];
      var k := ftab[j] - 1;
      assert k == Slot(b, i);
      SlotBound(b, i);
      forall m | 0 <= m < i ensures Slot(b, m) != k { SlotDistinct(b, m, i); }
      ftab[j] := k;
      fmap[k] := i;
    }
    forall i | 0 <= i < n ensures 0 <= Slot(b, i) < n && fmap[..][Slot(b, i)] == i { SlotBound(b, i); }
    SlotsFill(b, fmap[..]);
    forall c | 0 <= c < 256 ensures ftab[c] == CountLess(b, c, n) { CountLessStep(b, c, n); }
  }

  /** Clear bhtab, set the bucket starts, then the sentinel bits after the block. */
  method InitHeaders(b: Block, ftab: array<int>, bits: array<bool>, n: nat)
    requires n == |b| && ftab.Length == 257 && bits.Length % 32 == 0 && bits.Length >= 32 * (n / 32 + 3)
    requires forall c :: 0 <= c < 256 ==> ftab[c] == CountLess(b, c, n)
    modifies bits
    ensures Sentinels(bits[..], n)
    ensures forall a :: 0 <= a < n ==> (bits[a] <==> IsStart(b, a, 256))
  {
    var nBhtab := 2 + n / 32;
    for i := 0 to 32 * nBhtab
      invariant forall a :: 0 <= a < i ==> !bits[a]
    {
      bits[i] := false;
    }
    for i := 0 to 256
      invariant forall a :: 0 <= a < n ==> (bits[a] <==> IsStart(b, a, i))
    {
      StartsGrow(b, i);
      bits[ftab[i]] := true;
    }
    for i := 0 to 32
      invariant forall a :: 0 <= a < n ==> (bits[a] <==> IsStart(b, a, 256))
      invariant forall k :: 0 <= k < i ==> bits[n + 2 * k] && !bits[n + 2 * k + 1]
    {
      bits[n + 2 * i] := true;
      bits[n + 2 * i + 1] := false;
    }
  }

  lemma StartsGrow(b: Block, i: nat)
    ensures forall a :: IsStart(b, a, i + 1) <==> IsStart(b, a, i) || CountLess(b, i, |b|) == a
  {
    forall a ensures IsStart(b, a, i + 1) <==> IsStart(b, a, i) || CountLess(b, i, |b|) == a {
      if IsStart(b, a, i + 1) {
        var c :| 0 <= c < i + 1 && CountLess(b, c, |b|) == a;
        assert c < i ==> IsStart(b, a, i);
      }
      if IsStart(b, a, i) {
        var c :| 0 <= c < i && CountLess(b, c, |b|) == a;
        assert 0 <= c < i + 1 && CountLess(b, c, |b|) == a;
      }
      if CountLess(b, i, |b|) == a {
        assert 0 <= i < i + 1 && CountLess(b, i, |b|) == a;
      }
    }
  }

  // ---------------------------------------------------------------- the whole sort

  /** Rows in order to depth h with h past the block length, or all classes single: sorted. */
  lemma DepthSorted(b: Block, f: seq<int>, bits: seq<bool>, h: nat)
    requires Depth(b, f, bits, h)
    requires h > |b| || forall a :: 0 < a < |b| ==> bits[a]
    ensures SortedRotations(b, f)
  {
    forall i, j | 0 <= i < j < |f| ensures RowLe(b, f, i, j) {
      SortedPair(b, f, bits, h, i, j);
    }
  }

  lemma {:induction false} SortedPair(b: Block, f: seq<int>, bits: seq<bool>, h: nat, i: nat, j: nat)
    requires Depth(b, f, bits, h) && i < j < |b|
    requires h > |b| || forall a :: 0 < a < |b| ==> bits[a]
    ensures Cmp(b, f[i], f[j], |b|) <= 0
    decreases j
  {
    var n := |b|;
    assert RowDone(b, f, bits, h, j);
    assert Cmp(b, f[j - 1], f[j], n) <= 0 by {
      if h > n {
        CmpPrefix(b, f[j - 1], f[j], n, h);
      } else {
        CmpPrefix(b, f[j - 1], f[j], h, n);
      }
    }
    if i < j - 1 {
      SortedPair(b, f, bits, h, i, j - 1);
      CmpTrans(b, f[i], f[j - 1], f[j], n);
    }
  }

  /** The bytes under eclass are overwritten: afterwards they may be anything. */
  method Scribble(block: array<Byte>)
    modifies block
  {
    var i := 0;
    while i < block.Length {
      block[i] := *;
      i := i + 1;
    }
  }

  /** Rebuild the block from the sorted order and the byte counts. */
  method Reconstruct(block: array<Byte>, fmap: array<int>, ftabCopy: array<int>, ghost b: Block)
    requires block.Length == fmap.Length == |b| && ftabCopy.Length == 256 && fmap != ftabCopy
    requires block as object != fmap && block as object != ftabCopy
    requires IsPerm(fmap[..]) && InBuckets(b, fmap[..])
    requires forall c :: 0 <= c < 256 ==> ftabCopy[c] == CountEq(b, c, |b|)
    modifies block, ftabCopy
    ensures block[..] == b
  {
    var n := block.Length;
    ghost var f := fmap[..];
    CountLessAll(b, n);
    CountLessStep(b, 0, n);
    var j := 0;
    for i := 0 to n
      invariant 0 <= j < 256
      invariant CountLess(b, j, n) <= i <= CountLess(b, j + 1, n) && ftabCopy[j] == CountLess(b, j + 1, n) - i
      invariant forall c :: j < c < 256 ==> ftabCopy[c] == CountEq(b, c, n)
      invariant forall a :: 0 <= a < i ==> block[f[a]] == b[f[a]]
    {
      while ftabCopy[j] == 0
        invariant 0 <= j < 256
        invariant CountLess(b, j, n) <= i <= CountLess(b, j + 1, n) && ftabCopy[j] == CountLess(b, j + 1, n) - i
        invariant forall c :: j < c < 256 ==> ftabCopy[c] == CountEq(b, c, n)
        invariant forall a :: 0 <= a < i ==> block[f[a]] == b[f[a]]
        decreases 256 - j
      {
        CountLessStep(b, j + 1, n);
        j := j + 1;
      }
      RowByte(b, f, i, j);
      ftabCopy[j] := ftabCopy[j] - 1;
      block[fmap[i]] := j;
    }
    forall x | 0 <= x < n ensures block[x] == b[x] {
      var a := Index(f, x);
    }
  }

  /** The bucket that contains row i names its byte. */
  lemma RowByte(b: Block, f: seq<int>, i: nat, j: nat)
    requires InBuckets(b, f) && i < |b| && CountLess(b, j, |b|) <= i < CountLess(b, j + 1, |b|)
    ensures b[f[i]] == j
  {
    var c := b[f[i]];
    assert CountLess(b, c, |b|) <= i < CountLess(b, c as int + 1, |b|);
    if c < j { LessMono(b, c as int + 1, j); }
    if j < c { LessMono(b, j + 1, c); }
  }

  /**
   fallbackSort: for every non-empty block, fmap ends as a permutation listing the rotations in
   non-descending order, and the block, destroyed on the way, is back.
   */
  method Sort(block: array<Byte>, fmap: array<int>, eclass: array<int>, bits: array<bool>)
    requires 0 < block.Length == fmap.Length == eclass.Length < 0x8000_0000 && fmap != eclass
    requires block as object != fmap && block as object != eclass
    requires bits.Length % 32 == 0 && bits.Length >= 32 * (block.Length / 32 + 3)
    modifies block, fmap, eclass, bits
    ensures block[..] == old(block[..])
    ensures SortedRotations(old(block[..]), fmap[..])
  {
    var n := block.Length;
    var b: Block := block[..];
    var ftab, ftabCopy := new int[257], new int[256];
    CountBytes(block, b, ftab, ftabCopy);
    PlaceBytes(block, b, ftab, fmap);
    InitHeaders(b, ftab, bits, n);
    RadixDepth(b, fmap[..], bits[..]);
    hide Depth, SortedRotations, InBuckets;
    var h := 1;
    Scribble(block);
    while true
      invariant 1 <= h <= n
      invariant Depth(b, fmap[..], bits[..], h)
      invariant forall c :: 0 <= c < 256 ==> ftabCopy[c] == CountEq(b, c, n)
      decreases n - h
    {
      Classify(b, fmap, bits, eclass, h);
      var nNotDone := Pass(b, fmap, eclass, bits, n, h);
      h := 2 * h;
      if h > n || nNotDone == 0 { break; }
    }
    DepthSorted(b, fmap[..], bits[..], h);
    Reconstruct(block, fmap, ftabCopy, b);
  }
}
