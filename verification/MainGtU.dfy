/**
 * The comparison of bzip2's main sort (blocksort.c): rotations are compared
 * byte by byte, helped by quadrant, which caches orderings that sorting has
 * already found.  Block and quadrant are repeated beyond the end of the
 * block so that indices need wrapping only now and then.
 */
module MainGtU {
  import opened Powers
  import opened Permutations
  import opened Rotations

  const OVERSHOOT: nat := 34   // BZ_N_RADIX + BZ_N_QSORT + BZ_N_SHELL + 2

  /** The place in the block that an index with overshoot means. */
  function Wrap(n: nat, p: nat): (r: nat)
    requires p < 2 * n
    ensures r < n
  {
    if p < n then p else p - n
  }

  /** a repeats its first entries beyond n. */
  predicate Mirrored(a: seq<int>, n: nat) {
    OVERSHOOT <= n && |a| == n + OVERSHOOT && forall p :: n <= p < n + OVERSHOOT ==> a[p] == a[p - n]
  }

  /** Unequal quadrants at equal bytes never contradict the order of rotations. */
  ghost predicate Consistent(b: Block, q: seq<int>) {
    |q| >= |b| && forall i: nat, j: nat :: i < |b| && j < |b| && b[i] == b[j] && q[i] < q[j] ==> RotLe(b, i, j)
  }

  predicate RotLe(b: Block, i: nat, j: nat)
    requires i < |b| && j < |b|
  {
    Cmp(b, i, j, |b|) <= 0
  }

  /** With m equal bytes behind, the rotations are decided by what lies ahead. */
  ghost predicate Undecided(b: Block, d: int, x: nat, y: nat, m: nat)
    requires x < |b| && y < |b|
  {
    d != 0 ==> m < |b| && Cmp(b, x, y, |b| - m) == d
  }

  lemma Advance(b: Block, d: int, x: nat, y: nat, m: nat)
    requires x < |b| && y < |b| && Undecided(b, d, x, y, m) && b[x] == b[y]
    ensures Undecided(b, d, Next(|b|, x), Next(|b|, y), m + 1)
  {
  }

  lemma ByByte(b: Block, d: int, x: nat, y: nat, m: nat)
    requires x < |b| && y < |b| && Undecided(b, d, x, y, m) && b[x] != b[y] && d != 0
    ensures d == if b[x] > b[y] then 1 else -1
  {
  }

  lemma ByQuadrant(b: Block, q: seq<int>, d: int, x: nat, y: nat, m: nat)
    requires x < |b| && y < |b| && Undecided(b, d, x, y, m) && d != 0
    requires Consistent(b, q) && b[x] == b[y] && q[x] != q[y]
    ensures d == if q[x] > q[y] then 1 else -1
  {
    hide Cmp;
    var n := |b|;
    CmpPrefix(b, x, y, n - m, n);
    if q[x] > q[y] {
      assert RotLe(b, y, x);
      CmpFlip(b, x, y, n);
    } else {
      assert RotLe(b, x, y);
    }
  }

  lemma Mirror(a: seq<int>, n: nat, p: nat)
    requires Mirrored(a, n) && p < n + OVERSHOOT
    ensures a[p] == a[Wrap(n, p)]
  {
  }

  datatype Verdict = Greater | NotGreater | Open

  /** Is the verdict right for rotations whose comparison gives d? */
  predicate Right(v: Verdict, d: int) {
    d != 0 && !v.Open? ==> (v.Greater? <==> d > 0)
  }

  /** Bytes alone, count of them. */
  method CompareBytes(block: array<int>, ghost b: Block, n: nat, i1: nat, i2: nat, count: nat, ghost d: int,
                      ghost m: nat)
    returns (v: Verdict)
    requires n == |b| && Mirrored(block[..], n) && block[..n] == b
    requires i1 + count <= n + OVERSHOOT && i2 + count <= n + OVERSHOOT && i1 < n && i2 < n && count <= OVERSHOOT
    requires Undecided(b, d, i1, i2, m)
    ensures Right(v, d)
    ensures v.Open? && count < OVERSHOOT ==> Undecided(b, d, Wrap(n, i1 + count), Wrap(n, i2 + count), m + count)
  {
    hide Undecided, Mirrored;
    MirrorSize(block[..], n);
    for k := 0 to count
      invariant Undecided(b, d, Wrap(n, i1 + k), Wrap(n, i2 + k), m + k)
    {
      var c1, c2 := block[i1 + k], block[i2 + k];
      Same(block[..], b, n, i1 + k);
      Same(block[..], b, n, i2 + k);
      if c1 != c2 {
        if d != 0 { ByByte(b, d, Wrap(n, i1 + k), Wrap(n, i2 + k), m + k); }
        return if c1 > c2 then Greater else NotGreater;
      }
      Advance(b, d, Wrap(n, i1 + k), Wrap(n, i2 + k), m + k);
    }
    return Open;
  }

  lemma MirrorSize(a: seq<int>, n: nat)
    requires Mirrored(a, n)
    ensures |a| == n + OVERSHOOT && OVERSHOOT <= n
  {
  }

  lemma Same(a: seq<int>, b: Block, n: nat, p: nat)
    requires Mirrored(a, n) && a[..n] == b && p < n + OVERSHOOT
    ensures n == |b| && a[p] == b[Wrap(n, p)]
  {
    assert forall i :: 0 <= i < n ==> a[i] == a[..n][i];
  }

  /** Bytes and quadrants, eight of each. */
  method CompareEight(block: array<int>, quadrant: array<int>, ghost b: Block, n: nat, i1: nat, i2: nat, ghost d: int,
                      ghost m: nat)
    returns (v: Verdict)
    requires n == |b| && Mirrored(block[..], n) && block[..n] == b
    requires Mirrored(quadrant[..], n) && Consistent(b, quadrant[..])
    requires i1 + 8 < n + OVERSHOOT && i2 + 8 < n + OVERSHOOT
    requires Undecided(b, d, Wrap(n, i1), Wrap(n, i2), m)
    ensures Right(v, d)
    ensures v.Open? ==> Undecided(b, d, Wrap(n, i1 + 8), Wrap(n, i2 + 8), m + 8)
  {
    hide Undecided, Mirrored, Consistent;
    MirrorSize(block[..], n);
    MirrorSize(quadrant[..], n);
    for k := 0 to 8
      invariant Undecided(b, d, Wrap(n, i1 + k), Wrap(n, i2 + k), m + k)
    {
      ghost var x, y := Wrap(n, i1 + k), Wrap(n, i2 + k);
      var c1, c2 := block[i1 + k], block[i2 + k];
      Same(block[..], b, n, i1 + k);
      Same(block[..], b, n, i2 + k);
      if c1 != c2 {
        if d != 0 { ByByte(b, d, x, y, m + k); }
        return if c1 > c2 then Greater else NotGreater;
      }
      var s1, s2 := quadrant[i1 + k], quadrant[i2 + k];
      Mirror(quadrant[..], n, i1 + k);
      Mirror(quadrant[..], n, i2 + k);
      if s1 != s2 {
        if d != 0 { ByQuadrant(b, quadrant[..], d, x, y, m + k); }
        return if s1 > s2 then Greater else NotGreater;
      }
      Advance(b, d, x, y, m + k);
    }
    return Open;
  }

  /** mainGtU: right whenever the rotations differ, however quadrant is filled. */
  method GtU(start1: nat, start2: nat, block: array<int>, quadrant: array<int>, nblock: nat, budget: int,
             ghost b: Block)
    returns (r: bool, budget': int)
    requires nblock == |b| && Mirrored(block[..], nblock) && block[..nblock] == b
    requires Mirrored(quadrant[..], nblock) && Consistent(b, quadrant[..])
    requires start1 < nblock && start2 < nblock
    ensures Cmp(b, start1, start2, nblock) != 0 ==> (r <==> Cmp(b, start1, start2, nblock) > 0)
    ensures 0 <= budget - budget' <= nblock / 8 + 2
  {
    hide Cmp, Mirrored, Consistent;
    MirrorSize(block[..], nblock);
    ghost var d, m := Cmp(b, start1, start2, nblock), 0;
    budget' := budget;
    UndecidedStart(b, start1, start2);
    var v := CompareBytes(block, b, nblock, start1, start2, 12, d, 0);
    if !v.Open? {
      return v.Greater?, budget';
    }
    var i1: nat, i2: nat, k: int := start1 + 12, start2 + 12, nblock + 8;
    m := 12;
    while true
      invariant i1 < nblock + 12 && i2 < nblock + 12 && m + k == nblock + 20 && m == 12 + 8 * (budget - budget') && k >= 0
      invariant Undecided(b, d, Wrap(nblock, i1), Wrap(nblock, i2), m)
      decreases k
    {
      v := CompareEight(block, quadrant, b, nblock, i1, i2, d, m);
      if !v.Open? {
        return v.Greater?, budget';
      }
      i1, i2, m := i1 + 8, i2 + 8, m + 8;
      if i1 >= nblock {
        i1 := i1 - nblock;
      }
      if i2 >= nblock {
        i2 := i2 - nblock;
      }
      k := k - 8;
      budget' := budget' - 1;
      if k < 0 {
        break;
      }
    }
    return false, budget';
  }

  lemma UndecidedStart(b: Block, x: nat, y: nat)
    requires x < |b| && y < |b|
    ensures Undecided(b, Cmp(b, x, y, |b|), x, y, 0)
  {
  }

  // ------------------------------------------------------------------
  // The update after a big bucket

  /** All rotations that start with c, in order, at ptr[from..from + size]. */
  ghost predicate BigBucket(b: Block, ptr: seq<int>, c: Byte, from: nat, size: nat) {
    && from + size <= |ptr|
    && (forall k :: from <= k < from + size ==> 0 <= ptr[k] < |b| && b[ptr[k]] == c)
    && (forall j, k :: from <= j < k < from + size ==> ptr[j] != ptr[k] && RotLe(b, ptr[j], ptr[k]))
    && (forall i: nat :: i < |b| && b[i] == c ==> i in ptr[from..from + size])
  }

  /** Quadrants of c's rotations are their shifted ranks; from rank j on they have been set. */
  ghost predicate Ranked(b: Block, ptr: seq<int>, c: Byte, from: nat, size: nat, shift: nat, q0: seq<int>,
                         q: seq<int>, j: nat) {
    && |q| == |q0| >= |b| && from + size <= |ptr| && j <= size && shift > 0
    && (forall k :: from <= k < from + size ==> 0 <= ptr[k] < |b|)
    && (forall k :: from + j <= k < from + size ==> q[ptr[k]] == (k - from) / shift)
    && (forall i :: 0 <= i < |b| && b[i] != c ==> q[i] == q0[i])
  }

  lemma {:induction false} DivMono(x: nat, y: nat, m: nat)
    requires m > 0 && x / m < y / m
    ensures x < y
  {
    if x >= y {
      var dx, dy := x / m, y / m;
      MulMono(dx + 1, dy, m);
      MulSucc(dx, m);
    }
  }

  /** The update keeps quadrant consistent, although the shift may merge ranks. */
  lemma StillConsistent(b: Block, ptr: seq<int>, c: Byte, from: nat, size: nat, shift: nat, q0: seq<int>, q: seq<int>)
    requires Consistent(b, q0) && BigBucket(b, ptr, c, from, size) && Ranked(b, ptr, c, from, size, shift, q0, q, 0)
    ensures Consistent(b, q)
  {
    hide RotLe;
    forall i: nat, j: nat | i < |b| && j < |b| && b[i] == b[j] && q[i] < q[j] ensures RotLe(b, i, j) {
      if b[i] == c {
        var x := RankOf(b, ptr, c, from, size, i);
        var y := RankOf(b, ptr, c, from, size, j);
        DivMono(x - from, y - from, shift);
      }
    }
  }

  lemma RankOf(b: Block, ptr: seq<int>, c: Byte, from: nat, size: nat, i: nat) returns (k: nat)
    requires BigBucket(b, ptr, c, from, size) && i < |b| && b[i] == c
    ensures from <= k < from + size && ptr[k] == i
  {
    var seg := ptr[from..from + size];
    var j :| 0 <= j < |seg| && seg[j] == i;
    k := from + j;
  }

  /** How far ranks must be shifted to fit 16 bits; shift is 2 to the power of shifts. */
  method Shifts(bbSize: nat) returns (shifts: nat, shift: nat)
    ensures shift == Pow2(shifts) && bbSize / shift <= 65534 && (shifts > 0 ==> bbSize / Pow2(shifts - 1) > 65534)
    ensures bbSize > 0 ==> (bbSize - 1) / shift <= 65535
  {
    shifts, shift := 0, 1;
    while bbSize / shift > 65534
      invariant shift == Pow2(shifts) && (shifts > 0 ==> bbSize / Pow2(shifts - 1) > 65534)
      decreases bbSize - shift
    {
      Positive(bbSize, shift);
      shifts := shifts + 1;
      shift := 2 * shift;
    }
    if bbSize > 0 { DivLe(bbSize - 1, bbSize, shift); }
  }

  lemma Positive(x: nat, m: nat)
    requires m > 0 && x / m > 0
    ensures m <= x
  {
    if x < m { DivModUnique(x, m, 0, x); }
  }

  lemma DivLe(x: nat, y: nat, m: nat)
    requires m > 0 && x <= y
    ensures x / m <= y / m
  {
    if x / m > y / m { DivMono(y, x, m); }
  }

  lemma RankStep(b: Block, ptr: seq<int>, c: Byte, from: nat, size: nat, shift: nat, q0: seq<int>, q: seq<int>,
                 q': seq<int>, j: nat)
    requires BigBucket(b, ptr, c, from, size) && Ranked(b, ptr, c, from, size, shift, q0, q, j + 1)
    requires |q'| == |q| && (forall i :: 0 <= i < |b| ==> q'[i] == if i == ptr[from + j] then j / shift else q[i])
    ensures Ranked(b, ptr, c, from, size, shift, q0, q', j)
  {
  }

  /** Set a quadrant, and its copy in the overshoot area. */
  method SetQuadrant(quadrant: array<int>, n: nat, a: nat, v: int)
    requires Mirrored(quadrant[..], n) && a < n
    modifies quadrant
    ensures Mirrored(quadrant[..], n)
    ensures forall i :: 0 <= i < n ==> quadrant[i] == if i == a then v else old(quadrant[i])
  {
    ghost var q := quadrant[..];
    assert forall p :: n <= p < n + OVERSHOOT ==> q[p] == q[p - n];
    quadrant[a] := v;
    if a < OVERSHOOT {
      quadrant[a + n] := v;
    }
  }

  /**
   * Step 3 of mainSort for a big bucket that has been sorted: each of its
   * rotations gets its rank, shifted by as little as makes ranks fit 16 bits,
   * and no other rotation a new quadrant.
   */
  method UpdateQuadrants(ptr: array<int>, quadrant: array<int>, nblock: nat, bbStart: nat, bbSize: nat,
                         ghost b: Block, ghost c: Byte)
    returns (shifts: nat)
    requires ptr != quadrant && nblock == |b| && Mirrored(quadrant[..], nblock) && Consistent(b, quadrant[..])
    requires BigBucket(b, ptr[..], c, bbStart, bbSize)
    modifies quadrant
    ensures Mirrored(quadrant[..], nblock) && Consistent(b, quadrant[..])
    ensures bbSize / Pow2(shifts) <= 65534 && (shifts > 0 ==> bbSize / Pow2(shifts - 1) > 65534)
    ensures forall k :: bbStart <= k < bbStart + bbSize ==>
      0 <= ptr[k] < nblock && quadrant[ptr[k]] == (k - bbStart) / Pow2(shifts) <= 65535
    ensures forall i :: 0 <= i < nblock && i !in ptr[bbStart..bbStart + bbSize] ==> quadrant[i] == old(quadrant[i])
    ensures bbSize <= 65534 ==> forall j, k :: bbStart <= j < k < bbStart + bbSize ==>
      quadrant[ptr[j]] < quadrant[ptr[k]]
  {
    hide Consistent, BigBucket, Ranked, Mirrored, Pow2;
    ghost var q0, p := quadrant[..], ptr[..];
    var shift;
    shifts, shift := Shifts(bbSize);
    MirrorSize(quadrant[..], nblock);
    BucketSize(b, p, c, bbStart, bbSize);
    var j := bbSize;
    RankStart(b, p, c, bbStart, bbSize, shift, q0);
    while j > 0
      invariant 0 <= j <= bbSize && Mirrored(quadrant[..], nblock) && quadrant.Length == |q0|
      invariant Ranked(b, p, c, bbStart, bbSize, shift, q0, quadrant[..], j)
    {
      j := j - 1;
      var a := ptr[bbStart + j];
      ghost var q := quadrant[..];
      SetQuadrant(quadrant, nblock, a, j / shift);
      RankStep(b, p, c, bbStart, bbSize, shift, q0, q, quadrant[..], j);
    }
    StillConsistent(b, p, c, bbStart, bbSize, shift, q0, quadrant[..]);
    RanksSet(b, p, c, bbStart, bbSize, shift, q0, quadrant[..]);
    RanksApart(p, bbStart, bbSize, shifts, quadrant[..]);
  }

  /** In a bucket whose ranks fit, a later rotation has the larger quadrant. */
  lemma RanksApart(ptr: seq<int>, from: nat, size: nat, shifts: nat, q: seq<int>)
    requires from + size <= |ptr| && (shifts > 0 ==> size / Pow2(shifts - 1) > 65534)
    requires forall k :: from <= k < from + size ==> 0 <= ptr[k] < |q| && q[ptr[k]] == (k - from) / Pow2(shifts)
    ensures size <= 65534 ==> forall j, k :: from <= j < k < from + size ==> q[ptr[j]] < q[ptr[k]]
  {
    hide Pow2;
    if size <= 65534 {
      Unshifted(size, shifts);
      RanksRise(ptr, from, size, q);
    }
  }

  /** What the update has written, and that it has written nothing else. */
  lemma RanksSet(b: Block, ptr: seq<int>, c: Byte, from: nat, size: nat, shift: nat, q0: seq<int>, q: seq<int>)
    requires BigBucket(b, ptr, c, from, size) && Ranked(b, ptr, c, from, size, shift, q0, q, 0)
    requires size > 0 ==> (size - 1) / shift <= 65535
    ensures forall k :: from <= k < from + size ==> 0 <= ptr[k] < |b| && q[ptr[k]] == (k - from) / shift <= 65535
    ensures forall i :: 0 <= i < |b| && i !in ptr[from..from + size] ==> q[i] == q0[i]
  {
    hide RotLe;
    forall k | from <= k < from + size ensures 0 <= ptr[k] < |b| && q[ptr[k]] == (k - from) / shift <= 65535 {
      DivLe(k - from, size - 1, shift);
    }
  }

  /** A bucket whose ranks fit as they are is not shifted. */
  lemma Unshifted(size: nat, shifts: nat)
    requires size <= 65534 && (shifts > 0 ==> size / Pow2(shifts - 1) > 65534)
    ensures Pow2(shifts) == 1
  {
    hide Pow2;
    if shifts > 0 { DivSmall(size, Pow2(shifts - 1)); }
    PowZero();
  }

  lemma RanksRise(ptr: seq<int>, from: nat, size: nat, q: seq<int>)
    requires from + size <= |ptr| && forall k :: from <= k < from + size ==>
      0 <= ptr[k] < |q| && q[ptr[k]] == (k - from) / 1
    ensures forall j, k :: from <= j < k < from + size ==> q[ptr[j]] < q[ptr[k]]
  {
  }

  lemma PowZero()
    ensures Pow2(0) == 1
  {
  }

  lemma DivSmall(x: nat, m: nat)
    requires m > 0
    ensures x / m <= x
  {
    MulMono(1, m, x / m);
  }

  lemma BucketSize(b: Block, ptr: seq<int>, c: Byte, from: nat, size: nat)
    requires BigBucket(b, ptr, c, from, size)
    ensures from + size <= |ptr| && forall k :: from <= k < from + size ==> 0 <= ptr[k] < |b|
  {
  }

  lemma RankStart(b: Block, ptr: seq<int>, c: Byte, from: nat, size: nat, shift: nat, q0: seq<int>)
    requires BigBucket(b, ptr, c, from, size) && |q0| >= |b| && shift > 0
    ensures Ranked(b, ptr, c, from, size, shift, q0, q0, size)
  {
  }

  /** Before any bucket is done all quadrants are zero, which contradicts nothing. */
  lemma ZeroConsistent(b: Block, q: seq<int>)
    requires |q| >= |b| && forall i :: 0 <= i < |q| ==> q[i] == 0
    ensures Consistent(b, q)
  {
  }
}
