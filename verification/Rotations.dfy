/**
 Cyclic rotations of a block and their lexicographic order.  A rotation is named by its
 start index; all index arithmetic wraps by one conditional subtraction, as in the C code.
 */
module Rotations {
  import opened Permutations

  type Byte = x: int | 0 <= x < 256

  type Block = b: seq<Byte> | |b| > 0 witness [0]

  function Next(n: nat, i: nat): (r: nat)
    requires i < n
    ensures r < n
  {
    if i + 1 == n then 0 else i + 1
  }

  function Prev(n: nat, i: nat): (r: nat)
    requires i < n
    ensures r < n && Next(n, r) == i
  {
    if i == 0 then n - 1 else i - 1
  }

  /** i advanced by h <= n places around the block. */
  function Shift(n: nat, i: nat, h: nat): (r: nat)
    requires i < n && h <= n
    ensures r < n
  {
    if i + h < n then i + h else i + h - n
  }

  /** Sign of the comparison of the first k bytes of rotations i and j. */
  function Cmp(b: Block, i: nat, j: nat, k: nat): (r: int)
    requires i < |b| && j < |b|
    ensures -1 <= r <= 1
    decreases k
  {
    if k == 0 then 0
    else if b[i] < b[j] then -1
    else if b[i] > b[j] then 1
    else Cmp(b, Next(|b|, i), Next(|b|, j), k - 1)
  }

  lemma {:induction false} CmpFlip(b: Block, i: nat, j: nat, k: nat)
    requires i < |b| && j < |b|
    ensures Cmp(b, i, j, k) == -Cmp(b, j, i, k)
    decreases k
  {
    if k > 0 {
      CmpFlip(b, Next(|b|, i), Next(|b|, j), k - 1);
    }
  }

  lemma {:induction false} CmpSame(b: Block, i: nat, k: nat)
    requires i < |b|
    ensures Cmp(b, i, i, k) == 0
    decreases k
  {
    if k > 0 {
      CmpSame(b, Next(|b|, i), k - 1);
    }
  }

  /** Transitivity, with strictness: x <= y <= z, and x < z when either step is strict. */
  lemma {:induction false} CmpTrans(b: Block, x: nat, y: nat, z: nat, k: nat)
    requires x < |b| && y < |b| && z < |b|
    requires Cmp(b, x, y, k) <= 0 && Cmp(b, y, z, k) <= 0
    ensures Cmp(b, x, z, k) <= 0
    ensures Cmp(b, x, y, k) < 0 || Cmp(b, y, z, k) < 0 ==> Cmp(b, x, z, k) < 0
    ensures Cmp(b, x, y, k) == 0 && Cmp(b, y, z, k) == 0 ==> Cmp(b, x, z, k) == 0
    decreases k
  {
    if k > 0 && b[x] == b[y] == b[z] {
      CmpTrans(b, Next(|b|, x), Next(|b|, y), Next(|b|, z), k - 1);
    }
  }

  /** Prefix doubling: comparing h + k bytes is comparing h bytes, then k bytes h places on. */
  lemma {:induction false} CmpSplit(b: Block, i: nat, j: nat, h: nat, k: nat)
    requires i < |b| && j < |b| && h <= |b|
    ensures Cmp(b, i, j, h + k) ==
            if Cmp(b, i, j, h) != 0 then Cmp(b, i, j, h)
            else Cmp(b, Shift(|b|, i, h), Shift(|b|, j, h), k)
    decreases h
  {
    if h > 0 && b[i] == b[j] {
      CmpSplit(b, Next(|b|, i), Next(|b|, j), h - 1, k);
    }
  }

  /** A difference found within k bytes is the difference found within any more bytes. */
  lemma {:induction false} CmpPrefix(b: Block, i: nat, j: nat, k: nat, m: nat)
    requires i < |b| && j < |b| && k <= m
    ensures Cmp(b, i, j, k) != 0 ==> Cmp(b, i, j, m) == Cmp(b, i, j, k)
    ensures Cmp(b, i, j, m) <= 0 ==> Cmp(b, i, j, k) <= 0
    ensures Cmp(b, i, j, m) >= 0 ==> Cmp(b, i, j, k) >= 0
    ensures Cmp(b, i, j, m) == 0 ==> Cmp(b, i, j, k) == 0
    decreases k
  {
    if k > 0 && b[i] == b[j] {
      CmpPrefix(b, Next(|b|, i), Next(|b|, j), k - 1, m - 1);
    }
  }

  /** Rotations that compare equal over k bytes agree at each of them. */
  lemma {:induction false} CmpEqualAt(b: Block, i: nat, j: nat, k: nat, m: nat)
    requires i < |b| && j < |b| && m < k && m <= |b|
    requires Cmp(b, i, j, k) == 0
    ensures b[Shift(|b|, i, m)] == b[Shift(|b|, j, m)]
    decreases m
  {
    if m > 0 {
      CmpEqualAt(b, Next(|b|, i), Next(|b|, j), k - 1, m - 1);
    }
  }

  lemma CmpFirst(b: Block, i: nat, j: nat, k: nat)
    requires i < |b| && j < |b| && k > 0
    ensures Cmp(b, i, j, k) == 0 <==> b[i] == b[j] && Cmp(b, Next(|b|, i), Next(|b|, j), k - 1) == 0
  {
  }

  /** Equality of rotations is kept by advancing both: the byte that leaves comes back at the end. */
  lemma CmpEqualNext(b: Block, i: nat, j: nat)
    requires i < |b| && j < |b|
    requires Cmp(b, i, j, |b|) == 0
    ensures Cmp(b, Next(|b|, i), Next(|b|, j), |b|) == 0
  {
    hide Cmp;
    var n := |b|;
    var i', j' := Next(n, i), Next(n, j);
    CmpFirst(b, i, j, n);
    CmpSplit(b, i', j', n - 1, 1);
    assert Shift(n, i', n - 1) == i && Shift(n, j', n - 1) == j;
    CmpFirst(b, i, j, 1);
    CmpNone(b, i', j');
  }

  lemma CmpNone(b: Block, i: nat, j: nat)
    requires i < |b| && j < |b|
    ensures Cmp(b, i, j, 0) == 0
  {
  }

  /** Rows i and j of ptr hold rotations in non-descending order. */
  predicate RowLe(b: Block, ptr: seq<int>, i: nat, j: nat)
    requires i < |ptr| && j < |ptr| && InRange(ptr, 0, |b|)
  {
    Cmp(b, ptr[i], ptr[j], |b|) <= 0
  }

  /** ptr lists all rotations in non-descending order; equal rotations may come in any order. */
  predicate SortedRotations(b: Block, ptr: seq<int>) {
    && |ptr| == |b|
    && IsPerm(ptr)
    && (forall i, j :: 0 <= i < j < |ptr| ==> RowLe(b, ptr, i, j))
  }
}
