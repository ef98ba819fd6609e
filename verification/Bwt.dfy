/**
 The Burrows-Wheeler transform as bzip2 uses it: the last column of the sorted rotations,
 the counting sort that builds the T^-1 vector, and the walk that gives the block back.
 */
module Bwt {
  import opened Permutations
  import opened Rotations

  /** The last column: the byte before each rotation's start, in sorted order. */
  function LastColumn(b: Block, ptr: seq<int>): (l: Block)
    requires |ptr| == |b| && InRange(ptr, 0, |b|)
    ensures |l| == |b|
    ensures forall i :: 0 <= i < |b| ==> l[i] == b[Prev(|b|, ptr[i])]
  {
    seq(|b|, i requires 0 <= i < |b| => b[Prev(|b|, ptr[i])])
  }

  /** Occurrences of c among the first k bytes of l. */
  function CountEq(l: seq<Byte>, c: int, k: nat): (r: nat)
    requires k <= |l|
    ensures r <= k
  {
    if k == 0 then 0 else CountEq(l, c, k - 1) + if l[k - 1] == c then 1 else 0
  }

  /** Bytes below c among the first k bytes of l. */
  function CountLess(l: seq<Byte>, c: int, k: nat): (r: nat)
    requires k <= |l|
    ensures r <= k
  {
    if k == 0 then 0 else CountLess(l, c, k - 1) + if l[k - 1] < c then 1 else 0
  }

  lemma {:induction false} CountLessStep(l: seq<Byte>, c: int, k: nat)
    requires k <= |l|
    ensures CountLess(l, c + 1, k) == CountLess(l, c, k) + CountEq(l, c, k)
  {
    if k > 0 {
      CountLessStep(l, c, k - 1);
    }
  }

  lemma {:induction false} CountLessAll(l: seq<Byte>, k: nat)
    requires k <= |l|
    ensures CountLess(l, 0, k) == 0 && CountLess(l, 256, k) == k
  {
    if k > 0 {
      CountLessAll(l, k - 1);
    }
  }

  lemma {:induction false} CountEqMono(l: seq<Byte>, c: int, j: nat, k: nat)
    requires j <= k <= |l|
    ensures CountEq(l, c, j) <= CountEq(l, c, k)
    ensures j < k && l[j] == c ==> CountEq(l, c, j) < CountEq(l, c, k)
    decreases k
  {
    if j < k {
      CountEqMono(l, c, j, k - 1);
    }
  }

  lemma {:induction false} CountLessMono(l: seq<Byte>, c: int, d: int, k: nat)
    requires k <= |l| && c < d
    ensures CountLess(l, c, k) + CountEq(l, c, k) <= CountLess(l, d, k)
  {
    if k > 0 {
      CountLessMono(l, c, d, k - 1);
    }
  }

  /** Row of the first column that holds the same occurrence of a byte as row k of the last. */
  function LF(l: seq<Byte>, k: nat): (r: nat)
    requires k < |l|
  {
    CountLess(l, l[k], |l|) + CountEq(l, l[k], k)
  }

  lemma LFBound(l: seq<Byte>, k: nat)
    requires k < |l|
    ensures LF(l, k) < |l|
    ensures LF(l, k) < CountLess(l, l[k] as int + 1, |l|)
  {
    var c := l[k];
    CountEqMono(l, c, k, |l|);
    CountLessStep(l, c, |l|);
  }

  /** LF is the stable counting sort: it keeps byte order, and position order within a byte. */
  lemma LFMono(l: seq<Byte>, j: nat, k: nat)
    requires j < |l| && k < |l|
    requires l[j] < l[k] || (l[j] == l[k] && j < k)
    ensures LF(l, j) < LF(l, k)
  {
    if l[j] < l[k] {
      CountEqMono(l, l[j], j, |l|);
      CountLessMono(l, l[j], l[k], |l|);
    } else {
      CountEqMono(l, l[j], j, k);
    }
  }

  /** t inverts LF: t[LF(k)] == k for every row k. */
  predicate InvertsLF(l: seq<Byte>, t: seq<int>)
    ensures InvertsLF(l, t) ==> |t| == |l|
  {
    && |t| == |l|
    && forall k :: 0 <= k < |l| ==> (LFBound(l, k); t[LF(l, k)] == k)
  }

  lemma InverseIsPerm(l: Block, t: seq<int>)
    requires InvertsLF(l, t)
    ensures IsPerm(t)
    ensures forall a :: 0 <= a < |t| ==> LF(l, t[a]) == a
  {
    var n := |l|;
    var f := seq(n, k requires 0 <= k < n => LF(l, k));
    forall k | 0 <= k < n ensures 0 <= f[k] < n {
      LFBound(l, k);
    }
    forall j, k | 0 <= j < k < n ensures f[j] != f[k] {
      if l[j] > l[k] { LFMono(l, k, j); } else { LFMono(l, j, k); }
    }
    InversePerm(f, t);
    forall a | 0 <= a < n ensures LF(l, t[a]) == a {
      assert f[t[a]] == a;
    }
  }

  /** Reading rows in the order of t lists the last column sorted and stable. */
  lemma InverseSorted(l: Block, t: seq<int>, a: nat, c: nat)
    requires InvertsLF(l, t) && a < c < |l|
    requires IsPerm(t) && LF(l, t[a]) == a && LF(l, t[c]) == c
    ensures l[t[a]] < l[t[c]] || (l[t[a]] == l[t[c]] && t[a] < t[c])
  {
    if l[t[c]] < l[t[a]] || (l[t[c]] == l[t[a]] && t[c] < t[a]) {
      LFMono(l, t[c], t[a]);
    }
  }

  /** The rotation that row t[a] reaches by stepping back one byte. */
  function Back(b: Block, ptr: seq<int>, t: seq<int>, a: nat): (r: nat)
    requires SortedRotations(b, ptr) && IsPerm(t) && |t| == |b| && a < |b|
    ensures r < |b|
  {
    Prev(|b|, ptr[t[a]])
  }

  lemma BackSorted(b: Block, ptr: seq<int>, t: seq<int>, a: nat, c: nat)
    requires SortedRotations(b, ptr) && InvertsLF(LastColumn(b, ptr), t) && a <= c < |b|
    requires IsPerm(t)
    ensures Cmp(b, Back(b, ptr, t, a), Back(b, ptr, t, c), |b|) <= 0
  {
    var n, l := |b|, LastColumn(b, ptr);
    var x, y := Back(b, ptr, t, a), Back(b, ptr, t, c);
    if a == c {
      CmpSame(b, x, n);
    } else {
      assert l[t[a]] < l[t[c]] || (l[t[a]] == l[t[c]] && t[a] < t[c]) by {
        InverseIsPerm(l, t);
        InverseSorted(l, t, a, c);
      }
      BackOrder(b, ptr, x, y, t[a], t[c]);
    }
  }

  lemma BackOrder(b: Block, ptr: seq<int>, x: nat, y: nat, i: nat, j: nat)
    requires SortedRotations(b, ptr) && i < |b| && j < |b| && x < |b| && y < |b|
    requires x == Prev(|b|, ptr[i]) && y == Prev(|b|, ptr[j])
    requires b[x] < b[y] || (b[x] == b[y] && i < j)
    ensures Cmp(b, x, y, |b|) <= 0
  {
    if b[x] == b[y] {
      assert RowLe(b, ptr, i, j);
      CmpPrefix(b, ptr[i], ptr[j], |b| - 1, |b|);
    }
  }

  /** A row that holds a greater rotation lies further down. */
  lemma RowBelow(b: Block, ptr: seq<int>, i: nat, j: nat)
    requires SortedRotations(b, ptr) && i < |b| && j < |b|
    requires Cmp(b, ptr[i], ptr[j], |b|) < 0
    ensures i < j
  {
    CmpFlip(b, ptr[i], ptr[j], |b|);
    CmpSame(b, ptr[i], |b|);
    assert j < i ==> RowLe(b, ptr, j, i);
  }

  /** No row of the sorted rotations can exceed the row the counting sort pairs it with... */
  lemma BackNotAbove(b: Block, ptr: seq<int>, t: seq<int>, a: nat)
    requires SortedRotations(b, ptr) && InvertsLF(LastColumn(b, ptr), t) && a < |b|
    requires IsPerm(t)
    ensures Cmp(b, ptr[a], Back(b, ptr, t, a), |b|) >= 0
  {
    hide RowLe, InvertsLF, LastColumn, Cmp;
    var n := |b|;
    if Cmp(b, ptr[a], Back(b, ptr, t, a), n) < 0 {
      var rows := seq(n - a, c requires 0 <= c < n - a => Index(ptr, Back(b, ptr, t, a + c)));
      forall c | 0 <= c < n - a ensures a + 1 <= rows[c] < n {
        BackSorted(b, ptr, t, a, a + c);
        CmpTrans(b, ptr[a], Back(b, ptr, t, a), Back(b, ptr, t, a + c), n);
        assert rows[c] == Index(ptr, Back(b, ptr, t, a + c));
        RowBelow(b, ptr, a, rows[c]);
      }
      BackRowsDistinct(b, ptr, t, a, rows);
      Pigeonhole(rows, a + 1, n);
    }
  }

  /** ...nor fall below it. */
  lemma BackNotBelow(b: Block, ptr: seq<int>, t: seq<int>, a: nat)
    requires SortedRotations(b, ptr) && InvertsLF(LastColumn(b, ptr), t) && a < |b|
    requires IsPerm(t)
    ensures Cmp(b, ptr[a], Back(b, ptr, t, a), |b|) <= 0
  {
    hide RowLe, InvertsLF, LastColumn, Cmp;
    var n := |b|;
    if Cmp(b, ptr[a], Back(b, ptr, t, a), n) > 0 {
      CmpFlip(b, ptr[a], Back(b, ptr, t, a), n);
      var rows := seq(a + 1, c requires 0 <= c < a + 1 => Index(ptr, Back(b, ptr, t, c)));
      forall c | 0 <= c < a + 1 ensures 0 <= rows[c] < a {
        BackSorted(b, ptr, t, c, a);
        CmpTrans(b, Back(b, ptr, t, c), Back(b, ptr, t, a), ptr[a], n);
        RowBelow(b, ptr, rows[c], a);
      }
      BackRowsDistinct(b, ptr, t, 0, rows);
      Pigeonhole(rows, 0, a);
    }
  }

  lemma BackRowsDistinct(b: Block, ptr: seq<int>, t: seq<int>, from: nat, rows: seq<int>)
    requires SortedRotations(b, ptr) && IsPerm(t) && |t| == |b|
    requires from + |rows| <= |b|
    requires forall c :: 0 <= c < |rows| ==> rows[c] == Index(ptr, Back(b, ptr, t, from + c))
    ensures Distinct(rows)
  {
    forall c, d | 0 <= c < d < |rows| ensures rows[c] != rows[d] {
      var x, y := t[from + c], t[from + d];
      assert x != y;
      assert ptr[x] != ptr[y];
      assert Back(b, ptr, t, from + c) != Back(b, ptr, t, from + d);
    }
  }

  /**
   Row t[a] holds a rotation equal, as a string, to the one after row a's: stepping along t
   advances every sorted row by one byte even when rotations tie.
   */
  lemma StepAdvances(b: Block, ptr: seq<int>, t: seq<int>, a: nat)
    requires SortedRotations(b, ptr) && InvertsLF(LastColumn(b, ptr), t) && a < |b|
    ensures 0 <= t[a] < |b|
    ensures Cmp(b, Next(|b|, ptr[a]), ptr[t[a]], |b|) == 0
  {
    InverseIsPerm(LastColumn(b, ptr), t);
    BackNotAbove(b, ptr, t, a);
    BackNotBelow(b, ptr, t, a);
    CmpEqualNext(b, ptr[a], Back(b, ptr, t, a));
  }

  /** The bytes read by k steps of the decoder's walk from row r. */
  function Walk(l: seq<Byte>, t: seq<int>, r: nat, k: nat): (s: seq<Byte>)
    requires |t| == |l| && InRange(t, 0, |l|) && r < |l|
    ensures |s| == k
    decreases k
  {
    if k == 0 then [] else [l[r]] + Walk(l, t, t[r], k - 1)
  }

  /** A walk started where the row equals rotation j reads the block from byte j - 1 on. */
  lemma {:induction false} WalkReads(b: Block, ptr: seq<int>, t: seq<int>, r: nat, j: nat, k: nat)
    requires SortedRotations(b, ptr) && InvertsLF(LastColumn(b, ptr), t)
    requires r < |b| && 1 <= j && j - 1 + k <= |b| && j <= |b|
    requires Cmp(b, Shift(|b|, 0, j), ptr[r], |b|) == 0
    requires IsPerm(t)
    ensures Walk(LastColumn(b, ptr), t, r, k) == b[j - 1..j - 1 + k]
    decreases k
  {
    hide Cmp, RowLe, InvertsLF;
    var n, l := |b|, LastColumn(b, ptr);
    if k > 0 {
      var i := Shift(n, 0, j);
      CmpEqualAt(b, i, ptr[r], n, n - 1);
      assert l[r] == b[j - 1];
      if k > 1 {
        StepAdvances(b, ptr, t, r);
        CmpEqualNext(b, i, ptr[r]);
        CmpTrans(b, Next(n, i), Next(n, ptr[r]), ptr[t[r]], n);
        WalkReads(b, ptr, t, t[r], j + 1, k - 1);
        assert b[j - 1..j - 1 + k] == [b[j - 1]] + b[j..j + (k - 1)];
      } else {
        assert b[j - 1..j] == [b[j - 1]];
        assert Walk(l, t, t[r], 0) == [];
      }
    }
  }

  /**
   Burrows-Wheeler inversion.  Whatever order the sort gave to equal rotations, the walk from
   t[origPtr] over the last column returns the block.
   */
  lemma InversionTheorem(b: Block, ptr: seq<int>, t: seq<int>, origPtr: nat)
    requires SortedRotations(b, ptr) && InvertsLF(LastColumn(b, ptr), t)
    requires origPtr < |b| && ptr[origPtr] == 0
    ensures IsPerm(t)
    ensures Walk(LastColumn(b, ptr), t, t[origPtr], |b|) == b
  {
    var n := |b|;
    InverseIsPerm(LastColumn(b, ptr), t);
    StepAdvances(b, ptr, t, origPtr);
    assert Shift(n, 0, 1) == Next(n, 0);
    WalkReads(b, ptr, t, t[origPtr], 1, n);
    assert b[0..n] == b;
  }
}
