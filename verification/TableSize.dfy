/**
 How many entries the two-level decoding table of a complete code takes, and that the space inflate
 reserves is enough.  A root table of 2^root entries is followed by a sub-table for every root index
 whose codes are longer; the last code of an index in canonical order, its longest, gives the size.
 */
module TableSize {
  import opened Powers
  import opened CanonicalCode

  /** The length of the code that reaches position e: the least l by which codes up to l take e places. */
  function Reaches(lens: seq<nat>, e: nat, l: nat): (r: nat)
    requires 1 <= l <= MAXBITS
    ensures l <= r <= MAXBITS && (r < MAXBITS ==> Used(lens, r + 1) >= e)
    ensures forall m :: l < m <= r ==> Used(lens, m) < e
    decreases MAXBITS - l
  {
    if l == MAXBITS || Used(lens, l + 1) >= e then l else Reaches(lens, e, l + 1)
  }

  /** The length of the longest code that starts with the root bits of number q. */
  function Deepest(lens: seq<nat>, root: nat, q: nat): (r: nat)
    requires root <= MAXBITS
    ensures 1 <= r <= MAXBITS
  {
    Reaches(lens, (q + 1) * Cell(root), 1)
  }

  /** Entries of the sub-table for q, if there is one. */
  function SubSize(lens: seq<nat>, root: nat, q: nat): (r: nat)
    requires root <= MAXBITS
  {
    if Deepest(lens, root, q) <= root then 0 else Pow2(Deepest(lens, root, q) - root)
  }

  function SubSum(lens: seq<nat>, root: nat, q: nat): (r: nat)
    requires root <= MAXBITS
  {
    if q == 0 then 0 else SubSum(lens, root, q - 1) + SubSize(lens, root, q - 1)
  }

  function Size(lens: seq<nat>, root: nat): (r: nat)
    requires root <= MAXBITS
  {
    Pow2(root) + SubSum(lens, root, Pow2(root))
  }

  lemma {:induction false} SubSumMono(lens: seq<nat>, root: nat, p: nat, q: nat)
    requires root <= MAXBITS && p <= q
    ensures SubSum(lens, root, p) <= SubSum(lens, root, q)
  {
    hide SubSize;
    if p < q { SubSumMono(lens, root, p, q - 1); }
  }

  lemma ReachesIs(lens: seq<nat>, e: nat, l: nat)
    requires 1 <= l <= MAXBITS && Used(lens, l + 1) >= e && (l == 1 || Used(lens, l) < e)
    ensures Reaches(lens, e, 1) == l
  {
    hide Used;
    var r := Reaches(lens, e, 1);
    if r < l { UsedMono(lens, r + 1, l); }
  }

  /** No sub-tables as long as codes of at most root bits take the places. */
  lemma {:induction false} NoSubs(lens: seq<nat>, root: nat, q: nat)
    requires 1 <= root <= MAXBITS && q * Cell(root) <= Used(lens, root + 1)
    ensures SubSum(lens, root, q) == 0
  {
    hide Used, Cell;
    if q > 0 {
      MulMono(q - 1, q, Cell(root));
      NoSubs(lens, root, q - 1);
    }
  }

  // ---------------------------------------------------------------- a bound

  /**
   From the i-th code of length a on, codes fill the places up to e: at least as many as there are
   places of length a, and one more for every bit the last of them is longer.
   */
  lemma {:induction false} FillTo(lens: seq<nat>, a: nat, i: nat, left: nat, e: nat) returns (b: nat, j: nat)
    requires Complete(lens) && 1 <= a <= MAXBITS && i <= Total(lens, a) && left >= 1
    requires PosAt(lens, a, i) + left * Cell(a) == e <= SPACE
    ensures a <= b <= MAXBITS && j <= Total(lens, b) && PosAt(lens, b, j) == e
    ensures Used(lens, b) < e <= Used(lens, b + 1)
    ensures Start(lens, b) + j >= Start(lens, a) + i + left + (b - a)
    decreases MAXBITS - a
  {
    hide Used, Cell, Total, Start, Pow2;
    var t := Total(lens, a);
    UsedNext(lens, a);
    MulMono(0, i, Cell(a));
    MulMono(1, left, Cell(a));
    if left <= t - i {
      b, j := a, i + left;
      MulDist(i, left, Cell(a));
      MulMono(i + left, t, Cell(a));
    } else {
      var more := left - (t - i);
      MulDist(i, left, Cell(a));
      MulDist(t, more, Cell(a));
      MulMono(1, more, Cell(a));
      CellHalves(a);
      MulAssoc(more, 2, Cell(a + 1));
      assert PosAt(lens, a + 1, 0) == Used(lens, a + 1);
      b, j := FillTo(lens, a + 1, 0, 2 * more, e);
      StartNext(lens, a);
    }
  }

  lemma UsedNext(lens: seq<nat>, l: nat)
    requires 1 <= l <= MAXBITS
    ensures Used(lens, l + 1) == Used(lens, l) + Total(lens, l) * Cell(l)
  {
  }

  lemma StartNext(lens: seq<nat>, l: nat)
    requires l >= 1
    ensures Start(lens, l + 1) == Start(lens, l) + Total(lens, l)
  {
  }

  /** What a sub-table of depth x wastes at most. */
  function Waste(x: nat): (r: int) { Pow2(x) - x }

  lemma {:induction false} WasteMono(x: nat, y: nat)
    requires x <= y
    ensures Waste(x) <= Waste(y)
  {
    if x < y { WasteMono(x, y - 1); }
  }

  /** The sub-tables of the first q root indices take no more than their codes, and what the deepest wastes. */
  lemma {:induction false} SubsBound(lens: seq<nat>, root: nat, q: nat) returns (a: nat, i: nat)
    requires Complete(lens) && 1 <= root < MAXBITS && Used(lens, root + 1) <= q * Cell(root) <= SPACE
    ensures root < a <= MAXBITS && i <= Total(lens, a) && PosAt(lens, a, i) == q * Cell(root)
    ensures SubSum(lens, root, q) <= Start(lens, a) + i - Start(lens, root + 1) + Waste(a - root) - 1
  {
    hide Used, Cell, Total, Start, Pow2, Reaches;
    if q * Cell(root) == Used(lens, root + 1) {
      a, i := root + 1, 0;
      NoSubs(lens, root, q);
      OneWasted();
    } else {
      UsedAligned(lens, root, q);
      var p := q - 1;
      MulSucc(p, Cell(root));
      var a0, i0 := SubsBound(lens, root, p);
      CellSplit(root, a0);
      a, i := FillTo(lens, a0, i0, Pow2(a0 - root), q * Cell(root));
      ReachesIs(lens, q * Cell(root), a);
      assert SubSize(lens, root, p) == Pow2(a - root);
    }
  }

  lemma OneWasted()
    ensures Waste(1) == 1
  {
  }

  /** Codes of at most root bits end at a multiple of the root interval. */
  lemma UsedAligned(lens: seq<nat>, root: nat, q: nat)
    requires 1 <= root <= MAXBITS && Used(lens, root + 1) < q * Cell(root)
    ensures q > 0 && Used(lens, root + 1) <= (q - 1) * Cell(root)
  {
    hide Used, Cell;
    var k := Cells(lens, root, root + 1);
    if k >= q { MulMono(q, k, Cell(root)); }
    if k <= q - 1 { MulMono(k, q - 1, Cell(root)); }
  }

  lemma {:induction false} Cells(lens: seq<nat>, root: nat, l: nat) returns (k: nat)
    requires 1 <= l <= root + 1 && root <= MAXBITS
    ensures Used(lens, l) == k * Cell(root)
  {
    hide Cell, Total, Pow2;
    if l == 1 {
      k := 0;
    } else {
      var k0 := Cells(lens, root, l - 1);
      CellSplit(l - 1, root);
      k := k0 + Total(lens, l - 1) * Pow2(root - (l - 1));
      MulAssoc(Total(lens, l - 1), Pow2(root - (l - 1)), Cell(root));
      MulDist(k0, Total(lens, l - 1) * Pow2(root - (l - 1)), Cell(root));
    }
  }

  /** The whole table, for a code with the given number of symbols. */
  lemma SizeBound(lens: seq<nat>, root: nat)
    requires Complete(lens) && Lengths(lens) && 1 <= root < MAXBITS
    ensures Size(lens, root) <= Pow2(root) + |lens| - Start(lens, root + 1) + Waste(MAXBITS - root) - 1
    ensures Used(lens, root + 1) == SPACE ==> Size(lens, root) == Pow2(root)
  {
    hide Used, Cell, Total, Start, Pow2, Waste;
    CellTimes(root);
    UsedMono(lens, root + 1, MAXBITS + 1);
    var a, i := SubsBound(lens, root, Pow2(root));
    StartNext(lens, a);
    StartMono(lens, a + 1, MAXBITS + 1);
    StartAll(lens, |lens|);
    StartCount(lens, MAXBITS + 1);
    WasteMono(a - root, MAXBITS - root);
    if Used(lens, root + 1) == SPACE { NoSubs(lens, root, Pow2(root)); }
  }

  lemma {:induction false} SubSumEven(lens: seq<nat>, root: nat, q: nat)
    requires root <= MAXBITS
    ensures SubSum(lens, root, q) % 2 == 0
  {
    hide Deepest;
    if q > 0 { SubSumEven(lens, root, q - 1); }
  }

  // ---------------------------------------------------------------- the space reserved

  /** Codes of lengths l to m - 1 take at most a place of length l each. */
  lemma {:induction false} UsedAtMost(lens: seq<nat>, l: nat, m: nat)
    requires 1 <= l <= m <= MAXBITS + 1 && l <= MAXBITS
    ensures Used(lens, m) <= Used(lens, l) + (Start(lens, m) - Start(lens, l)) * Cell(l)
    decreases m
  {
    hide Cell, Total;
    if l < m {
      UsedAtMost(lens, l, m - 1);
      CellFalls(l, m - 1);
      TimesMono(Total(lens, m - 1), Cell(m - 1), Cell(l));
      MulDist(Start(lens, m - 1) - Start(lens, l), Total(lens, m - 1), Cell(l));
    }
  }

  lemma TimesMono(t: nat, x: nat, y: nat)
    requires x <= y
    ensures t * x <= t * y
  {
  }

  lemma CellFalls(l: nat, m: nat)
    requires l <= m <= MAXBITS
    ensures Cell(m) <= Cell(l)
  {
    Pow2Mono(MAXBITS - m, MAXBITS - l);
  }

  lemma CellValues()
    ensures Cell(1) == 16384 && Cell(2) == 8192 && Cell(5) == 1024 && Cell(7) == 256 && Cell(9) == 64 && Cell(10) == 32
  {
    assert Pow2(5) == 32 && Pow2(6) == 64 && Pow2(8) == 256 && Pow2(10) == 1024;
    assert Pow2(13) == 8192 && Pow2(14) == 16384;
  }

  lemma PowValues()
    ensures Pow2(6) == 64 && Pow2(9) == 512
  {
  }

  lemma Coded(lens: seq<nat>)
    requires Lengths(lens)
    ensures Start(lens, MAXBITS + 1) <= |lens|
  {
    StartAll(lens, |lens|);
    StartCount(lens, MAXBITS + 1);
  }

  /** 852 entries are enough for 286 literal and length codes with nine root bits. */
  lemma EnoughLengths(lens: seq<nat>)
    requires Complete(lens) && Lengths(lens) && |lens| <= 286
    ensures Size(lens, 9) <= 852
  {
    hide Used, Cell, Start, Pow2, SubSum;
    CellValues();
    PowValues();
    Coded(lens);
    SizeBound(lens, 9);
    UsedMono(lens, 10, MAXBITS + 1);
    if Used(lens, 10) < SPACE {
      UsedAtMost(lens, 1, 10);
      UsedAtMost(lens, 10, MAXBITS + 1);
      SubSumEven(lens, 9, Pow2(9));
      StartFirst(lens);
      assert Start(lens, 10) >= 2;
    }
  }

  /** 592 entries are enough for 30 distance codes with six root bits. */
  lemma EnoughDistances(lens: seq<nat>)
    requires Complete(lens) && Lengths(lens) && |lens| <= 30
    ensures Size(lens, 6) <= 592
  {
    hide Used, Cell, Start, Pow2, SubSum;
    CellValues();
    PowValues();
    Coded(lens);
    SizeBound(lens, 6);
    UsedMono(lens, 7, MAXBITS + 1);
    if Used(lens, 7) < SPACE {
      StartFirst(lens);
      UsedMono(lens, 2, 7);
      UsedAtMost(lens, 1, 2);
      UsedAtMost(lens, 2, 7);
      UsedAtMost(lens, 7, MAXBITS + 1);
      SubSumEven(lens, 6, Pow2(6));
      assert Start(lens, 7) >= 3;
    }
  }

  lemma StartFirst(lens: seq<nat>)
    ensures Start(lens, 1) == 0 && Used(lens, 1) == 0 && Start(lens, 2) == Total(lens, 1)
    ensures Used(lens, 2) == Total(lens, 1) * Cell(1)
  {
  }
}
