/**
 gen_bitlen (trees.c): code lengths from a Huffman tree, none above max_length.  Nodes too deep
 are clamped, which overcommits the code space; the repair then moves leaves down until the
 space is used exactly, and hands the lengths out again in order of frequency.
 */
module GenBitlen {
  import opened Powers
  import opened CanonicalCode

  // ---------------------------------------------------------------- counts per length

  /** Space taken by bl[j] codes of each length j below l. */
  function Units(bl: seq<int>, l: nat): int
    requires |bl| == MAXBITS + 1 && 1 <= l <= MAXBITS + 1
  {
    if l == 1 then 0 else Units(bl, l - 1) + bl[l - 1] * Cell(l - 1)
  }

  function Leaves(bl: seq<int>, l: nat): int
    requires |bl| == MAXBITS + 1 && 1 <= l <= MAXBITS + 1
  {
    if l == 1 then 0 else Leaves(bl, l - 1) + bl[l - 1]
  }

  lemma {:induction false} UnitsUpdate(bl: seq<int>, b: nat, x: int, l: nat)
    requires |bl| == MAXBITS + 1 && 1 <= l <= MAXBITS + 1 && 1 <= b <= MAXBITS
    ensures Units(bl[b := x], l) == Units(bl, l) + if b < l then (x - bl[b]) * Cell(b) else 0
    ensures Leaves(bl[b := x], l) == Leaves(bl, l) + if b < l then x - bl[b] else 0
  {
    hide Cell;
    if l > 1 {
      UnitsUpdate(bl, b, x, l - 1);
      if b == l - 1 {
        MulDist(bl[b], x - bl[b], Cell(b));
      }
    }
  }

  lemma {:induction false} UnitsZero(bl: seq<int>, l: nat)
    requires |bl| == MAXBITS + 1 && 1 <= l <= MAXBITS + 1
    requires forall j :: 1 <= j < l ==> bl[j] == 0
    ensures Units(bl, l) == 0 && Leaves(bl, l) == 0
  {
    hide Cell;
    if l > 1 { UnitsZero(bl, l - 1); }
  }

  lemma {:induction false} UnitsBeyond(bl: seq<int>, m: nat, l: nat)
    requires |bl| == MAXBITS + 1 && 1 <= m <= l <= MAXBITS + 1
    requires forall j :: m <= j < l ==> bl[j] == 0
    ensures Units(bl, l) == Units(bl, m) && Leaves(bl, l) == Leaves(bl, m)
    decreases l
  {
    hide Cell;
    if m < l { UnitsBeyond(bl, m, l - 1); }
  }

  /** bl lists codes of lengths 1 to top. */
  predicate Counts(bl: seq<int>, top: nat)
    ensures Counts(bl, top) ==> |bl| == MAXBITS + 1 && 1 <= top <= MAXBITS && bl[0] == 0
  {
    && |bl| == MAXBITS + 1 && 1 <= top <= MAXBITS && bl[0] == 0
    && (forall j :: 1 <= j <= top ==> bl[j] >= 0)
    && (forall j :: top < j <= MAXBITS ==> bl[j] == 0)
  }

  /** excess codes of length top too many. */
  predicate Overcommitted(bl: seq<int>, top: nat, excess: int)
    requires Counts(bl, top)
  {
    && Units(bl, MAXBITS + 1) == SPACE + excess * Cell(top)
    && Leaves(bl, MAXBITS + 1) <= Pow2(top) && bl[top] > excess >= 0
  }

  /** While space is overcommitted, some leaf is not at the bottom. */
  lemma LeafAbove(bl: seq<int>, top: nat, excess: int)
    requires Counts(bl, top) && Overcommitted(bl, top, excess) && excess > 0
    ensures exists j :: 1 <= j < top && bl[j] > 0
  {
    hide Pow2, Cell;
    if forall j :: 1 <= j < top ==> bl[j] == 0 {
      UnitsZero(bl, top);
      var n := top + 1;
      UnitsBeyond(bl, n, MAXBITS + 1);
      CellTimes(top);
      MulMono(1, excess, Cell(top));
      MulMono(bl[top], Pow2(top), Cell(top));
    }
  }

  lemma Moved(bl: seq<int>, bl': seq<int>, top: nat, excess: int, b: nat)
    requires Counts(bl, top) && Overcommitted(bl, top, excess) && excess > 0
    requires 1 <= b < top && bl[b] > 0
    requires bl' == var v := bl[b := bl[b] - 1]; var v' := v[b + 1 := v[b + 1] + 2]; v'[top := v'[top] - 1]
    ensures Counts(bl', top) && Overcommitted(bl', top, excess - 1)
    ensures Leaves(bl', MAXBITS + 1) == Leaves(bl, MAXBITS + 1)
  {
    hide Pow2, Cell, Units, Leaves;
    var v := bl[b := bl[b] - 1];
    var v' := v[b + 1 := v[b + 1] + 2];
    UnitsUpdate(bl, b, bl[b] - 1, MAXBITS + 1);
    UnitsUpdate(v, b + 1, v[b + 1] + 2, MAXBITS + 1);
    UnitsUpdate(v', top, v'[top] - 1, MAXBITS + 1);
    CellHalves(b);
    MulSucc(excess - 1, Cell(top));
  }

  /** The repair loop: one unit of excess goes with every leaf moved down. */
  method Repair(bl: array<int>, top: nat, over: int)
    requires Counts(bl[..], top) && over > 0 && over % 2 == 0
    requires Overcommitted(bl[..], top, over / 2)
    modifies bl
    ensures Counts(bl[..], top) && Units(bl[..], MAXBITS + 1) == SPACE
    ensures Leaves(bl[..], MAXBITS + 1) == old(Leaves(bl[..], MAXBITS + 1))
  {
    hide Units, Leaves, Pow2, Cell;
    var overflow := over;
    while overflow > 0
      invariant overflow >= 0 && overflow % 2 == 0 && Counts(bl[..], top)
      invariant Overcommitted(bl[..], top, overflow / 2)
      invariant Leaves(bl[..], MAXBITS + 1) == old(Leaves(bl[..], MAXBITS + 1))
    {
      var b := LowestAbove(bl, top, overflow / 2);
      ghost var before := bl[..];
      MoveDown(bl, b, top);
      Moved(before, bl[..], top, overflow / 2, b);
      overflow := overflow - 2;
    }
  }

  method MoveDown(bl: array<int>, b: nat, top: nat)
    requires bl.Length == MAXBITS + 1 && b < top <= MAXBITS
    modifies bl
    ensures bl[..] == var w := old(bl[..]); var v := w[b := w[b] - 1]; var v' := v[b + 1 := v[b + 1] + 2]; v'[top := v'[top] - 1]
  {
    bl[b] := bl[b] - 1;
    bl[b + 1] := bl[b + 1] + 2;
    bl[top] := bl[top] - 1;
  }

  /** The deepest level above the limit that still has a leaf to push down. */
  method LowestAbove(bl: array<int>, top: nat, ghost excess: int) returns (b: nat)
    requires Counts(bl[..], top) && Overcommitted(bl[..], top, excess) && excess > 0
    ensures 1 <= b < top && bl[b] > 0 && forall j :: b < j < top ==> bl[j] == 0
  {
    hide Overcommitted;
    LeafAbove(bl[..], top, excess);
    ghost var j :| 1 <= j < top && bl[j] > 0;
    b := top - 1;
    while bl[b] == 0
      invariant j <= b < top && forall i :: b < i < top ==> bl[i] == 0
      decreases b
    {
      b := b - 1;
    }
  }

  // ---------------------------------------------------------------- the tree

  /**
   The nodes from the root down, as heap[heap_max..] lists them: order[i] is a node, up[i] the
   place of its father, left[i] and right[i] the places of its sons.  Leaves are the nodes up to
   maxCode.
   */
  datatype Shape = Shape(order: seq<nat>, up: seq<nat>, left: seq<nat>, right: seq<nat>, maxCode: int)

  predicate Leaf(sh: Shape, i: nat)
    requires i < |sh.order|
  {
    sh.order[i] <= sh.maxCode
  }

  predicate Node(sh: Shape, i: nat)
    requires i < |sh.order| == |sh.up| == |sh.left| == |sh.right|
  {
    && (i > 0 ==> sh.up[i] < i && !Leaf(sh, sh.up[i]) && (sh.left[sh.up[i]] == i || sh.right[sh.up[i]] == i))
    && (!Leaf(sh, i) ==>
      && i < sh.left[i] < |sh.order| && i < sh.right[i] < |sh.order| && sh.left[i] != sh.right[i]
      && sh.up[sh.left[i]] == i && sh.up[sh.right[i]] == i)
  }

  ghost predicate Tree(sh: Shape)
    ensures Tree(sh) ==> 0 < |sh.order| == |sh.up| == |sh.left| == |sh.right|
  {
    && 0 < |sh.order| == |sh.up| == |sh.left| == |sh.right|
    && (forall i: nat :: i < |sh.order| ==> Node(sh, i))
  }

  /** The nodes open before place t: those whose father lies before t, unless they do and have sons. */
  predicate Open(sh: Shape, t: nat, i: nat)
    requires i < |sh.order| == |sh.up|
  {
    (i == 0 || sh.up[i] < t) && (Leaf(sh, i) || i >= t)
  }

  function Frontier(sh: Shape, val: seq<int>, t: nat, m: nat): int
    requires m <= |sh.order| == |sh.up| == |val|
  {
    if m == 0 then 0 else Frontier(sh, val, t, m - 1) + if Open(sh, t, m - 1) then val[m - 1] else 0
  }

  /** Opening an inner node replaces it by its two sons. */
  lemma {:induction false} FrontierStep(sh: Shape, val: seq<int>, t: nat, m: nat)
    requires Tree(sh) && |val| == |sh.order| && t < |sh.order| && m <= |sh.order|
    ensures Frontier(sh, val, t + 1, m) == Frontier(sh, val, t, m) +
      if Leaf(sh, t) then 0
      else (if sh.left[t] < m then val[sh.left[t]] else 0) + (if sh.right[t] < m then val[sh.right[t]] else 0)
           - (if t < m then val[t] else 0)
  {
    if m > 0 {
      FrontierStep(sh, val, t, m - 1);
      assert Node(sh, m - 1) && Node(sh, t);
    }
  }

  lemma {:induction false} FrontierStart(sh: Shape, val: seq<int>, m: nat)
    requires Tree(sh) && |val| == |sh.order| && 0 < m <= |sh.order|
    ensures Frontier(sh, val, 0, m) == val[0]
  {
    if m > 1 {
      FrontierStart(sh, val, m - 1);
    }
  }

  lemma {:induction false} FrontierAtLeast(sh: Shape, val: seq<int>, t: nat, m: nat, i: nat)
    requires Tree(sh) && |val| == |sh.order| && i < m <= |sh.order|
    requires Open(sh, t, i) && forall j :: 0 <= j < m ==> val[j] >= 0
    ensures Frontier(sh, val, t, m) >= val[i]
  {
    if m > 1 {
      FrontierNat(sh, val, t, m - 1);
      if i < m - 1 { FrontierAtLeast(sh, val, t, m - 1, i); }
    }
  }

  lemma {:induction false} FrontierNat(sh: Shape, val: seq<int>, t: nat, m: nat)
    requires |sh.up| == |val| == |sh.order| && m <= |sh.order|
    requires forall j :: 0 <= j < m ==> val[j] >= 0
    ensures Frontier(sh, val, t, m) >= 0
  {
    if m > 0 { FrontierNat(sh, val, t, m - 1); }
  }

  // ---------------------------------------------------------------- clamped depths

  /** Depths cut off at top, for the places before m. */
  ghost predicate Clamped(sh: Shape, cl: seq<nat>, top: nat, m: nat)
  {
    && m <= |cl| && m <= |sh.up| && 1 <= top <= MAXBITS
    && (m > 0 ==> cl[0] == 0)
    && (forall i :: 0 <= i < m ==> cl[i] <= top)
    && (forall i :: 0 < i < m ==> sh.up[i] < i && cl[i] == if cl[sh.up[i]] == top then top else cl[sh.up[i]] + 1)
  }

  /** Inner nodes before place t at the bottom level: each adds one code too many. */
  function Deep(sh: Shape, cl: seq<nat>, top: nat, t: nat): nat
    requires t <= |sh.order| && t <= |cl|
  {
    if t == 0 then 0 else Deep(sh, cl, top, t - 1) + if !Leaf(sh, t - 1) && cl[t - 1] == top then 1 else 0
  }

  /** Nodes before place m whose father is at the bottom level: what the loop counts as overflow. */
  function Over(sh: Shape, cl: seq<nat>, top: nat, t: nat, m: nat): nat
    requires m <= |sh.up| && m <= |cl| && forall i :: 0 < i < m ==> sh.up[i] < i
  {
    if m == 0 then 0
    else Over(sh, cl, top, t, m - 1) + if m > 1 && sh.up[m - 1] < t && cl[sh.up[m - 1]] == top then 1 else 0
  }

  lemma {:induction false} OverStep(sh: Shape, cl: seq<nat>, top: nat, t: nat, m: nat)
    requires Tree(sh) && |cl| == |sh.order| && t < |sh.order| && m <= |sh.order|
    requires forall i :: 0 < i < m ==> sh.up[i] < i
    ensures Over(sh, cl, top, t + 1, m) == Over(sh, cl, top, t, m) +
      if Leaf(sh, t) || cl[t] != top then 0
      else (if sh.left[t] < m then 1 else 0) + (if sh.right[t] < m then 1 else 0)
  {
    if m > 0 {
      OverStep(sh, cl, top, t, m - 1);
      assert Node(sh, m - 1) && Node(sh, t);
    }
  }

  /** Steps from place i up to the root. */
  function Depth(sh: Shape, i: nat): nat
    requires Tree(sh) && i < |sh.order|
  {
    if i == 0 then 0 else
      assert Node(sh, i);
      Depth(sh, sh.up[i]) + 1
  }

  /** If no father lies at the bottom level, nothing was cut off. */
  lemma {:induction false} NothingCut(sh: Shape, cl: seq<nat>, top: nat, i: nat)
    requires Tree(sh) && Clamped(sh, cl, top, |sh.order|) && i < |sh.order|
    requires Over(sh, cl, top, |sh.order|, |sh.order|) == 0
    ensures cl[i] == Depth(sh, i)
  {
    if i > 0 {
      assert Node(sh, i);
      NothingCut(sh, cl, top, sh.up[i]);
      NoneOver(sh, cl, top, |sh.order|, i);
    }
  }

  lemma {:induction false} NoneOver(sh: Shape, cl: seq<nat>, top: nat, m: nat, i: nat)
    requires Tree(sh) && m <= |sh.order| && m <= |cl| && 0 < i < m && forall j :: 0 < j < m ==> sh.up[j] < j
    requires Over(sh, cl, top, |sh.order|, m) == 0
    ensures cl[sh.up[i]] != top
  {
    if i < m - 1 { NoneOver(sh, cl, top, m - 1, i); }
  }

  lemma {:induction false} CutAtLeast(sh: Shape, cl: seq<nat>, top: nat, i: nat)
    requires Tree(sh) && Clamped(sh, cl, top, |sh.order|) && i < |sh.order|
    ensures Depth(sh, i) >= cl[i]
  {
    if i > 0 {
      assert Node(sh, i);
      CutAtLeast(sh, cl, top, sh.up[i]);
    }
  }

  lemma {:induction false} SomeOver(sh: Shape, cl: seq<nat>, top: nat, m: nat) returns (i: nat)
    requires Tree(sh) && m <= |sh.order| && m <= |cl| && forall j :: 0 < j < m ==> sh.up[j] < j
    requires Over(sh, cl, top, |sh.order|, m) > 0
    ensures 0 < i < m && cl[sh.up[i]] == top
  {
    if m > 1 && cl[sh.up[m - 1]] == top {
      i := m - 1;
    } else {
      i := SomeOver(sh, cl, top, m - 1);
    }
  }

  /** Below every node there is a leaf. */
  lemma {:induction false} LeafBelow(sh: Shape, i: nat) returns (j: nat)
    requires Tree(sh) && i < |sh.order|
    ensures j < |sh.order| && Leaf(sh, j) && Depth(sh, j) >= Depth(sh, i)
    decreases |sh.order| - i
  {
    if Leaf(sh, i) {
      j := i;
    } else {
      assert Node(sh, i);
      j := LeafBelow(sh, sh.left[i]);
    }
  }

  /** Every node's slot holds its depth. */
  ghost predicate Measured(sh: Shape, dl: seq<nat>)
    requires Tree(sh)
  {
    forall j: nat :: j < |sh.order| ==> sh.order[j] < |dl| && dl[sh.order[j]] == Depth(sh, j)
  }

  /** Some leaf lies deeper than top. */
  ghost predicate TooDeep(sh: Shape, top: nat)
    requires Tree(sh)
  {
    exists j: nat :: j < |sh.order| && Leaf(sh, j) && Depth(sh, j) > top
  }

  function Cells(cl: seq<nat>): (r: seq<int>)
    requires forall i :: 0 <= i < |cl| ==> cl[i] <= MAXBITS
    ensures |r| == |cl| && forall i :: 0 <= i < |cl| ==> r[i] == Cell(cl[i])
  {
    seq(|cl|, i requires 0 <= i < |cl| => Cell(cl[i]))
  }

  function AtTop(cl: seq<nat>, top: nat): (r: seq<int>)
    ensures |r| == |cl| && forall i :: 0 <= i < |cl| ==> r[i] == if cl[i] == top then 1 else 0
  {
    seq(|cl|, i requires 0 <= i < |cl| => if cl[i] == top then 1 else 0)
  }

  lemma {:induction false} Clamping(sh: Shape, cl: seq<nat>, top: nat, t: nat)
    requires Tree(sh) && |cl| == |sh.order| && Clamped(sh, cl, top, |cl|) && t <= |cl|
    ensures Frontier(sh, Cells(cl), t, |cl|) == SPACE + Deep(sh, cl, top, t) * Cell(top)
    ensures Over(sh, cl, top, t, |cl|) == 2 * Deep(sh, cl, top, t)
    ensures Frontier(sh, AtTop(cl, top), t, |cl|) >= Deep(sh, cl, top, t)
    ensures Deep(sh, cl, top, t) > 0 ==> Frontier(sh, AtTop(cl, top), t, |cl|) > Deep(sh, cl, top, t)
  {
    hide Frontier, Cell, Over, Open;
    var n := |cl|;
    if t == 0 {
      FrontierStart(sh, Cells(cl), n);
      FrontierStart(sh, AtTop(cl, top), n);
      OverNone(sh, cl, top, n);
      RootCell();
    } else {
      var u := t - 1;
      Clamping(sh, cl, top, u);
      assert Node(sh, u);
      FrontierStep(sh, Cells(cl), u, n);
      FrontierStep(sh, AtTop(cl, top), u, n);
      OverStep(sh, cl, top, u, n);
      if !Leaf(sh, u) {
        var a, b := sh.left[u], sh.right[u];
        assert cl[a] == cl[b] == if cl[u] == top then top else cl[u] + 1;
        if cl[u] == top {
          MulSucc(Deep(sh, cl, top, u), Cell(top));
          StillOpen(sh, u);
          FrontierAtLeast(sh, AtTop(cl, top), u, n, u);
        } else {
          CellHalves(cl[u]);
        }
      }
    }
  }

  lemma StillOpen(sh: Shape, u: nat)
    requires Tree(sh) && u < |sh.order|
    ensures Open(sh, u, u)
  {
    assert Node(sh, u);
  }

  lemma RootCell()
    ensures Cell(0) == SPACE
  {
    Pow2Space();
  }

  lemma {:induction false} OverNone(sh: Shape, cl: seq<nat>, top: nat, m: nat)
    requires m <= |sh.up| && m <= |cl| && forall i :: 0 < i < m ==> sh.up[i] < i
    ensures Over(sh, cl, top, 0, m) == 0
  {
    if m > 0 { OverNone(sh, cl, top, m - 1); }
  }

  // ---------------------------------------------------------------- lengths of the symbols

  lemma {:induction false} CountUpdate(lens: seq<nat>, s: nat, v: nat, l: nat, k: nat)
    requires s < |lens| && lens[s] == 0 && v >= 1 && l >= 1 && k <= |lens|
    ensures Count(lens[s := v], l, k) == Count(lens, l, k) + if s < k && v == l then 1 else 0
  {
    if k > 0 { CountUpdate(lens, s, v, l, k - 1); }
  }

  lemma TotalUpdate(lens: seq<nat>, s: nat, v: nat, l: nat)
    requires s < |lens| && lens[s] == 0 && v >= 1 && l >= 1
    ensures Total(lens[s := v], l) == Total(lens, l) + if v == l then 1 else 0
  {
    CountUpdate(lens, s, v, l, |lens|);
  }

  lemma {:induction false} CountNone(lens: seq<nat>, l: nat, k: nat)
    requires k <= |lens| && forall s :: 0 <= s < k ==> lens[s] != l
    ensures Count(lens, l, k) == 0
  {
    if k > 0 { CountNone(lens, l, k - 1); }
  }

  /** bl[l] symbols have length l. */
  ghost predicate Tallies(bl: seq<int>, lens: seq<nat>)
  {
    |bl| == MAXBITS + 1 && forall l :: 1 <= l <= MAXBITS ==> bl[l] == Total(lens, l)
  }

  lemma {:induction false} TalliesUsed(bl: seq<int>, lens: seq<nat>, l: nat)
    requires Tallies(bl, lens) && 1 <= l <= MAXBITS + 1
    ensures Used(lens, l) == Units(bl, l)
  {
    hide Cell, Total;
    if l > 1 { TalliesUsed(bl, lens, l - 1); }
  }

  lemma TalliesStep(bl: seq<int>, lens: seq<nat>, s: nat, v: nat)
    requires Tallies(bl, lens) && s < |lens| && lens[s] == 0 && 1 <= v <= MAXBITS
    ensures Tallies(bl[v := bl[v] + 1], lens[s := v])
  {
    hide Total;
    var bl', lens' := bl[v := bl[v] + 1], lens[s := v];
    forall l | 1 <= l <= MAXBITS ensures bl'[l] == Total(lens', l) {
      TotalUpdate(lens, s, v, l);
    }
  }

  function LeafSum(sh: Shape, val: seq<int>, i: nat): int
    requires i <= |sh.order| && i <= |val|
  {
    if i == 0 then 0 else LeafSum(sh, val, i - 1) + if Leaf(sh, i - 1) then val[i - 1] else 0
  }

  function LeafCount(sh: Shape, i: nat): nat
    requires i <= |sh.order|
  {
    if i == 0 then 0 else LeafCount(sh, i - 1) + if Leaf(sh, i - 1) then 1 else 0
  }

  lemma {:induction false} FrontierLeaves(sh: Shape, val: seq<int>, m: nat)
    requires Tree(sh) && |val| == |sh.order| && m <= |sh.order|
    ensures Frontier(sh, val, |sh.order|, m) == LeafSum(sh, val, m)
  {
    if m > 0 {
      FrontierLeaves(sh, val, m - 1);
      assert Node(sh, m - 1);
    }
  }

  lemma {:induction false} LeafSumSame(sh: Shape, val: seq<int>, val': seq<int>, i: nat)
    requires i <= |sh.order| && i <= |val| && i <= |val'| && val[..i] == val'[..i]
    ensures LeafSum(sh, val, i) == LeafSum(sh, val', i)
  {
    if i > 0 {
      assert val[..i - 1] == val[..i][..i - 1] && val'[..i - 1] == val'[..i][..i - 1];
      LeafSumSame(sh, val, val', i - 1);
      assert val[i - 1] == val[..i][i - 1] == val'[i - 1];
    }
  }

  lemma {:induction false} LeafCountBelow(sh: Shape, i: nat, j: nat)
    requires i <= j <= |sh.order|
    ensures LeafCount(sh, i) <= LeafCount(sh, j)
    ensures i < j && Leaf(sh, i) ==> LeafCount(sh, i) < LeafCount(sh, j)
  {
    if i < j { LeafCountBelow(sh, i, j - 1); }
  }

  /** The first pass counts what Clamping speaks about. */
  ghost predicate FirstCounts(sh: Shape, bl: seq<int>, cl: seq<nat>, top: nat, i: nat)
    requires i <= |sh.order| && i <= |cl| && |bl| == MAXBITS + 1 && 1 <= top <= MAXBITS
    requires forall j :: 0 <= j < |cl| ==> cl[j] <= MAXBITS
  {
    && Units(bl, MAXBITS + 1) == LeafSum(sh, Cells(cl), i)
    && Leaves(bl, MAXBITS + 1) == LeafCount(sh, i)
    && bl[top] == LeafSum(sh, AtTop(cl, top), i)
  }

  lemma FirstCountsStep(sh: Shape, bl: seq<int>, cl: seq<nat>, top: nat, i: nat, v: nat)
    requires i < |sh.order| && i == |cl| && |bl| == MAXBITS + 1 && 1 <= top <= MAXBITS && 1 <= v <= MAXBITS
    requires forall j :: 0 <= j < |cl| ==> cl[j] <= MAXBITS
    requires FirstCounts(sh, bl, cl, top, i)
    ensures FirstCounts(sh, if Leaf(sh, i) then bl[v := bl[v] + 1] else bl, cl + [v], top, i + 1)
  {
    hide Cell, Units, Leaves;
    var cl' := cl + [v];
    LeafSumSame(sh, Cells(cl), Cells(cl'), i);
    LeafSumSame(sh, AtTop(cl, top), AtTop(cl', top), i);
    UnitsUpdate(bl, v, bl[v] + 1, MAXBITS + 1);
  }

  // ---------------------------------------------------------------- gen_bitlen

  /** heap[heapMax..] lists the tree; a node's slot in dl holds its father until it gets its length. */
  ghost predicate Listed(sh: Shape, heap: seq<nat>, heapMax: nat, dl: seq<nat>) {
    && Tree(sh) && !Leaf(sh, 0) && heapMax <= |heap| && heap[heapMax..] == sh.order
    && 0 <= sh.maxCode < |dl|
    && (forall i :: 0 <= i < |sh.order| ==> sh.order[i] < |dl|)
    && Different(sh.order)
    && (forall s :: 0 <= s <= sh.maxCode && s !in sh.order ==> dl[s] == 0)
  }

  /** Every node's slot holds its father. */
  ghost predicate Recorded(sh: Shape, dl: seq<nat>)
    requires Tree(sh)
  {
    && (forall j :: 0 <= j < |sh.order| ==> sh.order[j] < |dl|)
    && (forall j :: 1 <= j < |sh.order| ==> sh.up[j] < |sh.order| && dl[sh.order[j]] == sh.order[sh.up[j]])
  }

  /** Before the first pass reaches place i: lengths so far, fathers after that. */
  ghost predicate Halfway(sh: Shape, dl: seq<nat>, cl: seq<nat>, i: nat)
    requires Tree(sh)
  {
    && |cl| == i <= |sh.order|
    && (forall j :: 0 <= j < |sh.order| ==> sh.order[j] < |dl|)
    && (forall j :: 0 <= j < i ==> dl[sh.order[j]] == cl[j])
    && (forall j :: i <= j < |sh.order| && j > 0 ==> sh.up[j] < |sh.order| && dl[sh.order[j]] == sh.order[sh.up[j]])
  }

  /** The lengths of the leaves before place i, and 0 for every other symbol. */
  function LensUpTo(sh: Shape, cl: seq<nat>, i: nat): (r: seq<nat>)
    requires i <= |sh.order| && i <= |cl| && sh.maxCode >= 0
    ensures |r| == sh.maxCode + 1
  {
    if i == 0 then seq(sh.maxCode + 1, _ => 0)
    else if Leaf(sh, i - 1) then LensUpTo(sh, cl, i - 1)[sh.order[i - 1] := cl[i - 1]]
    else LensUpTo(sh, cl, i - 1)
  }

  lemma {:induction false} LensUpToSame(sh: Shape, cl: seq<nat>, cl': seq<nat>, i: nat)
    requires i <= |sh.order| && i <= |cl| && cl <= cl' && sh.maxCode >= 0
    ensures LensUpTo(sh, cl', i) == LensUpTo(sh, cl, i)
  {
    if i > 0 { LensUpToSame(sh, cl, cl', i - 1); }
  }

  lemma {:induction false} LensUpToAt(sh: Shape, cl: seq<nat>, i: nat, s: nat)
    requires i <= |sh.order| && i <= |cl| && s <= sh.maxCode
    requires Different(sh.order)
    ensures forall j :: 0 <= j < i && sh.order[j] == s ==> LensUpTo(sh, cl, i)[s] == cl[j]
    ensures s !in sh.order[..i] ==> LensUpTo(sh, cl, i)[s] == 0
  {
    if i > 0 {
      LensUpToAt(sh, cl, i - 1, s);
      assert sh.order[..i] == sh.order[..i - 1] + [sh.order[i - 1]];
    }
  }

  lemma TalliesPlace(sh: Shape, bl: seq<int>, cl: seq<nat>, i: nat, v: nat)
    requires i < |sh.order| && i == |cl| && sh.maxCode >= 0 && 1 <= v <= MAXBITS
    requires Different(sh.order)
    requires Tallies(bl, LensUpTo(sh, cl, i))
    ensures Tallies(if Leaf(sh, i) then bl[v := bl[v] + 1] else bl, LensUpTo(sh, cl + [v], i + 1))
  {
    hide Total;
    LensUpToSame(sh, cl, cl + [v], i);
    if Leaf(sh, i) {
      var s := sh.order[i];
      LensUpToAt(sh, cl, i, s);
      assert s !in sh.order[..i];
      TalliesStep(bl, LensUpTo(sh, cl, i), s, v);
    }
  }

  lemma TalliesNone(n: nat)
    ensures Tallies(seq(MAXBITS + 1, _ => 0), seq(n, _ => 0))
  {
    var zeros: seq<nat> := seq(n, _ => 0);
    forall l | 1 <= l <= MAXBITS ensures Total(zeros, l) == 0 {
      CountNone(zeros, l, n);
    }
  }

  predicate Different(order: seq<nat>) {
    forall j, k :: 0 <= j < k < |order| ==> order[j] != order[k]
  }

  /** What holds when the first pass has dealt with the places before i. */
  ghost predicate Pass(sh: Shape, dl: seq<nat>, bl: seq<int>, cl: seq<nat>, top: nat, i: nat, overflow: int)
    requires Tree(sh) && sh.maxCode >= 0
  {
    && Halfway(sh, dl, cl, i) && Clamped(sh, cl, top, i) && |bl| == MAXBITS + 1 && bl[0] == 0
    && FirstCounts(sh, bl, cl, top, i) && Tallies(bl, LensUpTo(sh, cl, i))
    && overflow == Over(sh, cl, top, |sh.order|, i)
  }

  /** One node: its depth is one more than its father's, unless that is already the most. */
  lemma PassStep(sh: Shape, dl: seq<nat>, bl: seq<int>, cl: seq<nat>, top: nat, i: nat, overflow: int, v: nat)
    requires Tree(sh) && !Leaf(sh, 0) && sh.maxCode >= 0 && Different(sh.order)
    requires 1 <= i < |sh.order| && Pass(sh, dl, bl, cl, top, i, overflow)
    requires sh.up[i] < i && sh.order[i] < |dl| && sh.order[sh.up[i]] < |dl|
    requires v == if dl[sh.order[sh.up[i]]] + 1 > top then top else dl[sh.order[sh.up[i]]] + 1
    ensures Pass(sh, dl[sh.order[i] := v], if Leaf(sh, i) then bl[v := bl[v] + 1] else bl, cl + [v], top, i + 1,
                 overflow + if dl[sh.order[sh.up[i]]] + 1 > top then 1 else 0)
  {
    hide LensUpTo, FirstCounts, Tallies, Over, Tree, Leaf, Clamped, Halfway;
    FatherLength(sh, dl, cl, top, i);
    FirstCountsStep(sh, bl, cl, top, i, v);
    TalliesPlace(sh, bl, cl, i, v);
    HalfwayStep(sh, dl, cl, i, v);
    ClampedStep(sh, cl, top, i, v);
    OverPlace(sh, cl, top, i, v);
  }

  lemma FatherLength(sh: Shape, dl: seq<nat>, cl: seq<nat>, top: nat, i: nat)
    requires Tree(sh) && 1 <= i < |sh.order| && sh.up[i] < i && Halfway(sh, dl, cl, i) && Clamped(sh, cl, top, i)
    ensures sh.order[sh.up[i]] < |dl| && dl[sh.order[sh.up[i]]] == cl[sh.up[i]] <= top && 1 <= top <= MAXBITS &&
      |cl| == i
    ensures forall j :: 0 <= j < |cl| ==> cl[j] <= MAXBITS
  {
  }

  lemma ClampedStep(sh: Shape, cl: seq<nat>, top: nat, i: nat, v: nat)
    requires Tree(sh) && 1 <= i < |sh.order| && |cl| == i && Clamped(sh, cl, top, i) && sh.up[i] < i
    requires v == if cl[sh.up[i]] == top then top else cl[sh.up[i]] + 1
    ensures Clamped(sh, cl + [v], top, i + 1)
  {
    hide Tree;
  }

  lemma OverPlace(sh: Shape, cl: seq<nat>, top: nat, i: nat, v: nat)
    requires Tree(sh) && 1 <= i < |sh.order| && i == |cl| && sh.up[i] < i && Clamped(sh, cl, top, i)
    ensures Over(sh, cl + [v], top, |sh.order|, i + 1) ==
      Over(sh, cl, top, |sh.order|, i) + if cl[sh.up[i]] == top then 1 else 0
  {
    OverSame(sh, cl, cl + [v], top, i);
  }

  lemma HalfwayStep(sh: Shape, dl: seq<nat>, cl: seq<nat>, i: nat, v: nat)
    requires Tree(sh) && Different(sh.order) && i < |sh.order| && Halfway(sh, dl, cl, i)
    ensures Halfway(sh, dl[sh.order[i] := v], cl + [v], i + 1)
  {
  }

  lemma {:induction false} OverSame(sh: Shape, cl: seq<nat>, cl': seq<nat>, top: nat, m: nat)
    requires m <= |sh.up| && m <= |cl| && cl <= cl' && forall i :: 0 < i < m ==> sh.up[i] < i
    ensures Over(sh, cl', top, |sh.order|, m) == Over(sh, cl, top, |sh.order|, m)
  {
    if m > 0 { OverSame(sh, cl, cl', top, m - 1); }
  }

  lemma HalfwayFather(sh: Shape, dl: seq<nat>, cl: seq<nat>, i: nat)
    requires Tree(sh) && 1 <= i < |sh.order| && Halfway(sh, dl, cl, i)
    ensures sh.up[i] < i && sh.order[i] < |dl| && dl[sh.order[i]] == sh.order[sh.up[i]] < |dl|
  {
    assert Node(sh, i);
  }

  lemma PassStart(sh: Shape, dl: seq<nat>, bl: seq<int>, top: nat)
    requires Tree(sh) && !Leaf(sh, 0) && sh.maxCode >= 0 && Different(sh.order) && 1 <= top <= MAXBITS
    requires Recorded(sh, dl)
    requires |bl| == MAXBITS + 1 && forall l :: 0 <= l <= MAXBITS ==> bl[l] == 0
    ensures Pass(sh, dl[sh.order[0] := 0], bl, [0], top, 1, 0)
  {
    hide Cell, Total;
    UnitsZero(bl, MAXBITS + 1);
    TalliesNone(sh.maxCode + 1);
    assert bl == seq(MAXBITS + 1, _ => 0);
    assert LensUpTo(sh, [0], 1) == LensUpTo(sh, [0], 0);
    assert LeafSum(sh, Cells([0]), 0) == 0 && LeafSum(sh, AtTop([0], top), 0) == 0;
    assert Over(sh, [0], top, |sh.order|, 0) == 0;
    assert Halfway(sh, dl[sh.order[0] := 0], [0], 1);
    assert FirstCounts(sh, bl, [0], top, 1) by {
      assert LeafCount(sh, 0) == 0;
    }
    assert Tallies(bl, LensUpTo(sh, [0], 1));
  }

  /** The first pass: clamped depths, their counts, and the number of nodes that were too deep. */
  method FirstPass(heap: array<nat>, heapMax: nat, dl: array<nat>, bl: array<int>, maxCode: int, top: nat,
                   ghost sh: Shape)
    returns (overflow: int, ghost cl: seq<nat>)
    requires bl.Length == MAXBITS + 1 && 1 <= top <= MAXBITS && heap != dl
    requires Listed(sh, heap[..], heapMax, dl[..]) && maxCode == sh.maxCode
    requires Recorded(sh, dl[..])
    modifies dl, bl
    ensures Pass(sh, dl[..], bl[..], cl, top, |sh.order|, overflow)
    ensures forall s :: 0 <= s < dl.Length && s !in sh.order ==> dl[s] == old(dl[s])
  {
    hide Pass, Tree, Node;
    for b := 0 to MAXBITS + 1
      invariant forall l :: 0 <= l < b ==> bl[l] == 0
      invariant dl[..] == old(dl[..])
    {
      bl[b] := 0;
    }
    PassStart(sh, dl[..], bl[..], top);
    dl[heap[heapMax]] := 0;
    overflow := 0;
    cl := [0];
    for h := heapMax + 1 to heap.Length
      invariant |cl| == h - heapMax
      invariant Pass(sh, dl[..], bl[..], cl, top, h - heapMax, overflow)
      invariant forall s :: 0 <= s < dl.Length && s !in sh.order ==> dl[s] == old(dl[s])
    {
      overflow, cl := PlaceNode(sh, dl, bl, maxCode, top, heap[h], h - heapMax, overflow, cl);
    }
  }

  method PlaceNode(ghost sh: Shape, dl: array<nat>, bl: array<int>, maxCode: int, top: nat, n: nat, ghost i: nat,
                   overflow: int, ghost cl: seq<nat>)
    returns (overflow': int, ghost cl': seq<nat>)
    requires Tree(sh) && !Leaf(sh, 0) && sh.maxCode >= 0 && Different(sh.order) && maxCode == sh.maxCode
    requires 1 <= i < |sh.order| && n == sh.order[i] && 1 <= top <= MAXBITS
    requires bl.Length == MAXBITS + 1 && |cl| == i && Pass(sh, dl[..], bl[..], cl, top, i, overflow)
    modifies dl, bl
    ensures |cl'| == i + 1 && Pass(sh, dl[..], bl[..], cl', top, i + 1, overflow')
    ensures forall s :: 0 <= s < dl.Length && s != n ==> dl[s] == old(dl[s])
  {
    hide Pass, Tree, Node;
    ghost var before, counts := dl[..], bl[..];
    PassHalfway(sh, dl[..], bl[..], cl, top, i, overflow);
    HalfwayFather(sh, dl[..], cl, i);
    var bits := dl[dl[n]] + 1;
    overflow' := overflow;
    if bits > top {
      bits := top;
      overflow' := overflow + 1;
    }
    PassStep(sh, before, counts, cl, top, i, overflow, bits);
    dl[n] := bits;
    cl' := cl + [bits];
    if n <= maxCode {
      bl[bits] := bl[bits] + 1;
    }
  }

  lemma PassHalfway(sh: Shape, dl: seq<nat>, bl: seq<int>, cl: seq<nat>, top: nat, i: nat, overflow: int)
    requires Tree(sh) && sh.maxCode >= 0 && Pass(sh, dl, bl, cl, top, i, overflow)
    ensures Halfway(sh, dl, cl, i)
  {
  }

  /** After the first pass: the space the clamped lengths take is exactly overcommitted. */
  lemma PassEnd(sh: Shape, dl: seq<nat>, bl: seq<int>, cl: seq<nat>, top: nat, overflow: int)
    requires Tree(sh) && sh.maxCode >= 0 && Pass(sh, dl, bl, cl, top, |sh.order|, overflow)
    ensures overflow >= 0 && overflow % 2 == 0
    ensures Units(bl, MAXBITS + 1) == SPACE + overflow / 2 * Cell(top)
    ensures Leaves(bl, MAXBITS + 1) == LeafCount(sh, |sh.order|)
    ensures overflow > 0 ==> bl[top] > overflow / 2
  {
    hide LensUpTo, Tallies, Frontier, Over, Cell, Units, Leaves, LeafSum;
    var n := |sh.order|;
    Clamping(sh, cl, top, n);
    FrontierLeaves(sh, Cells(cl), n);
    FrontierLeaves(sh, AtTop(cl, top), n);
    assert overflow / 2 == Deep(sh, cl, top, n);
  }

  /** The lengths written by the first pass, symbol by symbol. */
  lemma PassLens(sh: Shape, dl: seq<nat>, bl: seq<int>, cl: seq<nat>, top: nat, overflow: int, lens: seq<nat>)
    requires Tree(sh) && 0 <= sh.maxCode < |dl| && Different(sh.order)
    requires Pass(sh, dl, bl, cl, top, |sh.order|, overflow)
    requires forall s :: 0 <= s <= sh.maxCode && s !in sh.order ==> dl[s] == 0
    requires lens == dl[..sh.maxCode + 1]
    ensures Tallies(bl, lens) && forall s :: 0 <= s < |lens| ==> lens[s] <= top
  {
    hide FirstCounts, Over, Tallies, LensUpTo;
    var n := |sh.order|;
    forall s | 0 <= s <= sh.maxCode ensures lens[s] == LensUpTo(sh, cl, n)[s] && lens[s] <= top {
      LensUpToAt(sh, cl, n, s);
      assert sh.order[..n] == sh.order;
      if s in sh.order {
        var j :| 0 <= j < n && sh.order[j] == s;
        assert dl[sh.order[j]] == cl[j];
      }
    }
    assert lens == LensUpTo(sh, cl, n);
  }

  lemma TalliesCounts(bl: seq<int>, lens: seq<nat>, top: nat)
    requires Tallies(bl, lens) && 1 <= top <= MAXBITS && bl[0] == 0
    requires forall s :: 0 <= s < |lens| ==> lens[s] <= top
    ensures Counts(bl, top)
  {
    hide Count;
    forall l | top < l <= MAXBITS ensures bl[l] == 0 {
      CountNone(lens, l, |lens|);
    }
  }

  // ---------------------------------------------------------------- handing the lengths out again

  /**
   Places from h on have their final lengths, at least b and shortest for the earliest; lens
   holds them, and zeros for the symbols still to come.
   */
  ghost predicate Handed(sh: Shape, dl: seq<nat>, lens: seq<nat>, h: nat, b: nat)
    requires sh.maxCode >= 0
  {
    && h <= |sh.order| && sh.maxCode < |dl| && |lens| == sh.maxCode + 1
    && (forall j :: h <= j < |sh.order| && Leaf(sh, j) ==> b <= lens[sh.order[j]] == dl[sh.order[j]] <= MAXBITS)
    && (forall j, k :: h <= j <= k < |sh.order| && Leaf(sh, j) && Leaf(sh, k) ==> dl[sh.order[j]] <= dl[sh.order[k]])
    && (forall j :: 0 <= j < h && Leaf(sh, j) ==> lens[sh.order[j]] == 0)
    && (forall s :: 0 <= s <= sh.maxCode && s !in sh.order ==> lens[s] == 0 && dl[s] == 0)
  }

  /** left symbols of length b are still to be handed out, and all the shorter ones. */
  ghost predicate Owed(sh: Shape, bl: seq<int>, lens: seq<nat>, h: nat, b: nat, left: int) {
    && h <= |sh.order| && |bl| == MAXBITS + 1 && 1 <= b <= MAXBITS
    && LeafCount(sh, h) == Leaves(bl, b) + left
    && (forall l :: b < l <= MAXBITS ==> Total(lens, l) == bl[l])
    && Total(lens, b) == bl[b] - left
    && (forall l :: 1 <= l < b ==> Total(lens, l) == 0)
  }

  lemma HandOne(sh: Shape, dl: seq<nat>, bl: seq<int>, lens: seq<nat>, h: nat, b: nat, left: int)
    requires sh.maxCode >= 0 && Different(sh.order) && 0 < h <= |sh.order| && Leaf(sh, h - 1)
    requires Handed(sh, dl, lens, h, b) && Owed(sh, bl, lens, h, b, left)
    ensures Handed(sh, dl[sh.order[h - 1] := b], lens[sh.order[h - 1] := b], h - 1, b)
    ensures Owed(sh, bl, lens[sh.order[h - 1] := b], h - 1, b, left - 1)
  {
    hide Total;
    var m := sh.order[h - 1];
    var lens' := lens[m := b];
    forall l | 1 <= l <= MAXBITS ensures Total(lens', l) == Total(lens, l) + if l == b then 1 else 0 {
      TotalUpdate(lens, m, b, l);
    }
    assert LeafCount(sh, h) == LeafCount(sh, h - 1) + 1;
    assert Total(lens', b) == bl[b] - (left - 1);
    assert Owed(sh, bl, lens', h - 1, b, left - 1);
  }

  lemma SkipInner(sh: Shape, dl: seq<nat>, bl: seq<int>, lens: seq<nat>, h: nat, b: nat, left: int)
    requires sh.maxCode >= 0 && 0 < h <= |sh.order| && !Leaf(sh, h - 1)
    requires Handed(sh, dl, lens, h, b) && Owed(sh, bl, lens, h, b, left)
    ensures Handed(sh, dl, lens, h - 1, b) && Owed(sh, bl, lens, h - 1, b, left)
  {
    hide Total;
  }

  lemma NextLength(sh: Shape, dl: seq<nat>, bl: seq<int>, lens: seq<nat>, h: nat, b: nat)
    requires sh.maxCode >= 0 && 1 < b <= MAXBITS
    requires Handed(sh, dl, lens, h, b) && Owed(sh, bl, lens, h, b, 0)
    ensures Handed(sh, dl, lens, h, b - 1) && Owed(sh, bl, lens, h, b - 1, bl[b - 1])
  {
    hide Total;
  }

  /** The symbols that get length b. */
  method HandOut(heap: array<nat>, heapMax: nat, dl: array<nat>, bl: array<int>, maxCode: int, start: nat, b: nat,
                 ghost sh: Shape, ghost lens: seq<nat>)
    returns (h: nat, ghost lens': seq<nat>)
    requires bl.Length == MAXBITS + 1 && heap != dl && maxCode == sh.maxCode >= 0 && Different(sh.order)
    requires heapMax <= heap.Length && heap[heapMax..] == sh.order && heapMax <= start <= heap.Length && b <= MAXBITS
    requires bl[b] >= 0 && LeavesNat(bl[..], b)
    requires Handed(sh, dl[..], lens, start - heapMax, b) && Owed(sh, bl[..], lens, start - heapMax, b, bl[b])
    modifies dl
    ensures heapMax <= h <= heap.Length && forall s :: maxCode < s < dl.Length ==> dl[s] == old(dl[s])
    ensures Handed(sh, dl[..], lens', h - heapMax, b) && Owed(sh, bl[..], lens', h - heapMax, b, 0)
  {
    hide Handed, Owed;
    var n := bl[b];
    h := start;
    lens' := lens;
    while n != 0
      invariant n >= 0 && heapMax <= h <= heap.Length
      invariant forall s :: maxCode < s < dl.Length ==> dl[s] == old(dl[s])
      invariant Handed(sh, dl[..], lens', h - heapMax, b) && Owed(sh, bl[..], lens', h - heapMax, b, n)
      decreases h
    {
      MoreToCome(sh, bl[..], lens', h - heapMax, b, n);
      h := h - 1;
      var m := heap[h];
      ghost var before := dl[..];
      ghost var i: nat := h + 1 - heapMax;
      assert m == sh.order[i - 1];
      if m <= maxCode {
        HandOne(sh, dl[..], bl[..], lens', i, b, n);
        HandedFits(sh, dl[..], lens', i, b);
        lens' := lens'[m := b];
        dl[m] := b;
        n := n - 1;
      } else {
        SkipInner(sh, dl[..], bl[..], lens', i, b, n);
      }
    }
  }

  predicate LeavesNat(bl: seq<int>, b: nat)
    requires |bl| == MAXBITS + 1
  {
    1 <= b <= MAXBITS && Leaves(bl, b) >= 0
  }

  lemma HandedFits(sh: Shape, dl: seq<nat>, lens: seq<nat>, h: nat, b: nat)
    requires sh.maxCode >= 0 && Handed(sh, dl, lens, h, b)
    ensures sh.maxCode < |dl| && |lens| == sh.maxCode + 1
  {
  }

  lemma MoreToCome(sh: Shape, bl: seq<int>, lens: seq<nat>, h: nat, b: nat, left: int)
    requires Owed(sh, bl, lens, h, b, left) && left > 0 && LeavesNat(bl, b)
    ensures h > 0
  {
  }

  lemma HandStart(sh: Shape, dl: seq<nat>, bl: seq<int>, lens: seq<nat>, top: nat)
    requires 0 <= sh.maxCode < |dl| && Counts(bl, top) && lens == seq(sh.maxCode + 1, _ => 0)
    requires Leaves(bl, MAXBITS + 1) == LeafCount(sh, |sh.order|)
    requires forall s :: 0 <= s <= sh.maxCode && s !in sh.order ==> dl[s] == 0
    ensures Handed(sh, dl, lens, |sh.order|, top) && Owed(sh, bl, lens, |sh.order|, top, bl[top])
  {
    hide Count;
    var n := top + 1;
    UnitsBeyond(bl, n, MAXBITS + 1);
    forall l | 1 <= l <= MAXBITS ensures Total(lens, l) == 0 {
      CountNone(lens, l, |lens|);
    }
  }

  lemma HandEnd(sh: Shape, dl: seq<nat>, bl: seq<int>, lens: seq<nat>, h: nat)
    requires sh.maxCode >= 0 && Handed(sh, dl, lens, h, 1) && Owed(sh, bl, lens, h, 1, 0)
    ensures lens == dl[..sh.maxCode + 1] && Tallies(bl, lens)
    ensures forall j :: 0 <= j < |sh.order| && Leaf(sh, j) ==> j >= h
  {
    hide Total;
    forall j | 0 <= j < |sh.order| && Leaf(sh, j) ensures j >= h {
      if j < h { LeafCountBelow(sh, j, h); }
    }
    forall s | 0 <= s <= sh.maxCode ensures lens[s] == dl[s] {
      if s in sh.order {
        var j :| 0 <= j < |sh.order| && sh.order[j] == s;
        assert Leaf(sh, j);
      }
    }
  }

  lemma {:induction false} LeavesBelow(bl: seq<int>, top: nat, b: nat)
    requires Counts(bl, top) && 1 <= b <= top
    ensures Leaves(bl, b) >= 0
  {
    if b > 1 { LeavesBelow(bl, top, b - 1); }
  }

  /** The lengths of leaves never fall along the list. */
  ghost predicate Ascending(sh: Shape, dl: seq<nat>) {
    && (forall j :: 0 <= j < |sh.order| ==> sh.order[j] < |dl|)
    && (forall j, k :: 0 <= j <= k < |sh.order| && Leaf(sh, j) && Leaf(sh, k) ==> dl[sh.order[j]] <= dl[sh.order[k]])
  }

  /** The repaired counts dealt out again: the rarest leaves get the longest codes. */
  method Reassign(heap: array<nat>, heapMax: nat, dl: array<nat>, bl: array<int>, maxCode: int, top: nat,
                  ghost sh: Shape)
    requires bl.Length == MAXBITS + 1 && heap != dl && Counts(bl[..], top)
    requires Listed(sh, heap[..], heapMax, dl[..]) && maxCode == sh.maxCode
    requires Leaves(bl[..], MAXBITS + 1) == LeafCount(sh, |sh.order|)
    modifies dl
    ensures Tallies(bl[..], dl[..maxCode + 1]) && Ascending(sh, dl[..])
    ensures forall s :: 0 <= s <= maxCode && s in sh.order ==> 1 <= dl[s] <= MAXBITS
    ensures forall s :: 0 <= s <= maxCode && s !in sh.order ==> dl[s] == 0
    ensures forall s :: maxCode < s < dl.Length ==> dl[s] == old(dl[s])
  {
    hide Handed, Owed, Tree, Tallies, Counts;
    ghost var lens: seq<nat> := seq(maxCode + 1, _ => 0);
    HandStart(sh, dl[..], bl[..], lens, top);
    var h: nat := heap.Length;
    var b := top;
    while true
      invariant 1 <= b <= top && heapMax <= h <= heap.Length
      invariant forall s :: maxCode < s < dl.Length ==> dl[s] == old(dl[s])
      invariant Handed(sh, dl[..], lens, h - heapMax, b) && Owed(sh, bl[..], lens, h - heapMax, b, bl[b])
      decreases b
    {
      CountsAt(bl[..], top, b);
      h, lens := HandOut(heap, heapMax, dl, bl, maxCode, h, b, sh, lens);
      if b == 1 {
        break;
      }
      NextLength(sh, dl[..], bl[..], lens, h - heapMax, b);
      b := b - 1;
    }
    HandEnd(sh, dl[..], bl[..], lens, h - heapMax);
    HandedAll(sh, dl[..], lens, h - heapMax);
  }

  lemma CountsAt(bl: seq<int>, top: nat, b: nat)
    requires Counts(bl, top) && 1 <= b <= top
    ensures bl[b] >= 0 && LeavesNat(bl, b)
  {
    LeavesBelow(bl, top, b);
  }

  lemma HandedAll(sh: Shape, dl: seq<nat>, lens: seq<nat>, h: nat)
    requires sh.maxCode >= 0 && Handed(sh, dl, lens, h, 1)
    requires forall j :: 0 <= j < |sh.order| && Leaf(sh, j) ==> j >= h
    requires forall j :: 0 <= j < |sh.order| ==> sh.order[j] < |dl|
    ensures Ascending(sh, dl)
    ensures forall s :: 0 <= s <= sh.maxCode && s in sh.order ==> 1 <= dl[s] <= MAXBITS
    ensures forall s :: 0 <= s <= sh.maxCode && s !in sh.order ==> dl[s] == 0
  {
    forall s | 0 <= s <= sh.maxCode && s in sh.order ensures 1 <= dl[s] <= MAXBITS {
      var j :| 0 <= j < |sh.order| && sh.order[j] == s;
      assert Leaf(sh, j);
    }
  }

  /**
   gen_bitlen, for a tree of at most 2^top leaves: every symbol of the tree gets a length from 1
   to top, the lengths use up the code space exactly, and bl counts them.
   */
  method BitLengths(heap: array<nat>, heapMax: nat, dl: array<nat>, bl: array<int>, maxCode: int, top: nat,
                    ghost sh: Shape)
    returns (ghost repaired: bool)
    requires bl.Length == MAXBITS + 1 && 1 <= top <= MAXBITS && heap != dl
    requires Listed(sh, heap[..], heapMax, dl[..]) && maxCode == sh.maxCode
    requires Recorded(sh, dl[..])
    requires LeafCount(sh, |sh.order|) <= Pow2(top)
    modifies dl, bl
    ensures Complete(dl[..maxCode + 1]) && Tallies(bl[..], dl[..maxCode + 1]) && bl[0] == 0
    ensures forall s :: 0 <= s <= maxCode ==> dl[s] <= top && (dl[s] >= 1 <==> s in sh.order)
    ensures repaired ==> Ascending(sh, dl[..]) && TooDeep(sh, top)
    ensures !repaired ==> Measured(sh, dl[..])
    ensures forall s :: maxCode < s < dl.Length && s !in sh.order ==> dl[s] == old(dl[s])
  {
    hide Pass, Tree, Tallies, Units, Leaves, Cell, Pow2, Counts, Ascending, Used, Measured, TooDeep;
    var overflow, cl := FirstPass(heap, heapMax, dl, bl, maxCode, top, sh);
    PassEnd(sh, dl[..], bl[..], cl, top, overflow);
    PassLens(sh, dl[..], bl[..], cl, top, overflow, dl[..maxCode + 1]);
    PassZero(sh, dl[..], bl[..], cl, top, overflow);
    TalliesUsed(bl[..], dl[..maxCode + 1], MAXBITS + 1);
    PassDepths(sh, dl[..], bl[..], cl, top, overflow);
    repaired := overflow != 0;
    if overflow != 0 {
      TalliesCounts(bl[..], dl[..maxCode + 1], top);
      RepairAll(heap, heapMax, dl, bl, maxCode, top, overflow, sh);
    }
  }

  method RepairAll(heap: array<nat>, heapMax: nat, dl: array<nat>, bl: array<int>, maxCode: int, top: nat,
                   overflow: int,
                   ghost sh: Shape)
    requires bl.Length == MAXBITS + 1 && heap != dl && Counts(bl[..], top)
    requires Listed(sh, heap[..], heapMax, dl[..]) && maxCode == sh.maxCode
    requires overflow > 0 && overflow % 2 == 0 && Overcommitted(bl[..], top, overflow / 2)
    requires Leaves(bl[..], MAXBITS + 1) == LeafCount(sh, |sh.order|)
    modifies dl, bl
    ensures Complete(dl[..maxCode + 1]) && Tallies(bl[..], dl[..maxCode + 1]) && Counts(bl[..], top)
    ensures forall s :: 0 <= s <= maxCode ==> dl[s] <= top && (dl[s] >= 1 <==> s in sh.order)
    ensures Ascending(sh, dl[..]) && forall s :: maxCode < s < dl.Length ==> dl[s] == old(dl[s])
  {
    hide Tree, Tallies, Units, Leaves, Cell, Pow2, Counts, Ascending, Overcommitted, Used;
    Repair(bl, top, overflow);
    Reassign(heap, heapMax, dl, bl, maxCode, top, sh);
    TalliesUsed(bl[..], dl[..maxCode + 1], MAXBITS + 1);
    WithinTop(bl[..], dl[..maxCode + 1], top);
  }

  /** The first pass measures every depth, or some leaf is too deep. */
  lemma PassDepths(sh: Shape, dl: seq<nat>, bl: seq<int>, cl: seq<nat>, top: nat, overflow: int)
    requires Tree(sh) && sh.maxCode >= 0 && Pass(sh, dl, bl, cl, top, |sh.order|, overflow)
    ensures if overflow == 0 then Measured(sh, dl) else TooDeep(sh, top)
  {
    hide FirstCounts, Tallies, LensUpTo, Over, Depth;
    if overflow == 0 {
      forall j: nat | j < |sh.order| ensures sh.order[j] < |dl| && dl[sh.order[j]] == Depth(sh, j) {
        NothingCut(sh, cl, top, j);
      }
    } else {
      var i := SomeOver(sh, cl, top, |sh.order|);
      CutAtLeast(sh, cl, top, sh.up[i]);
      DepthNext(sh, i);
      var j := LeafBelow(sh, i);
    }
  }

  lemma DepthNext(sh: Shape, i: nat)
    requires Tree(sh) && 0 < i < |sh.order|
    ensures sh.up[i] < i && Depth(sh, i) == Depth(sh, sh.up[i]) + 1
  {
    assert Node(sh, i);
  }

  lemma PassZero(sh: Shape, dl: seq<nat>, bl: seq<int>, cl: seq<nat>, top: nat, overflow: int)
    requires Tree(sh) && !Leaf(sh, 0) && 0 <= sh.maxCode < |dl| && Pass(sh, dl, bl, cl, top, |sh.order|, overflow)
    ensures bl[0] == 0 && |bl| == MAXBITS + 1
    ensures forall s :: 0 <= s <= sh.maxCode && s in sh.order ==> dl[s] >= 1
  {
    hide FirstCounts, Tallies, Over, Node;
    forall s | 0 <= s <= sh.maxCode && s in sh.order ensures dl[s] >= 1 {
      var j: nat :| j < |sh.order| && sh.order[j] == s;
      assert Leaf(sh, j);
      assert j > 0;
      assert dl[sh.order[j]] == cl[j] && sh.up[j] < j;
    }
  }

  lemma WithinTop(bl: seq<int>, lens: seq<nat>, top: nat)
    requires Tallies(bl, lens) && Counts(bl, top) && forall s :: 0 <= s < |lens| ==> lens[s] <= MAXBITS
    ensures forall s :: 0 <= s < |lens| ==> lens[s] <= top
  {
    hide Count;
    forall s | 0 <= s < |lens| ensures lens[s] <= top {
      CountMono(lens, lens[s], s, |lens|);
      assert lens[s] > top ==> bl[lens[s]] == Total(lens, lens[s]);
    }
  }
}
