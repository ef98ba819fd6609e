/**
 * bzip2's Huffman codes (huffman.c): canonical codes of up to 20 bits, and
 * the limit, base and perm tables that decode them bit by bit.
 */
module BzCodes {
  import opened Powers
  import opened CanonicalCode
  import opened BitStrings
  import H = HuffmanLengths
  import O = OptimalCode

  const LONGEST: nat := 20
  const TABLE: nat := 23     // BZ_MAX_CODE_LEN

  predicate LengthsOk(lens: seq<nat>) {
    forall i :: 0 <= i < |lens| ==> 1 <= lens[i] <= LONGEST
  }

  /** Code space taken by the lengths up to l, in units of 2^-20. */
  function Space(lens: seq<nat>, l: nat): nat
    requires l <= LONGEST
  {
    if l == 0 then 0 else Space(lens, l - 1) + Total(lens, l) * Pow2(LONGEST - l)
  }

  /** The Kraft sum is at most 1. */
  predicate Kraft(lens: seq<nat>) { Space(lens, LONGEST) <= Pow2(LONGEST) }

  /** The first code of length l. */
  function First(lens: seq<nat>, l: nat): nat {
    if l <= 1 then 0 else 2 * (First(lens, l - 1) + Total(lens, l - 1))
  }

  function CodeOf(lens: seq<nat>, s: nat): nat
    requires s < |lens|
  {
    First(lens, lens[s]) + Count(lens, lens[s], s)
  }

  /** Symbols with lengths below l. */
  function Shorter(lens: seq<nat>, l: nat): nat {
    if l <= 1 then 0 else Shorter(lens, l - 1) + Total(lens, l - 1)
  }

  lemma {:induction false} FirstSpace(lens: seq<nat>, l: nat)
    requires 1 <= l <= LONGEST
    ensures (First(lens, l) + Total(lens, l)) * Pow2(LONGEST - l) == Space(lens, l)
  {
    hide Total;
    var p := Pow2(LONGEST - l);
    if l > 1 {
      FirstSpace(lens, l - 1);
      assert Pow2(LONGEST - (l - 1)) == 2 * p;
      DoubleDist(First(lens, l - 1), Total(lens, l - 1), p);
      MulDist(First(lens, l - 1), Total(lens, l - 1), 2 * p);
      MulDist(First(lens, l), Total(lens, l), p);
    } else {
      assert Space(lens, 0) == 0;
    }
  }

  lemma {:induction false} SpaceMono(lens: seq<nat>, l: nat, m: nat)
    requires l <= m <= LONGEST
    ensures Space(lens, l) <= Space(lens, m)
    decreases m
  {
    hide Total;
    if l < m {
      SpaceMono(lens, l, m - 1);
      MulMono(0, Total(lens, m), Pow2(LONGEST - m));
    }
  }

  /** The codes of length l fit into l bits. */
  lemma CodesFit(lens: seq<nat>, l: nat)
    requires Kraft(lens) && 1 <= l <= LONGEST
    ensures First(lens, l) + Total(lens, l) <= Pow2(l)
  {
    hide Total, First, Space, Pow2;
    var n, p := First(lens, l) + Total(lens, l), Pow2(LONGEST - l);
    FirstSpace(lens, l);
    SpaceMono(lens, l, LONGEST);
    Pow2Add(l, LONGEST - l);
    if n > Pow2(l) {
      MulMono(Pow2(l) + 1, n, p);
      MulSucc(Pow2(l), p);
    }
  }

  lemma CodeFits(lens: seq<nat>, s: nat)
    requires Kraft(lens) && LengthsOk(lens) && s < |lens|
    ensures CodeOf(lens, s) < First(lens, lens[s]) + Total(lens, lens[s]) <= Pow2(lens[s])
  {
    hide First, Pow2;
    CodesFit(lens, lens[s]);
    CountMono(lens, lens[s], s, |lens|);
  }

  /** Longer codes start beyond all shorter ones. */
  lemma {:induction false} FirstBeyond(lens: seq<nat>, l: nat, m: nat)
    requires 1 <= l < m
    ensures First(lens, m) >= (First(lens, l) + Total(lens, l)) * Pow2(m - l)
    decreases m
  {
    hide Total;
    var f := First(lens, l) + Total(lens, l);
    if m == l + 1 {
      assert Pow2(1) == 2;
    } else {
      FirstBeyond(lens, l, m - 1);
      assert Pow2(m - l) == 2 * Pow2(m - 1 - l);
      TwiceMul(f, Pow2(m - 1 - l));
    }
  }

  lemma TwiceMul(a: int, b: int)
    ensures a * (2 * b) == 2 * (a * b)
  {
  }

  /** The bits of a symbol. */
  function SymbolBits(lens: seq<nat>, s: nat): (r: seq<Bit>)
    requires Kraft(lens) && LengthsOk(lens) && s < |lens|
    ensures |r| == lens[s] && Msb(r) == CodeOf(lens, s)
  {
    CodeFits(lens, s);
    Code(CodeOf(lens, s), lens[s])
  }

  /** BZ2_hbAssignCodes */
  method AssignCodes(lens: seq<nat>, minLen: nat, maxLen: nat) returns (code: array<nat>)
    requires LengthsOk(lens) && 1 <= minLen && forall i :: 0 <= i < |lens| ==> minLen <= lens[i] <= maxLen
    ensures fresh(code) && code.Length == |lens| && forall s :: 0 <= s < |lens| ==> code[s] == CodeOf(lens, s)
  {
    code := new nat[|lens|](_ => 0);
    NoneShorter(lens, minLen);
    var vec, n := 0, minLen;
    while n <= maxLen
      invariant minLen <= n && vec == First(lens, n)
      invariant forall s :: 0 <= s < |lens| && lens[s] < n ==> code[s] == CodeOf(lens, s)
    {
      for i := 0 to |lens|
        invariant vec == First(lens, n) + Count(lens, n, i)
        invariant forall s :: 0 <= s < |lens| && lens[s] < n ==> code[s] == CodeOf(lens, s)
        invariant forall s :: 0 <= s < i && lens[s] == n ==> code[s] == CodeOf(lens, s)
      {
        if lens[i] == n {
          code[i] := vec;
          vec := vec + 1;
        }
      }
      vec := 2 * vec;
      n := n + 1;
    }
  }

  lemma {:induction false} NoneShorter(lens: seq<nat>, m: nat)
    requires forall i :: 0 <= i < |lens| ==> m <= lens[i]
    ensures First(lens, m) == 0 && Shorter(lens, m) == 0
  {
    if m > 1 {
      NoneShorter(lens, m - 1);
      NoneOf(lens, m - 1, |lens|);
    }
  }

  lemma {:induction false} NoneOf(lens: seq<nat>, l: nat, k: nat)
    requires k <= |lens| && forall i :: 0 <= i < |lens| ==> lens[i] != l
    ensures Count(lens, l, k) == 0
  {
    if k > 0 { NoneOf(lens, l, k - 1); }
  }

  // ------------------------------------------------------------------
  // Decode tables

  datatype Table = Table(minLen: nat, maxLen: nat, limit: seq<int>, base: seq<int>, perm: seq<nat>)

  /** What limit, base and perm mean for the code. */
  ghost predicate TableFor(t: Table, lens: seq<nat>)
    ensures TableFor(t, lens) ==>
      |t.limit| == |t.base| == TABLE && |t.perm| == |lens| && 1 <= t.minLen && t.maxLen <= LONGEST
  {
    && |t.limit| == |t.base| == TABLE && |t.perm| == |lens| && 1 <= t.minLen && t.maxLen <= LONGEST
    && (forall i :: 0 <= i < |lens| ==> t.minLen <= lens[i] <= t.maxLen)
    && (forall l :: t.minLen <= l <= t.maxLen ==> t.limit[l] == First(lens, l) + Total(lens, l) - 1)
    && (forall l :: t.minLen <= l <= t.maxLen ==> t.base[l] == First(lens, l) - Shorter(lens, l))
    && (forall j :: 0 <= j < |lens| ==> PermAt(t.perm, lens, j))
  }

  /** Symbols are listed by length, and by number within a length. */
  ghost predicate PermAt(perm: seq<nat>, lens: seq<nat>, j: nat)
    requires j < |lens|
  {
    var p := Shorter(lens, lens[j]) + Count(lens, lens[j], j);
    p < |perm| && perm[p] == j
  }

  method MakePerm(lens: seq<nat>, minLen: nat, maxLen: nat) returns (perm: array<nat>)
    requires LengthsOk(lens) && 1 <= minLen && forall i :: 0 <= i < |lens| ==> minLen <= lens[i] <= maxLen
    ensures fresh(perm) && perm.Length == |lens| && forall j :: 0 <= j < |lens| ==> PermAt(perm[..], lens, j)
  {
    hide PermAt;
    perm := new nat[|lens|](_ => 0);
    NoneShorter(lens, minLen);
    var pp, i := 0, minLen;
    while i <= maxLen
      invariant minLen <= i && pp == Shorter(lens, i)
      invariant forall j :: 0 <= j < |lens| && lens[j] < i ==> PermAt(perm[..], lens, j)
    {
      pp := MakePermOf(lens, i, perm, pp);
      i := i + 1;
    }
  }

  method MakePermOf(lens: seq<nat>, l: nat, perm: array<nat>, start: nat) returns (pp: nat)
    requires LengthsOk(lens) && l >= 1 && perm.Length == |lens| && start == Shorter(lens, l)
    requires forall j :: 0 <= j < |lens| && lens[j] < l ==> PermAt(perm[..], lens, j)
    modifies perm
    ensures pp == Shorter(lens, l + 1)
    ensures forall j :: 0 <= j < |lens| && lens[j] < l + 1 ==> PermAt(perm[..], lens, j)
  {
    hide Shorter, PermAt;
    pp := start;
    ShorterNext(lens, l);
    for j := 0 to |lens|
      invariant pp == Shorter(lens, l) + Count(lens, l, j)
      invariant forall k :: 0 <= k < |lens| && lens[k] < l ==> PermAt(perm[..], lens, k)
      invariant forall k :: 0 <= k < j && lens[k] == l ==> PermAt(perm[..], lens, k)
    {
      if lens[j] == l {
        CountMono(lens, l, j, |lens|);
        ShorterAll(lens, l + 1);
        PermPut(perm[..], lens, j, pp);
        perm[pp] := j;
        pp := pp + 1;
      }
    }
  }

  /** Listing symbol j disturbs no earlier entry. */
  lemma PermPut(perm: seq<nat>, lens: seq<nat>, j: nat, p: nat)
    requires LengthsOk(lens) && j < |lens| && p == Shorter(lens, lens[j]) + Count(lens, lens[j], j) < |perm|
    ensures PermAt(perm[p := j], lens, j)
    ensures forall k :: 0 <= k < |lens| && (lens[k] < lens[j] || (lens[k] == lens[j] && k < j)) && PermAt(perm, lens, k)
              ==> PermAt(perm[p := j], lens, k)
  {
    hide Shorter, Count;
    forall k | 0 <= k < |lens| && (lens[k] < lens[j] || (lens[k] == lens[j] && k < j)) && PermAt(perm, lens, k)
      ensures PermAt(perm[p := j], lens, k)
    {
      PermBefore(lens, k, j);
    }
  }

  lemma ShorterNext(lens: seq<nat>, l: nat)
    requires l >= 1
    ensures Shorter(lens, l + 1) == Shorter(lens, l) + Total(lens, l)
  {
  }

  /** Places before the j-th symbol's belong to shorter codes or earlier symbols. */
  lemma PermBefore(lens: seq<nat>, k: nat, j: nat)
    requires k < |lens| && j < |lens| && lens[k] >= 1 && (lens[k] < lens[j] || (lens[k] == lens[j] && k < j))
    ensures Shorter(lens, lens[k]) + Count(lens, lens[k], k) < Shorter(lens, lens[j]) + Count(lens, lens[j], j)
  {
    hide Shorter;
    if lens[k] == lens[j] {
      CountMono(lens, lens[k], k, j);
    } else {
      CountMono(lens, lens[k], k, |lens|);
      ShorterNext(lens, lens[k]);
      ShorterMono(lens, lens[k] + 1, lens[j]);
    }
  }

  lemma {:induction false} ShorterMono(lens: seq<nat>, l: nat, m: nat)
    requires l <= m
    ensures Shorter(lens, l) <= Shorter(lens, m)
    decreases m
  {
    if l < m { ShorterMono(lens, l, m - 1); }
  }

  /** Counting by length counts no more than there are symbols. */
  lemma {:induction false} ShorterAll(lens: seq<nat>, l: nat)
    ensures Shorter(lens, l) <= |lens|
  {
    hide Total;
    ShorterCount(lens, l, |lens|);
    ShorterIs(lens, l);
  }

  function Below(lens: seq<nat>, l: nat, k: nat): nat
    requires k <= |lens|
  {
    if k == 0 then 0 else Below(lens, l, k - 1) + if 1 <= lens[k - 1] < l then 1 else 0
  }

  lemma {:induction false} ShorterCount(lens: seq<nat>, l: nat, k: nat)
    requires k <= |lens|
    ensures Below(lens, l, k) <= k
  {
    if k > 0 { ShorterCount(lens, l, k - 1); }
  }

  lemma {:induction false} BelowNext(lens: seq<nat>, l: nat, k: nat)
    requires k <= |lens| && l >= 1
    ensures Below(lens, l + 1, k) == Below(lens, l, k) + Count(lens, l, k)
  {
    if k > 0 { BelowNext(lens, l, k - 1); }
  }

  lemma {:induction false} BelowNone(lens: seq<nat>, l: nat, k: nat)
    requires k <= |lens| && l <= 1
    ensures Below(lens, l, k) == 0
  {
    if k > 0 { BelowNone(lens, l, k - 1); }
  }

  lemma {:induction false} ShorterIs(lens: seq<nat>, l: nat)
    ensures Shorter(lens, l) == Below(lens, l, |lens|)
  {
    if l > 1 {
      ShorterIs(lens, l - 1);
      BelowNext(lens, l - 1, |lens|);
    } else {
      BelowNone(lens, l, |lens|);
    }
  }

  /** base[i] before it is adjusted: how many symbols are shorter than i. */
  method CountShorter(lens: seq<nat>) returns (base: array<int>)
    requires LengthsOk(lens)
    ensures fresh(base) && base.Length == TABLE && forall l :: 0 <= l < TABLE ==> base[l] == Shorter(lens, l)
  {
    base := new int[TABLE](_ => 0);
    for i := 0 to |lens|
      invariant base[0] == 0 && base[1] == 0 && base[TABLE - 1] == 0
      invariant forall l :: 1 <= l <= LONGEST ==> base[l + 1] == Count(lens, l, i)
    {
      base[lens[i] + 1] := base[lens[i] + 1] + 1;
    }
    ghost var counts := base[..];
    for i := 1 to TABLE
      invariant forall l :: 0 <= l < i ==> base[l] == Shorter(lens, l)
      invariant forall l :: i <= l < TABLE ==> base[l] == counts[l]
    {
      if i >= 2 {
        Counted(lens, counts, i);
      }
      base[i] := base[i] + base[i - 1];
    }
  }

  lemma Counted(lens: seq<nat>, counts: seq<int>, i: nat)
    requires LengthsOk(lens) && |counts| == TABLE && 2 <= i < TABLE && counts[TABLE - 1] == 0
    requires forall l :: 1 <= l <= LONGEST ==> counts[l + 1] == Count(lens, l, |lens|)
    ensures counts[i] == Total(lens, i - 1)
  {
    var l := i - 1;
    if l <= LONGEST {
      assert counts[l + 1] == Count(lens, l, |lens|);
    } else {
      NoneOf(lens, l, |lens|);
    }
  }

  /** BZ2_hbCreateDecodeTables */
  method CreateDecodeTables(lens: seq<nat>, minLen: nat, maxLen: nat) returns (t: Table)
    requires LengthsOk(lens) && 1 <= minLen <= maxLen <= LONGEST
    requires forall i :: 0 <= i < |lens| ==> minLen <= lens[i] <= maxLen
    ensures TableFor(t, lens)
  {
    hide First, Shorter, PermAt;
    var base := CountShorter(lens);
    var limit := MakeLimit(lens, minLen, maxLen, base);
    AdjustBase(lens, minLen, maxLen, base, limit);
    var perm := MakePerm(lens, minLen, maxLen);
    t := Table(minLen, maxLen, limit[..], base[..], perm[..]);
  }

  method MakeLimit(lens: seq<nat>, minLen: nat, maxLen: nat, base: array<int>) returns (limit: array<int>)
    requires 1 <= minLen <= maxLen <= LONGEST && forall i :: 0 <= i < |lens| ==> minLen <= lens[i] <= maxLen
    requires base.Length == TABLE && forall l :: 0 <= l < TABLE ==> base[l] == Shorter(lens, l)
    ensures fresh(limit) && limit.Length == TABLE
    ensures forall l :: minLen <= l <= maxLen ==> limit[l] == First(lens, l) + Total(lens, l) - 1
  {
    hide First, Shorter;
    limit := new int[TABLE](_ => 0);
    NoneShorter(lens, minLen);
    var vec := 0;
    for i := minLen to maxLen + 1
      invariant vec == First(lens, i)
      invariant forall l :: minLen <= l < i ==> limit[l] == First(lens, l) + Total(lens, l) - 1
    {
      ShorterNext(lens, i);
      FirstNext(lens, i);
      vec := vec + (base[i + 1] - base[i]);
      limit[i] := vec - 1;
      vec := 2 * vec;
    }
  }

  method AdjustBase(lens: seq<nat>, minLen: nat, maxLen: nat, base: array<int>, limit: array<int>)
    requires 1 <= minLen <= maxLen <= LONGEST && forall i :: 0 <= i < |lens| ==> minLen <= lens[i] <= maxLen
    requires base.Length == limit.Length == TABLE && base != limit
    requires forall l :: 0 <= l < TABLE ==> base[l] == Shorter(lens, l)
    requires forall l :: minLen <= l <= maxLen ==> limit[l] == First(lens, l) + Total(lens, l) - 1
    modifies base
    ensures forall l :: minLen <= l <= maxLen ==> base[l] == First(lens, l) - Shorter(lens, l)
  {
    hide First, Shorter;
    NoneShorter(lens, minLen);
    for i := minLen + 1 to maxLen + 1
      invariant forall l :: minLen <= l < i ==> base[l] == First(lens, l) - Shorter(lens, l)
      invariant forall l :: i <= l < TABLE ==> base[l] == Shorter(lens, l)
    {
      FirstNext(lens, i - 1);
      base[i] := (limit[i - 1] + 1) * 2 - base[i];
    }
  }

  lemma FirstNext(lens: seq<nat>, l: nat)
    requires l >= 1
    ensures First(lens, l + 1) == 2 * (First(lens, l) + Total(lens, l))
  {
  }

  // ------------------------------------------------------------------
  // Decoding one symbol, bit by bit

  /** The prefix of n bits of a longer code exceeds limit[n]; the whole code does not. */
  lemma PrefixAbove(lens: seq<nat>, s: nat, n: nat, c: seq<Bit>)
    requires Kraft(lens) && LengthsOk(lens) && s < |lens| && c == SymbolBits(lens, s) && 1 <= n <= lens[s]
    ensures n < lens[s] ==> Msb(c[..n]) >= First(lens, n) + Total(lens, n)
    ensures n == lens[s] ==> Msb(c[..n]) == CodeOf(lens, s) < First(lens, n) + Total(lens, n)
  {
    hide First, Total, Count, Msb, Pow2;
    CodeFits(lens, s);
    var L, f := lens[s], First(lens, n) + Total(lens, n);
    if n == L {
      assert c[..n] == c;
    } else {
      FirstBeyond(lens, n, L);
      assert c == c[..n] + c[n..];
      MsbAppend(c[..n], c[n..]);
      MsbBound(c[n..]);
      var x, p := Msb(c[..n]), Pow2(L - n);
      if x < f {
        MulMono(x + 1, f, p);
        MulSucc(x, p);
      }
    }
  }

  /** When the code is complete, the tables name the symbol. */
  lemma Named(t: Table, lens: seq<nat>, s: nat)
    requires TableFor(t, lens) && s < |lens|
    ensures var p := CodeOf(lens, s) - t.base[lens[s]]; 0 <= p < |t.perm| && t.perm[p] == s
  {
    hide First, Shorter, Count;
    assert PermAt(t.perm, lens, s);
  }

  // ------------------------------------------------------------------
  // The lengths that BZ2_hbMakeCodeLengths delivers

  function Cells(lens: seq<nat>): nat
    requires LengthsOk(lens)
  {
    if lens == [] then 0 else Cells(lens[..|lens| - 1]) + Pow2(LONGEST - lens[|lens| - 1])
  }

  lemma {:induction false} HalfPowScaled(d: nat)
    requires d <= LONGEST
    ensures O.HalfPow(d) * Pow2(LONGEST) as real == Pow2(LONGEST - d) as real
  {
    hide Pow2;
    if d > 0 {
      HalfPowScaled(d - 1);
      HalfPowNext(d);
      PowNext(LONGEST - d);
    }
  }

  lemma HalfPowNext(d: nat)
    requires d > 0
    ensures O.HalfPow(d) == O.HalfPow(d - 1) / 2.0
  {
  }

  lemma PowNext(k: nat)
    ensures Pow2(k + 1) == 2 * Pow2(k)
  {
  }

  lemma {:induction false} CellsScaled(lens: seq<nat>)
    requires LengthsOk(lens)
    ensures H.Kraft(lens) * Pow2(LONGEST) as real == Cells(lens) as real
  {
    hide Pow2, O.HalfPow;
    if lens != [] {
      var n := |lens| - 1;
      CellsScaled(lens[..n]);
      HalfPowScaled(lens[n]);
      RealDist(H.Kraft(lens[..n]), O.HalfPow(lens[n]), Pow2(LONGEST) as real);
    }
  }

  lemma RealDist(a: real, b: real, c: real)
    ensures (a + b) * c == a * c + b * c
  {
  }

  /** Adding up symbol by symbol or length by length comes to the same. */
  lemma {:induction false} SpaceSnoc(lens: seq<nat>, x: nat, l: nat)
    requires 1 <= x <= LONGEST && l <= LONGEST
    ensures Space(lens + [x], l) == Space(lens, l) + if x <= l then Pow2(LONGEST - x) else 0
  {
    hide Pow2, Total;
    if l > 0 {
      SpaceSnoc(lens, x, l - 1);
      TotalSnoc(lens, x, l);
      MulSucc(Total(lens, l), Pow2(LONGEST - l));
    }
  }

  lemma TotalSnoc(lens: seq<nat>, x: nat, l: nat)
    ensures Total(lens + [x], l) == Total(lens, l) + if x == l then 1 else 0
  {
    CountPrefix(lens, lens + [x], l, |lens|);
  }

  lemma {:induction false} CountPrefix(lens: seq<nat>, lens': seq<nat>, l: nat, k: nat)
    requires k <= |lens| && lens <= lens'
    ensures Count(lens', l, k) == Count(lens, l, k)
  {
    if k > 0 { CountPrefix(lens, lens', l, k - 1); }
  }

  lemma {:induction false} SpaceIsCells(lens: seq<nat>)
    requires LengthsOk(lens)
    ensures Space(lens, LONGEST) == Cells(lens)
  {
    hide Pow2, Total, Space;
    if lens == [] {
      SpaceEmpty(LONGEST);
    } else {
      var n := |lens| - 1;
      SpaceIsCells(lens[..n]);
      assert lens == lens[..n] + [lens[n]];
      SpaceSnoc(lens[..n], lens[n], LONGEST);
    }
  }

  lemma {:induction false} SpaceEmpty(l: nat)
    requires l <= LONGEST
    ensures Space([], l) == 0
  {
    if l > 0 { SpaceEmpty(l - 1); }
  }

  /** A complete code, as the length assignment promises, uses the code space exactly. */
  lemma CompleteKraft(lens: seq<nat>)
    requires LengthsOk(lens) && H.Kraft(lens) == 1.0
    ensures Kraft(lens) && Space(lens, LONGEST) == Pow2(LONGEST)
  {
    hide Pow2, Space;
    CellsScaled(lens);
    SpaceIsCells(lens);
  }
}
