/**
 * The head of a bzip2 block: which bytes are in use, which table codes which
 * group of symbols, and the code lengths of every table, as the end of
 * sendMTFValues writes them and BZ2_decompress reads them.
 */
module BzHeader {
  import opened Sequences
  import opened Powers
  import opened BitStrings
  import opened MoveToFront
  import opened BzBits
  import M = MtfCoding
  import C = BzCodes

  const MIN_GROUPS: nat := 2
  const MAX_GROUPS: nat := 6

  function Flag(b: bool): Bit { if b then 1 else 0 }

  method PutBit(w: BitWriter, b: Bit)
    requires w.Valid()
    modifies w
    ensures w.Valid() && w.All() == old(w.All()) + [b]
  {
    hide HoldsTop, Bits;
    OneBit();
    assert Code(b, 1) == [b];
    w.Write(1, b);
  }

  // ------------------------------------------------------------------
  // The mapping table

  function Flags(f: seq<bool>): (r: seq<Bit>)
    ensures |r| == |f| && forall i :: 0 <= i < |f| ==> r[i] == Flag(f[i])
  {
    seq(|f|, i requires 0 <= i < |f| => Flag(f[i]))
  }

  /** The sixteen bytes of row i. */
  function Row(inUse: seq<bool>, i: nat): (r: seq<bool>)
    requires |inUse| == 256 && i < 16
    ensures |r| == 16
  {
    inUse[16 * i..16 * i + 16]
  }

  /** The rows with a byte in use. */
  function Rows(inUse: seq<bool>): (r: seq<bool>)
    requires |inUse| == 256
    ensures |r| == 16 && forall i :: 0 <= i < 16 ==> r[i] == (true in Row(inUse, i))
  {
    seq(16, i requires 0 <= i < 16 => true in Row(inUse, i))
  }

  /** The flags of those rows, from row i on. */
  function RowBits(inUse: seq<bool>, i: nat): seq<Bit>
    requires |inUse| == 256 && i <= 16
    decreases 16 - i
  {
    if i == 16 then [] else (if true in Row(inUse, i) then Flags(Row(inUse, i)) else []) + RowBits(inUse, i + 1)
  }

  function MapBits(inUse: seq<bool>): seq<Bit>
    requires |inUse| == 256
  {
    Flags(Rows(inUse)) + RowBits(inUse, 0)
  }

  method PutFlags(w: BitWriter, f: seq<bool>)
    requires w.Valid()
    modifies w
    ensures w.Valid() && w.All() == old(w.All()) + Flags(f)
  {
    hide BitWriter.Valid;
    for i := 0 to |f|
      invariant w.Valid() && w.All() == old(w.All()) + Flags(f)[..i]
    {
      PutBit(w, Flag(f[i]));
    }
  }

  method PutMap(w: BitWriter, inUse: array<bool>)
    requires w.Valid() && inUse.Length == 256
    modifies w
    ensures w.Valid() && w.All() == old(w.All()) + MapBits(inUse[..])
  {
    hide BitWriter.Valid, Flags, BitWriter.All, RowBits;
    ghost var start := w.All();
    var inUse16 := RowsOf(inUse);
    PutFlags(w, inUse16);
    AssocBits(start, Flags(inUse16), RowBits(inUse[..], 0));
    PutRows(w, inUse, inUse16);
  }

  method RowsOf(inUse: array<bool>) returns (inUse16: seq<bool>)
    requires inUse.Length == 256
    ensures inUse16 == Rows(inUse[..])
  {
    inUse16 := [];
    for i := 0 to 16
      invariant |inUse16| == i && forall k :: 0 <= k < i ==> inUse16[k] == (true in Row(inUse[..], k))
    {
      var used := AnyInRow(inUse, i);
      inUse16 := inUse16 + [used];
    }
  }

  method PutRows(w: BitWriter, inUse: array<bool>, inUse16: seq<bool>)
    requires w.Valid() && inUse.Length == 256 && inUse16 == Rows(inUse[..])
    modifies w
    ensures w.Valid() && w.All() == old(w.All()) + RowBits(inUse[..], 0)
  {
    hide BitWriter.Valid, Flags, BitWriter.All, RowBits, Row;
    ghost var start, flags := w.All(), inUse[..];
    for i := 0 to 16
      invariant w.Valid() && inUse[..] == flags && w.All() + RowBits(flags, i) == start + RowBits(flags, 0)
    {
      ghost var all := w.All();
      RowNext(flags, i);
      if inUse16[i] {
        PutFlags(w, inUse[16 * i..16 * i + 16]);
        AssocBits(all, Flags(Row(flags, i)), RowBits(flags, i + 1));
      }
    }
    RowNext(flags, 16);
    assert w.All() + [] == w.All();
  }

  lemma RowNext(flags: seq<bool>, i: nat)
    requires |flags| == 256 && i <= 16
    ensures i < 16 ==> Row(flags, i) == flags[16 * i..16 * i + 16]
    ensures RowBits(flags, i) ==
      if i == 16 then [] else if true in Row(flags, i) then Flags(Row(flags, i)) + RowBits(flags, i + 1) else RowBits(flags, i + 1)
  {
    hide Flags;
    if i < 16 {
      assert [] + RowBits(flags, i + 1) == RowBits(flags, i + 1);
    }
  }

  method AnyInRow(inUse: array<bool>, i: nat) returns (used: bool)
    requires inUse.Length == 256 && i < 16
    ensures used <==> true in Row(inUse[..], i)
  {
    used := false;
    for j := 0 to 16
      invariant used <==> true in Row(inUse[..], i)[..j]
    {
      if inUse[16 * i + j] {
        used := true;
      }
      assert Row(inUse[..], i)[..j + 1] == Row(inUse[..], i)[..j] + [inUse[16 * i + j]];
    }
  }

  /** Sixteen flags, noted from place p on. */
  method TakeFlags(src: Source, a: array<bool>, p: nat, ghost f: seq<bool>, ghost more: seq<Bit>) returns (ok: bool)
    requires src.Valid() && src.Rest() == Flags(f) + more && |f| == 16 && p + 16 <= a.Length
    modifies src, src.reader, a
    ensures src.Valid() && ok && src.Rest() == more
    ensures a[..] == old(a[..p]) + f + old(a[p + 16..])
  {
    hide Source.Valid, Source.Rest;
    assert Flags(f)[0..] + more == Flags(f) + more;
    for j := 0 to 16
      invariant src.Valid() && src.Rest() == Flags(f)[j..] + more
      invariant forall k :: 0 <= k < a.Length ==> a[k] == if p <= k < p + j then f[k - p] else old(a[k])
    {
      assert Flags(f)[j..] + more == [Flag(f[j])] + (Flags(f)[j + 1..] + more);
      var uc;
      ok, uc := src.GetBit(Flag(f[j]), Flags(f)[j + 1..] + more);
      if !ok {
        return;
      }
      a[p + j] := uc == 1;
    }
    assert Flags(f)[16..] + more == more;
    ok := true;
  }

  /** Receive the mapping table. */
  method TakeMap(src: Source, ghost flags: seq<bool>, ghost more: seq<Bit>) returns (ok: bool, inUse: array<bool>)
    requires src.Valid() && |flags| == 256 && src.Rest() == MapBits(flags) + more
    modifies src, src.reader
    ensures src.Valid() && ok && src.Rest() == more && fresh(inUse) && inUse[..] == flags
  {
    hide Source.Valid, Source.Rest, Flags, RowBits;
    var inUse16 := new bool[16](_ => false);
    inUse := new bool[256](_ => false);
    AssocBits(Flags(Rows(flags)), RowBits(flags, 0), more);
    ok := TakeFlags(src, inUse16, 0, Rows(flags), RowBits(flags, 0) + more);
    if ok {
      assert inUse16[..] == Rows(flags);
      ok := TakeRows(src, inUse16, inUse, flags, more);
    }
  }

  method TakeRows(src: Source, inUse16: array<bool>, inUse: array<bool>, ghost flags: seq<bool>, ghost more: seq<Bit>)
    returns (ok: bool)
    requires src.Valid() && |flags| == 256 && src.Rest() == RowBits(flags, 0) + more
    requires inUse16[..] == Rows(flags) && inUse.Length == 256 && forall k :: 0 <= k < 256 ==> !inUse[k]
    requires inUse != inUse16
    modifies src, src.reader, inUse
    ensures src.Valid() && ok && src.Rest() == more && inUse[..] == flags
  {
    hide Source.Valid, Source.Rest, Flags, RowBits, Row;
    for i := 0 to 16
      invariant src.Valid() && src.Rest() == RowBits(flags, i) + more && inUse16[..] == Rows(flags)
      invariant Filled(inUse[..], flags, i)
    {
      ghost var before := inUse[..];
      RowNext(flags, i);
      assert inUse16[..][i] == inUse16[i];
      if inUse16[i] {
        AssocBits(Flags(Row(flags, i)), RowBits(flags, i + 1), more);
        ok := TakeFlags(src, inUse, 16 * i, Row(flags, i), RowBits(flags, i + 1) + more);
        if !ok {
          return;
        }
      }
      RowDone(before, inUse[..], flags, i);
    }
    RowNext(flags, 16);
    assert [] + more == more;
    assert inUse[..] == flags;
    ok := true;
  }

  /** The rows below i are there, the rest is clear. */
  ghost predicate Filled(f: seq<bool>, flags: seq<bool>, i: nat) {
    |f| == |flags| == 256 && i <= 16 && forall k :: 0 <= k < 256 ==> f[k] == (k < 16 * i && flags[k])
  }

  lemma RowDone(before: seq<bool>, after: seq<bool>, flags: seq<bool>, i: nat)
    requires Filled(before, flags, i) && i < 16
    requires after == if true in Row(flags, i) then before[..16 * i] + Row(flags, i) + before[16 * i + 16..] else before
    ensures Filled(after, flags, i + 1)
  {
    forall k | 0 <= k < 256 ensures after[k] == (k < 16 * (i + 1) && flags[k]) {
      if 16 * i <= k < 16 * (i + 1) {
        assert flags[k] == Row(flags, i)[k - 16 * i];
      }
    }
  }

  // ------------------------------------------------------------------
  // The selectors

  /** Places of the selectors in a list that each use moves to the front. */
  function Ranks(selector: seq<nat>, list: seq<nat>): (r: seq<nat>)
    requires forall x :: x in selector ==> x in list
    ensures |r| == |selector|
  {
    if selector == [] then []
    else
      var j := M.Find(list, selector[0]);
      M.FrontIn(list, j);
      [j] + Ranks(selector[1..], Front(list, j))
  }

  predicate Below(ranks: seq<nat>, n: nat) {
    forall i :: 0 <= i < |ranks| ==> ranks[i] < n
  }

  function Unranked(ranks: seq<nat>, list: seq<nat>): (r: seq<nat>)
    requires Below(ranks, |list|)
    ensures |r| == |ranks|
  {
    if ranks == [] then [] else [list[ranks[0]]] + Unranked(ranks[1..], Front(list, ranks[0]))
  }

  /** Undoing the ranking gives the selectors back. */
  lemma {:induction false} RanksInverse(selector: seq<nat>, list: seq<nat>)
    requires forall x :: x in selector ==> x in list
    ensures Below(Ranks(selector, list), |list|)
    ensures Unranked(Ranks(selector, list), list) == selector
  {
    if selector != [] {
      var j := M.Find(list, selector[0]);
      M.FrontIn(list, j);
      RanksInverse(selector[1..], Front(list, j));
      assert Ranks(selector, list)[1..] == Ranks(selector[1..], Front(list, j));
    }
  }

  /** Move selector x to the front and return where it was. */
  method Rank(pos: array<nat>, x: nat) returns (j: nat)
    requires x in pos[..]
    modifies pos
    ensures j == M.Find(old(pos[..]), x) && pos[..] == Front(old(pos[..]), j)
  {
    ghost var list := pos[..];
    j := 0;
    var tmp := pos[0];
    while x != tmp
      invariant 0 <= j < pos.Length && tmp == list[j] && pos[0] == list[0]
      invariant forall k :: 1 <= k <= j ==> pos[k] == list[k - 1]
      invariant forall k :: j < k < pos.Length ==> pos[k] == list[k]
      invariant forall k :: 0 <= k < j ==> list[k] != x
      decreases pos.Length - j
    {
      j := j + 1;
      var tmp2 := tmp;
      tmp := pos[j];
      pos[j] := tmp2;
    }
    pos[0] := tmp;
    FirstFind(list, x, j);
  }

  lemma {:induction false} FirstFind(list: seq<nat>, x: nat, j: nat)
    requires j < |list| && list[j] == x && forall k :: 0 <= k < j ==> list[k] != x
    ensures M.Find(list, x) == j
  {
    if j > 0 { FirstFind(list[1..], x, j - 1); }
  }

  /** Move place v to the front and return what was there. */
  method Unrank(pos: array<nat>, v: nat) returns (tmp: nat)
    requires v < pos.Length
    modifies pos
    ensures tmp == old(pos[v]) && pos[..] == Front(old(pos[..]), v)
  {
    ghost var list := pos[..];
    tmp := pos[v];
    var i := v;
    while i > 0
      invariant 0 <= i <= v
      invariant forall k :: i < k <= v ==> pos[k] == list[k - 1]
      invariant forall k :: 0 <= k < pos.Length && (k <= i || k > v) ==> pos[k] == list[k]
    {
      pos[i] := pos[i - 1];
      i := i - 1;
    }
    pos[0] := tmp;
  }

  method Positions(n: nat) returns (pos: array<nat>)
    ensures fresh(pos) && pos[..] == Upto(n)
  {
    pos := new nat[n](_ => 0);
    for i := 0 to n
      invariant forall k :: 0 <= k < i ==> pos[k] == k
    {
      pos[i] := i;
    }
  }

  ghost predicate Selects(selector: seq<nat>, n: nat)
    ensures Selects(selector, n) ==> forall x :: x in selector ==> x in Upto(n)
  {
    forall x :: x in selector ==> x < n && Upto(n)[x] == x
  }

  /** Compute MTF values for the selectors. */
  method RankAll(selector: seq<nat>, n: nat) returns (ranks: seq<nat>)
    requires Selects(selector, n)
    ensures ranks == Ranks(selector, Upto(n))
  {
    hide Selects, M.Find, Front, Ranks;
    var pos := Positions(n);
    ranks := [];
    assert selector[0..] == selector;
    assert [] + Ranks(selector, Upto(n)) == Ranks(selector, Upto(n));
    for i := 0 to |selector|
      invariant pos.Length == n
      invariant forall x :: x in selector[i..] ==> x in pos[..]
      invariant ranks + Ranks(selector[i..], pos[..]) == Ranks(selector, Upto(n))
    {
      RankNext(ranks, selector, i, pos[..]);
      var j := Rank(pos, selector[i]);
      ranks := ranks + [j];
    }
  }

  lemma RankNext(ranks: seq<nat>, selector: seq<nat>, i: nat, list: seq<nat>)
    requires i < |selector| && forall x :: x in selector[i..] ==> x in list
    ensures selector[i] in list
    ensures var j := M.Find(list, selector[i]);
      && (forall x :: x in selector[i + 1..] ==> x in Front(list, j))
      && ranks + Ranks(selector[i..], list) == (ranks + [j]) + Ranks(selector[i + 1..], Front(list, j))
  {
    hide M.Find, Front;
    var left := selector[i..];
    assert left[1..] == selector[i + 1..] && left[0] == selector[i];
    M.FrontIn(list, M.Find(list, left[0]));
  }

  /** Undo the MTF values for the selectors. */
  method UnrankAll(ranks: seq<nat>, n: nat) returns (selector: seq<nat>)
    requires Below(ranks, n)
    ensures selector == Unranked(ranks, Upto(n))
  {
    var pos := Positions(n);
    selector := [];
    assert ranks[0..] == ranks;
    for i := 0 to |ranks|
      invariant pos.Length == n && Below(ranks[i..], n)
      invariant selector + Unranked(ranks[i..], pos[..]) == Unranked(ranks, Upto(n))
    {
      ghost var list, left := pos[..], ranks[i..];
      assert left[1..] == ranks[i + 1..] && left[0] == ranks[i];
      var tmp := Unrank(pos, ranks[i]);
      assert selector + ([tmp] + Unranked(left[1..], Front(list, left[0])))
          == (selector + [tmp]) + Unranked(left[1..], Front(list, left[0]));
      selector := selector + [tmp];
    }
  }

  /** Each rank as so many ones and a zero. */
  function Unary(ranks: seq<nat>): seq<Bit> {
    if ranks == [] then [] else Run(1, ranks[0]) + ([0] + Unary(ranks[1..]))
  }

  method PutUnary(w: BitWriter, rank: nat)
    requires w.Valid()
    modifies w
    ensures w.Valid() && w.All() == old(w.All()) + Run(1, rank) + [0]
  {
    hide BitWriter.Valid, BitWriter.All;
    RunNone();
    for j := 0 to rank
      invariant w.Valid() && w.All() == old(w.All()) + Run(1, j)
    {
      PutBit(w, 1);
      assert Run(1, j + 1) == Run(1, j) + [1];
    }
    PutBit(w, 0);
  }

  method PutRanks(w: BitWriter, ranks: seq<nat>)
    requires w.Valid()
    modifies w
    ensures w.Valid() && w.All() == old(w.All()) + Unary(ranks)
  {
    hide BitWriter.Valid, BitWriter.All, Run;
    ghost var start := w.All();
    assert ranks[0..] == ranks;
    for i := 0 to |ranks|
      invariant w.Valid() && w.All() + Unary(ranks[i..]) == start + Unary(ranks)
    {
      ghost var all, next := w.All(), Unary(ranks[i + 1..]);
      PutUnary(w, ranks[i]);
      assert ranks[i..][1..] == ranks[i + 1..];
      assert all + (Run(1, ranks[i]) + ([0] + next)) == (all + Run(1, ranks[i]) + [0]) + next;
    }
    assert w.All() + [] == w.All();
  }

  method TakeUnary(src: Source, nGroups: nat, ghost rank: nat, ghost more: seq<Bit>) returns (ok: bool, j: nat)
    requires src.Valid() && rank < nGroups && src.Rest() == Run(1, rank) + ([0] + more)
    modifies src, src.reader
    ensures src.Valid() && ok && j == rank && src.Rest() == more
  {
    hide Source.Valid, Source.Rest;
    j := 0;
    while true
      invariant 0 <= j <= rank && src.Valid() && src.Rest() == Run(1, rank - j) + ([0] + more)
      decreases rank - j
    {
      ghost var bit: Bit, next := if j == rank then 0 else 1, if j == rank then more else Run(1, rank - j - 1) + ([0] + more);
      assert Run(1, rank - j) + ([0] + more) == [bit] + next;
      var uc;
      ok, uc := src.GetBit(bit, next);
      if !ok || uc == 0 {
        return;
      }
      j := j + 1;
      if j >= nGroups {
        return false, j;
      }
    }
  }

  method TakeRanks(src: Source, nGroups: nat, nSelectors: nat, ghost all: seq<nat>, ghost more: seq<Bit>)
    returns (ok: bool, ranks: seq<nat>)
    requires src.Valid() && |all| == nSelectors && Below(all, nGroups)
    requires src.Rest() == Unary(all) + more
    modifies src, src.reader
    ensures src.Valid() && ok && ranks == all && src.Rest() == more
  {
    hide Source.Valid, Source.Rest, Run;
    ranks := [];
    assert all[0..] == all;
    for i := 0 to nSelectors
      invariant ranks == all[..i] && src.Valid() && src.Rest() == Unary(all[i..]) + more
    {
      ghost var r, next := Run(1, all[i]), Unary(all[i + 1..]);
      assert all[i..][1..] == all[i + 1..];
      assert (r + ([0] + next)) + more == r + ([0] + (next + more));
      var j;
      ok, j := TakeUnary(src, nGroups, all[i], next + more);
      if !ok {
        return;
      }
      ranks := ranks + [j];
    }
    assert [] + more == more;
    ok := true;
  }

  // ------------------------------------------------------------------
  // The coding tables

  /** From one length to the next: two bits for each step up or down. */
  function Steps(a: nat, b: nat): seq<Bit>
    decreases if a < b then b - a else a - b
  {
    if a < b then [1, 0] + Steps(a + 1, b) else if a > b then [1, 1] + Steps(a - 1, b) else []
  }

  function Deltas(curr: nat, lens: seq<nat>): seq<Bit>
    decreases |lens|
  {
    if lens == [] then [] else Steps(curr, lens[0]) + ([0] + Deltas(lens[0], lens[1..]))
  }

  lemma FiveBits(lens: seq<nat>)
    requires C.LengthsOk(lens) && lens != []
    ensures lens[0] < Pow2(5)
  {
    assert Pow2(5) == 32;
  }

  function TableBits(lens: seq<nat>): seq<Bit>
    requires C.LengthsOk(lens) && lens != []
  {
    FiveBits(lens);
    Code(lens[0], 5) + Deltas(lens[0], lens)
  }

  ghost predicate TablesOk(lens: seq<seq<nat>>, alphaSize: nat) {
    0 < alphaSize && forall t :: 0 <= t < |lens| ==> |lens[t]| == alphaSize && C.LengthsOk(lens[t])
  }

  /** All the tables from t on. */
  ghost function AllTables(lens: seq<seq<nat>>, alphaSize: nat, t: nat): seq<Bit>
    requires TablesOk(lens, alphaSize) && t <= |lens|
    decreases |lens| - t
  {
    if t == |lens| then [] else TableBits(lens[t]) + AllTables(lens, alphaSize, t + 1)
  }

  method PutTwo(w: BitWriter, v: nat)
    requires w.Valid() && v in {2, 3}
    modifies w
    ensures w.Valid() && w.All() == old(w.All()) + [1, v - 2]
  {
    hide HoldsTop, Bits, Code;
    TwoBits(v);
    w.Write(2, v);
  }

  lemma TwoBits(v: nat)
    requires v in {2, 3}
    ensures Pow2(2) == 4 && Code(v, 2) == [1, v - 2]
  {
    hide Msb;
    OneBit();
    Pow2Add(1, 1);
    assert [1, v - 2] == [1] + [v - 2];
    MsbAppend([1], [v - 2]);
    MsbInjective(Code(v, 2), [1, v - 2]);
  }

  /** The steps to the next length, and the zero that ends them. */
  method PutSteps(w: BitWriter, from: nat, to: nat)
    requires w.Valid()
    modifies w
    ensures w.Valid() && w.All() == old(w.All()) + Steps(from, to) + [0]
  {
    hide BitWriter.Valid, BitWriter.All;
    ghost var start := w.All();
    var curr := from;
    while curr < to
      invariant w.Valid() && (from <= curr <= to || curr == from)
      invariant w.All() + Steps(curr, to) == start + Steps(from, to)
    {
      AssocBits(w.All(), [1, 0], Steps(curr + 1, to));
      PutTwo(w, 2);
      curr := curr + 1;
    }
    while curr > to
      invariant w.Valid() && curr >= to
      invariant w.All() + Steps(curr, to) == start + Steps(from, to)
    {
      AssocBits(w.All(), [1, 1], Steps(curr - 1, to));
      PutTwo(w, 3);
      curr := curr - 1;
    }
    assert w.All() + [] == w.All();
    PutBit(w, 0);
  }

  method PutTable(w: BitWriter, lens: seq<nat>)
    requires w.Valid() && C.LengthsOk(lens) && lens != []
    modifies w
    ensures w.Valid() && w.All() == old(w.All()) + TableBits(lens)
  {
    hide BitWriter.Valid, BitWriter.All, Code, Pow2, Steps;
    ghost var start := w.All();
    FiveBits(lens);
    var curr := lens[0];
    Write5(w, curr);
    assert lens[0..] == lens;
    AssocBits(start, Code(lens[0], 5), Deltas(lens[0], lens));
    for i := 0 to |lens|
      invariant w.Valid() && w.All() + Deltas(curr, lens[i..]) == start + TableBits(lens)
    {
      ghost var all, s, next := w.All(), Steps(curr, lens[i]), Deltas(lens[i], lens[i + 1..]);
      assert lens[i..][1..] == lens[i + 1..];
      PutSteps(w, curr, lens[i]);
      assert all + (s + ([0] + next)) == (all + s + [0]) + next;
      curr := lens[i];
    }
    assert w.All() + [] == w.All();
  }

  method Write5(w: BitWriter, v: nat)
    requires w.Valid() && v < Pow2(5)
    modifies w
    ensures w.Valid() && w.All() == old(w.All()) + Code(v, 5)
  {
    hide HoldsTop, Bits, Code, Pow2;
    w.Write(5, v);
  }

  method PutTables(w: BitWriter, lens: seq<seq<nat>>, alphaSize: nat)
    requires w.Valid() && TablesOk(lens, alphaSize)
    modifies w
    ensures w.Valid() && w.All() == old(w.All()) + AllTables(lens, alphaSize, 0)
  {
    hide BitWriter.Valid, BitWriter.All, TableBits;
    ghost var start := w.All();
    for t := 0 to |lens|
      invariant w.Valid() && w.All() + AllTables(lens, alphaSize, t) == start + AllTables(lens, alphaSize, 0)
    {
      AssocBits(w.All(), TableBits(lens[t]), AllTables(lens, alphaSize, t + 1));
      PutTable(w, lens[t]);
    }
    assert w.All() + [] == w.All();
  }

  /** One length, read as steps from the last one. */
  method TakeSteps(src: Source, from: nat, ghost to: nat, ghost more: seq<Bit>) returns (ok: bool, curr: int)
    requires src.Valid() && 1 <= from <= C.LONGEST && 1 <= to <= C.LONGEST
    requires src.Rest() == Steps(from, to) + ([0] + more)
    modifies src, src.reader
    ensures src.Valid() && ok && curr == to && src.Rest() == more
  {
    hide Source.Valid, Source.Rest;
    curr := from;
    while true
      invariant 1 <= curr <= C.LONGEST && src.Valid() && src.Rest() == Steps(curr, to) + ([0] + more)
      decreases if curr < to then to - curr else curr - to
    {
      if curr < 1 || curr > 20 {
        return false, curr;
      }
      ghost var up: Bit := if curr < to then 0 else 1;
      ghost var next := if curr < to then Steps(curr + 1, to) else if curr > to then Steps(curr - 1, to) else [];
      ghost var after := next + ([0] + more);
      StepBits(curr, to, next, more);
      var uc;
      ok, uc := src.GetBit(if curr == to then 0 else 1, if curr == to then more else [up] + after);
      if !ok || uc == 0 {
        return;
      }
      ok, uc := src.GetBit(up, after);
      if !ok {
        return;
      }
      if uc == 0 {
        curr := curr + 1;
      } else {
        curr := curr - 1;
      }
    }
  }

  lemma StepBits(curr: nat, to: nat, next: seq<Bit>, more: seq<Bit>)
    requires next == if curr < to then Steps(curr + 1, to) else if curr > to then Steps(curr - 1, to) else []
    ensures Steps(curr, to) + ([0] + more) ==
      if curr == to then [0] + more else [1] + ([if curr < to then 0 else 1] + (next + ([0] + more)))
  {
  }

  method TakeTable(src: Source, alphaSize: nat, ghost all: seq<nat>, ghost more: seq<Bit>)
    returns (ok: bool, lens: seq<nat>)
    requires src.Valid() && C.LengthsOk(all) && |all| == alphaSize > 0 && src.Rest() == TableBits(all) + more
    modifies src, src.reader
    ensures src.Valid() && ok && lens == all && src.Rest() == more
  {
    hide Source.Valid, Source.Rest, Code, Pow2, Steps;
    FiveBits(all);
    lens := [];
    AssocBits(Code(all[0], 5), Deltas(all[0], all), more);
    var curr: int;
    ok, curr := src.Get(5, all[0], Deltas(all[0], all) + more);
    if !ok {
      return;
    }
    assert all[0..] == all;
    for i := 0 to alphaSize
      invariant lens == all[..i] && 1 <= curr <= C.LONGEST && src.Valid()
      invariant src.Rest() == Deltas(curr, all[i..]) + more
    {
      ghost var s, next := Steps(curr, all[i]), Deltas(all[i], all[i + 1..]);
      assert all[i..][1..] == all[i + 1..];
      assert (s + ([0] + next)) + more == s + ([0] + (next + more));
      ok, curr := TakeSteps(src, curr, all[i], next + more);
      if !ok {
        return;
      }
      lens := lens + [curr];
    }
    assert [] + more == more;
    ok := true;
  }

  method TakeTables(src: Source, nGroups: nat, alphaSize: nat, ghost all: seq<seq<nat>>, ghost more: seq<Bit>)
    returns (ok: bool, lens: seq<seq<nat>>)
    requires src.Valid() && TablesOk(all, alphaSize) && |all| == nGroups
    requires src.Rest() == AllTables(all, alphaSize, 0) + more
    modifies src, src.reader
    ensures src.Valid() && ok && lens == all && src.Rest() == more
  {
    hide Source.Valid, Source.Rest, TableBits;
    lens := [];
    for t := 0 to nGroups
      invariant lens == all[..t] && src.Valid() && src.Rest() == AllTables(all, alphaSize, t) + more
    {
      AssocBits(TableBits(all[t]), AllTables(all, alphaSize, t + 1), more);
      var len;
      ok, len := TakeTable(src, alphaSize, all[t], AllTables(all, alphaSize, t + 1) + more);
      if !ok {
        return;
      }
      lens := lens + [len];
    }
    assert [] + more == more;
    ok := true;
  }

  // ------------------------------------------------------------------
  // All together

  datatype Head = Head(inUse: seq<bool>, lens: seq<seq<nat>>, selector: seq<nat>, alphaSize: nat)

  /** What the compressor sends. */
  ghost predicate HeadOk(h: Head)
    ensures HeadOk(h) ==> |h.inUse| == 256 && |h.lens| < Pow2(3) && |h.selector| < Pow2(15)
  {
    EightAndMore();
    && |h.inUse| == 256 && MIN_GROUPS <= |h.lens| <= MAX_GROUPS && 1 <= |h.selector| < 0x8000
    && TablesOk(h.lens, h.alphaSize) && Selects(h.selector, |h.lens|)
  }

  lemma EightAndMore()
    ensures Pow2(3) == 8 && Pow2(15) == 0x8000
  {
    assert Pow2(8) == 256;
  }

  ghost function HeadBits(h: Head): seq<Bit>
    requires HeadOk(h)
  {
    MapBits(h.inUse) + (Code(|h.lens|, 3) + (Code(|h.selector|, 15) + SelectorBits(h)))
  }

  ghost function SelectorBits(h: Head): seq<Bit>
    requires HeadOk(h)
  {
    Unary(Ranks(h.selector, Upto(|h.lens|))) + AllTables(h.lens, h.alphaSize, 0)
  }

  method PutHead(w: BitWriter, inUse: array<bool>, lens: seq<seq<nat>>, selector: seq<nat>, alphaSize: nat)
    requires w.Valid() && HeadOk(Head(inUse[..], lens, selector, alphaSize))
    modifies w
    ensures w.Valid() && w.All() == old(w.All()) + HeadBits(Head(inUse[..], lens, selector, alphaSize))
  {
    hide HoldsTop, Bits, MapBits, Unary, Ranks, AllTables, Code, Pow2;
    ghost var start, h := w.All(), Head(inUse[..], lens, selector, alphaSize);
    var ranks := RankAll(selector, |lens|);
    PutMap(w, inUse);
    w.Write(3, |lens|);
    w.Write(15, |selector|);
    PutRanks(w, ranks);
    PutTables(w, lens, alphaSize);
    HeadGrouped(start, MapBits(h.inUse), Code(|lens|, 3), Code(|selector|, 15), Unary(ranks), AllTables(lens,
                alphaSize, 0));
  }

  lemma HeadGrouped(s: seq<Bit>, a: seq<Bit>, b: seq<Bit>, c: seq<Bit>, d: seq<Bit>, e: seq<Bit>)
    ensures s + a + b + c + d + e == s + (a + (b + (c + (d + e))))
  {
  }

  lemma HeadBefore(a: seq<Bit>, b: seq<Bit>, c: seq<Bit>, d: seq<Bit>, more: seq<Bit>)
    ensures (a + (b + (c + d))) + more == a + (b + (c + (d + more)))
  {
  }

  /** Everything up to the symbols, without error. */
  method TakeHead(src: Source, ghost h: Head, ghost more: seq<Bit>)
    returns (ok: bool, inUse: array<bool>, nGroups: nat, selector: seq<nat>)
    requires src.Valid() && HeadOk(h) && src.Rest() == HeadBits(h) + more
    modifies src, src.reader
    ensures src.Valid() && ok && fresh(inUse) && inUse[..] == h.inUse && nGroups == |h.lens| && selector == h.selector
    ensures src.Rest() == AllTables(h.lens, h.alphaSize, 0) + more
  {
    hide Source.Valid, Source.Rest, MapBits, Unary, Ranks, AllTables, Code, Pow2, Unranked;
    ghost var ranks, tables := Ranks(h.selector, Upto(|h.lens|)), AllTables(h.lens, h.alphaSize, 0);
    ghost var b, c := Code(|h.lens|, 3), Code(|h.selector|, 15);
    HeadBefore(MapBits(h.inUse), b, c, SelectorBits(h), more);
    nGroups, selector := 0, [];
    ok, inUse := TakeMap(src, h.inUse, b + (c + (SelectorBits(h) + more)));
    if !ok {
      return;
    }
    ok, nGroups := src.Get(3, |h.lens|, c + (SelectorBits(h) + more));
    if !ok || nGroups < MIN_GROUPS || nGroups > MAX_GROUPS {
      return false, inUse, nGroups, selector;
    }
    var nSelectors;
    ok, nSelectors := src.Get(15, |h.selector|, SelectorBits(h) + more);
    if !ok || nSelectors < 1 {
      return false, inUse, nGroups, selector;
    }
    RanksInverse(h.selector, Upto(|h.lens|));
    AssocBits(Unary(ranks), tables, more);
    var sent;
    ok, sent := TakeRanks(src, nGroups, nSelectors, ranks, tables + more);
    if ok {
      selector := UnrankAll(sent, nGroups);
    }
  }
}
