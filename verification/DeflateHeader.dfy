/**
 * The head of a dynamic block (section 3.2.7 of RFC 1951) as bits:
 * build_bl_tree's choice of how many code length codes to send,
 * send_all_trees, and inflate's states TABLE, LENLENS and CODELENS.
 */
module DeflateHeader {
  import opened Sequences
  import opened Powers
  import opened BitStrings
  import opened CanonicalCode
  import opened DeflateBits
  import opened DeflateTokens
  import opened OptimalCode
  import CL = CodeLengths
  import H = BuildTree
  import T = InflateTable

  const BL_CODES: nat := 19

  /** The order in which the lengths of the code length codes are sent, by the compressor and by inflate. */
  const BL_ORDER: seq<nat> := [16, 17, 18, 0, 8, 7, 9, 6, 10, 5, 11, 4, 12, 3, 13, 2, 14, 1, 15]
  const ORDER: seq<nat> := [16, 17, 18, 0, 8, 7, 9, 6, 10, 5, 11, 4, 12, 3, 13, 2, 14, 1, 15]
  const PLACE: seq<nat> := [3, 17, 15, 13, 11, 9, 7, 5, 4, 6, 8, 10, 12, 14, 16, 18, 0, 1, 2]

  /**
   * The order of section 3.2.7 of RFC 1951: the repeat codes, 0, and then the
   * lengths by their distance from 8, the smaller of two first.
   */
  lemma OrderLaw(rank: nat)
    requires 4 <= rank < BL_CODES
    ensures BL_ORDER[..4] == [16, 17, 18, 0]
    ensures var d := (rank - 3) / 2; BL_ORDER[rank] == if rank % 2 == 0 then 8 + d else 8 - d
  {
    assert BL_ORDER[..4] == [16, 17, 18, 0];
  }

  lemma Orders(rank: nat)
    requires rank < BL_CODES
    ensures BL_ORDER[rank] == ORDER[rank] < BL_CODES && PLACE[ORDER[rank]] == rank
    ensures PLACE[rank] < BL_CODES && ORDER[PLACE[rank]] == rank
  {
  }

  // ------------------------------------------------------------------
  // What is sent

  function ExtraLen(v: nat): nat {
    if v == CL.REP_3_6 then 2 else if v == CL.REPZ_3_10 then 3 else if v == CL.REPZ_11_138 then 7 else 0
  }

  /** The lengths of a code length code. */
  predicate BlOk(bl: seq<nat>)
    ensures BlOk(bl) ==> |bl| == BL_CODES && Lengths(bl) && NotOver(bl)
  {
    |bl| == BL_CODES && (forall s :: 0 <= s < |bl| ==> bl[s] <= 7) && Complete(bl)
  }

  /** A symbol that has a code, its extra bits in range. */
  predicate Sendable(bl: seq<nat>, s: CL.Sym)
    ensures Sendable(bl, s) ==> HasCode(bl, s.val) && s.extra < Pow2(ExtraLen(s.val)) && s.val <= 18
  {
    ExtraFits(s);
    HasCode(bl, s.val) && CL.Sendable(s)
  }

  lemma ExtraFits(s: CL.Sym)
    ensures CL.Sendable(s) ==> s.extra < Pow2(ExtraLen(s.val))
  {
    assert Pow2(0) == 1 && Pow2(2) == 4 && Pow2(3) == 8 && Pow2(7) == 128;
  }

  ghost function OneBits(bl: seq<nat>, s: CL.Sym): seq<Bit>
    requires BlOk(bl) && Sendable(bl, s)
  {
    SymBits(bl, s.val) + LowBits(s.extra, ExtraLen(s.val))
  }

  ghost predicate AllSendable(bl: seq<nat>, syms: seq<CL.Sym>) {
    forall i :: 0 <= i < |syms| ==> Sendable(bl, syms[i])
  }

  ghost function SymsBits(bl: seq<nat>, syms: seq<CL.Sym>): seq<Bit>
    requires BlOk(bl) && AllSendable(bl, syms)
  {
    if syms == [] then [] else OneBits(bl, syms[0]) + SymsBits(bl, syms[1..])
  }

  lemma {:induction false} SymsAppend(bl: seq<nat>, a: seq<CL.Sym>, b: seq<CL.Sym>)
    requires BlOk(bl) && AllSendable(bl, a) && AllSendable(bl, b)
    ensures AllSendable(bl, a + b) && SymsBits(bl, a + b) == SymsBits(bl, a) + SymsBits(bl, b)
    decreases |a|
  {
    hide OneBits, BlOk, Sendable;
    if a == [] {
      assert a + b == b;
      assert [] + SymsBits(bl, b) == SymsBits(bl, b);
    } else {
      assert (a + b)[1..] == a[1..] + b;
      SymsAppend(bl, a[1..], b);
      Assoc(OneBits(bl, a[0]), SymsBits(bl, a[1..]), SymsBits(bl, b));
    }
  }

  /** The lengths of the code length codes, three bits each, from a rank on. */
  ghost function LenBits(bl: seq<nat>, blcodes: nat, rank: nat): seq<Bit>
    requires |bl| == BL_CODES && rank <= blcodes <= BL_CODES
    decreases blcodes - rank
  {
    Places();
    if rank == blcodes then [] else LowBits(bl[BL_ORDER[rank]], 3) + LenBits(bl, blcodes, rank + 1)
  }

  lemma Places()
    ensures forall rank :: 0 <= rank < BL_CODES ==> BL_ORDER[rank] < BL_CODES && ORDER[rank] == BL_ORDER[rank]
  {
  }

  /** The code lengths of a block, and those of the code that they are sent in. */
  datatype Dyn = Dyn(lit: seq<nat>, dist: seq<nat>, bl: seq<nat>, blcodes: nat)

  ghost function Syms(d: Dyn): seq<CL.Sym> {
    CL.Emit(d.lit, 0, 0, -1) + CL.Emit(d.dist, 0, 0, -1)
  }

  ghost predicate DynOk(d: Dyn)
    ensures DynOk(d) ==> BlOk(d.bl) && AllSendable(d.bl, Syms(d)) && 4 <= d.blcodes <= BL_CODES
    ensures DynOk(d) ==> 257 <= |d.lit| <= 286 && 1 <= |d.dist| <= 30
  {
    && 257 <= |d.lit| <= 286 && 1 <= |d.dist| <= 30 && CL.Lengths(d.lit) && CL.Lengths(d.dist)
    && BlOk(d.bl) && AllSendable(d.bl, Syms(d)) && 4 <= d.blcodes <= BL_CODES && Unsent(d.bl, d.blcodes)
    && d.lit[END_BLOCK] != 0
  }

  /** The lengths not sent are zero. */
  predicate Unsent(bl: seq<nat>, blcodes: nat)
    requires |bl| == BL_CODES
  {
    Places();
    forall rank :: blcodes <= rank < BL_CODES ==> bl[BL_ORDER[rank]] == 0
  }

  ghost function HeaderBits(d: Dyn): seq<Bit>
    requires DynOk(d)
  {
    LowBits(|d.lit| - 257, 5) + (LowBits(|d.dist| - 1, 5) + (LowBits(d.blcodes - 4, 4) + BlBits(d)))
  }

  ghost function BlBits(d: Dyn): seq<Bit>
    requires DynOk(d)
  {
    LenBits(d.bl, d.blcodes, 0) + SymsBits(d.bl, Syms(d))
  }

  // ------------------------------------------------------------------
  // Sending

  /** How many code length codes are sent: all up to the last in order that is in use, but four at least. */
  method BlCodes(bl: seq<nat>) returns (blcodes: nat)
    requires |bl| == BL_CODES && exists v :: 1 <= v <= 15 && bl[v] != 0
    ensures 4 <= blcodes <= BL_CODES && Unsent(bl, blcodes)
    ensures bl[BL_ORDER[blcodes - 1]] != 0
  {
    Places();
    var maxBlindex := BL_CODES - 1;
    while maxBlindex >= 3
      invariant 3 <= maxBlindex < BL_CODES && Unsent(bl, maxBlindex + 1)
      decreases maxBlindex
    {
      if bl[BL_ORDER[maxBlindex]] != 0 {
        break;
      }
      maxBlindex := maxBlindex - 1;
      SomeInUse(bl, maxBlindex);
    }
    blcodes := maxBlindex + 1;
  }

  lemma SomeInUse(bl: seq<nat>, rank: nat)
    requires |bl| == BL_CODES && rank < BL_CODES && Unsent(bl, rank + 1) && exists v :: 1 <= v <= 15 && bl[v] != 0
    ensures rank >= 3
  {
    var v :| 1 <= v <= 15 && bl[v] != 0;
    Orders(v);
    assert PLACE[v] <= rank;
  }

  /** A length other than 0 is sent as itself when it first comes. */
  lemma {:induction false} FirstPlain(lens: seq<nat>, n: nat, count: nat, prev: int, m: nat)
    requires CL.Lengths(lens) && n <= m < |lens| && lens[m] != 0 && count < CL.MaxCount(lens[n], prev) && prev <= 0
    ensures exists i :: 0 <= i < |CL.Emit(lens, n, count, prev)| && 1 <= CL.Emit(lens, n, count, prev)[i].val <= 15
    decreases |lens| - n
  {
    var cur, next, c := lens[n], CL.NextLen(lens, n + 1), count + 1;
    var all := CL.Emit(lens, n, count, prev);
    if c < CL.MaxCount(cur, prev) && cur == next {
      FirstPlain(lens, n + 1, c, prev, if m == n then n + 1 else m);
    } else if cur == 0 {
      var run, rest := CL.RunCode(cur, c, prev), CL.Emit(lens, n + 1, 0, cur);
      FirstPlain(lens, n + 1, 0, 0, m);
      var i :| 0 <= i < |rest| && 1 <= rest[i].val <= 15;
      assert all[|run| + i] == rest[i];
    } else {
      assert all[0] == CL.Sym(cur, 0);
    }
  }

  /** What is sent has been counted. */
  lemma {:induction false} Occurs(syms: seq<CL.Sym>, i: nat)
    requires i < |syms|
    ensures CL.Times(syms, syms[i].val) > 0
  {
    if i > 0 { Occurs(syms[1..], i - 1); }
  }

  /** A code for the symbols that are sent. */
  lemma AllHaveCodes(lit: seq<nat>, dist: seq<nat>, bl: seq<nat>, freq: seq<nat>)
    requires CL.Lengths(lit) && CL.Lengths(dist) && |bl| == BL_CODES <= |freq|
    requires forall v: nat :: v < BL_CODES && freq[v] > 0 ==> bl[v] >= 1
    requires 257 <= |lit| && lit[END_BLOCK] != 0
    requires var syms := CL.Emit(lit, 0, 0, -1) + CL.Emit(dist, 0, 0, -1);
      forall v: nat :: v < BL_CODES ==> freq[v] == CL.Times(syms, v)
    ensures AllSendable(bl, CL.Emit(lit, 0, 0, -1) + CL.Emit(dist, 0, 0, -1))
    ensures exists v :: 1 <= v <= 15 && bl[v] != 0
  {
    hide CL.Emit, CL.Times, CL.Sendable;
    var a, b := CL.Emit(lit, 0, 0, -1), CL.Emit(dist, 0, 0, -1);
    CL.EmitSendable(lit, 0, 0, -1);
    CL.EmitSendable(dist, 0, 0, -1);
    forall i | 0 <= i < |a + b| ensures Sendable(bl, (a + b)[i]) {
      Occurs(a + b, i);
      ValueSmall((a + b)[i]);
    }
    FirstPlain(lit, 0, 0, -1, END_BLOCK);
    var i :| 0 <= i < |a| && 1 <= a[i].val <= 15;
    assert (a + b)[i] == a[i] && Sendable(bl, (a + b)[i]);
  }

  lemma ValueSmall(s: CL.Sym)
    requires CL.Sendable(s)
    ensures s.val <= 18
  {
  }

  /** build_bl_tree */
  method BuildBlTree(lit: seq<nat>, dist: seq<nat>) returns (d: Dyn, blcode: seq<nat>)
    requires 257 <= |lit| <= 286 && 1 <= |dist| <= 30 && CL.Lengths(lit) && CL.Lengths(dist) && lit[END_BLOCK] != 0
    ensures DynOk(d) && CodesFor(blcode, d.bl) && d.lit == lit && d.dist == dist
  {
    hide CL.Emit, CL.Times, CL.Lengths, Complete, Optimal, Exceeds, H.Occurring, H.Coded, H.Builder.Graded;
    var b := new H.Builder(BL_CODES);
    ghost var f0 := b.freq[..];
    CL.ScanTree(lit, b.freq);
    ghost var f1 := b.freq[..];
    CL.ScanTree(dist, b.freq);
    ghost var f2 := b.freq[..];
    CL.GrownAppend(f0, f1, f2, CL.Emit(lit, 0, 0, -1), CL.Emit(dist, 0, 0, -1));
    SmallTree();
    var maxCode, code, _ := b.Build(BL_CODES, MAX_BL_BITS);
    var bl := b.dl[..BL_CODES];
    assert bl[..maxCode + 1] == b.dl[..maxCode + 1];
    AllHaveCodes(lit, dist, bl, f2);
    BlTreeOk(bl, maxCode + 1, code[..]);
    var blcodes := BlCodes(bl);
    d, blcode := Dyn(lit, dist, bl, blcodes), code[..];
  }

  const MAX_BL_BITS: nat := 7

  lemma SmallTree()
    ensures BL_CODES <= Pow2(MAX_BL_BITS) == 128
  {
  }

  lemma BlTreeOk(bl: seq<nat>, n: nat, code: seq<nat>)
    requires |bl| == BL_CODES && n <= BL_CODES && (forall s :: n <= s < BL_CODES ==> bl[s] == 0)
    requires Complete(bl[..n]) && (forall s :: 0 <= s < n ==> bl[s] <= MAX_BL_BITS) && H.Coded(code, bl[..n])
    ensures BlOk(bl) && CodesFor(code, bl)
  {
    hide Used, CodeOf, Idx, Code;
    Trim(bl, n);
    forall s | 0 <= s < |bl| && bl[s] >= 1 ensures s < |code| && code[s] == Idx(SymBits(bl, s)) {
      assert bl[..n][s] == bl[s];
      assert SymBits(bl, s) == SymBits(bl[..n], s);
    }
  }

  /** The symbols of send_tree as bits. */
  method SendSyms(buf: BitBuffer, syms: seq<CL.Sym>, bl: seq<nat>, blcode: seq<nat>)
    requires buf.Valid() && BlOk(bl) && AllSendable(bl, syms) && CodesFor(blcode, bl)
    modifies buf
    ensures buf.Valid() && buf.All() == old(buf.All()) + SymsBits(bl, syms)
  {
    hide BitBuffer.Valid, BitBuffer.All, CodesFor, OneBits, BlOk, Sendable, Pow2;
    assert syms[0..] == syms;
    for i := 0 to |syms|
      invariant buf.Valid() && buf.All() + SymsBits(bl, syms[i..]) == old(buf.All()) + SymsBits(bl, syms)
    {
      ghost var all := buf.All();
      assert syms[i..][0] == syms[i] && syms[i..][1..] == syms[i + 1..];
      SendSym(buf, syms[i], bl, blcode);
      Assoc(all, OneBits(bl, syms[i]), SymsBits(bl, syms[i + 1..]));
    }
    assert buf.All() + [] == buf.All();
  }

  method SendSym(buf: BitBuffer, s: CL.Sym, bl: seq<nat>, blcode: seq<nat>)
    requires buf.Valid() && BlOk(bl) && Sendable(bl, s) && CodesFor(blcode, bl)
    modifies buf
    ensures buf.Valid() && buf.All() == old(buf.All()) + OneBits(bl, s)
  {
    hide BitBuffer.Valid, BitBuffer.All, CodesFor, SymBits, BlOk, Pow2;
    ghost var start := buf.All();
    SendCode(buf, blcode, bl, s.val);
    var n := ExtraLen(s.val);
    if n > 0 {
      buf.SendBits(s.extra, n);
    } else {
      assert buf.All() + [] == buf.All();
    }
    Assoc(start, SymBits(bl, s.val), LowBits(s.extra, n));
  }

  method SendLens(buf: BitBuffer, bl: seq<nat>, blcodes: nat)
    requires buf.Valid() && BlOk(bl) && blcodes <= BL_CODES
    modifies buf
    ensures buf.Valid() && buf.All() == old(buf.All()) + LenBits(bl, blcodes, 0)
  {
    hide BitBuffer.Valid, BitBuffer.All, LowBits, Pow2;
    Places();
    Threes(bl);
    for rank := 0 to blcodes
      invariant buf.Valid() && buf.All() + LenBits(bl, blcodes, rank) == old(buf.All()) + LenBits(bl, blcodes, 0)
    {
      ghost var all := buf.All();
      buf.SendBits(bl[BL_ORDER[rank]], 3);
      Assoc(all, LowBits(bl[BL_ORDER[rank]], 3), LenBits(bl, blcodes, rank + 1));
    }
    assert buf.All() + [] == buf.All();
  }

  lemma Threes(bl: seq<nat>)
    requires BlOk(bl)
    ensures forall s :: 0 <= s < |bl| ==> bl[s] < Pow2(3)
  {
    hide Complete;
    assert Pow2(3) == 8;
  }

  lemma CountsFit(d: Dyn)
    requires DynOk(d)
    ensures |d.lit| - 257 < Pow2(5) == 32 && |d.dist| - 1 < Pow2(5) && d.blcodes - 4 < Pow2(4) == 16
    ensures CL.Lengths(d.lit) && CL.Lengths(d.dist)
  {
    hide BlOk, AllSendable, Unsent;
  }

  /** send_all_trees */
  method SendAllTrees(buf: BitBuffer, d: Dyn, blcode: seq<nat>)
    requires buf.Valid() && DynOk(d) && CodesFor(blcode, d.bl)
    modifies buf
    ensures buf.Valid() && buf.All() == old(buf.All()) + HeaderBits(d)
  {
    hide BitBuffer.Valid, BitBuffer.All, CodesFor, LowBits, Pow2, DynOk, BlOk, AllSendable, CL.Emit, CL.Lengths;
    ghost var start := buf.All();
    CountsFit(d);
    buf.SendBits(|d.lit| - 257, 5);
    buf.SendBits(|d.dist| - 1, 5);
    buf.SendBits(d.blcodes - 4, 4);
    SendLens(buf, d.bl, d.blcodes);
    var a := CL.SendTree(d.lit);
    var b := CL.SendTree(d.dist);
    Apart(d, a, b);
    SendSyms(buf, a, d.bl, blcode);
    SendSyms(buf, b, d.bl, blcode);
    SymsAppend(d.bl, a, b);
    Joined(start, LowBits(|d.lit| - 257, 5), LowBits(|d.dist| - 1, 5), LowBits(d.blcodes - 4, 4),
           LenBits(d.bl, d.blcodes, 0), SymsBits(d.bl, a), SymsBits(d.bl, b));
  }

  lemma Apart(d: Dyn, a: seq<CL.Sym>, b: seq<CL.Sym>)
    requires DynOk(d) && Syms(d) == a + b
    ensures AllSendable(d.bl, a) && AllSendable(d.bl, b)
  {
    hide BlOk, CL.Emit, Sendable;
    forall i | 0 <= i < |a| ensures Sendable(d.bl, a[i]) {
      assert a[i] == (a + b)[i];
    }
    forall i | 0 <= i < |b| ensures Sendable(d.bl, b[i]) {
      assert b[i] == (a + b)[|a| + i];
    }
  }

  lemma Joined(s: seq<Bit>, a: seq<Bit>, b: seq<Bit>, c: seq<Bit>, l: seq<Bit>, x: seq<Bit>, y: seq<Bit>)
    ensures s + a + b + c + l + x + y == s + (a + (b + (c + (l + (x + y)))))
  {
  }

  // ------------------------------------------------------------------
  // Receiving

  /** inflate_table for one of the codes of a block, in the space reserved for it. */
  method MakeTable(kind: T.Kind, lens: seq<nat>, bits: nat)
    returns (ret: int, tab: seq<T.Entry>, root: nat, ghost links: map<nat, T.Sub>)
    requires T.Fits(kind, lens) && Complete(lens)
    requires if kind.CODES? then bits <= MAX_BL_BITS && AllWithin(lens, bits) else T.Reserved(kind, lens, bits)
    ensures ret == 0 && TableOk(tab, root, links, kind, lens)
    ensures kind.CODES? ==> NoneLonger(lens, root)
  {
    hide T.AllDone, Complete, T.Refused, T.MaxLen, T.Fits, T.RootBits;
    var table := new T.Entry[if kind.DISTS? then T.ENOUGH_DISTS else T.ENOUGH_LENS](_ => T.Entry(0, 0, 0));
    SmallTree();
    FitsLengths(kind, lens);
    H.Acceptable(kind, lens, if kind.CODES? then bits else MAXBITS);
    if kind.CODES? {
      Pow2Mono(bits, MAX_BL_BITS);
    }
    var used;
    ret, root, used, links := T.Build(kind, lens, table, bits);
    tab := table[..];
    if kind.CODES? {
      RootWide(lens, bits);
    }
  }

  predicate AllWithin(lens: seq<nat>, bits: nat)
    ensures AllWithin(lens, bits) ==> forall s :: 0 <= s < |lens| ==> lens[s] <= bits
  {
    bits >= 1 && forall s :: 0 <= s < |lens| ==> lens[s] <= bits
  }

  lemma FitsLengths(kind: T.Kind, lens: seq<nat>)
    requires T.Fits(kind, lens)
    ensures |lens| <= T.MaxSymbols(kind) && forall s :: 0 <= s < |lens| ==> lens[s] <= MAXBITS
  {
  }

  lemma RootWide(lens: seq<nat>, bits: nat)
    requires T.MaxLen(lens) <= bits
    ensures NoneLonger(lens, T.RootBits(lens, bits))
  {
  }

  /** TABLE: how many lengths of each kind there are. */
  method TakeCounts(input: Input, ghost d: Dyn, ghost more: seq<Bit>)
    returns (bad: bool, nlen: nat, ndist: nat, ncode: nat)
    requires input.Valid() && DynOk(d) && input.Rest() == HeaderBits(d) + more
    modifies input, input.acc
    ensures input.Valid() && input.Rest() == BlBits(d) + more
    ensures !bad && nlen == |d.lit| && ndist == |d.dist| && ncode == d.blcodes
  {
    hide DynOk, LowBits, Pow2, BlBits, Input.Valid, Input.Rest;
    CountsFit(d);
    ghost var a, b, c := LowBits(|d.lit| - 257, 5), LowBits(|d.dist| - 1, 5), LowBits(d.blcodes - 4, 4);
    ghost var r := BlBits(d) + more;
    Chain(a, b, c, BlBits(d), more);
    bad, nlen, ndist, ncode := false, 0, 0, 0;
    var ok := input.Need(14);
    if ok {
      nlen := input.Front(5, |d.lit| - 257, b + (c + r));
      ndist := input.Front(5, |d.dist| - 1, c + r);
      ncode := input.Front(4, d.blcodes - 4, r);
      nlen, ndist, ncode := nlen + 257, ndist + 1, ncode + 4;
      bad := nlen > 286 || ndist > 30;
    }
  }

  lemma Chain(a: seq<Bit>, b: seq<Bit>, c: seq<Bit>, r: seq<Bit>, more: seq<Bit>)
    ensures (a + (b + (c + r))) + more == a + (b + (c + (r + more)))
  {
  }

  /** The lengths of the first rank code length codes in order are in place. */
  ghost predicate Placed(lens: seq<nat>, bl: seq<nat>, rank: nat)
    requires |bl| == BL_CODES && |lens| >= BL_CODES && rank <= BL_CODES
  {
    Places();
    forall r :: 0 <= r < rank ==> lens[ORDER[r]] == bl[ORDER[r]]
  }

  lemma PlacedNext(lens: seq<nat>, bl: seq<nat>, rank: nat)
    requires |bl| == BL_CODES && |lens| >= BL_CODES && rank < BL_CODES && Placed(lens, bl, rank)
    ensures ORDER[rank] < BL_CODES && Placed(lens[ORDER[rank] := bl[ORDER[rank]]], bl, rank + 1)
  {
    Places();
    forall r | 0 <= r < rank ensures ORDER[r] != ORDER[rank] {
      Orders(r);
      Orders(rank);
    }
  }

  lemma PlacedAll(lens: seq<nat>, bl: seq<nat>)
    requires |bl| == BL_CODES && |lens| >= BL_CODES && Placed(lens, bl, BL_CODES)
    ensures lens[..BL_CODES] == bl
  {
    Places();
    forall s | 0 <= s < BL_CODES ensures lens[s] == bl[s] {
      Orders(s);
      assert lens[ORDER[PLACE[s]]] == bl[ORDER[PLACE[s]]];
    }
  }

  /** LENLENS: the lengths of the code length codes. */
  method TakeLens(input: Input, lens: array<nat>, ncode: nat, ghost bl: seq<nat>, ghost more: seq<Bit>)
    requires input.Valid() && BlOk(bl) && ncode <= BL_CODES <= lens.Length && Unsent(bl, ncode)
    requires input.Rest() == LenBits(bl, ncode, 0) + more
    modifies input, input.acc, lens
    ensures input.Valid() && input.Rest() == more && lens[..BL_CODES] == bl
  {
    hide LowBits, Pow2, Input.Valid, Input.Rest, Placed, BlOk;
    Places();
    Threes(bl);
    NonePlaced(lens[..], bl);
    var have := 0;
    while have < ncode
      invariant 0 <= have <= ncode && input.Valid() && input.Rest() == LenBits(bl, ncode, have) + more
      invariant Placed(lens[..], bl, have)
    {
      ghost var len := bl[ORDER[have]];
      Assoc(LowBits(len, 3), LenBits(bl, ncode, have + 1), more);
      PlacedNext(lens[..], bl, have);
      var _, v := input.Take(3, len, LenBits(bl, ncode, have + 1) + more);
      SetLen(lens, ORDER[have], v);
      have := have + 1;
    }
    assert [] + more == more;
    while have < BL_CODES
      invariant ncode <= have <= BL_CODES && input.Valid() && input.Rest() == more && Placed(lens[..], bl, have)
    {
      PlacedNext(lens[..], bl, have);
      SetLen(lens, ORDER[have], 0);
      have := have + 1;
    }
    PlacedAll(lens[..], bl);
  }

  method SetLen(lens: array<nat>, s: nat, v: nat)
    requires s < lens.Length
    modifies lens
    ensures lens[..] == old(lens[..])[s := v]
  {
    lens[s] := v;
  }

  lemma NonePlaced(lens: seq<nat>, bl: seq<nat>)
    requires |bl| == BL_CODES && |lens| >= BL_CODES
    ensures Placed(lens, bl, 0)
  {
  }

  /** The table of the code length code. */
  ghost predicate BlTable(tab: seq<T.Entry>, root: nat, links: map<nat, T.Sub>, bl: seq<nat>)
    ensures BlTable(tab, root, links, bl) ==> BlOk(bl)
  {
    BlOk(bl) && TableOk(tab, root, links, T.CODES, bl) && NoneLonger(bl, root)
  }

  /** What an entry says of the next symbol. */
  ghost predicate Says(here: T.Entry, s: CL.Sym, bl: seq<nat>, held: nat) {
    s.val < |bl| && here.val == s.val && here.bits == bl[s.val] <= held && here.bits <= 7
  }

  lemma EntrySays(tab: seq<T.Entry>, root: nat, bl: seq<nat>, held: seq<Bit>, s: CL.Sym, here: T.Entry)
    requires BlOk(bl) && Looked(tab, root, T.CODES, bl, held, s.val, here) && !IsLink(here)
    ensures Says(here, s, bl, |held|)
  {
    hide Idx, Pow2, Complete;
  }

  lemma TableSays(tab: seq<T.Entry>, root: nat, links: map<nat, T.Sub>, bl: seq<nat>)
    requires BlTable(tab, root, links, bl)
    ensures TableOk(tab, root, links, T.CODES, bl) && NoneLonger(bl, root)
  {
  }

  /** While the code is not there in full there is more input to come. */
  lemma MoreInput(input: Input, c: seq<Bit>, more: seq<Bit>)
    requires input.Valid() && input.Rest() == c + more && input.acc.next == [] && |input.acc.held| < |c|
    ensures input.chunks != []
  {
    assert |input.Rest()| == |c| + |more|;
  }

  /** The next entry, with as many pieces of the input as it takes. */
  method NextEntry(input: Input, tab: seq<T.Entry>, root: nat, ghost links: map<nat, T.Sub>, ghost bl: seq<nat>,
                   ghost s: CL.Sym, ghost more: seq<Bit>)
    returns (here: T.Entry)
    requires input.Valid() && BlTable(tab, root, links, bl) && Sendable(bl, s)
    requires input.Rest() == SymBits(bl, s.val) + more
    modifies input, input.acc
    ensures input.Valid() && input.Rest() == old(input.Rest()) && Says(here, s, bl, input.acc.bits)
  {
    hide Idx, Stream, SymBits, Looked, Concat, BlTable, Says, BlOk, TableOk, NoneLonger, Sendable;
    TableSays(tab, root, links, bl);
    SymLength(bl, s.val);
    var ok;
    ok, here := FirstEntry(input.acc, tab, root, links, T.CODES, bl, s.val, Stream(Concat(input.chunks)), more);
    while !ok
      invariant input.Valid() && input.Rest() == old(input.Rest())
      invariant ok ==> Looked(tab, root, T.CODES, bl, input.acc.held, s.val, here) && !IsLink(here)
      invariant !ok ==> input.acc.next == [] && |input.acc.held| < |SymBits(bl, s.val)|
      decreases |input.chunks|, !ok
    {
      MoreInput(input, SymBits(bl, s.val), more);
      input.Arrive();
      ok, here := FirstEntry(input.acc, tab, root, links, T.CODES, bl, s.val, Stream(Concat(input.chunks)), more);
    }
    EntrySays(tab, root, bl, input.acc.held, s, here);
  }

  /** One symbol of CODELENS and its extra bits. */
  method ReadSym(input: Input, tab: seq<T.Entry>, root: nat, ghost links: map<nat, T.Sub>, ghost bl: seq<nat>,
                 ghost s: CL.Sym, ghost more: seq<Bit>)
    returns (sym: CL.Sym)
    requires input.Valid() && BlTable(tab, root, links, bl) && Sendable(bl, s)
    requires input.Rest() == OneBits(bl, s) + more
    modifies input, input.acc
    ensures input.Valid() && input.Rest() == more && sym == s
  {
    hide Input.Valid, Input.Rest, SymBits, LowBits, BlTable, BlOk, Pow2;
    ghost var c, x := SymBits(bl, s.val), LowBits(s.extra, ExtraLen(s.val));
    Assoc(c, x, more);
    SymLength(bl, s.val);
    var here := NextEntry(input, tab, root, links, bl, s, x + more);
    if here.val < 16 {
      input.Skip(here.bits, c, x + more);
      NoBits(s.extra);
      assert [] + more == more;
      sym := CL.Sym(here.val, 0);
    } else {
      var n := ExtraLen(here.val);
      sym := CL.Sym(here.val, 0);
      var ok := input.Need(here.bits + n);
      if ok {
        input.Skip(here.bits, c, x + more);
        var v := input.Front(n, s.extra, more);
        sym := CL.Sym(here.val, v);
      }
    }
  }

  lemma NoBits(x: nat)
    ensures LowBits(x, 0) == []
  {
  }

  /** How far CODELENS has come. */
  ghost predicate Reading(d: Dyn, pos: nat, got: seq<nat>) {
    pos <= |Syms(d)| && CL.ApplyAll(CL.Read([]), Syms(d)[..pos], |d.lit| + |d.dist|) == CL.Read(got)
  }

  lemma ReadingStart(d: Dyn)
    ensures Reading(d, 0, [])
  {
    CL.NoneApplied(|d.lit| + |d.dist|);
  }

  /** As long as lengths are missing there is another symbol. */
  lemma ReadingOn(d: Dyn, pos: nat, got: seq<nat>)
    requires DynOk(d) && Reading(d, pos, got)
    ensures |got| == |d.lit| + |d.dist| ==> got == d.lit + d.dist && pos == |Syms(d)|
    ensures |got| < |d.lit| + |d.dist| ==> pos < |Syms(d)|
  {
    hide CL.ApplyAll, CL.Emit, AllSendable, BlOk, Unsent;
    var total := |d.lit| + |d.dist|;
    CL.BothRead(d.lit, d.dist, CL.Emit(d.lit, 0, 0, -1), CL.Emit(d.dist, 0, 0, -1));
    if |got| == total || pos == |Syms(d)| {
      CL.Stopped(Syms(d), pos, total, d.lit + d.dist, got, false);
    }
  }

  /** The next symbol is not refused. */
  lemma ReadingNext(d: Dyn, pos: nat, got: seq<nat>)
    requires DynOk(d) && Reading(d, pos, got) && pos < |Syms(d)|
    ensures var o := CL.Apply(CL.Read(got), Syms(d)[pos], |d.lit| + |d.dist|);
      o.Read? && Reading(d, pos + 1, o.lens)
  {
    hide CL.ApplyAll, CL.Emit, CL.Apply, AllSendable, BlOk, Unsent;
    var total := |d.lit| + |d.dist|;
    var o := CL.Apply(CL.Read(got), Syms(d)[pos], total);
    CL.OneApplied(Syms(d), pos, total);
    CL.BothRead(d.lit, d.dist, CL.Emit(d.lit, 0, 0, -1), CL.Emit(d.dist, 0, 0, -1));
    if o.Bad? {
      CL.Stopped(Syms(d), pos + 1, total, d.lit + d.dist, [], true);
    }
  }

  /** CODELENS: literal and length code lengths, then those of distances. */
  method ReadLens(input: Input, tab: seq<T.Entry>, root: nat, total: nat, lens: array<nat>,
                  ghost links: map<nat, T.Sub>, ghost d: Dyn, ghost more: seq<Bit>)
    returns (bad: bool, have: nat)
    requires input.Valid() && DynOk(d) && BlTable(tab, root, links, d.bl) && total == |d.lit| + |d.dist| <= lens.Length
    requires input.Rest() == SymsBits(d.bl, Syms(d)) + more
    modifies input, input.acc, lens
    ensures input.Valid() && input.Rest() == more
    ensures !bad && have == total && lens[..total] == d.lit + d.dist
  {
    hide Input.Valid, Input.Rest, DynOk, BlTable, Reading, Syms, OneBits, CL.Apply, CL.ApplyAll, BlOk, Sendable;
    ghost var syms, pos := Syms(d), 0;
    bad, have := false, 0;
    ReadingStart(d);
    assert lens[..0] == [] && syms[0..] == syms;
    ReadingOn(d, 0, []);
    while have < total
      invariant have <= total && !bad && pos <= |syms| && input.Valid()
      invariant input.Rest() == SymsBits(d.bl, syms[pos..]) + more
      invariant Reading(d, pos, lens[..have])
      decreases |syms| - pos
    {
      ReadingOn(d, pos, lens[..have]);
      ReadingNext(d, pos, lens[..have]);
      ghost var s, rest := syms[pos], syms[pos + 1..];
      assert syms[pos..][0] == s && syms[pos..][1..] == rest;
      Assoc(OneBits(d.bl, s), SymsBits(d.bl, rest), more);
      var sym := ReadSym(input, tab, root, links, d.bl, s, SymsBits(d.bl, rest) + more);
      KnownSym(d.bl, s);
      bad, have := CL.Put(sym, total, lens, have);
      pos := pos + 1;
      if bad {
        return;
      }
    }
    ReadingOn(d, pos, lens[..have]);
    assert syms[|syms|..] == [] && [] + more == more;
  }

  lemma KnownSym(bl: seq<nat>, s: CL.Sym)
    requires Sendable(bl, s)
    ensures s.val <= 18
  {
  }

  /** The head of a dynamic block; bad as inflate reports it. */
  method ReceiveHeader(input: Input, ghost d: Dyn, ghost more: seq<Bit>)
    returns (bad: bool, lit: seq<nat>, dist: seq<nat>)
    requires input.Valid() && DynOk(d) && input.Rest() == HeaderBits(d) + more
    modifies input, input.acc
    ensures input.Valid() && !bad && lit == d.lit && dist == d.dist && input.Rest() == more
  {
    hide Input.Valid, Input.Rest, DynOk, LenBits, HeaderBits, BlOk, SymsBits, Syms, TableOk, NoneLonger, BlTable;
    var nlen, ndist, ncode, ret, tab, root, have;
    ghost var links;
    lit, dist := [], [];
    bad, nlen, ndist, ncode := TakeCounts(input, d, more);
    if bad {
      return;
    }
    var lens := new nat[320](_ => 0);
    DynFacts(d);
    Assoc(LenBits(d.bl, d.blcodes, 0), SymsBits(d.bl, Syms(d)), more);
    TakeLens(input, lens, ncode, d.bl, SymsBits(d.bl, Syms(d)) + more);
    ret, tab, root, links := MakeTable(T.CODES, lens[..BL_CODES], MAX_BL_BITS);
    if ret != 0 {
      return true, [], [];
    }
    BlTableMade(tab, root, links, d.bl);
    bad, have := ReadLens(input, tab, root, nlen + ndist, lens, links, d, more);
    if bad {
      return;
    }
    lit, dist := lens[..nlen], lens[nlen..nlen + ndist];
    assert lit == lens[..nlen + ndist][..nlen] == d.lit;
    assert dist == lens[..nlen + ndist][nlen..] == d.dist;
    bad := lens[END_BLOCK] == 0;
  }

  lemma DynFacts(d: Dyn)
    requires DynOk(d)
    ensures |d.lit| + |d.dist| <= 320 && Unsent(d.bl, d.blcodes) && |d.lit| > END_BLOCK && d.lit[END_BLOCK] != 0
    ensures T.Fits(T.CODES, d.bl) && Complete(d.bl) && AllWithin(d.bl, MAX_BL_BITS)
  {
    hide Used, AllSendable;
  }

  lemma BlTableMade(tab: seq<T.Entry>, root: nat, links: map<nat, T.Sub>, bl: seq<nat>)
    requires BlOk(bl) && TableOk(tab, root, links, T.CODES, bl) && NoneLonger(bl, root)
    ensures BlTable(tab, root, links, bl)
  {
  }
}
