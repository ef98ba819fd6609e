/**
 * A bzip2 block all the way: sorted, move-to-front coded, written as
 * Huffman codes, read back in pieces, decoded in either memory layout and
 * dealt out to the caller's buffers.
 */
module BlockRoundTrip {
  import opened Sequences
  import opened Powers
  import opened Permutations
  import opened Rotations
  import opened Bwt
  import opened BwtTables
  import opened InitialRle
  import opened MoveToFront
  import opened BitStrings
  import FallbackSort
  import GenerateMtf
  import SlicedMtf
  import MtfDecode
  import M = MtfCoding
  import C = BzCodes
  import B = BzBits
  import S = BzSymbols
  import D = BzDecode
  import H = HuffmanLengths
  import Tb = BzTables
  import Hd = BzHeader

  /** The search for the original string at the end of BZ2_blockSort; it never fails. */
  method FindOrigPtr(ptr: array<int>, ghost b: Block) returns (origPtr: nat)
    requires SortedRotations(b, ptr[..])
    ensures origPtr < ptr.Length && ptr[origPtr] == 0
    ensures forall i :: 0 <= i < origPtr ==> ptr[i] != 0
  {
    ghost var p := ptr[..];
    Surjective(p, 0);
    ghost var k :| 0 <= k < |p| && p[k] == 0;
    origPtr := 0;
    while ptr[origPtr] != 0
      invariant 0 <= origPtr <= k && forall i :: 0 <= i < origPtr ==> ptr[i] != 0
      decreases k - origPtr
    {
      origPtr := origPtr + 1;
    }
  }

  /** BZ2_blockSort on its fallback path. */
  method BlockSort(block: array<Byte>) returns (ptr: array<int>, origPtr: nat)
    requires 0 < block.Length < 0x8000_0000
    modifies block
    ensures block[..] == old(block[..]) && fresh(ptr) && ptr.Length == block.Length
    ensures SortedRotations(block[..], ptr[..]) && origPtr < ptr.Length && ptr[origPtr] == 0
  {
    var n := block.Length;
    ptr := new int[n](_ => 0);
    var eclass := new int[n](_ => 0);
    var bits := new bool[32 * (n / 32 + 3)](_ => false);
    FallbackSort.Sort(block, ptr, eclass, bits);
    origPtr := FindOrigPtr(ptr, block[..]);
  }

  /** The sorted pointers as the halves of 32-bit words. */
  method Halves(ptr: array<int>) returns (mem: array<nat>)
    requires forall i :: 0 <= i < ptr.Length ==> 0 <= ptr[i]
    ensures fresh(mem) && GenerateMtf.Unread(mem[..], ptr[..], 0) && mem.Length == 2 * ptr.Length
  {
    var n := ptr.Length;
    mem := new nat[2 * n](_ => 0);
    for i := 0 to n
      invariant forall k :: 0 <= k < i ==> mem[2 * k] + 65536 * mem[2 * k + 1] == ptr[k]
    {
      mem[2 * i] := ptr[i] % 65536;
      mem[2 * i + 1] := ptr[i] / 65536;
    }
    forall k | 0 <= k < n ensures GenerateMtf.WordAt(mem[..], k) == ptr[k] {
    }
  }

  method Mark(block: array<Byte>) returns (inUse: array<bool>)
    ensures fresh(inUse) && inUse.Length == 256 && forall c: Byte :: c in block[..] <==> inUse[c]
  {
    inUse := new bool[256](_ => false);
    for i := 0 to block.Length
      invariant forall c: Byte :: c in block[..i] <==> inUse[c]
    {
      inUse[block[i]] := true;
      assert block[..i + 1] == block[..i] + [block[i]];
    }
    assert block[..block.Length] == block[..];
  }

  /** The decoder's symbol loop recovers the numbered last column. */
  lemma SymbolsDecode(b: Block, ptr: seq<int>, inUse: seq<bool>, unseqToSeq: seq<nat>)
    requires |ptr| == |b| && InRange(ptr, 0, |b|) && |inUse| == 256
    requires GenerateMtf.Numbers(unseqToSeq, GenerateMtf.Used(inUse, 256)) && forall c: Byte :: c in b ==> inUse[c]
    ensures var n := |GenerateMtf.Used(inUse, 256)|;
      1 <= n <= 256 &&
      M.Decode(GenerateMtf.SymbolsOf(b, ptr, inUse, unseqToSeq), SlicedMtf.Identity(), 0, 1, n + 1)
      == M.Block(GenerateMtf.Numbered(LastColumn(b, ptr), unseqToSeq))
  {
    hide M.Encode, M.Decode, GenerateMtf.Used, GenerateMtf.Numbers;
    var l := LastColumn(b, ptr);
    GenerateMtf.ColumnBytes(b, ptr);
    GenerateMtf.NumberedIn(l, inUse, unseqToSeq);
    GenerateMtf.SomeUsed(b, inUse);
    var n := |GenerateMtf.Used(inUse, 256)|;
    var ls, list := GenerateMtf.Numbered(l, unseqToSeq), Upto(n);
    M.RoundTrip(ls, list, 0, n + 1);
    assert Rep(list[0], 0) + ls == ls;
    var syms := M.Encode(ls, list, 0, n + 1);
    var tail := SlicedMtf.Identity()[n..];
    assert SlicedMtf.Identity() == list + tail;
    M.DecodeTail(syms, list, tail, 0, 1, n + 1);
  }

  /** Symbols never exceed the end-of-block symbol. */
  lemma {:induction false} SymbolsBounded(ls: seq<nat>, list: seq<nat>, pend: nat, eob: nat)
    requires list != [] && (forall x :: x in ls ==> x in list) && eob == |list| + 1
    ensures forall s :: s in M.Encode(ls, list, pend, eob) ==> s <= eob
    decreases |ls|
  {
    if ls != [] {
      if list[0] == ls[0] {
        SymbolsBounded(ls[1..], list, pend + 1, eob);
      } else {
        var j := M.Find(list, ls[0]);
        M.FrontIn(list, j);
        SymbolsBounded(ls[1..], Front(list, j), 0, eob);
      }
    }
  }

  /** Numbering the bytes in use and naming them again changes nothing. */
  lemma Renamed(l: seq<Byte>, inUse: seq<bool>, unseqToSeq: seq<nat>, seqToUnseq: seq<nat>, i: nat)
    requires |inUse| == 256 && GenerateMtf.Numbers(unseqToSeq, GenerateMtf.Used(inUse, 256)) && i < |l| && inUse[l[i]]
    requires |seqToUnseq| == 256 && seqToUnseq[..|GenerateMtf.Used(inUse, 256)|] == GenerateMtf.Used(inUse, 256)
    ensures unseqToSeq[l[i]] < 256 && seqToUnseq[unseqToSeq[l[i]]] == l[i]
  {
    var used := GenerateMtf.Used(inUse, 256);
    GenerateMtf.UsedAll(inUse, 256, l[i]);
    var k :| 0 <= k < |used| && used[k] == l[i];
    assert seqToUnseq[k] == seqToUnseq[..|used|][k];
  }

  lemma {:induction false} CountIs(l: seq<Byte>, c: int, k: nat)
    requires k <= |l| && 0 <= c < 256
    ensures CountEq(l, c, k) == multiset(l[..k])[c]
  {
    if k > 0 {
      CountIs(l, c, k - 1);
      assert l[..k] == l[..k - 1] + [l[k - 1]];
    }
  }

  /** From symbols back to the last column and its byte counts. */
  method DecodeColumn(syms: seq<nat>, inUse: array<bool>, nblockMAX: nat, ghost b: Block, ghost ptr: seq<int>,
                      ghost unseqToSeq: seq<nat>)
    returns (column: array<int>, unzftab: array<int>)
    requires inUse.Length == 256 && |ptr| == |b| && InRange(ptr, 0, |b|) && forall c: Byte :: c in b ==> inUse[c]
    requires GenerateMtf.Numbers(unseqToSeq, GenerateMtf.Used(inUse[..], 256))
    requires syms == GenerateMtf.SymbolsOf(b, ptr, inUse[..], unseqToSeq) && |b| <= nblockMAX < MtfDecode.TOO_BIG - 1
    ensures fresh(column) && fresh(unzftab) && column != unzftab && column[..] == LastColumn(b, ptr)
    ensures unzftab.Length == 256 && forall c :: 0 <= c < 256 ==> unzftab[c] == CountEq(LastColumn(b, ptr), c, |b|)
  {
    hide M.Encode, M.Decode, GenerateMtf.Used, GenerateMtf.Numbers, GenerateMtf.SymbolsOf, MtfDecode.Column;
    hide SlicedMtf.Sliced;
    ghost var l := LastColumn(b, ptr);
    SymbolsDecode(b, ptr, inUse[..], unseqToSeq);
    EndIsLast(b, ptr, inUse[..], unseqToSeq);
    GenerateMtf.ColumnBytes(b, ptr);
    var seqToUnseq, nInUse := GenerateMtf.MakeMapsD(inUse);
    var d := new MtfDecode.Decoder(nblockMAX, seqToUnseq, nInUse);
    var r := d.Symbols(syms);
    assert r == MtfDecode.Ok;
    ColumnIs(d.tt[..], d.unzftab[..], seqToUnseq[..], d.ls, l, inUse[..], unseqToSeq);
    column := Prefix(d.tt, d.nblock);
    unzftab := d.unzftab;
  }

  method Prefix(a: array<int>, n: nat) returns (r: array<int>)
    requires n <= a.Length
    ensures fresh(r) && r[..] == a[..n]
  {
    r := new int[n](_ => 0);
    for i := 0 to n
      invariant r[..i] == a[..i]
    {
      r[i] := a[i];
    }
  }

  lemma EndIsLast(b: Block, ptr: seq<int>, inUse: seq<bool>, unseqToSeq: seq<nat>)
    requires |ptr| == |b| && InRange(ptr, 0, |b|) && |inUse| == 256
    requires GenerateMtf.Numbers(unseqToSeq, GenerateMtf.Used(inUse, 256)) && forall c: Byte :: c in b ==> inUse[c]
    ensures forall s :: s in GenerateMtf.SymbolsOf(b, ptr, inUse, unseqToSeq) ==>
      s <= |GenerateMtf.Used(inUse, 256)| + 1
  {
    hide M.Encode, GenerateMtf.Used, GenerateMtf.Numbers;
    var l := LastColumn(b, ptr);
    GenerateMtf.ColumnBytes(b, ptr);
    GenerateMtf.NumberedIn(l, inUse, unseqToSeq);
    GenerateMtf.SomeUsed(b, inUse);
    var n := |GenerateMtf.Used(inUse, 256)|;
    SymbolsBounded(GenerateMtf.Numbered(l, unseqToSeq), Upto(n), 0, n + 1);
  }

  lemma ColumnIs(tt: seq<int>, counts: seq<int>, seqToUnseq: seq<nat>, ls: seq<nat>, l: seq<Byte>, inUse: seq<bool>,
                 unseqToSeq: seq<nat>)
    requires MtfDecode.Column(tt, counts, seqToUnseq, ls) && |unseqToSeq| == 256 &&
      ls == GenerateMtf.Numbered(l, unseqToSeq)
    requires |inUse| == 256 && GenerateMtf.Numbers(unseqToSeq, GenerateMtf.Used(inUse, 256)) &&
      forall c: Byte :: c in l ==> inUse[c]
    requires |seqToUnseq| == 256 && seqToUnseq[..|GenerateMtf.Used(inUse, 256)|] == GenerateMtf.Used(inUse, 256)
    ensures |l| <= |tt| && tt[..|l|] == l && |counts| == 256
    ensures forall c :: 0 <= c < 256 ==> counts[c] == CountEq(l, c, |l|)
  {
    hide GenerateMtf.Used, GenerateMtf.Numbers;
    forall i | 0 <= i < |l| ensures tt[i] == l[i] {
      assert l[i] in l;
      Renamed(l, inUse, unseqToSeq, seqToUnseq, i);
    }
    assert tt[..|l|] == l;
    forall c | 0 <= c < 256 ensures counts[c] == CountEq(l, c, |l|) {
      CountIs(l, c, |l|);
      assert l[..|l|] == l;
    }
  }

  // ------------------------------------------------------------------
  // What is sent

  const BLOCK_MAX: nat := 900000
  const BLOCK_MAGIC: seq<B.Byte> := [0x31, 0x41, 0x59, 0x26, 0x53, 0x59]

  /** A block and all that the compressor decides for it. */
  datatype Sent = Sent(b: Block, ptr: seq<int>, origPtr: nat, inUse: seq<bool>, unseqToSeq: seq<nat>,
                       lens: seq<seq<nat>>, selector: seq<nat>)

  ghost predicate SortOk(e: Sent)
    ensures SortOk(e) ==> |e.ptr| == |e.b| <= BLOCK_MAX && InRange(e.ptr, 0, |e.b|) && e.origPtr < |e.b|
  {
    && SortedRotations(e.b, e.ptr) && |e.b| <= BLOCK_MAX && e.origPtr < |e.b| && e.ptr[e.origPtr] == 0
    && |e.ptr| == |e.b| && InRange(e.ptr, 0, |e.b|)
  }

  ghost predicate MapOk(e: Sent)
    ensures MapOk(e) ==> |e.inUse| == 256 && (forall c: Byte :: c in e.b ==> e.inUse[c])
    ensures MapOk(e) ==> GenerateMtf.Numbers(e.unseqToSeq, GenerateMtf.Used(e.inUse, 256))
  {
    && |e.inUse| == 256 && GenerateMtf.Numbers(e.unseqToSeq, GenerateMtf.Used(e.inUse, 256))
    && forall c: Byte :: c in e.b ==> e.inUse[c]
  }

  ghost function HeadOf(e: Sent): Hd.Head
    requires MapOk(e)
  {
    Hd.Head(e.inUse, e.lens, e.selector, |GenerateMtf.Used(e.inUse, 256)| + 2)
  }

  ghost function Symbols(e: Sent): seq<nat>
    requires SortOk(e) && MapOk(e)
  {
    GenerateMtf.SymbolsOf(e.b, e.ptr, e.inUse, e.unseqToSeq)
  }

  ghost predicate SentOk(e: Sent) {
    SortOk(e) && MapOk(e) && Hd.HeadOk(HeadOf(e)) && S.Codable(Symbols(e), e.lens, e.selector) && e.origPtr < Pow2(24)
  }

  /** The bits of a block: a marker, its checksum, no randomisation, origPtr, the head and the symbols. */
  ghost function BlockBits(e: Sent, crc: nat): seq<Bit>
    requires SentOk(e) && crc < Pow2(32)
  {
    B.Bits(BLOCK_MAGIC) + AfterMarker(e, crc)
  }

  ghost function AfterMarker(e: Sent, crc: nat): seq<Bit>
    requires SentOk(e) && crc < Pow2(32)
  {
    Code(crc, 32) + ([0] + (Code(e.origPtr, 24) + BodyBits(e)))
  }

  ghost function BodyBits(e: Sent): seq<Bit>
    requires SentOk(e)
  {
    Hd.HeadBits(HeadOf(e)) + S.From(Symbols(e), e.lens, e.selector, 0)
  }

  // ------------------------------------------------------------------
  // Sending

  method MakeCodes(lens: seq<seq<nat>>) returns (codes: seq<seq<nat>>)
    requires forall t :: 0 <= t < |lens| ==> C.LengthsOk(lens[t])
    ensures S.CodesFor(codes, lens)
  {
    hide C.CodeOf;
    codes := [];
    for t := 0 to |lens|
      invariant |codes| == t && forall u :: 0 <= u < t ==> S.CodesOf(codes[u], lens[u])
    {
      var lo, hi := Extremes(lens[t]);
      var code := C.AssignCodes(lens[t], lo, hi);
      codes := codes + [code[..]];
    }
  }

  /** minLen and maxLen of a table. */
  method Extremes(lens: seq<nat>) returns (lo: nat, hi: nat)
    requires C.LengthsOk(lens)
    ensures 1 <= lo && hi <= C.LONGEST && (lens != [] ==> lo <= hi) && forall i :: 0 <= i < |lens| ==>
      lo <= lens[i] <= hi
  {
    lo, hi := 32, 0;
    for i := 0 to |lens|
      invariant 1 <= lo && hi <= C.LONGEST && (i > 0 ==> lo <= hi) && forall j :: 0 <= j < i ==> lo <= lens[j] <= hi
    {
      if lens[i] > hi {
        hi := lens[i];
      }
      if lens[i] < lo {
        lo := lens[i];
      }
    }
  }

  method MakeTables(lens: seq<seq<nat>>) returns (tables: seq<C.Table>)
    requires forall t :: 0 <= t < |lens| ==> C.LengthsOk(lens[t]) && 0 < |lens[t]| <= 258
    ensures S.TablesFor(tables, lens)
  {
    hide C.TableFor;
    tables := [];
    for t := 0 to |lens|
      invariant |tables| == t && forall u :: 0 <= u < t ==> C.TableFor(tables[u], lens[u])
    {
      var lo, hi := Extremes(lens[t]);
      var table := C.CreateDecodeTables(lens[t], lo, hi);
      tables := tables + [table];
    }
  }

  lemma {:induction false} CountedSum(freq: seq<nat>, syms: seq<nat>)
    requires GenerateMtf.Counted(freq, syms)
    ensures H.Sum(freq) == |syms|
    decreases |syms|
  {
    hide H.Sum;
    if syms == [] {
      NoneCounted(freq);
    } else {
      var n := |syms| - 1;
      var s, init := syms[n], syms[..n];
      assert syms == init + [s];
      assert s in syms;
      var f := freq[s := freq[s] - 1];
      assert forall x :: x in init ==> x in syms;
      CountedSum(f, init);
      Tb.SumBump(f, s);
      assert f[s := f[s] + 1] == freq;
    }
  }

  lemma {:induction false} NoneCounted(freq: seq<nat>)
    requires forall s :: 0 <= s < |freq| ==> freq[s] == 0
    ensures H.Sum(freq) == 0
  {
    if freq != [] { NoneCounted(freq[..|freq| - 1]); }
  }

  /** The tables chosen are good for every symbol. */
  lemma ChoiceCodes(syms: seq<nat>, lens: seq<seq<nat>>, selector: seq<nat>, prior: seq<seq<nat>>, rounds: seq<nat>,
                    alphaSize: nat)
    requires Tb.Improved(syms, Tb.GroupCount(|syms|), alphaSize, prior, selector, lens, rounds)
    requires 1 <= |syms| <= Tb.MOST_SYMBOLS && alphaSize > 0
    ensures 2 <= |lens| <= 6
    ensures S.Codable(syms, lens, selector) && Hd.TablesOk(lens, alphaSize) && Hd.Selects(selector, |lens|)
    ensures 1 <= |selector| < 0x8000 && |selector| <= 2 + BLOCK_MAX / S.GROUP
  {
    hide Tb.AllFitted;
    forall t | 0 <= t < |lens| ensures |lens[t]| == alphaSize && C.Kraft(lens[t]) && C.LengthsOk(lens[t]) {
      assert Tb.Complete(lens[t], alphaSize);
      C.CompleteKraft(lens[t]);
    }
    forall g: nat | g < |selector| ensures selector[g] < |lens| {
      assert S.GROUP * g < |syms|;
      assert Tb.Cheapest(syms, prior, alphaSize, g, selector[g]);
    }
    forall k: nat | k < |syms| ensures S.CodableAt(syms, lens, selector, k) {
      assert k / S.GROUP < |selector|;
    }
  }

  method PutBytes(w: B.BitWriter, bytes: seq<B.Byte>)
    requires w.Valid()
    modifies w
    ensures w.Valid() && w.All() == old(w.All()) + B.Bits(bytes)
  {
    hide B.HoldsTop, B.Bits;
    B.BitsNone();
    assert w.All() + [] == w.All();
    for i := 0 to |bytes|
      invariant w.Valid() && w.All() == old(w.All()) + B.Bits(bytes[..i])
    {
      B.Pow2Values();
      assert bytes[..i + 1] == bytes[..i] + [bytes[i]];
      B.BitsSnoc(bytes[..i], bytes[i]);
      B.AssocBits(old(w.All()), B.Bits(bytes[..i]), B.ByteBits(bytes[i]));
      w.Write(8, bytes[i]);
    }
    assert bytes[..|bytes|] == bytes;
  }

  /** bsPutUInt32 */
  method PutUInt32(w: B.BitWriter, u: nat)
    requires w.Valid() && u < Pow2(32)
    modifies w
    ensures w.Valid() && w.All() == old(w.All()) + Code(u, 32)
  {
    hide B.HoldsTop, B.Bits, Pow2, Code;
    B.Pow2Values();
    var a: B.Byte, b: B.Byte, c: B.Byte, d: B.Byte := u / 0x100_0000 % 256, u / 0x1_0000 % 256, u / 256 % 256, u % 256;
    PutBytes(w, [a, b, c, d]);
    WordDigits(u);
    WordBits(u, a, b, c, d);
  }

  /** The value of a byte sequence, most significant first. */
  lemma BytesValue(bytes: seq<B.Byte>, b: B.Byte)
    ensures Msb(B.Bits(bytes + [b])) == 256 * Msb(B.Bits(bytes)) + b
  {
    hide Msb, B.Bits, Pow2;
    B.BitsSnoc(bytes, b);
    MsbAppend(B.Bits(bytes), B.ByteBits(b));
    B.Pow2Values();
  }

  lemma WordBits(u: nat, a: B.Byte, b: B.Byte, c: B.Byte, d: B.Byte)
    requires u == ((a * 256 + b) * 256 + c) * 256 + d && u < Pow2(32)
    ensures B.Bits([a, b, c, d]) == Code(u, 32)
  {
    hide Msb, B.Bits, Pow2, Code;
    NoBytes();
    BytesValue([], a);
    BytesValue([a], b);
    BytesValue([a, b], c);
    BytesValue([a, b, c], d);
    assert [] + [a] == [a] && [a] + [b] == [a, b] && [a, b] + [c] == [a, b, c] && [a, b, c] + [d] == [a, b, c, d];
    MsbInjective(B.Bits([a, b, c, d]), Code(u, 32));
  }

  lemma WordDigits(u: nat)
    requires u < 0x1_0000_0000
    ensures u == ((u / 0x100_0000 % 256 * 256 + u / 0x1_0000 % 256) * 256 + u / 256 % 256) * 256 + u % 256
  {
    var v, w := u / 256, u / 0x1_0000;
    assert u / 0x1_0000 == v / 256 && u / 0x100_0000 == w / 256;
    assert u / 0x100_0000 < 256;
  }

  lemma NoBytes()
    ensures Msb(B.Bits([])) == 0
  {
  }

  /** BZ2_compressBlock for a block that is not empty, after blockSort: marker, checksum, origPtr and the block data. */
  method SendBlock(w: B.BitWriter, block: array<Byte>, crc: nat) returns (ghost e: Sent)
    requires w.Valid() && 0 < block.Length <= BLOCK_MAX && crc < Pow2(32)
    modifies w, block
    ensures block[..] == old(block[..]) && w.Valid()
    ensures SentOk(e) && e.b == block[..] && w.All() == old(w.All()) + BlockBits(e, crc)
  {
    hide SortedRotations, GenerateMtf.SymbolsOf, GenerateMtf.Used, GenerateMtf.Numbers, GenerateMtf.Unread;
    hide GenerateMtf.Counted, B.HoldsTop, B.Bits, Pow2, Code, Hd.HeadBits, S.From, S.Codable, Hd.HeadOk;
    ghost var start := w.All();
    var ptr, origPtr := BlockSort(block);
    OrigPtrFits(origPtr);
    PutBytes(w, BLOCK_MAGIC);
    PutUInt32(w, crc);
    Hd.PutBit(w, 0);
    w.Write(24, origPtr);
    ghost var before := w.All();
    e := SendValues(w, block, ptr, origPtr);
    Grouped(start, B.Bits(BLOCK_MAGIC), Code(crc, 32), [0], Code(origPtr, 24), BodyBits(e));
  }

  lemma OrigPtrFits(origPtr: nat)
    requires origPtr < BLOCK_MAX
    ensures origPtr < Pow2(24)
  {
    B.Pow2Values();
  }

  lemma Grouped(s: seq<Bit>, a: seq<Bit>, b: seq<Bit>, c: seq<Bit>, d: seq<Bit>, e: seq<Bit>)
    ensures s + a + b + c + d + e == s + (a + (b + (c + (d + e))))
  {
  }

  /** generateMTFValues and sendMTFValues */
  method SendValues(w: B.BitWriter, block: array<Byte>, ptr: array<int>, origPtr: nat) returns (ghost e: Sent)
    requires w.Valid() && 0 < block.Length <= BLOCK_MAX && ptr.Length == block.Length
    requires SortedRotations(block[..], ptr[..]) && origPtr < ptr.Length && ptr[origPtr] == 0 && origPtr < Pow2(24)
    modifies w
    ensures SentOk(e) && e.b == block[..] && e.origPtr == origPtr && w.Valid() && w.All() == old(w.All()) + BodyBits(e)
  {
    hide SortedRotations, GenerateMtf.SymbolsOf, GenerateMtf.Used, GenerateMtf.Numbers, GenerateMtf.Unread;
    hide GenerateMtf.Counted, B.HoldsTop, B.Bits, Pow2, Code, Hd.HeadBits, S.From, S.Codable, Hd.HeadOk;
    hide Tb.AllComplete, Tb.AllCheapest, Tb.AllFitted, Tb.Coded, Tb.Improved, Tb.Passes;
    hide H.Sum, S.CodesFor, Hd.TablesOk, Hd.Selects;
    ghost var b: Block, p := block[..], ptr[..];
    PtrRange(b, p);
    var inUse := Mark(block);
    var mem := Halves(ptr);
    assert ptr[..] == p;
    var nMTF, mtfFreq, unseqToSeq, nInUse := GenerateMtf.Generate(mem, block, block.Length, inUse, p);
    assert block[..block.Length] == b;
    var syms := mem[..nMTF];
    SomeSymbols(b, p, inUse[..], unseqToSeq[..]);
    CountedSum(mtfFreq[..], syms);
    CountedBelow(mtfFreq[..], syms);
    ghost var tables, choices, rounds;
    var lens, selector;
    lens, selector, tables, choices, rounds := Tb.Choose(syms, mtfFreq[..]);
    Tb.LastPass(syms, mtfFreq[..], tables, choices, rounds);
    ChoiceCodes(syms, lens, selector, tables[Tb.N_ITERS - 1], rounds[Tb.N_ITERS - 1], nInUse + 2);
    HeadFits(inUse[..], lens, selector, nInUse + 2);
    e := Sent(b, p, origPtr, inUse[..], unseqToSeq[..], lens, selector);
    SendBody(w, syms, inUse, lens, selector, nInUse + 2, e);
  }

  /** The head of the block, and its symbols with the codes of the tables. */
  method SendBody(w: B.BitWriter, syms: seq<nat>, inUse: array<bool>, lens: seq<seq<nat>>, selector: seq<nat>,
                  alphaSize: nat, ghost e: Sent)
    requires w.Valid() && SentOk(e) && syms == Symbols(e) && HeadOf(e) == Hd.Head(inUse[..], lens, selector, alphaSize)
    modifies w
    ensures w.Valid() && w.All() == old(w.All()) + BodyBits(e)
  {
    hide GenerateMtf.SymbolsOf, GenerateMtf.Used, GenerateMtf.Numbers, B.HoldsTop, B.Bits, Pow2, Code, Hd.HeadBits;
    hide S.From, S.Codable, S.CodesFor, Hd.TablesOk, Hd.Selects, SortOk, MapOk;
    ghost var start := w.All();
    TablesLengths(lens, alphaSize);
    var codes := MakeCodes(lens);
    Hd.PutHead(w, inUse, lens, selector, alphaSize);
    S.Send(w, syms, lens, selector, codes);
    BodyAfter(start, e, syms);
  }

  /** The head and then the symbols are the body of the block. */
  lemma BodyAfter(start: seq<Bit>, e: Sent, syms: seq<nat>)
    requires SentOk(e) && syms == Symbols(e)
    ensures start + Hd.HeadBits(HeadOf(e)) + S.From(syms, e.lens, e.selector, 0) == start + BodyBits(e)
  {
    hide Hd.HeadBits, S.From, Hd.HeadOk, S.Codable, GenerateMtf.SymbolsOf, Pow2;
    B.AssocBits(start, Hd.HeadBits(HeadOf(e)), S.From(syms, e.lens, e.selector, 0));
  }

  lemma SomeSymbols(b: Block, ptr: seq<int>, inUse: seq<bool>, unseqToSeq: seq<nat>)
    requires |ptr| == |b| && InRange(ptr, 0, |b|) && |inUse| == 256
    requires GenerateMtf.Numbers(unseqToSeq, GenerateMtf.Used(inUse, 256)) && forall c: Byte :: c in b ==> inUse[c]
    ensures 1 <= |GenerateMtf.Used(inUse, 256)| <= 256 && GenerateMtf.SymbolsOf(b, ptr, inUse, unseqToSeq) != []
  {
    hide GenerateMtf.Used, GenerateMtf.Numbers;
    GenerateMtf.SomeUsed(b, inUse);
    GenerateMtf.ColumnBytes(b, ptr);
    GenerateMtf.NumberedIn(LastColumn(b, ptr), inUse, unseqToSeq);
    var n := |GenerateMtf.Used(inUse, 256)|;
    SymbolsEnded(GenerateMtf.Numbered(LastColumn(b, ptr), unseqToSeq), Upto(n), 0, n + 1);
  }

  lemma CountedBelow(freq: seq<nat>, syms: seq<nat>)
    requires GenerateMtf.Counted(freq, syms)
    ensures forall k :: 0 <= k < |syms| ==> syms[k] < |freq|
  {
    forall k | 0 <= k < |syms| ensures syms[k] < |freq| {
      assert syms[k] in syms;
    }
  }

  lemma HeadFits(inUse: seq<bool>, lens: seq<seq<nat>>, selector: seq<nat>, alphaSize: nat)
    requires |inUse| == 256 && 2 <= |lens| <= 6 && 1 <= |selector| < 0x8000
    requires Hd.TablesOk(lens, alphaSize) && Hd.Selects(selector, |lens|)
    ensures Hd.HeadOk(Hd.Head(inUse, lens, selector, alphaSize))
  {
    Hd.EightAndMore();
  }

  lemma TablesLengths(lens: seq<seq<nat>>, alphaSize: nat)
    requires Hd.TablesOk(lens, alphaSize)
    ensures forall t :: 0 <= t < |lens| ==> C.LengthsOk(lens[t]) && 0 < |lens[t]| == alphaSize
  {
  }

  lemma PtrRange(b: Block, ptr: seq<int>)
    requires SortedRotations(b, ptr)
    ensures |ptr| == |b| && InRange(ptr, 0, |b|)
  {
  }

  // ------------------------------------------------------------------
  // Receiving

  /** The end-of-block symbol comes last and nowhere before. */
  lemma {:induction false} SymbolsEnded(ls: seq<nat>, list: seq<nat>, pend: nat, eob: nat)
    requires list != [] && (forall x :: x in ls ==> x in list) && eob == |list| + 1
    ensures S.Ended(M.Encode(ls, list, pend, eob), eob)
    decreases |ls|
  {
    if ls != [] {
      if list[0] == ls[0] {
        SymbolsEnded(ls[1..], list, pend + 1, eob);
      } else {
        var j := M.Find(list, ls[0]);
        M.FrontIn(list, j);
        SymbolsEnded(ls[1..], Front(list, j), 0, eob);
        EndedAfter(M.Digits(pend) + [j + 1], M.Encode(ls[1..], Front(list, j), 0, eob), eob);
      }
    }
  }

  lemma EndedAfter(before: seq<nat>, syms: seq<nat>, eob: nat)
    requires S.Ended(syms, eob) && eob !in before
    ensures S.Ended(before + syms, eob)
  {
  }

  lemma EndedSymbols(e: Sent)
    requires SortOk(e) && MapOk(e)
    ensures 1 <= |GenerateMtf.Used(e.inUse, 256)| <= 256
    ensures S.Ended(Symbols(e), |GenerateMtf.Used(e.inUse, 256)| + 1)
  {
    hide GenerateMtf.Used, GenerateMtf.Numbers;
    GenerateMtf.SomeUsed(e.b, e.inUse);
    GenerateMtf.ColumnBytes(e.b, e.ptr);
    GenerateMtf.NumberedIn(LastColumn(e.b, e.ptr), e.inUse, e.unseqToSeq);
    var n := |GenerateMtf.Used(e.inUse, 256)|;
    SymbolsEnded(GenerateMtf.Numbered(LastColumn(e.b, e.ptr), e.unseqToSeq), Upto(n), 0, n + 1);
  }

  /** n bytes as one number, as the checksums and origPtr are read. */
  method TakeNumber(src: B.Source, n: nat, ghost v: nat, ghost more: seq<Bit>) returns (ok: bool, r: nat)
    requires src.Valid() && v < Pow2(8 * n) && src.Rest() == Code(v, 8 * n) + more
    modifies src, src.reader
    ensures src.Valid() && ok && r == v && src.Rest() == more
  {
    hide B.Source.Valid, B.Source.Rest, Code, Pow2, Msb;
    ghost var c := Code(v, 8 * n);
    r := 0;
    NoValue(c);
    assert c[0..] + more == c + more;
    for i := 0 to n
      invariant src.Valid() && src.Rest() == c[8 * i..] + more && r == Msb(c[..8 * i])
    {
      NumberStep(c, more, i);
      var uc;
      ok, uc := src.Pull(8);
      if !ok {
        return;
      }
      r := r * 256 + uc;
    }
    assert c[..8 * n] == c && c[8 * n..] + more == more;
    ok := true;
  }

  lemma NoValue(c: seq<Bit>)
    ensures Msb(c[..0]) == 0
  {
  }

  lemma NumberStep(c: seq<Bit>, more: seq<Bit>, i: nat)
    requires 8 * i + 8 <= |c|
    ensures Msb(c[..8 * (i + 1)]) == Msb(c[..8 * i]) * 256 + Msb((c[8 * i..] + more)[..8])
    ensures (c[8 * i..] + more)[8..] == c[8 * (i + 1)..] + more && |c[8 * i..] + more| >= 8
  {
    hide Msb, Pow2;
    var b := c[8 * i..8 * (i + 1)];
    assert (c[8 * i..] + more)[..8] == b;
    assert c[..8 * (i + 1)] == c[..8 * i] + b;
    MsbAppend(c[..8 * i], b);
    B.Pow2Values();
  }

  /** Bytes that must be as given. */
  method TakeMarker(src: B.Source, marker: seq<B.Byte>, ghost more: seq<Bit>) returns (ok: bool)
    requires src.Valid() && src.Rest() == B.Bits(marker) + more
    modifies src, src.reader
    ensures src.Valid() && ok && src.Rest() == more
  {
    hide B.Source.Valid, B.Source.Rest, B.Bits;
    assert marker[0..] == marker;
    for i := 0 to |marker|
      invariant src.Valid() && src.Rest() == B.Bits(marker[i..]) + more
    {
      assert marker[i..] == [marker[i]] + marker[i + 1..];
      B.BitsCons(marker[i], marker[i + 1..]);
      B.AssocBits(B.ByteBits(marker[i]), B.Bits(marker[i + 1..]), more);
      var uc;
      ok, uc := TakeByte(src, marker[i], B.Bits(marker[i + 1..]) + more);
      if !ok || uc != marker[i] {
        return false;
      }
    }
    B.BitsNone();
    assert [] + more == more;
    ok := true;
  }

  /** GET_UCHAR */
  method TakeByte(src: B.Source, ghost b: B.Byte, ghost more: seq<Bit>) returns (ok: bool, uc: nat)
    requires src.Valid() && src.Rest() == B.ByteBits(b) + more
    modifies src, src.reader
    ensures src.Valid() && ok && uc == b && src.Rest() == more
  {
    hide B.Source.Valid, B.Source.Rest, Code, Pow2;
    B.Pow2Values();
    ok, uc := src.Get(8, b, more);
  }

  /**
   * One block from behind its marker up to the point where output can begin: the
   * checksum that was stored, and the state that emits the block.
   */
  method ReceiveBlock(src: B.Source, nblockMAX: nat, small: bool, ghost e: Sent, ghost crc: nat, ghost more: seq<Bit>)
    returns (ok: bool, stored: nat, s: D.DState?)
    requires src.Valid() && SentOk(e) && crc < Pow2(32) && |e.b| <= nblockMAX <= BLOCK_MAX
    requires src.Rest() == AfterMarker(e, crc) + more
    modifies src, src.reader
    ensures src.Valid() && ok && stored == crc && src.Rest() == more
    ensures s != null && fresh(s) && s.Valid() && s.small == small && s.emitted == []
    ensures s.origPtr < |s.l| && D.BlockOf(s.l, s.origPtr) == e.b
  {
    hide B.Source.Valid, B.Source.Rest, Code, Pow2, SortOk, MapOk, Hd.HeadOk, Hd.HeadBits, S.From, S.Codable;
    hide D.DState.Valid, D.BlockOf;
    s, stored := null, 0;
    ghost var o, body := Code(e.origPtr, 24), BodyBits(e);
    Regrouped(Code(crc, 32), [0], o, body, more);
    ok, stored := TakeNumber(src, 4, crc, [0] + (o + (body + more)));
    if !ok {
      return;
    }
    var randomised, origPtr;
    ok, randomised := src.GetBit(0, o + (body + more));
    if !ok || randomised != 0 {
      return false, stored, null;
    }
    ok, origPtr := TakeNumber(src, 3, e.origPtr, body + more);
    if !ok || origPtr > 10 + nblockMAX {
      return false, stored, null;
    }
    var column, unzftab;
    ok, column, unzftab := ReceiveColumn(src, nblockMAX, e, more);
    if !ok || origPtr >= column.Length {
      return false, stored, null;
    }
    s := OpenBlock(column, unzftab, origPtr, small, e);
  }

  lemma Regrouped(a: seq<Bit>, b: seq<Bit>, c: seq<Bit>, d: seq<Bit>, more: seq<Bit>)
    ensures (a + (b + (c + d))) + more == a + (b + (c + (d + more)))
  {
  }

  /** The head and the symbols, back to the last column. */
  method ReceiveColumn(src: B.Source, nblockMAX: nat, ghost e: Sent, ghost more: seq<Bit>)
    returns (ok: bool, column: array<int>, unzftab: array<int>)
    requires src.Valid() && SentOk(e) && |e.b| <= nblockMAX <= BLOCK_MAX && src.Rest() == BodyBits(e) + more
    modifies src, src.reader
    ensures src.Valid() && ok && src.Rest() == more
    ensures fresh(column) && fresh(unzftab) && column != unzftab && column[..] == LastColumn(e.b, e.ptr)
    ensures unzftab.Length == 256
    ensures forall c :: 0 <= c < 256 ==> unzftab[c] == CountEq(LastColumn(e.b, e.ptr), c, |e.b|)
  {
    hide B.Source.Valid, B.Source.Rest, Code, Pow2, SortOk, Hd.HeadBits, S.From, S.Codable, GenerateMtf.Used;
    hide GenerateMtf.Numbers, GenerateMtf.SymbolsOf, S.TablesFor, S.Ended, Hd.AllTables;
    column, unzftab := new int[0], new int[1];
    ghost var h, syms := HeadOf(e), Symbols(e);
    ghost var msg, tables := S.From(syms, e.lens, e.selector, 0), Hd.AllTables(e.lens, h.alphaSize, 0);
    B.AssocBits(Hd.HeadBits(h), msg, more);
    var inUse, nGroups, selector, lens;
    ok, inUse, nGroups, selector := Hd.TakeHead(src, h, msg + more);
    if !ok {
      return;
    }
    var _, nInUse := GenerateMtf.MakeMapsD(inUse);
    EndedSymbols(e);
    if nInUse == 0 {
      return false, column, unzftab;
    }
    ok, lens := Hd.TakeTables(src, nGroups, nInUse + 2, e.lens, msg + more);
    if !ok {
      return;
    }
    TablesLengths(lens, nInUse + 2);
    var decode := MakeTables(lens);
    assert src.Rest() <= msg + more;
    var got := S.Receive(src, decode, selector, nInUse + 1, syms, lens, more);
    CancelFront(msg, more, src.Rest());
    column, unzftab := DecodeColumn(got, inUse, nblockMAX, e.b, e.ptr, e.unseqToSeq);
    ok := true;
  }

  /** The last column to the state that walks through it. */
  method OpenBlock(column: array<int>, unzftab: array<int>, origPtr: nat, small: bool, ghost e: Sent)
    returns (s: D.DState)
    requires SortOk(e) && origPtr == e.origPtr
    requires column != unzftab && column[..] == LastColumn(e.b, e.ptr)
    requires unzftab.Length == 256
    requires forall c :: 0 <= c < 256 ==> unzftab[c] == CountEq(LastColumn(e.b, e.ptr), c, |e.b|)
    modifies column
    ensures fresh(s) && s.Valid() && s.small == small && s.emitted == []
    ensures s.origPtr < |s.l| && D.BlockOf(s.l, s.origPtr) == e.b
  {
    hide SortedRotations, D.DState.Valid, CountEq;
    ghost var l: Block := LastColumn(e.b, e.ptr);
    var ll4 := new int[|column[..]|](_ => 0);
    s := D.Open(small, column, ll4, unzftab, origPtr, l);
    InversionTheorem(e.b, e.ptr, D.BackLinks(l), origPtr);
  }
}
