/**
 * A bzip2 stream from end to end: the blocks of a compression run written
 * one behind the other between header and trailer, read back in any pieces
 * and dealt out to any buffers.
 */
module BzStream {
  import opened Sequences
  import opened Powers
  import opened BitStrings
  import opened Rotations
  import opened InitialRle
  import R = BlockRoundTrip
  import B = BzBits
  import D = BzDecode
  import Z = BzCompress

  type Word = x: nat | x < 0x1_0000_0000

  /**
   * The checksum: its first value, what a byte does to it, what is stored
   * in the end, and how that joins the checksum of the blocks before.
   */
  datatype Checks = Checks(start: Word, update: (Word, Byte) -> Word, finish: Word -> Word, join: (Word, Word) -> Word)

  function Fold(c: Checks, crc: Word, text: seq<Byte>): Word {
    if text == [] then crc else c.update(Fold(c, crc, text[..|text| - 1]), text[|text| - 1])
  }

  function BlockCrc(c: Checks, text: seq<Byte>): Word {
    c.finish(Fold(c, c.start, text))
  }

  lemma {:induction false} FoldAppend(c: Checks, crc: Word, s: seq<Byte>, t: seq<Byte>)
    ensures Fold(c, crc, s + t) == Fold(c, Fold(c, crc, s), t)
    decreases |t|
  {
    if t == [] {
      assert s + t == s;
    } else {
      var n := |t| - 1;
      FoldAppend(c, crc, s, t[..n]);
      assert (s + t)[..|s + t| - 1] == s + t[..n];
    }
  }

  /** BZ_UPDATE_CRC for every byte. */
  method UpdateCrc(c: Checks, crc: Word, bytes: seq<Byte>) returns (r: Word)
    ensures r == Fold(c, crc, bytes)
  {
    r := crc;
    for i := 0 to |bytes|
      invariant r == Fold(c, crc, bytes[..i])
    {
      assert bytes[..i + 1][..i] == bytes[..i];
      r := c.update(r, bytes[i]);
    }
    assert bytes[..|bytes|] == bytes;
  }

  lemma WordFits(x: Word)
    ensures x < Pow2(32)
  {
    B.Pow2Values();
  }

  // ------------------------------------------------------------------
  // The stream

  const STREAM_MAGIC: seq<B.Byte> := [0x42, 0x5a, 0x68]
  const END_MAGIC: seq<B.Byte> := [0x17, 0x72, 0x45, 0x38, 0x50, 0x90]

  /** The blocks of a stream, each a whole run-length code. */
  ghost predicate Blocks(sents: seq<R.Sent>, size: nat) {
    forall i :: 0 <= i < |sents| ==> BlockOk(sents[i], size)
  }

  ghost predicate BlockOk(e: R.Sent, size: nat)
    ensures BlockOk(e, size) ==> Whole(e.b)
  {
    R.SentOk(e) && Whole(e.b) && |e.b| <= size
  }

  /** What the first k blocks stand for. */
  ghost function TextTo(sents: seq<R.Sent>, size: nat, k: nat): seq<Byte>
    requires Blocks(sents, size) && k <= |sents|
  {
    if k == 0 then [] else TextTo(sents, size, k - 1) + Unrle(sents[k - 1].b)
  }

  ghost function Text(sents: seq<R.Sent>, size: nat): seq<Byte>
    requires Blocks(sents, size)
  {
    TextTo(sents, size, |sents|)
  }

  /** The checksum of the first k blocks. */
  ghost function CombinedTo(c: Checks, sents: seq<R.Sent>, size: nat, k: nat): Word
    requires Blocks(sents, size) && k <= |sents|
  {
    if k == 0 then 0
    else
      c.join(CombinedTo(c, sents, size, k - 1), BlockCrc(c, Unrle(sents[k - 1].b)))
  }

  ghost function Combined(c: Checks, sents: seq<R.Sent>, size: nat): Word
    requires Blocks(sents, size)
  {
    CombinedTo(c, sents, size, |sents|)
  }

  ghost function OneBlock(c: Checks, e: R.Sent, size: nat): seq<Bit>
    requires BlockOk(e, size)
  {
    WordFits(BlockCrc(c, Unrle(e.b)));
    R.BlockBits(e, BlockCrc(c, Unrle(e.b)))
  }

  /** The blocks from the k-th on. */
  ghost function From(c: Checks, sents: seq<R.Sent>, size: nat, k: nat): seq<Bit>
    requires Blocks(sents, size) && k <= |sents|
    decreases |sents| - k
  {
    if k == |sents| then [] else OneBlock(c, sents[k], size) + From(c, sents, size, k + 1)
  }

  ghost function Trailer(combined: Word): seq<Bit> {
    WordFits(combined);
    B.Bits(END_MAGIC) + Code(combined, 32)
  }

  function Header(level: nat): seq<B.Byte>
    requires level <= 9
  {
    STREAM_MAGIC + [0x30 + level]
  }

  lemma {:induction false} FromSnoc(c: Checks, sents: seq<R.Sent>, size: nat, e: R.Sent, k: nat)
    requires Blocks(sents, size) && BlockOk(e, size) && k <= |sents|
    ensures Blocks(sents + [e], size)
    ensures From(c, sents + [e], size, k) == From(c, sents, size, k) + OneBlock(c, e, size)
    decreases |sents| - k
  {
    hide OneBlock, BlockOk;
    var now := sents + [e];
    if k == |sents| {
      assert From(c, now, size, k + 1) == [];
      assert OneBlock(c, e, size) + [] == [] + OneBlock(c, e, size);
    } else {
      FromSnoc(c, sents, size, e, k + 1);
      assert now[k] == sents[k];
      B.AssocBits(OneBlock(c, sents[k], size), From(c, sents, size, k + 1), OneBlock(c, e, size));
    }
  }

  lemma TextSnoc(c: Checks, sents: seq<R.Sent>, size: nat, e: R.Sent)
    requires Blocks(sents, size) && BlockOk(e, size)
    ensures Blocks(sents + [e], size) && Text(sents + [e], size) == Text(sents, size) + Unrle(e.b)
    ensures Combined(c, sents + [e], size) == c.join(Combined(c, sents, size), BlockCrc(c, Unrle(e.b)))
  {
    hide BlockOk, Unrle;
    ToSnoc(c, sents, size, e, |sents|);
  }

  lemma {:induction false} ToSnoc(c: Checks, sents: seq<R.Sent>, size: nat, e: R.Sent, k: nat)
    requires Blocks(sents, size) && BlockOk(e, size) && k <= |sents|
    ensures Blocks(sents + [e], size) && TextTo(sents + [e], size, k) == TextTo(sents, size, k)
    ensures CombinedTo(c, sents + [e], size, k) == CombinedTo(c, sents, size, k)
  {
    hide BlockOk, Unrle;
    if k > 0 { ToSnoc(c, sents, size, e, k - 1); }
  }

  // ------------------------------------------------------------------
  // Writing

  method ToArray(b: seq<Byte>) returns (a: array<Byte>)
    ensures fresh(a) && a[..] == b
  {
    a := new Byte[|b|](i requires 0 <= i < |b| => b[i]);
  }

  /** Closing blocks come last, and none is too long. */
  ghost predicate Closes(handed: seq<Z.Handed>, size: nat) {
    && handed != [] && Z.AllWhole(handed)
    && (forall i :: 0 <= i < |handed| ==> |handed[i].block| <= size)
    && forall i :: 0 <= i < |handed| ==> (handed[i].last <==> i == |handed| - 1)
  }

  lemma NoBlocks(c: Checks, size: nat)
    ensures Blocks([], size) && Text([], size) == [] && Combined(c, [], size) == 0 && From(c, [], size, 0) == []
  {
  }

  /** A block that is not empty: its checksum joins the others and its bits go out. */
  method CompressData(w: B.BitWriter, c: Checks, size: nat, bytes: seq<Byte>, combined: Word)
    returns (combined': Word, ghost e: R.Sent)
    requires w.Valid() && Whole(bytes) && 0 < |bytes| <= size <= R.BLOCK_MAX
    modifies w
    ensures w.Valid() && BlockOk(e, size) && e.b == bytes && w.All() == old(w.All()) + OneBlock(c, e, size)
    ensures combined' == c.join(combined, BlockCrc(c, Unrle(bytes)))
  {
    hide B.BitWriter.Valid, B.BitWriter.All, R.BlockBits, R.SentOk, Whole, Unrle, Fold;
    var crc := UpdateCrc(c, c.start, Unrle(bytes));
    crc := c.finish(crc);
    WordFits(crc);
    var block := ToArray(bytes);
    e := R.SendBlock(w, block, crc);
    combined' := c.join(combined, crc);
  }

  /** BZ2_compressBlock but for bsFinishWrite: the header with the first block, the trailer with the last. */
  method CompressBlock(w: B.BitWriter, c: Checks, level: nat, h: Z.Handed, first: bool, combined: Word,
                       ghost sents: seq<R.Sent>)
    returns (combined': Word, ghost sents': seq<R.Sent>, ghost data: seq<Bit>)
    requires 1 <= level <= 9 && w.Valid() && Whole(h.block) && |h.block| <= 100000 * level
    requires Blocks(sents, 100000 * level) && combined == Combined(c, sents, 100000 * level)
    modifies w
    ensures w.Valid() && Blocks(sents', 100000 * level) && combined' == Combined(c, sents', 100000 * level)
    ensures Text(sents', 100000 * level) == Text(sents, 100000 * level) + Unrle(h.block)
    ensures From(c, sents', 100000 * level, 0) == From(c, sents, 100000 * level, 0) + data
    ensures w.All() == old(w.All()) + Opening(level, first) + data + Closing(combined', h.last)
  {
    hide B.BitWriter.Valid, B.BitWriter.All, B.Bits, Whole, Unrle, Blocks, From, Text, Combined, OneBlock, Fold;
    combined', sents', data := combined, sents, [];
    NoText();
    assert w.All() + [] + [] + [] == w.All() && forall s: seq<Byte> :: s + [] == s;
    assert From(c, sents, 100000 * level, 0) + [] == From(c, sents, 100000 * level, 0);
    if first {
      R.PutBytes(w, Header(level));
    }
    ghost var all := w.All();
    assert old(w.All()) + [] == old(w.All());
    if h.block != [] {
      ghost var e;
      combined', e := CompressData(w, c, 100000 * level, h.block, combined);
      TextSnoc(c, sents, 100000 * level, e);
      FromSnoc(c, sents, 100000 * level, e, 0);
      sents', data := sents + [e], OneBlock(c, e, 100000 * level);
    }
    assert all + [] == all;
    ghost var now := w.All();
    if h.last {
      WordFits(combined');
      R.PutBytes(w, END_MAGIC);
      R.PutUInt32(w, combined');
      B.AssocBits(now, B.Bits(END_MAGIC), Code(combined', 32));
    }
    assert now + [] == now;
  }

  lemma NoText()
    ensures Whole([]) && Unrle([]) == []
  {
  }

  ghost function Opening(level: nat, first: bool): seq<Bit>
    requires level <= 9
  {
    if first then B.Bits(Header(level)) else []
  }

  ghost function Closing(combined: Word, last: bool): seq<Bit> {
    if last then Trailer(combined) else []
  }

  ghost function StreamBits(c: Checks, level: nat, sents: seq<R.Sent>): seq<Bit>
    requires level <= 9 && Blocks(sents, 100000 * level)
  {
    B.Bits(Header(level))
    + (From(c, sents, 100000 * level, 0) + Trailer(Combined(c, sents, 100000 * level)))
  }

  /**
   * The bytes by which a bzip2 stream is known: "BZh" and the level, then
   * the marker of a block or of the end, and 80 bits before the padding the
   * marker of the end.
   */
  ghost predicate Marked(bytes: seq<B.Byte>, level: nat, empty: bool, fill: nat) {
    && |bytes| >= 14 && fill < 8 && bytes[..4] == [66, 90, 104, 48 + level]
    && bytes[4..10] == (if empty then [0x17, 0x72, 0x45, 0x38, 0x50, 0x90] else [0x31, 0x41, 0x59, 0x26, 0x53, 0x59])
    && var end := 8 * |bytes| - fill - 80;
       Msb(B.Bits(bytes)[end..end + 48]) == 0x1772_4538_5090
  }

  lemma StreamMarked(c: Checks, level: nat, sents: seq<R.Sent>, bytes: seq<B.Byte>, fill: nat)
    requires level <= 9 && Blocks(sents, 100000 * level) && fill < 8
    requires B.Bits(bytes) == StreamBits(c, level, sents) + BitStrings.Run(0, fill)
    ensures Marked(bytes, level, sents == [], fill)
  {
    hide B.Bits, Blocks, Trailer, From, Header, BitStrings.Run, Msb;
    var f, t := From(c, sents, 100000 * level, 0), Trailer(Combined(c, sents, 100000 * level));
    var pad := BitStrings.Run(0, fill);
    B.AssocBits(B.Bits(Header(level)), f + t, pad);
    HeaderBytes(level);
    B.BitsFront(bytes, Header(level), (f + t) + pad);
    StartsWith(c, level, sents, bytes[4..], fill);
    EndMarker(B.Bits(Header(level)) + f, Combined(c, sents, 100000 * level), pad);
    assert B.Bits(bytes) == ((B.Bits(Header(level)) + f) + t) + pad;
    assert bytes[4..10] == bytes[4..][..6];
  }

  lemma HeaderBytes(level: nat)
    requires level <= 9
    ensures Header(level) == [66, 90, 104, 48 + level]
  {
  }

  /** What comes first behind the header. */
  lemma StartsWith(c: Checks, level: nat, sents: seq<R.Sent>, bytes: seq<B.Byte>, fill: nat)
    requires level <= 9 && Blocks(sents, 100000 * level)
    requires B.Bits(bytes)
          == (From(c, sents, 100000 * level, 0) + Trailer(Combined(c, sents, 100000 * level))) + BitStrings.Run(0, fill)
    ensures |bytes| >= 10
    ensures bytes[..6]
         == if sents == [] then [0x17, 0x72, 0x45, 0x38, 0x50, 0x90] else [0x31, 0x41, 0x59, 0x26, 0x53, 0x59]
  {
    hide B.Bits, Blocks, R.BlockBits, OneBlock, BlockOk, Combined, BitStrings.Run, Trailer, From;
    var size := 100000 * level;
    var t, pad := Trailer(Combined(c, sents, size)), BitStrings.Run(0, fill);
    if sents == [] {
      NoBlocks(c, size);
      TrailerStarts(Combined(c, sents, size));
      var after := Code(Combined(c, sents, size), 32);
      InFront([], B.Bits(END_MAGIC), after, [], pad);
      B.BitsFront(bytes, END_MAGIC, (after + []) + pad);
    } else {
      var after := FirstBlock(c, sents, size);
      InFront(B.Bits(R.BLOCK_MAGIC), after, [], t, pad);
      assert (B.Bits(R.BLOCK_MAGIC) + after) + [] == From(c, sents, size, 0);
      B.BitsFront(bytes, R.BLOCK_MAGIC, (after + [] + t) + pad);
    }
  }

  lemma InFront(m: seq<Bit>, a: seq<Bit>, f: seq<Bit>, t: seq<Bit>, p: seq<Bit>)
    ensures (((m + a) + f) + t) + p == m + (((a + f) + t) + p)
    ensures ([] + (a + f)) + p == a + ((f + []) + p)
  {
  }

  lemma TrailerStarts(combined: Word)
    ensures combined < Pow2(32) && Trailer(combined) == B.Bits(END_MAGIC) + Code(combined, 32)
  {
    hide Code, B.Bits, Pow2;
    WordFits(combined);
  }

  lemma FirstBlock(c: Checks, sents: seq<R.Sent>, size: nat) returns (after: seq<Bit>)
    requires Blocks(sents, size) && sents != []
    ensures From(c, sents, size, 0) == B.Bits(R.BLOCK_MAGIC) + after && |after| >= 32
  {
    hide B.Bits, Code, R.SentOk, Unrle, R.BodyBits;
    var e := sents[0];
    assert BlockOk(e, size);
    WordFits(BlockCrc(c, Unrle(e.b)));
    var a, more := R.AfterMarker(e, BlockCrc(c, Unrle(e.b))), From(c, sents, size, 1);
    B.AssocBits(B.Bits(R.BLOCK_MAGIC), a, more);
    after := a + more;
  }

  lemma EndMarker(before: seq<Bit>, combined: Word, pad: seq<Bit>)
    ensures var all := (before + Trailer(combined)) + pad; var end := |all| - |pad| - 80;
      end >= 0 && Msb(all[end..end + 48]) == 0x1772_4538_5090
  {
    hide B.Bits, Msb, Code;
    var all := (before + Trailer(combined)) + pad;
    assert all[|before|..|before| + 48] == B.Bits(END_MAGIC);
    EndValue();
  }

  lemma EndValue()
    ensures Msb(B.Bits(END_MAGIC)) == 0x1772_4538_5090
  {
    hide B.Bits, Msb;
    B.BitsNone();
    EmptyMsb();
    B.BitsValue([], 0x17);
    B.BitsValue([0x17], 0x72);
    B.BitsValue([0x17, 0x72], 0x45);
    B.BitsValue([0x17, 0x72, 0x45], 0x38);
    B.BitsValue([0x17, 0x72, 0x45, 0x38], 0x50);
    B.BitsValue([0x17, 0x72, 0x45, 0x38, 0x50], 0x90);
    assert [] + [0x17] == [0x17] && [0x17] + [0x72] == [0x17, 0x72];
    assert [0x17, 0x72] + [0x45] == [0x17, 0x72, 0x45] && [0x17, 0x72, 0x45] + [0x38] == [0x17, 0x72, 0x45, 0x38];
    assert [0x17, 0x72, 0x45, 0x38] + [0x50] == [0x17, 0x72, 0x45, 0x38, 0x50];
    assert [0x17, 0x72, 0x45, 0x38, 0x50] + [0x90] == END_MAGIC;
  }

  lemma EmptyMsb()
    ensures Msb([]) == 0
  {
  }

  /** What has gone out when a number of blocks have been handed over, the last not among them. */
  ghost function SoFar(c: Checks, level: nat, sents: seq<R.Sent>, count: nat): seq<Bit>
    requires level <= 9 && Blocks(sents, 100000 * level)
  {
    if count == 0 then [] else B.Bits(Header(level)) + From(c, sents, 100000 * level, 0)
  }

  lemma Grown(c: Checks, level: nat, sents: seq<R.Sent>, sents': seq<R.Sent>, count: nat, given: seq<Bit>,
              kept: seq<Bit>,
              data: seq<Bit>)
    requires level <= 9 && Blocks(sents, 100000 * level) && Blocks(sents', 100000 * level)
    requires From(c, sents', 100000 * level, 0) == From(c, sents, 100000 * level, 0) + data
    requires given + kept == SoFar(c, level, sents, count) && (count == 0 ==> From(c, sents, 100000 * level, 0) == [])
    ensures given + (kept + Opening(level, count == 0) + data) == SoFar(c, level, sents', count + 1)
  {
    hide From, Blocks, B.Bits;
    var f := From(c, sents, 100000 * level, 0);
    assert given + (kept + Opening(level, count == 0) + data) == (given + kept) + (Opening(level, count == 0) + data);
    if count == 0 {
      assert f == [] && [] + data == data;
    } else {
      assert (B.Bits(Header(level)) + f) + ([] + data) == B.Bits(Header(level)) + (f + data);
    }
  }

  /** BZ2_compressBlock, and the bytes that it completes. */
  method NextPiece(w: B.BitWriter, c: Checks, level: nat, h: Z.Handed, count: nat, combined: Word,
                   ghost sents: seq<R.Sent>, ghost given: seq<Bit>)
    returns (combined': Word, piece: seq<B.Byte>, ghost sents': seq<R.Sent>, ghost fill: nat)
    requires 1 <= level <= 9 && w.Valid() && Whole(h.block) && |h.block| <= 100000 * level
    requires Blocks(sents, 100000 * level) && combined == Combined(c, sents, 100000 * level)
    requires given + w.All() == SoFar(c, level, sents, count)
    requires count == 0 ==> From(c, sents, 100000 * level, 0) == []
    modifies w
    ensures Blocks(sents', 100000 * level) && combined' == Combined(c, sents', 100000 * level) && fill < 8
    ensures Text(sents', 100000 * level) == Text(sents, 100000 * level) + Unrle(h.block)
    ensures !h.last ==> w.Valid() && (given + B.Bits(piece)) + w.All() == SoFar(c, level, sents', count + 1)
    ensures h.last ==> given + B.Bits(piece) == StreamBits(c, level, sents') + BitStrings.Run(0, fill)
  {
    hide B.BitWriter.Valid, B.BitWriter.All, B.Bits, Whole, Unrle, Blocks, From, Text, Combined, Trailer, SoFar;
    hide StreamBits;
    ghost var kept, data := w.All(), [];
    fill := 0;
    combined', sents', data := CompressBlock(w, c, level, h, count == 0, combined, sents);
    Grown(c, level, sents, sents', count, given, kept, data);
    if h.last {
      fill := w.Finish();
      piece := w.zbits;
      Ended(c, level, sents', count + 1, given, kept + Opening(level, count == 0) + data, combined', fill);
    } else {
      assert kept + Opening(level, count == 0) + data + [] == kept + Opening(level, count == 0) + data;
      piece := w.Collect();
      B.AssocBits(given, B.Bits(piece), w.All());
    }
  }

  /** The block compressor over all the blocks of a run that ended the stream. */
  method CompressAll(c: Checks, level: nat, handed: seq<Z.Handed>)
    returns (pieces: seq<seq<B.Byte>>, ghost sents: seq<R.Sent>, ghost fill: nat)
    requires 1 <= level <= 9 && Closes(handed, 100000 * level)
    ensures |pieces| == |handed| && fill < 8 && Blocks(sents, 100000 * level)
    ensures Text(sents, 100000 * level) == Z.Decoded(handed)
    ensures B.Bits(Concat(pieces)) == StreamBits(c, level, sents) + BitStrings.Run(0, fill)
    ensures Marked(Concat(pieces), level, sents == [], fill)
  {
    hide B.BitWriter.Valid, B.BitWriter.All, B.Bits, Whole, Unrle, Blocks, From, Text, Combined, Z.Decoded, Concat;
    hide StreamBits, Marked;
    var w := new B.BitWriter();
    var combined: Word := 0;
    pieces, sents, fill := [], [], 0;
    NoBlocks(c, 100000 * level);
    NoPieces();
    assert handed[..0] == [] && [] + w.All() == [];
    for i := 0 to |handed|
      invariant |pieces| == i && fill < 8 && Blocks(sents, 100000 * level)
      invariant Z.AllWhole(handed[..i]) && Text(sents, 100000 * level) == Z.Decoded(handed[..i])
      invariant i < |handed| ==> w.Valid() && combined == Combined(c, sents, 100000 * level)
      invariant i < |handed| ==> B.Bits(Concat(pieces)) + w.All() == SoFar(c, level, sents, i)
      invariant i == 0 ==> From(c, sents, 100000 * level, 0) == []
      invariant i == |handed| ==> B.Bits(Concat(pieces)) == StreamBits(c, level, sents) + BitStrings.Run(0, fill)
    {
      var h := handed[i];
      var piece;
      combined, piece, sents, fill := NextPiece(w, c, level, h, i, combined, sents, B.Bits(Concat(pieces)));
      assert handed[..i + 1] == handed[..i] + [h];
      Z.DecodedSnoc((hs, x) => [], handed[..i], h);
      AddPiece(pieces, piece);
      pieces := pieces + [piece];
    }
    assert handed[..|handed|] == handed;
    StreamMarked(c, level, sents, Concat(pieces), fill);
  }

  lemma AddPiece(pieces: seq<seq<B.Byte>>, piece: seq<B.Byte>)
    ensures B.Bits(Concat(pieces + [piece])) == B.Bits(Concat(pieces)) + B.Bits(piece)
  {
    hide B.Bits, Concat;
    ConcatSnoc(pieces, piece);
    B.BitsAppend(Concat(pieces), piece);
  }

  lemma Ended(c: Checks, level: nat, sents: seq<R.Sent>, count: nat, given: seq<Bit>, kept: seq<Bit>, combined: Word,
              fill: nat)
    requires level <= 9 && Blocks(sents, 100000 * level) && count > 0 && combined == Combined(c, sents, 100000 * level)
    requires given + kept == SoFar(c, level, sents, count)
    ensures given + (kept + Trailer(combined) + BitStrings.Run(0, fill))
         == StreamBits(c, level, sents) + BitStrings.Run(0, fill)
  {
    hide From, Blocks, B.Bits, Combined, Trailer;
    var h, f, t, z := B.Bits(Header(level)), From(c, sents, 100000 * level, 0), Trailer(combined), BitStrings.Run(0,
                             fill);
    assert given + (kept + t + z) == (given + kept) + t + z;
    B.AssocBits(h, f, t);
  }

  lemma NoPieces()
    ensures B.Bits(Concat([])) == [] && Z.AllWhole([]) && Z.Decoded([]) == []
  {
  }

  // ------------------------------------------------------------------
  // Reading

  datatype Stage = MAGIC | BLOCK_HEADER | OUTPUT | IDLE
  datatype Reply = OK | STREAM_END | DATA_ERROR

  /** A decompressor in the middle of a stream that the compressor wrote. */
  class Decompressor {
    const src: B.Source
    const checks: Checks
    const small: bool
    var blockSize100k: nat
    var stage: Stage
    var block: D.DState?
    var storedBlockCRC: nat
    var calculatedBlockCRC: Word
    var calculatedCombinedCRC: Word
    // the stream: its blocks, those finished, and what follows its end
    ghost const level: nat
    ghost const sents: seq<R.Sent>
    ghost const tail: seq<Bit>
    ghost var k: nat

    ghost predicate Shaped()
    {
      1 <= level <= 9 && Blocks(sents, 100000 * level)
    }

    /** The stream from block n on. */
    ghost function After(n: nat): seq<Bit>
      requires Shaped() && n <= |sents|
    {
      From(checks, sents, 100000 * level, n) + (Trailer(Combined(checks, sents, 100000 * level)) + tail)
    }

    ghost predicate Shared()
      reads this`k, this`blockSize100k, this`stage, this`calculatedCombinedCRC
      ensures Shared() ==> Shaped() && k <= |sents|
    {
      && Shaped() && k <= |sents| && (stage != MAGIC ==> blockSize100k == level)
      && calculatedCombinedCRC == CombinedTo(checks, sents, 100000 * level, k)
    }

    ghost predicate InBlock()
      reads this`k, this`block, this`storedBlockCRC, this`calculatedBlockCRC
      reads block, if block == null then {} else {block.tt, block.ll16, block.ll4, block.cftab}
      ensures InBlock() ==> Shaped() && k < |sents| && block != null
    {
      && Shaped() && k < |sents| && block != null && block.Valid() && block.small == small
      && block.origPtr < |block.l| && D.BlockOf(block.l, block.origPtr) == sents[k].b
      && storedBlockCRC == BlockCrc(checks, InitialRle.Unrle(sents[k].b))
      && calculatedBlockCRC == Fold(checks, checks.start, block.emitted)
    }

    ghost predicate Valid()
      reads this, src, src.reader
      reads block, if block == null then {} else {block.tt, block.ll16, block.ll4, block.cftab}
    {
      Shared() && Reading()
    }

    /** What is still to be read, stage by stage. */
    ghost predicate Reading()
      requires Shared()
      reads this, src, src.reader
      reads block, if block == null then {} else {block.tt, block.ll16, block.ll4, block.cftab}
    {
      && src.Valid() && src.Rest() == Ahead()
      && (stage == MAGIC ==> k == 0) && (stage == OUTPUT ==> InBlock()) && (stage == IDLE ==> k == |sents|)
    }

    ghost function Ahead(): seq<Bit>
      requires Shared()
      reads this`k, this`stage, this`blockSize100k, this`calculatedCombinedCRC
    {
      match stage
      case MAGIC => StreamBits(checks, level, sents) + tail
      case BLOCK_HEADER => After(k)
      case OUTPUT => if k < |sents| then After(k + 1) else []
      case IDLE => tail
    }

    /** Everything written so far. */
    ghost function Emitted(): seq<Byte>
      requires Shared()
      reads this, block
    {
      TextTo(sents, 100000 * level, k) + if stage == OUTPUT && block != null then block.emitted else []
    }

    constructor (src: B.Source, checks: Checks, small: bool, ghost level: nat, ghost sents: seq<R.Sent>,
                 ghost tail: seq<Bit>)
      requires 1 <= level <= 9 && Blocks(sents, 100000 * level)
      requires src.Valid() && src.Rest() == StreamBits(checks, level, sents) + tail
      ensures Valid() && stage == MAGIC && Emitted() == [] && block == null
      ensures this.src == src && this.level == level && this.sents == sents
    {
      hide Blocks, Combined, From, B.Bits, B.Source.Valid, B.Source.Rest, Trailer;
      this.src, this.checks, this.small := src, checks, small;
      blockSize100k, stage, block, storedBlockCRC, calculatedBlockCRC, calculatedCombinedCRC := 0, MAGIC, null, 0, 0, 0;
      this.level, this.sents, this.tail, k := level, sents, tail, 0;
    }

    /** The stream's first four bytes. */
    method ReadMagic() returns (ok: bool)
      requires Valid() && stage == MAGIC
      modifies this`stage, this`blockSize100k, src, src.reader
      ensures ok && Valid() && stage == BLOCK_HEADER && Emitted() == old(Emitted())
    {
      hide Blocks, Text, Combined, From, B.Bits, B.Source.Valid, B.Source.Rest, Trailer, InBlock;
      ghost var more := After(0);
      HeaderBits(checks, level, sents, tail);
      ok := R.TakeMarker(src, STREAM_MAGIC, B.ByteBits(0x30 + level) + more);
      if !ok {
        return;
      }
      ok, blockSize100k := R.TakeByte(src, 0x30 + level, more);
      if !ok || blockSize100k < 0x31 || blockSize100k > 0x39 {
        return false;
      }
      blockSize100k := blockSize100k - 0x30;
      stage := BLOCK_HEADER;
    }

    /** The next block, or the end of the stream. */
    method ReadHeader() returns (r: Reply)
      requires Valid() && stage == BLOCK_HEADER
      modifies this`stage, this`block, this`storedBlockCRC, this`calculatedBlockCRC, src, src.reader
      ensures Valid() && Emitted() == old(Emitted())
      ensures r == OK ==> stage == OUTPUT && fresh(block)
      ensures r == STREAM_END ==> stage == IDLE && block == old(block)
      ensures r != DATA_ERROR
    {
      hide Blocks, Text, Combined, From, B.Bits, B.Source.Valid, B.Source.Rest, Trailer, InBlock, DataAfter, EndAfter;
      var ok, uc;
      ghost var marker := if k < |sents| then R.BLOCK_MAGIC else END_MAGIC;
      ghost var more := if k < |sents| then DataAfter() else EndAfter();
      NextMarker();
      FirstByte(marker, more);
      ok, uc := R.TakeByte(src, marker[0], B.Bits(marker[1..]) + more);
      if !ok {
        return DATA_ERROR;
      }
      if uc == 0x17 {
        r := ReadEnd();
      } else if uc != 0x31 {
        return DATA_ERROR;
      } else {
        r := ReadData();
      }
    }

    ghost function Crc(): Word
      requires Shaped() && k < |sents|
      reads this`k
    {
      NthBlock(sents, 100000 * level, k);
      BlockCrc(checks, InitialRle.Unrle(sents[k].b))
    }

    /** The stream from behind the next block's marker. */
    ghost function DataAfter(): seq<Bit>
      requires Shaped() && k < |sents|
      reads this`k
    {
      WordFits(Crc());
      NthBlock(sents, 100000 * level, k);
      R.AfterMarker(sents[k], Crc()) + After(k + 1)
    }

    /** The stream from behind the marker of its end. */
    ghost function EndAfter(): seq<Bit>
      requires Shaped()
    {
      WordFits(Combined(checks, sents, 100000 * level));
      Code(Combined(checks, sents, 100000 * level), 32) + tail
    }

    lemma NextMarker()
      requires Shared()
      ensures k < |sents| ==> After(k) == B.Bits(R.BLOCK_MAGIC) + DataAfter()
      ensures k == |sents| ==> After(k) == B.Bits(END_MAGIC) + EndAfter()
    {
      hide Blocks, Combined, B.Bits, R.SentOk, R.AfterMarker, InitialRle.Unrle, BlockCrc, R.SortOk, R.MapOk;
      var t := Trailer(Combined(checks, sents, 100000 * level)) + tail;
      if k < |sents| {
        var e := sents[k];
        WordFits(Crc());
        NthBlock(sents, 100000 * level, k);
        var data := R.AfterMarker(e, Crc());
        assert OneBlock(checks, e, 100000 * level) == B.Bits(R.BLOCK_MAGIC) + data;
        Regroup(B.Bits(R.BLOCK_MAGIC), data, From(checks, sents, 100000 * level, k + 1), t);
      } else {
        WordFits(Combined(checks, sents, 100000 * level));
        assert [] + t == t;
        B.AssocBits(B.Bits(END_MAGIC), Code(Combined(checks, sents, 100000 * level), 32), tail);
      }
    }

    /** endhdr_2, and the comparison of the checksums. */
    method ReadEnd() returns (r: Reply)
      requires Shared() && src.Valid() && stage == BLOCK_HEADER && k == |sents|
      requires src.Rest() == B.Bits(END_MAGIC[1..]) + EndAfter()
      modifies this`stage, src, src.reader
      ensures Valid() && stage == IDLE && Emitted() == old(Emitted()) && r == STREAM_END
    {
      hide Blocks, TextTo, CombinedTo, From, B.Bits;
      hide B.Source.Valid, B.Source.Rest, InBlock, EndAfter, StreamBits, After;
      var ok, storedCombinedCRC := FetchEnd();
      if !ok {
        return DATA_ERROR;
      }
      stage := IDLE;
      if calculatedCombinedCRC != storedCombinedCRC {
        return DATA_ERROR;
      }
      r := STREAM_END;
    }

    method FetchEnd() returns (ok: bool, stored: nat)
      requires Shared() && src.Valid() && k == |sents| && src.Rest() == B.Bits(END_MAGIC[1..]) + EndAfter()
      modifies src, src.reader
      ensures ok && src.Valid() && src.Rest() == tail && stored == calculatedCombinedCRC
    {
      hide Blocks, CombinedTo, B.Bits, B.Source.Valid, B.Source.Rest, Code, Pow2;
      stored := 0;
      WordFits(calculatedCombinedCRC);
      ok := R.TakeMarker(src, END_MAGIC[1..], EndAfter());
      if ok {
        ok, stored := R.TakeNumber(src, 4, calculatedCombinedCRC, tail);
      }
    }

    /** A block, up to where output begins. */
    method ReadData() returns (r: Reply)
      requires Shared() && src.Valid() && stage == BLOCK_HEADER && k < |sents|
      requires src.Rest() == B.Bits(R.BLOCK_MAGIC[1..]) + DataAfter()
      modifies this`stage, this`block, this`storedBlockCRC, this`calculatedBlockCRC, src, src.reader
      ensures Valid() && stage == OUTPUT && Emitted() == old(Emitted()) && r == OK && fresh(block)
    {
      hide Shared, B.Source.Valid, B.Source.Rest, D.BlockOf, DataAfter, After, Crc, D.DState.Valid, Reading, Emitted;
      hide Blocks, B.Bits, InBlock, R.SentOk, R.AfterMarker, BlockOk, Pow2;
      ghost var crc := Crc();
      NextData();
      var ok, stored, s := FetchBlock(src, 100000 * blockSize100k, small, sents[k], crc, After(k + 1));
      if !ok || s == null {
        return DATA_ERROR;
      }
      SetBlock(s, stored);
      r := OK;
    }

    lemma NextData()
      requires Shared() && stage == BLOCK_HEADER && k < |sents|
      ensures R.SentOk(sents[k]) && |sents[k].b| <= 100000 * blockSize100k <= R.BLOCK_MAX && Crc() < Pow2(32)
      ensures DataAfter() == R.AfterMarker(sents[k], Crc()) + After(k + 1)
    {
      hide Blocks, After, R.SentOk, R.AfterMarker, BlockCrc, InitialRle.Unrle, CombinedTo;
      NthBlock(sents, 100000 * level, k);
      WordFits(Crc());
    }

    /** Output of the block begins. */
    method SetBlock(s: D.DState, stored: nat)
      requires Shared() && src.Valid() && stage == BLOCK_HEADER && k < |sents| && src.Rest() == After(k + 1)
      requires stored == Crc() && s.Valid() && s.small == small && s.emitted == []
      requires s.origPtr < |s.l| && D.BlockOf(s.l, s.origPtr) == sents[k].b
      modifies this`stage, this`block, this`storedBlockCRC, this`calculatedBlockCRC
      ensures Valid() && stage == OUTPUT && Emitted() == old(Emitted()) && block == s
    {
      hide Text, Combined, From, B.Source.Valid, B.Source.Rest, R.SentOk, InitialRle.Unrle, Fold, D.BlockOf;
      hide Blocks, After, BlockCrc, D.DState.Valid, Trailer, R.SortOk, R.MapOk, BlockOk;
      block, storedBlockCRC, calculatedBlockCRC := s, stored, checks.start;
      stage := OUTPUT;
      NoFold(checks);
    }

    /** unRLE into the room given; a finished block must have the checksum stored. */
    method WriteBlock(room: nat) returns (out: seq<Byte>, r: Reply)
      requires Valid() && stage == OUTPUT
      modifies this`stage, this`k, this`calculatedBlockCRC, this`calculatedCombinedCRC, block
      ensures Valid() && stage in {OUTPUT, BLOCK_HEADER} && |out| <= room && Emitted() == old(Emitted()) + out
      ensures r == OK && (stage == OUTPUT ==> |out| == room && k == old(k))
      ensures stage == BLOCK_HEADER ==> k == old(k) + 1
    {
      hide Shared, B.Source.Valid, B.Source.Rest, InBlock, After, Text, Combined, Blocks, BlockOk;
      var corrupt;
      ghost var had := block.emitted;
      out, corrupt := Unrle(room);
      if corrupt {
        return out, DATA_ERROR;
      }
      Joined(TextTo(sents, 100000 * level, k), had, out);
      r := OK;
      if block.nblockUsed == block.nblock + 1 && block.stateOutLen == 0 {
        r := FinishBlock();
      }
    }

    /** The output loop, and the checksum of what it wrote. */
    method Unrle(room: nat) returns (out: seq<Byte>, corrupt: bool)
      requires InBlock()
      modifies this`calculatedBlockCRC, block
      ensures InBlock() && |out| <= room && block.emitted == old(block.emitted) + out && !corrupt
      ensures block.Finished() || |out| == room
    {
      hide D.BlockOf, Blocks, D.DState.Valid, BlockCrc, Fold, BlockOk, InitialRle.Unrle, Whole;
      NthBlock(sents, 100000 * level, k);
      NthWhole(sents[k], 100000 * level);
      ghost var had := block.emitted;
      out, corrupt := Emit(block, room);
      FoldAppend(checks, checks.start, had, out);
      calculatedBlockCRC := UpdateCrc(checks, calculatedBlockCRC, out);
    }

    /** A finished block has been written in full, and the checksum is the one stored. */
    lemma BlockDone()
      requires InBlock() && block.Finished()
      ensures BlockOk(sents[k], 100000 * level) && block.emitted == InitialRle.Unrle(sents[k].b)
      ensures checks.finish(calculatedBlockCRC) == storedBlockCRC == BlockCrc(checks, InitialRle.Unrle(sents[k].b))
    {
      hide D.BlockOf, Blocks, D.DState.Valid, Fold, InitialRle.Unrle, R.SentOk, Whole, D.TextOf;
      NthBlock(sents, 100000 * level, k);
      D.Served(block);
      D.WholeText(block.l, block.origPtr);
    }

    method FinishBlock() returns (r: Reply)
      requires Valid() && stage == OUTPUT && block != null && block.Finished()
      modifies this`stage, this`k, this`calculatedBlockCRC, this`calculatedCombinedCRC
      ensures Valid() && stage == BLOCK_HEADER && Emitted() == old(Emitted()) && k == old(k) + 1 && r == OK
    {
      hide Shared, B.Source.Valid, B.Source.Rest, InBlock, After, Blocks, Emitted, InitialRle.Unrle, BlockOk, BlockCrc;
      BlockDone();
      var crc := checks.finish(calculatedBlockCRC);
      if crc != storedBlockCRC {
        return DATA_ERROR;
      }
      Advance(crc);
      r := OK;
    }

    method Advance(crc: Word)
      requires Shared() && src.Valid() && stage == OUTPUT && k < |sents| && src.Rest() == After(k + 1) && block != null
      requires block.emitted == InitialRle.Unrle(sents[k].b) && crc == BlockCrc(checks, InitialRle.Unrle(sents[k].b))
      modifies this`stage, this`k, this`calculatedBlockCRC, this`calculatedCombinedCRC
      ensures Valid() && stage == BLOCK_HEADER && Emitted() == old(Emitted()) && k == old(k) + 1
    {
      hide B.Source.Valid, B.Source.Rest, InBlock, After, Blocks, InitialRle.Unrle, BlockOk, BlockCrc;
      hide D.BlockOf, D.DState.Valid, StreamBits, Fold;
      NoMore(TextTo(sents, 100000 * level, k), block.emitted);
      calculatedBlockCRC := crc;
      calculatedCombinedCRC := checks.join(calculatedCombinedCRC, crc);
      k := k + 1;
      stage := BLOCK_HEADER;
    }

    lemma PartOfBlock()
      requires InBlock()
      ensures BlockOk(sents[k], 100000 * level) && block.emitted <= InitialRle.Unrle(sents[k].b)
    {
      hide D.BlockOf, Blocks, D.DState.Valid, Fold, InitialRle.Unrle, R.SentOk, Whole, D.TextOf;
      NthBlock(sents, 100000 * level, k);
      D.Served(block);
      D.WholeText(block.l, block.origPtr);
    }

    /** What has been written is part of the text, all of it at the end of the stream. */
    lemma PartOfText()
      requires Valid()
      ensures Emitted() <= Text(sents, 100000 * level)
      ensures stage == IDLE ==> Emitted() == Text(sents, 100000 * level)
    {
      hide Blocks, CombinedTo, From, InBlock, InitialRle.Unrle, BlockOk, StreamBits, After, B.Source.Valid, BlockCrc;
      TextPrefix(sents, 100000 * level, k);
      if stage == OUTPUT {
        PartOfBlock();
        TextPrefix(sents, 100000 * level, k + 1);
        PrefixOfPrefix(TextTo(sents, 100000 * level, k), block.emitted, InitialRle.Unrle(sents[k].b));
      }
    }

    /** BZ2_bzDecompress with one buffer, all the input it needs arriving in time. */
    method Decompress(room: nat) returns (out: seq<Byte>, r: Reply)
      requires Valid() && stage != IDLE
      modifies this, src, src.reader, block
      ensures Valid() && |out| <= room && Emitted() == old(Emitted()) + out && r != DATA_ERROR
      ensures r == OK ==> |out| == room && stage == OUTPUT
      ensures r == STREAM_END ==> stage == IDLE
      ensures block == old(block) || fresh(block)
    {
      hide Reading, Emitted, Shared, Blocks, B.Source.Valid, B.Source.Rest, InBlock;
      out := [];
      while true
        invariant Valid() && stage != IDLE && |out| <= room && Emitted() == old(Emitted()) + out
        invariant block == old(block) || fresh(block)
        decreases |sents| - k, if stage == MAGIC then 2 else if stage == BLOCK_HEADER then 1 else 0
      {
        if stage == OUTPUT {
          var more;
          more, r := WriteBlock(room - |out|);
          out := out + more;
          if r == DATA_ERROR || stage == OUTPUT {
            return;
          }
        } else if stage == MAGIC {
          var ok := ReadMagic();
          if !ok {
            return out, DATA_ERROR;
          }
        } else {
          r := ReadHeader();
          if r != OK {
            return;
          }
        }
      }
    }
  }

  /** A block from inside its marker to where output can begin. */
  method FetchBlock(src: B.Source, nblockMAX: nat, small: bool, ghost e: R.Sent, ghost crc: nat, ghost more: seq<Bit>)
    returns (ok: bool, stored: nat, s: D.DState?)
    requires src.Valid() && R.SentOk(e) && crc < Pow2(32) && |e.b| <= nblockMAX <= R.BLOCK_MAX
    requires src.Rest() == B.Bits(R.BLOCK_MAGIC[1..]) + (R.AfterMarker(e, crc) + more)
    modifies src, src.reader
    ensures ok && src.Valid() && src.Rest() == more && stored == crc
    ensures s != null && fresh(s) && s.Valid() && s.small == small && s.emitted == []
    ensures s.origPtr < |s.l| && D.BlockOf(s.l, s.origPtr) == e.b
  {
    hide B.Bits, B.Source.Valid, B.Source.Rest, R.SentOk, R.AfterMarker, D.BlockOf, D.DState.Valid, Pow2;
    stored, s := 0, null;
    ok := R.TakeMarker(src, R.BLOCK_MAGIC[1..], R.AfterMarker(e, crc) + more);
    if ok {
      ok, stored, s := R.ReceiveBlock(src, nblockMAX, small, e, crc, more);
    }
  }

  lemma NthBlock(sents: seq<R.Sent>, size: nat, k: nat)
    requires Blocks(sents, size) && k < |sents|
    ensures BlockOk(sents[k], size) && R.SentOk(sents[k]) && |sents[k].b| <= size
  {
  }

  lemma NthWhole(e: R.Sent, size: nat)
    requires BlockOk(e, size)
    ensures Whole(e.b)
  {
  }

  lemma {:induction false} TextPrefix(sents: seq<R.Sent>, size: nat, k: nat)
    requires Blocks(sents, size) && k <= |sents|
    ensures TextTo(sents, size, k) <= Text(sents, size)
    decreases |sents| - k
  {
    hide BlockOk, Unrle;
    if k < |sents| { TextPrefix(sents, size, k + 1); }
  }

  lemma PrefixOfPrefix(a: seq<Byte>, b: seq<Byte>, c: seq<Byte>)
    requires b <= c
    ensures a + b <= a + c
  {
  }

  lemma NoMore(a: seq<Byte>, b: seq<Byte>)
    ensures (a + b) + [] == a + b
  {
  }

  lemma FirstByte(marker: seq<B.Byte>, more: seq<Bit>)
    requires marker != []
    ensures B.Bits(marker) + more == B.ByteBits(marker[0]) + (B.Bits(marker[1..]) + more)
  {
    hide B.Bits, B.ByteBits;
    assert marker == [marker[0]] + marker[1..];
    B.BitsCons(marker[0], marker[1..]);
    B.AssocBits(B.ByteBits(marker[0]), B.Bits(marker[1..]), more);
  }

  /** The output loop for the memory layout. */
  method Emit(s: D.DState, room: nat) returns (out: seq<Byte>, corrupt: bool)
    requires s.Valid() && s.origPtr < |s.l| && Whole(D.BlockOf(s.l, s.origPtr))
    modifies s
    ensures s.Valid() && |out| <= room && s.emitted == old(s.emitted) + out && !corrupt
    ensures s.Finished() || |out| == room
  {
    hide D.BlockOf, D.DState.Valid, Whole;
    if s.small {
      out, corrupt := s.UnrleSmall(room);
    } else {
      out, corrupt := s.UnrleFast(room);
    }
  }

  lemma NoFold(c: Checks)
    ensures Fold(c, c.start, []) == c.start
  {
  }

  lemma Regroup(a: seq<Bit>, b: seq<Bit>, c: seq<Bit>, d: seq<Bit>)
    ensures ((a + b) + c) + d == a + (b + (c + d))
  {
  }

  lemma Joined(a: seq<Byte>, b: seq<Byte>, c: seq<Byte>)
    ensures a + (b + c) == (a + b) + c
  {
  }

  lemma HeaderBits(c: Checks, level: nat, sents: seq<R.Sent>, tail: seq<Bit>)
    requires 1 <= level <= 9 && Blocks(sents, 100000 * level)
    ensures StreamBits(c, level, sents) + tail == B.Bits(STREAM_MAGIC) + (B.ByteBits(0x30 + level) +
      (From(c, sents, 100000 * level, 0) + (Trailer(Combined(c, sents, 100000 * level)) + tail)))
  {
    hide Blocks, From, Trailer, Combined, B.Bits, B.ByteBits;
    B.BitsSnoc(STREAM_MAGIC, 0x30 + level);
    Regroup4(B.Bits(STREAM_MAGIC), B.ByteBits(0x30 + level), From(c, sents, 100000 * level, 0),
             Trailer(Combined(c, sents, 100000 * level)), tail);
  }

  lemma Regroup4(a: seq<Bit>, b: seq<Bit>, c: seq<Bit>, d: seq<Bit>, e: seq<Bit>)
    ensures ((a + b) + (c + d)) + e == a + (b + (c + (d + e)))
  {
  }

  // ------------------------------------------------------------------
  // From end to end

  /** One buffer after another, until the stream ends. */
  method DecompressAll(d: Decompressor, rooms: seq<nat>) returns (outs: seq<seq<Byte>>, r: Reply)
    requires d.Valid() && d.stage == MAGIC && d.block == null && d.Emitted() == []
    modifies d, d.src, d.src.reader
    ensures r != DATA_ERROR && outs == D.Dealt(Text(d.sents, 100000 * d.level), rooms)
    ensures Total(rooms) > |Text(d.sents, 100000 * d.level)| ==> r == STREAM_END
  {
    hide Decompressor.Reading, Decompressor.Emitted, Text, Total, Blocks, D.Offset, Combined, D.Dealt;
    ghost var text := Text(d.sents, 100000 * d.level);
    outs, r := [], OK;
    D.OffsetNone(|text|);
    NoRoom();
    for i := 0 to |rooms|
      invariant d.Valid() && (d.block != null ==> fresh(d.block)) && r != DATA_ERROR
      invariant outs == D.Dealt(text, rooms[..i]) && |d.Emitted()| == D.Offset(|text|, rooms[..i])
      invariant r == OK <==> d.stage != IDLE
      invariant r == OK ==> |d.Emitted()| == Total(rooms[..i])
    {
      ghost var upTo, before := rooms[..i + 1], d.Emitted();
      assert upTo[..|upTo| - 1] == rooms[..i];
      var out: seq<Byte> := [];
      if r == OK {
        out, r := d.Decompress(rooms[i]);
        if r == DATA_ERROR {
          return outs, r;
        }
      }
      d.PartOfText();
      assert before + out == d.Emitted();
      D.DealtNext(text, upTo, before, out);
      TotalSnoc(rooms, i);
      outs := outs + [out];
    }
    assert rooms[..|rooms|] == rooms;
    d.PartOfText();
  }

  lemma NoRoom()
    ensures Total([]) == 0
  {
  }

  /** The run has ended the stream. */
  predicate Finished(calls: seq<Z.Request>, results: seq<Z.Result>) {
    calls != [] && |results| == |calls| && results[|calls| - 1].code == Z.STREAM_END
  }

  /** pack names the bytes that the block compressor writes for each block. */
  ghost predicate Describes(pack: Z.Packer, handed: seq<Z.Handed>, pieces: seq<seq<B.Byte>>) {
    |pieces| == |handed| && forall i :: 0 <= i < |handed| ==> pack(handed[..i], handed[i]) == pieces[i]
  }

  lemma {:induction false} PackedIs(pack: Z.Packer, handed: seq<Z.Handed>, pieces: seq<seq<B.Byte>>)
    requires Describes(pack, handed, pieces)
    ensures Z.Packed(pack, handed) == Concat(pieces)
    decreases |handed|
  {
    if handed != [] {
      var n := |handed| - 1;
      forall i | 0 <= i < n ensures pack(handed[..n][..i], handed[..n][i]) == pieces[..n][i] {
        assert handed[..n][..i] == handed[..i];
      }
      PackedIs(pack, handed[..n], pieces[..n]);
    }
  }

  /**
   * Every run of calls that ends the stream, whatever the input is cut into
   * on either side, whatever the buffers and the memory layout: what comes
   * out is the input, dealt out to the buffers, and the stream is found
   * complete when there is room for all of it.  The bytes in between are
   * those the compression run has written, if pack is what the block
   * compressor does.
   */
  method RoundTrip(c: Checks, level: nat, pack: Z.Packer, calls: seq<Z.Request>, cuts: seq<nat>, small: bool,
                   rooms: seq<nat>)
    returns (results: seq<Z.Result>, output: seq<B.Byte>, bytes: seq<B.Byte>, outs: seq<seq<Byte>>, r: Reply,
             ghost handed: seq<Z.Handed>, ghost pieces: seq<seq<B.Byte>>, ghost sents: seq<R.Sent>, ghost fill: nat)
    requires 1 <= level <= 9 && Z.EndsStream(pack)
    ensures |results| == |calls| && Z.AllAnswered(calls, results)
    ensures Finished(calls, results) ==> r != DATA_ERROR && outs == D.Dealt(Z.Supplied(calls), rooms)
    ensures Finished(calls, results) && Total(rooms) > |Z.Supplied(calls)| ==> r == STREAM_END
    ensures Finished(calls, results) ==>
      && bytes == Concat(pieces) && Blocks(sents, 100000 * level) && fill < 8
      && B.Bits(bytes) == StreamBits(c, level, sents) + BitStrings.Run(0, fill)
      && Marked(bytes, level, sents == [], fill) && Text(sents, 100000 * level) == Z.Supplied(calls)
    ensures Finished(calls, results) && Describes(pack, handed, pieces) ==> output == bytes
  {
    hide Z.AllAnswered, Z.EndsStream, Z.Supplied, Z.AllWhole, Z.Decoded, Whole, Unrle, Z.Used, Concat, D.Dealt, B.Bits;
    hide Z.Packed, Blocks, Text, StreamBits, Marked, Describes, Total, Decompressor.Valid, Decompressor.Emitted;
    bytes, outs, r, pieces, sents, fill := [], [], OK, [], [], 0;
    var blocks, held;
    ghost var demanded;
    blocks, output, held, results, demanded := Z.Run(100000 * level, pack, calls);
    handed := blocks;
    if Finished(calls, results) {
      var parts;
      parts, sents, fill := CompressAll(c, level, blocks);
      pieces := parts;
      bytes := Join(parts);
      var chunks := Cut(bytes, cuts);
      var src := new B.Source(chunks);
      var d := new Decompressor(src, c, small, level, sents, BitStrings.Run(0, fill));
      outs, r := DecompressAll(d, rooms);
      if Describes(pack, handed, pieces) {
        PackedIs(pack, handed, pieces);
      }
    }
  }
}
