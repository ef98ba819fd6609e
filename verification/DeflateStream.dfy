/**
 * A stream of dynamic blocks from end to end: the trees and the tokens of
 * each block sent as bits, and from nothing but those bits the trees and the
 * tokens read back.
 */
module DeflateStream {
  import opened Sequences
  import opened Powers
  import opened BitStrings
  import opened CanonicalCode
  import opened DeflateBits
  import opened DeflateTokens
  import opened DeflateHeader
  import opened DeflateBlock
  import Lz = Lz77
  import T = InflateTable

  // ------------------------------------------------------------------
  // The stream

  const DYN_TREES: nat := 2

  /** The tokens of a block, and its trees as they are sent. */
  datatype Block = Block(toks: seq<Lz.Token>, dyn: Dyn)

  function TreesOf(b: Block): Trees {
    Trees(b.dyn.lit, b.dyn.dist)
  }

  ghost predicate BlockOk(st: Statics, b: Block)
    ensures BlockOk(st, b) ==> DynOk(b.dyn) && Ready(st, TreesOf(b), b.toks)
  {
    DynOk(b.dyn) && Ready(st, TreesOf(b), b.toks)
  }

  ghost predicate AllOk(st: Statics, bs: seq<Block>) {
    forall k :: 0 <= k < |bs| ==> BlockOk(st, bs[k])
  }

  ghost function BlockBits(st: Statics, b: Block, last: bool): seq<Bit>
    requires BlockOk(st, b)
  {
    LowBits(TypeBits(last), 3) + (HeaderBits(b.dyn) + From(st, TreesOf(b), b.toks, 0))
  }

  function TypeBits(last: bool): nat {
    2 * DYN_TREES + if last then 1 else 0
  }

  /** The blocks from the k-th on; the last one is marked as such. */
  ghost function StreamBits(st: Statics, bs: seq<Block>, k: nat): seq<Bit>
    requires AllOk(st, bs) && k <= |bs|
    decreases |bs| - k
  {
    if k == |bs| then [] else BlockBits(st, bs[k], k + 1 == |bs|) + StreamBits(st, bs, k + 1)
  }

  // ------------------------------------------------------------------
  // Sending

  /** _tr_flush_block where it sends a block with trees of its own. */
  method FlushBlock(buf: BitBuffer, st: Statics, toks: seq<Lz.Token>, last: bool) returns (ghost b: Block)
    requires buf.Valid() && StaticsOk(st) && AllInRange(toks)
    modifies buf
    ensures b.toks == toks && BlockOk(st, b)
    ensures buf.Valid() && buf.All() == old(buf.All()) + BlockBits(st, b, last)
  {
    hide Ready, CodesFor, BitBuffer.Valid, BitBuffer.All, StaticsOk, AllInRange, From, LowBits, DynOk, HeaderBits, Pow2;
    ghost var start := buf.All();
    var tr, lcode, dcode := MakeTrees(st, toks);
    TreesShape(st, tr, toks);
    var dyn, blcode := BuildBlTree(tr.lit, tr.dist);
    b := Block(toks, dyn);
    TypeFits(last);
    buf.SendBits(TypeBits(last), 3);
    SendAllTrees(buf, dyn, blcode);
    CompressBlock(buf, toks, st, tr, lcode, dcode);
    Assoc(start, LowBits(TypeBits(last), 3), HeaderBits(dyn));
    Assoc(start, LowBits(TypeBits(last), 3) + HeaderBits(dyn), From(st, tr, toks, 0));
    Assoc(LowBits(TypeBits(last), 3), HeaderBits(dyn), From(st, tr, toks, 0));
  }

  lemma TreesShape(st: Statics, tr: Trees, toks: seq<Lz.Token>)
    requires Ready(st, tr, toks) && |tr.lit| <= L_CODES && |tr.dist| <= D_CODES
    ensures T.Fits(T.LENS, tr.lit) && Complete(tr.lit) && T.Fits(T.DISTS, tr.dist) && Complete(tr.dist)
    ensures 257 <= |tr.lit| && 1 <= |tr.dist| && tr.lit[END_BLOCK] != 0
  {
    hide Used, SymBits, Codable;
    var s := Covers(tr.dist, Run(0, MAXBITS));
  }

  lemma TypeFits(last: bool)
    ensures TypeBits(last) < Pow2(3)
    ensures LowBits(TypeBits(last), 3) == LowBits(if last then 1 else 0, 1) + LowBits(DYN_TREES, 2)
    ensures Pow2(1) == 2 && Pow2(2) == 4
  {
  }

  /** What has been sent of a stream of n blocks. */
  ghost function Sent(st: Statics, bs: seq<Block>, n: nat): seq<Bit>
    requires AllOk(st, bs)
  {
    if bs == [] then []
    else
      var init := bs[..|bs| - 1];
      assert forall k :: 0 <= k < |init| ==> init[k] == bs[k];
      Sent(st, init, n) + BlockBits(st, bs[|bs| - 1], |bs| == n)
  }

  lemma {:induction false} SentAll(st: Statics, bs: seq<Block>, k: nat)
    requires AllOk(st, bs) && k <= |bs|
    ensures AllOk(st, bs[..k]) && Sent(st, bs[..k], |bs|) + StreamBits(st, bs, k) == StreamBits(st, bs, 0)
    decreases k
  {
    hide BlockOk, BlockBits;
    if k == 0 {
      assert [] + StreamBits(st, bs, 0) == StreamBits(st, bs, 0);
    } else {
      SentAll(st, bs, k - 1);
      assert bs[..k][..k - 1] == bs[..k - 1];
      Assoc(Sent(st, bs[..k - 1], |bs|), BlockBits(st, bs[k - 1], k == |bs|), StreamBits(st, bs, k));
    }
  }

  lemma SentNext(st: Statics, bs: seq<Block>, b: Block, n: nat)
    requires AllOk(st, bs) && BlockOk(st, b)
    ensures AllOk(st, bs + [b]) && Sent(st, bs + [b], n) == Sent(st, bs, n) + BlockBits(st, b, |bs| + 1 == n)
  {
    hide BlockOk, BlockBits;
    assert (bs + [b])[..|bs|] == bs;
  }

  ghost predicate SameTokens(bs: seq<Block>, parts: seq<seq<Lz.Token>>) {
    |bs| <= |parts| && forall k :: 0 <= k < |bs| ==> bs[k].toks == parts[k]
  }

  ghost predicate PartsInRange(parts: seq<seq<Lz.Token>>)
    ensures PartsInRange(parts) ==> forall k :: 0 <= k < |parts| ==> AllInRange(parts[k])
  {
    forall k :: 0 <= k < |parts| ==> AllInRange(parts[k])
  }

  /** The blocks one after the other, and the rest of the last byte. */
  method Send(st: Statics, parts: seq<seq<Lz.Token>>) returns (bytes: seq<Byte>, ghost bs: seq<Block>, ghost fill: nat)
    requires StaticsOk(st) && PartsInRange(parts)
    ensures |bs| == |parts| && AllOk(st, bs) && SameTokens(bs, parts)
    ensures fill < 8 && Stream(bytes) == StreamBits(st, bs, 0) + Run(0, fill)
    ensures parts != [] ==> StreamBits(st, bs, 0)[..3] == [if |parts| == 1 then 1 else 0, 0, 1]
  {
    hide BitBuffer.Valid, BitBuffer.All, StaticsOk, AllInRange, BlockOk, BlockBits, Stream, AllOk, PartsInRange;
    hide SameTokens, Sent, StreamBits;
    var buf := new BitBuffer();
    bs := [];
    NoneSent(st, parts, |parts|);
    for k := 0 to |parts|
      invariant buf.Valid() && |bs| == k && AllOk(st, bs) && SameTokens(bs, parts)
      invariant buf.All() == Sent(st, bs, |parts|)
    {
      ghost var b := FlushBlock(buf, st, parts[k], k + 1 == |parts|);
      SentNext(st, bs, b, |parts|);
      TokensNext(bs, parts, b);
      bs := bs + [b];
    }
    SentAll(st, bs, |bs|);
    AllSent(st, bs);
    if parts != [] { FirstBits(st, bs); }
    fill := buf.Windup();
    bytes := buf.pending;
  }

  /** A stream starts with the flag of the last block and the type 2, lowest bit first. */
  lemma FirstBits(st: Statics, bs: seq<Block>)
    requires AllOk(st, bs) && bs != []
    ensures StreamBits(st, bs, 0)[..3] == [if |bs| == 1 then 1 else 0, 0, 1]
  {
    hide BlockOk, HeaderBits, From;
    var last := |bs| == 1;
    var t := LowBits(TypeBits(last), 3);
    assert TypeBits(last) == 2 * 2 + if last then 1 else 0;
    assert t == [if last then 1 else 0, 0, 1];
    assert (t + (HeaderBits(bs[0].dyn) + From(st, TreesOf(bs[0]), bs[0].toks, 0)) + StreamBits(st, bs, 1))[..3] == t;
  }

  lemma NoneSent(st: Statics, parts: seq<seq<Lz.Token>>, n: nat)
    ensures AllOk(st, []) && SameTokens([], parts) && Sent(st, [], n) == []
  {
  }

  lemma TokensNext(bs: seq<Block>, parts: seq<seq<Lz.Token>>, b: Block)
    requires SameTokens(bs, parts) && |bs| < |parts| && b.toks == parts[|bs|]
    ensures SameTokens(bs + [b], parts)
  {
  }

  lemma AllSent(st: Statics, bs: seq<Block>)
    requires AllOk(st, bs) && AllOk(st, bs[..|bs|])
    requires Sent(st, bs[..|bs|], |bs|) + StreamBits(st, bs, |bs|) == StreamBits(st, bs, 0)
    ensures Sent(st, bs, |bs|) == StreamBits(st, bs, 0)
  {
    hide Sent, BlockOk;
    assert bs[..|bs|] == bs && Sent(st, bs, |bs|) + [] == Sent(st, bs, |bs|);
  }

  // ------------------------------------------------------------------
  // Receiving

  /** lenbits and distbits of inflate. */
  const LEN_BITS: nat := 9
  const DIST_BITS: nat := 6

  /** TYPEDO: whether the block is the last one, and its type. */
  method TakeType(input: Input, ghost last: bool, ghost more: seq<Bit>) returns (isLast: bool, kind: nat)
    requires input.Valid() && input.Rest() == LowBits(TypeBits(last), 3) + more
    modifies input, input.acc
    ensures input.Valid() && isLast == last && kind == DYN_TREES && input.Rest() == more
  {
    hide Input.Valid, Input.Rest, LowBits, Pow2;
    ghost var flag := if last then 1 else 0;
    TypeFits(last);
    Assoc(LowBits(flag, 1), LowBits(DYN_TREES, 2), more);
    isLast, kind := false, 0;
    var ok := input.Need(3);
    if ok {
      var v := input.Front(1, flag, LowBits(DYN_TREES, 2) + more);
      isLast := v == 1;
      kind := input.Front(2, DYN_TREES, more);
    }
  }

  /** A block with trees of its own, from its type to its end. */
  method ReceiveBlock(input: Input, ghost st: Statics, ghost b: Block, ghost last: bool, ghost more: seq<Bit>)
    returns (bad: bool, got: seq<Lz.Token>, isLast: bool)
    requires input.Valid() && BlockOk(st, b) && input.Rest() == BlockBits(st, b, last) + more
    modifies input, input.acc
    ensures input.Valid() && !bad && got == b.toks && isLast == last && input.Rest() == more
  {
    hide Input.Valid, Input.Rest, LowBits, From, HeaderBits, DynOk, Ready, TableOk, Complete, T.Fits;
    var kind, lit, dist, ret, lencode, lenbits, distcode, distbits, ended;
    ghost var lenlinks, distlinks;
    ghost var tr := TreesOf(b);
    ghost var block := From(st, tr, b.toks, 0);
    got := [];
    Assoc(LowBits(TypeBits(last), 3), HeaderBits(b.dyn) + block, more);
    Assoc(HeaderBits(b.dyn), block, more);
    isLast, kind := TakeType(input, last, (HeaderBits(b.dyn) + block) + more);
    if kind != DYN_TREES {
      return true, [], isLast;
    }
    bad, lit, dist := ReceiveHeader(input, b.dyn, block + more);
    if bad {
      return;
    }
    TreesReady(st, b);
    ret, lencode, lenbits, lenlinks := MakeTable(T.LENS, lit, LEN_BITS);
    if ret != 0 {
      return true, [], isLast;
    }
    ret, distcode, distbits, distlinks := MakeTable(T.DISTS, dist, DIST_BITS);
    if ret != 0 {
      return true, [], isLast;
    }
    got, ended := Receive(input, lencode, lenbits, distcode, distbits, lenlinks, distlinks, st, tr, b.toks, more);
    CancelFront(block, input.Rest(), more);
    bad := !ended;
  }

  lemma TreesReady(st: Statics, b: Block)
    requires BlockOk(st, b)
    ensures T.Fits(T.LENS, b.dyn.lit) && Complete(b.dyn.lit) && T.Reserved(T.LENS, b.dyn.lit, LEN_BITS)
    ensures T.Fits(T.DISTS, b.dyn.dist) && Complete(b.dyn.dist) && T.Reserved(T.DISTS, b.dyn.dist, DIST_BITS)
  {
    hide Used, AllSendable, Codable;
  }

  lemma NoTokens(bs: seq<Block>)
    ensures SameTokens(bs[..0], [])
  {
  }

  lemma TokensAgree(bs: seq<Block>, got: seq<seq<Lz.Token>>, toks: seq<Lz.Token>)
    requires |got| < |bs| && SameTokens(bs[..|got|], got) && toks == bs[|got|].toks
    ensures SameTokens(bs[..|got| + 1], got + [toks])
  {
  }

  /** inflate's way through the blocks, up to the one marked as the last. */
  method ReceiveAll(input: Input, ghost st: Statics, ghost bs: seq<Block>, ghost more: seq<Bit>)
    returns (bad: bool, got: seq<seq<Lz.Token>>)
    requires input.Valid() && AllOk(st, bs) && bs != [] && input.Rest() == StreamBits(st, bs, 0) + more
    modifies input, input.acc
    ensures input.Valid() && !bad && |got| == |bs| && SameTokens(bs, got) && input.Rest() == more
  {
    hide Input.Valid, Input.Rest, BlockBits, BlockOk, SameTokens;
    bad, got := false, [];
    NoTokens(bs);
    var isLast := false;
    while !isLast
      invariant !bad && input.Valid() && |got| <= |bs| && (isLast <==> |got| == |bs|)
      invariant input.Rest() == StreamBits(st, bs, |got|) + more
      invariant SameTokens(bs[..|got|], got)
      decreases |bs| - |got|
    {
      ghost var k := |got|;
      ghost var b := bs[k];
      Assoc(BlockBits(st, b, k + 1 == |bs|), StreamBits(st, bs, k + 1), more);
      var toks;
      bad, toks, isLast := ReceiveBlock(input, st, b, k + 1 == |bs|, StreamBits(st, bs, k + 1) + more);
      if bad {
        return;
      }
      TokensAgree(bs, got, toks);
      got := got + [toks];
    }
    assert [] + more == more && bs[..|got|] == bs;
  }

  /**
   * Any tokens in range in any number of blocks, whatever pieces the bytes
   * arrive in: from the bits alone the decoder finds every block's trees and
   * hands on exactly the tokens that were sent.
   */
  method RoundTrip(parts: seq<seq<Lz.Token>>, cuts: seq<nat>)
    returns (bytes: seq<Byte>, bad: bool, got: seq<seq<Lz.Token>>, ghost st: Statics, ghost bs: seq<Block>,
             ghost fill: nat)
    requires PartsInRange(parts) && parts != []
    ensures StaticsOk(st) && AllOk(st, bs) && |bs| == |parts| && SameTokens(bs, parts)
    ensures fill < 8 && Stream(bytes) == StreamBits(st, bs, 0) + Run(0, fill)
    ensures StreamBits(st, bs, 0)[..3] == [if |parts| == 1 then 1 else 0, 0, 1]
    ensures !bad && got == parts
  {
    hide StaticsOk, AllOk, PartsInRange, StreamBits, Concat, Stream, Input.Valid, Input.Rest;
    var statics := InitStatics();
    st := statics;
    bytes, bs, fill := Send(statics, parts);
    var chunks := Cut(bytes, cuts);
    var input := new Input(chunks);
    bad, got := ReceiveAll(input, st, bs, Run(0, fill));
  }
}
