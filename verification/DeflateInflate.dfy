/**
 * The two LZ77 machines composed: what deflate tallies over any run of
 * calls, inflate writes back, whatever the buffer sizes on either side.
 */
module DeflateInflate {
  import opened Sequences
  import opened Lz77
  import Deflate
  import DeflateParse
  import Inflate
  import DeflateHash
  import T = DeflateTokens
  import Block = DeflateBlock
  import B = DeflateStream

  /**
   * room lists the sizes of inflate's output buffers; the symbols reach it
   * in as many pieces.  Every buffer is filled unless the symbols run out,
   * and once deflate has ended a block the text is complete if the last
   * buffer has a byte to spare.
   */
  method RoundTrip(bits: nat, wsize: nat, litBufsize: nat, filtered: bool, level: DeflateParse.Level, lazy: bool,
                   refuse: nat -> bool, calls: seq<Deflate.Request>, room: seq<nat>)
    returns (output: seq<Byte>, results: seq<Deflate.Result>, written: seq<nat>)
    requires DeflateHash.Bits(bits) && wsize >= 512 && litBufsize >= 2 && room != []
    ensures Deflate.AllAnswered(refuse, calls, results) && |results| == |calls|
    ensures output <= Deflate.Supplied(calls)
    ensures |written| == |room| && |output| == Total(written)
    ensures forall i | 0 <= i < |room| :: written[i] <= room[i]
    ensures calls != [] && !results[|calls| - 1].state.NeedMore? && written[|room| - 1] < room[|room| - 1] ==>
      output == Deflate.Supplied(calls)
    ensures room[|room| - 1] > |Deflate.Supplied(calls)| ==> written[|room| - 1] < room[|room| - 1]
  {
    hide Deflate.AllAnswered, Expand, Expandable, Total;
    var tokens, _, answers, _, _, _, _ := Deflate.Run(bits, wsize, litBufsize, filtered, level, lazy, refuse, calls);
    results := answers;
    output, written := Unpack(wsize, tokens, room);
    LastOfTotal(written);
  }

  lemma LastOfTotal(written: seq<nat>)
    requires written != []
    ensures Total(written) >= written[|written| - 1]
  {
  }

  /**
   * The same through the bits: sizes says how many symbols each block gets,
   * the last one getting what is left, and cuts in what pieces the bytes
   * of all the blocks arrive.
   */
  method RoundTripBits(bits: nat, wsize: nat, litBufsize: nat, filtered: bool, level: DeflateParse.Level, lazy: bool,
                       refuse: nat -> bool, calls: seq<Deflate.Request>, sizes: seq<nat>, cuts: seq<nat>,
                       room: seq<nat>)
    returns (output: seq<Byte>, results: seq<Deflate.Result>, written: seq<nat>)
    requires DeflateHash.Bits(bits) && 512 <= wsize <= T.FARTHEST && litBufsize >= 2 && room != []
    ensures Deflate.AllAnswered(refuse, calls, results) && |results| == |calls|
    ensures output <= Deflate.Supplied(calls)
    ensures |written| == |room| && |output| == Total(written)
    ensures forall i | 0 <= i < |room| :: written[i] <= room[i]
    ensures calls != [] && !results[|calls| - 1].state.NeedMore? && written[|room| - 1] < room[|room| - 1] ==>
      output == Deflate.Supplied(calls)
    ensures room[|room| - 1] > |Deflate.Supplied(calls)| ==> written[|room| - 1] < room[|room| - 1]
  {
    hide Deflate.AllAnswered, Expand, Expandable, Total, Concat;
    var tokens, _, answers, _, _, _, _ := Deflate.Run(bits, wsize, litBufsize, filtered, level, lazy, refuse, calls);
    results := answers;
    var parts := Cut(tokens, sizes);
    PartsInRange(parts, tokens);
    var _, bad, got, _, _, _ := B.RoundTrip(parts, cuts);
    var symbols := Join(got);
    output, written := Unpack(wsize, symbols, room);
    LastOfTotal(written);
  }

  lemma PartsInRange(parts: seq<seq<Token>>, tokens: seq<Token>)
    requires Concat(parts) == tokens && forall t | t in tokens :: WellFormed(t) && Near(t, T.FARTHEST)
    ensures B.PartsInRange(parts)
  {
    forall k, i | 0 <= k < |parts| && 0 <= i < |parts[k]| ensures Block.InRange(parts[k][i]) {
      PartIn(parts, k);
      assert parts[k][i] in tokens;
    }
  }

  /** inflate over symbols that deflate has tallied. */
  method Unpack(wsize: nat, tokens: seq<Token>, room: seq<nat>) returns (output: seq<Byte>, written: seq<nat>)
    requires wsize > 0 && room != [] && Expandable(tokens) && forall t | t in tokens :: WellFormed(t) && Near(t, wsize)
    ensures |written| == |room| && |output| == Total(written) && output <= Expand(tokens)
    ensures forall i | 0 <= i < |room| :: written[i] <= room[i]
    ensures written[|room| - 1] < room[|room| - 1] ==> output == Expand(tokens)
  {
    hide Expand, Expandable, Total;
    var feeds := Spread(tokens, room);
    var out, bad, sizes := Inflate.Replay(wsize, feeds);
    assert !bad;
    output, written := out, sizes;
  }

  /** Hand the symbols over in pieces of any size, the last call getting what is left. */
  method Spread(tokens: seq<Token>, room: seq<nat>) returns (feeds: seq<Inflate.Request>)
    requires room != []
    ensures |feeds| == |room| && Inflate.Symbols(feeds) == tokens
    ensures forall i | 0 <= i < |room| :: feeds[i].room == room[i]
    ensures forall i, s | 0 <= i < |feeds| && s in feeds[i].symbols :: s in tokens
  {
    hide Inflate.Symbols;
    feeds := [];
    NoneFed();
    var rest := tokens;
    assert [] + rest == rest;
    while |feeds| < |room|
      invariant |feeds| <= |room| && Inflate.Symbols(feeds) + rest == tokens
      invariant forall i | 0 <= i < |feeds| :: feeds[i].room == room[i]
      invariant forall i, s | 0 <= i < |feeds| && s in feeds[i].symbols :: s in tokens
      invariant |feeds| == |room| ==> rest == []
    {
      var n: int := *;
      if n < 0 || n > |rest| || |feeds| + 1 == |room| {
        n := |rest|;
      }
      var next := Inflate.Request(rest[..n], room[|feeds|]);
      var feeds' := feeds + [next];
      FedNext(feeds, next, rest, n);
      feeds, rest := feeds', rest[n..];
    }
  }

  lemma NoneFed()
    ensures Inflate.Symbols([]) == []
  {
  }

  lemma FedNext(feeds: seq<Inflate.Request>, next: Inflate.Request, rest: seq<Token>, n: nat)
    requires n <= |rest| && next.symbols == rest[..n]
    ensures Inflate.Symbols(feeds + [next]) + rest[n..] == Inflate.Symbols(feeds) + rest
  {
    var feeds' := feeds + [next];
    assert feeds'[..|feeds'| - 1] == feeds;
    assert rest[..n] + rest[n..] == rest;
  }
}
