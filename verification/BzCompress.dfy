/**
 * The input and output sides of bzip2's compressor: run-length coding into
 * blocks, and the calling discipline of BZ2_bzCompress.  What
 * BZ2_compressBlock makes of a block is left open, a function of the blocks
 * before it, the block and whether it ends the stream.
 */
module BzCompress {
  import opened Sequences
  import opened Rotations
  import opened InitialRle

  datatype Mode = IDLE | RUNNING | FLUSHING | FINISHING
  datatype Stage = OUTPUT | INPUT
  datatype Action = RUN | FLUSH | FINISH | OTHER
  datatype Code = RUN_OK | FLUSH_OK | FINISH_OK | STREAM_END | SEQUENCE_ERROR | PARAM_ERROR

  /** A block handed to the block compressor, which may be empty, and whether it is the last. */
  datatype Handed = Handed(block: seq<Byte>, last: bool)

  /** The bytes the block compressor makes of a block, given those handed over before. */
  type Packer = (seq<Handed>, Handed) -> seq<Byte>

  /** The last block brings the end of the stream with it. */
  ghost predicate EndsStream(pack: Packer) {
    forall hs: seq<Handed>, h: Handed :: h.last ==> pack(hs, h) != []
  }

  predicate AllWhole(hs: seq<Handed>) {
    forall i :: 0 <= i < |hs| ==> Whole(hs[i].block)
  }

  /** All the blocks, run-length decoded one by one. */
  function Decoded(hs: seq<Handed>): seq<Byte>
    requires AllWhole(hs)
  {
    if hs == [] then [] else Decoded(hs[..|hs| - 1]) + Unrle(hs[|hs| - 1].block)
  }

  /** All that the block compressor made of the blocks. */
  function Packed(pack: Packer, hs: seq<Handed>): seq<Byte> {
    if hs == [] then [] else Packed(pack, hs[..|hs| - 1]) + pack(hs[..|hs| - 1], hs[|hs| - 1])
  }

  lemma DecodedSnoc(pack: Packer, hs: seq<Handed>, h: Handed)
    requires AllWhole(hs) && Whole(h.block)
    ensures AllWhole(hs + [h]) && Decoded(hs + [h]) == Decoded(hs) + Unrle(h.block)
    ensures Packed(pack, hs + [h]) == Packed(pack, hs) + pack(hs, h)
  {
    assert (hs + [h])[..|hs|] == hs;
  }

  lemma Nothing(pack: Packer)
    ensures AllWhole([]) && Decoded([]) == [] && Packed(pack, []) == []
    ensures Runs([]) && Coded([]) == [] && Plain([]) == []
  {
  }

  // ------------------------------------------------------------------
  // Where blocks are cut

  /** A block made of these runs, which is full unless it was closed on demand. */
  ghost predicate Filled(h: Handed, rs: seq<Run>, demand: bool, full: nat) {
    Runs(rs) && h.block == Coded(rs) && (h.last ==> demand) && (demand || full <= |h.block| <= full + 4)
  }

  /**
   * Each block is made of its runs, and where a block was cut because it was
   * full the runs go on without a break, into the next block or into those
   * that lie ahead.
   */
  ghost predicate Seams(handed: seq<Handed>, history: seq<seq<Run>>, demanded: seq<bool>, ahead: seq<Run>, full: nat)
    ensures Seams(handed, history, demanded, ahead, full) ==> |history| == |demanded| == |handed|
  {
    && |history| == |demanded| == |handed|
    && (forall i :: 0 <= i < |handed| ==> Filled(handed[i], history[i], demanded[i], full))
    && (forall i :: 0 < i < |handed| && !demanded[i - 1] ==> Joins(history[i - 1], history[i]))
    && (handed != [] && !demanded[|handed| - 1] ==> Joins(history[|handed| - 1], ahead))
  }

  lemma SeamsGrow(handed: seq<Handed>, history: seq<seq<Run>>, demanded: seq<bool>, ahead: seq<Run>,
                  ahead': seq<Run>, full: nat)
    requires Seams(handed, history, demanded, ahead, full)
    requires ahead != [] ==> ahead' != [] && ahead'[0].c == ahead[0].c
    ensures Seams(handed, history, demanded, ahead', full)
  {
    hide Filled;
  }

  lemma SeamsClose(handed: seq<Handed>, history: seq<seq<Run>>, demanded: seq<bool>, runs: seq<Run>,
                   pending: seq<Run>, full: nat, h: Handed, demand: bool)
    requires Seams(handed, history, demanded, runs + pending, full) && Filled(h, runs, demand, full)
    requires if demand then pending == [] else runs != [] && Joins(runs, pending)
    ensures Seams(handed + [h], history + [runs], demanded + [demand], pending, full)
  {
    hide Filled, Apart;
    var n := |handed|;
    var history', demanded' := history + [runs], demanded + [demand];
    forall i | 0 < i < n + 1 && !demanded'[i - 1] ensures Joins(history'[i - 1], history'[i]) {
      assert history'[i - 1] == history[i - 1];
      if i < n { assert history'[i] == history[i]; } else { assert runs != [] && (runs + pending)[0] == runs[0]; }
    }
  }

  /** What this says of the blocks and their texts alone. */
  lemma SeamsText(handed: seq<Handed>, history: seq<seq<Run>>, demanded: seq<bool>, ahead: seq<Run>, full: nat)
    requires Seams(handed, history, demanded, ahead, full) && Runs(ahead)
    ensures AllWhole(handed) && Greedy(handed, demanded, full)
    ensures Coded(ahead) == Rle(Plain(ahead))
    ensures handed != [] && !demanded[|handed| - 1] ==>
      var last := handed[|handed| - 1].block; last + Coded(ahead) == Rle(Unrle(last) + Plain(ahead))
  {
    hide Runs, Coded, Plain, Rle, Whole, Unrle;
    forall i | 0 <= i < |handed| ensures Whole(handed[i].block) && GreedyAt(handed, demanded, full, i) {
      assert Filled(handed[i], history[i], demanded[i], full);
      CodeOfText(history[i]);
      if i > 0 && !demanded[i - 1] {
        assert Filled(handed[i - 1], history[i - 1], demanded[i - 1], full);
        CodeOfText(history[i - 1]);
        CodeOfBoth(history[i - 1], history[i]);
      }
    }
    CodeOfText(ahead);
    if handed != [] && !demanded[|handed| - 1] {
      var i := |handed| - 1;
      assert Filled(handed[i], history[i], demanded[i], full);
      CodeOfText(history[i]);
      CodeOfBoth(history[i], ahead);
    }
  }

  /**
   * Block i is the code of its text; if the block before was cut because it
   * was full, both together are the code of both texts.
   */
  ghost predicate GreedyAt(handed: seq<Handed>, demanded: seq<bool>, full: nat, i: nat)
    requires i < |handed| == |demanded|
  {
    var b := handed[i].block;
    && Whole(b) && b == Rle(Unrle(b)) && (handed[i].last ==> demanded[i])
    && (demanded[i] || full <= |b| <= full + 4)
    && (i > 0 && !demanded[i - 1] ==>
        var a := handed[i - 1].block; Whole(a) && a + b == Rle(Unrle(a) + Unrle(b)))
  }

  ghost predicate Greedy(handed: seq<Handed>, demanded: seq<bool>, full: nat)
    ensures Greedy(handed, demanded, full) ==> |handed| == |demanded|
  {
    |handed| == |demanded| && forall i :: 0 <= i < |handed| ==> GreedyAt(handed, demanded, full, i)
  }

  /** How many of them are true. */
  function Trues(s: seq<bool>): nat {
    if s == [] then 0 else Trues(s[..|s| - 1]) + if s[|s| - 1] then 1 else 0
  }

  lemma TruesSnoc(s: seq<bool>, b: bool)
    ensures Trues(s + [b]) == Trues(s) + if b then 1 else 0
  {
    assert (s + [b])[..|s|] == s;
  }

  class EState {
    const nblockMAX: nat
    const block: array<Byte>
    const inUse: array<bool>
    const pack: Packer
    var nblock: nat
    // the pending run: 256 when there is none
    var stateInCh: int
    var stateInLen: nat
    var mode: Mode
    var state: Stage
    var availInExpect: nat
    // zbits up to numZ
    var zbits: seq<Byte>
    var stateOutPos: nat
    // input supplied and not yet read, room for output, output written
    var nextIn: seq<Byte>
    var availOut: nat
    var output: seq<Byte>
    // blocks handed over so far
    var handed: seq<Handed>
    // runs of the current block, and every byte read
    ghost var runs: seq<Run>
    ghost var consumed: seq<Byte>
    // the runs of the blocks handed over, and which of them were closed by a flush or finish
    ghost var history: seq<seq<Run>>
    ghost var demanded: seq<bool>
    // how many flushes and finishes have been begun, and whether one has yet to close its block
    ghost var begun: nat
    ghost var owed: nat

    /** BZ2_bzCompressInit, for a block of size bytes (100000 * blockSize100k). */
    constructor (size: nat, pack: Packer)
      requires size >= 20
      ensures Valid() && Rested() && consumed == [] && nextIn == [] && output == [] && handed == [] && mode == RUNNING
      ensures availInExpect == 0 && this.pack == pack && nblockMAX == size - 19 && fresh(block) && fresh(inUse)
      ensures begun == 0
    {
      hide Runs, Coded, Whole, Rep, Plain, Decoded, Packed, AllWhole;
      Nothing(pack);
      nblockMAX, this.pack := size - 19, pack;
      block := new Byte[size];
      inUse := new bool[256](_ => false);
      nblock, stateInCh, stateInLen := 0, 256, 0;
      mode, state, availInExpect, zbits, stateOutPos := RUNNING, INPUT, 0, [], 0;
      nextIn, availOut, output, handed, runs, consumed := [], 0, [], [], [], [];
      history, demanded, begun, owed := [], [], 0, 0;
    }

    ghost predicate Sized()
    {
      nblockMAX >= 1 && block.Length >= nblockMAX + 9 && inUse.Length == 256
    }

    ghost predicate PendingOk()
      reads this`stateInCh, this`stateInLen
    {
      (stateInCh == 256 && stateInLen == 0) || (0 <= stateInCh < 256 && 1 <= stateInLen <= 255)
    }

    function Pending(): (r: seq<Byte>)
      reads this`stateInCh, this`stateInLen
      ensures PendingOk() ==> |r| <= 255
    {
      if 0 <= stateInCh < 256 then Rep(stateInCh, stateInLen) else []
    }

    ghost function PendingRuns(): seq<Run>
      reads this`stateInCh, this`stateInLen
    {
      if 0 <= stateInCh < 256 then [Run(stateInCh, stateInLen)] else []
    }

    /** The runs read and not yet handed over. */
    ghost function Ahead(): seq<Run>
      reads this`state, this`runs, this`stateInCh, this`stateInLen
    {
      (if state == INPUT then runs else []) + PendingRuns()
    }

    /** The current block is the code of its runs, which the pending run may join. */
    ghost predicate BlockOk()
      reads this`nblock, this`stateInCh, this`stateInLen, this`runs, block, inUse
    {
      && nblock <= block.Length && Runs(runs) && block[..nblock] == Coded(runs)
      && (runs != [] && 0 <= stateInCh < 256 ==> Apart(runs[|runs| - 1], Run(stateInCh, stateInLen)))
      && inUse.Length == 256 && (forall c: Byte :: inUse[c] <==> c in block[..nblock])
    }

    /** block[nblock++] = c and its inUse flag */
    method Append(c: Byte)
      requires nblock < block.Length && inUse.Length == 256
      requires forall d: Byte :: inUse[d] <==> d in block[..nblock]
      modifies this`nblock, block, inUse
      ensures nblock == old(nblock) + 1 && block[..nblock] == old(block[..nblock]) + [c]
      ensures forall d: Byte :: inUse[d] <==> d in block[..nblock]
    {
      ghost var before := block[..nblock];
      block[nblock] := c;
      inUse[c] := true;
      nblock := nblock + 1;
      assert block[..nblock] == before + [c];
    }

    method AppendAll(bytes: seq<Byte>)
      requires nblock + |bytes| <= block.Length && inUse.Length == 256
      requires forall d: Byte :: inUse[d] <==> d in block[..nblock]
      modifies this`nblock, block, inUse
      ensures nblock == old(nblock) + |bytes| && block[..nblock] == old(block[..nblock]) + bytes
      ensures forall d: Byte :: inUse[d] <==> d in block[..nblock]
    {
      for i := 0 to |bytes|
        invariant nblock == old(nblock) + i && block[..nblock] == old(block[..nblock]) + bytes[..i]
        invariant forall d: Byte :: inUse[d] <==> d in block[..nblock]
      {
        Append(bytes[i]);
      }
    }

    /** add_pair_to_block */
    method AddPair()
      requires Sized() && BlockOk() && PendingOk() && stateInCh < 256 && nblock + 5 <= block.Length
      modifies this`nblock, this`runs, block, inUse
      ensures nblock <= old(nblock) + 5 && nblock <= block.Length
      ensures runs == old(runs) + [Run(stateInCh, stateInLen)] && Runs(runs) && block[..nblock] == Coded(runs)
      ensures forall d: Byte :: inUse[d] <==> d in block[..nblock]
    {
      hide Runs, Coded, Pair, Rep;
      var ch: Byte := stateInCh;
      CodedSnoc(runs, Run(ch, stateInLen));
      PairBytes(ch, stateInLen);
      match stateInLen {
        case 1 => AppendAll([ch]);
        case 2 => AppendAll([ch, ch]);
        case 3 => AppendAll([ch, ch, ch]);
        case _ => AppendAll([ch, ch, ch, ch, stateInLen - 4]);
      }
      runs := runs + [Run(ch, stateInLen)];
    }

    // ------------------------------------------------------------------
    // Conservation

    /** What the blocks handed over stand for, then the current block, then the pending run. */
    ghost predicate Conserved()
      reads this`nblock, this`stateInCh, this`stateInLen, this`state, this`handed, this`runs, this`consumed
      reads this`history, this`demanded, block, inUse
      ensures Conserved() ==> Sized() && PendingOk()
    {
      && Sized() && PendingOk() && AllWhole(handed) && Seams(handed, history, demanded, Ahead(), nblockMAX)
      && (state == INPUT ==> BlockOk())
      && Decoded(handed) + (if state == INPUT then Plain(runs) else []) + Pending() == consumed
    }

    /** What has been written, then what is left of the last block's code, is what the blocks became. */
    ghost predicate Delivered()
      reads this`state, this`handed, this`zbits, this`stateOutPos, this`output
      ensures Delivered() ==> stateOutPos <= |zbits| && (state == INPUT ==> zbits == [])
    {
      && stateOutPos <= |zbits| && output + zbits[stateOutPos..] == Packed(pack, handed)
      && (state == INPUT ==> zbits == [])
    }

    /** No block but the newest is the last; a block closed with no run pending was closed on demand. */
    ghost predicate Closing()
      reads this`state, this`handed, this`stateInCh, this`mode, this`availInExpect
    {
      && (forall i :: 0 <= i < |handed| && handed[i].last ==>
           i == |handed| - 1 && Closed() && mode in {FINISHING, IDLE})
      && (Closed() ==> mode != RUNNING && availInExpect == 0)
      && (Closed() && mode in {FINISHING, IDLE} ==> handed != [] && handed[|handed| - 1].last)
      && (mode == IDLE ==> Closed())
      && forall i :: 0 <= i < |handed| ==> |handed[i].block| <= nblockMAX + 9
    }

    ghost predicate Closed()
      reads this`state, this`stateInCh
    {
      state == OUTPUT && stateInCh == 256
    }

    /** A block that is still being filled has room. */
    ghost predicate Valid()
      reads this, block, inUse
    {
      && Conserved() && Delivered() && Closing() && Counted()
      && (state == INPUT ==> nblock < nblockMAX && (stateInCh == 256 ==> runs == []))
      && (mode != RUNNING ==> availInExpect <= |nextIn|)
    }

    /** No more blocks have been closed on demand than flushes and finishes begun. */
    ghost predicate Counted()
      reads this`demanded, this`begun, this`owed
    {
      Trues(demanded) + owed <= begun
    }

    /** A flush or finish that has been begun has closed its block or is yet to do so. */
    ghost predicate Owing()
      reads this`mode, this`owed, this`state, this`stateInCh
    {
      mode in {FLUSHING, FINISHING} ==> owed >= 1 || Closed()
    }

    /** Between calls only unread output keeps a block from being replaced. */
    ghost predicate Rested()
      reads this`state, this`mode, this`zbits, this`stateOutPos, this`owed, this`stateInCh
    {
      Owing() && if mode == IDLE then stateOutPos == |zbits| else state == OUTPUT ==> stateOutPos < |zbits|
    }

    method InitRL()
      modifies this`stateInCh, this`stateInLen
      ensures stateInCh == 256 && stateInLen == 0
    {
      stateInCh, stateInLen := 256, 0;
    }

    /** flush_RL */
    method FlushRL()
      requires Conserved() && state == INPUT && nblock <= nblockMAX + 4
      modifies this`nblock, this`runs, this`stateInCh, this`stateInLen, block, inUse
      ensures Conserved() && stateInCh == 256 && nblock <= nblockMAX + 9
    {
      hide Runs, Coded, Whole, Rep, Plain, Decoded, Seams;
      ghost var ahead := Ahead();
      if stateInCh < 256 {
        CodedSnoc(runs, Run(stateInCh, stateInLen));
        AddPair();
      }
      InitRL();
      SeamsGrow(handed, history, demanded, ahead, Ahead(), nblockMAX);
    }

    /** The pending run goes into the block and a new one starts with c. */
    method NextRun(c: Byte)
      requires Conserved() && state == INPUT && nblock < nblockMAX && (stateInCh == 256 ==> runs == [])
      requires c != stateInCh || stateInLen == 255
      modifies this`nblock, this`runs, this`stateInCh, this`stateInLen, this`consumed, block, inUse
      ensures Conserved() && consumed == old(consumed) + [c] && nblock <= nblockMAX + 4 && stateInCh < 256
    {
      hide Runs, Coded, Whole, Rep, Plain, Decoded, Seams;
      ghost var ahead := Ahead();
      RepOne(c);
      if stateInCh < 256 {
        CodedSnoc(runs, Run(stateInCh, stateInLen));
        AddPair();
      }
      stateInCh := c;
      stateInLen := 1;
      consumed := consumed + [c];
      SeamsGrow(handed, history, demanded, ahead, Ahead(), nblockMAX);
    }

    /** The common case: a run of one byte. */
    method NextSingle(c: Byte)
      requires Conserved() && state == INPUT && nblock < nblockMAX && c != stateInCh && stateInLen == 1
      modifies this`nblock, this`runs, this`stateInCh, this`consumed, block, inUse
      ensures Conserved() && consumed == old(consumed) + [c] && nblock <= nblockMAX + 4 && stateInCh < 256
    {
      hide Runs, Coded, Whole, Rep, Plain, Decoded, Seams;
      ghost var ahead := Ahead();
      RepOne(c);
      var ch: Byte := stateInCh;
      CodedSnoc(runs, Run(ch, 1));
      PairBytes(ch, 1);
      Append(ch);
      runs := runs + [Run(ch, 1)];
      stateInCh := c;
      consumed := consumed + [c];
      SeamsGrow(handed, history, demanded, ahead, Ahead(), nblockMAX);
    }

    /** ADD_CHAR_TO_BLOCK */
    method AddChar(c: Byte)
      requires Conserved() && state == INPUT && nblock < nblockMAX && (stateInCh == 256 ==> runs == [])
      modifies this`nblock, this`runs, this`stateInCh, this`stateInLen, this`consumed, block, inUse
      ensures Conserved() && consumed == old(consumed) + [c] && nblock <= nblockMAX + 4 && stateInCh < 256
    {
      hide Runs, Coded, Whole, Rep, Plain, Decoded, Seams;
      ghost var ahead := Ahead();
      if c != stateInCh && stateInLen == 1 {
        NextSingle(c);
      } else if c != stateInCh || stateInLen == 255 {
        NextRun(c);
      } else {
        RepMore(c, stateInLen);
        stateInLen := stateInLen + 1;
        consumed := consumed + [c];
        SeamsGrow(handed, history, demanded, ahead, Ahead(), nblockMAX);
      }
    }

    // ------------------------------------------------------------------
    // Calls

    ghost predicate InSync()
      reads this`mode, this`availInExpect, this`nextIn, this`state, this`stateInCh, this`runs
    {
      && (mode != RUNNING ==> availInExpect <= |nextIn|)
      && (state == INPUT && stateInCh == 256 ==> runs == [])
    }

    /** copy_input_until_stop */
    method CopyInput() returns (progress: bool)
      requires Conserved() && InSync() && state == INPUT && nblock < nblockMAX
      modifies this`nblock, this`runs, this`stateInCh, this`stateInLen, this`consumed, this`nextIn
      modifies this`availInExpect, block, inUse
      ensures Conserved() && InSync() && nblock <= nblockMAX + 4
      ensures consumed + nextIn == old(consumed + nextIn) && |nextIn| <= |old(nextIn)|
      ensures progress <==> |nextIn| < |old(nextIn)|
      ensures nblock >= nblockMAX || nextIn == [] || (mode != RUNNING && availInExpect == 0)
      ensures nblock >= nblockMAX ==> progress && stateInCh < 256
      ensures mode != RUNNING ==> |nextIn| - availInExpect == old(|nextIn| - availInExpect)
    {
      hide Conserved;
      progress := false;
      while true
        invariant Conserved() && InSync() && nblock <= nblockMAX + 4
        invariant consumed + nextIn == old(consumed + nextIn) && |nextIn| <= |old(nextIn)|
        invariant progress <==> |nextIn| < |old(nextIn)|
        invariant nblock >= nblockMAX ==> progress
        invariant progress ==> stateInCh < 256
        invariant mode != RUNNING ==> |nextIn| - availInExpect == old(|nextIn| - availInExpect)
        decreases |nextIn|
      {
        if nblock >= nblockMAX || nextIn == [] || (mode != RUNNING && availInExpect == 0) {
          break;
        }
        progress := true;
        TakeByte();
      }
    }

    method TakeByte()
      requires Conserved() && InSync() && state == INPUT && nblock < nblockMAX
      requires nextIn != [] && (mode != RUNNING ==> availInExpect > 0)
      modifies this`nblock, this`runs, this`stateInCh, this`stateInLen, this`consumed, this`nextIn
      modifies this`availInExpect, block, inUse
      ensures Conserved() && InSync() && nblock <= nblockMAX + 4 && stateInCh < 256
      ensures consumed + nextIn == old(consumed + nextIn) && |nextIn| == |old(nextIn)| - 1
      ensures mode != RUNNING ==> availInExpect == old(availInExpect) - 1
    {
      hide Conserved;
      var c := nextIn[0];
      assert [c] + nextIn[1..] == nextIn;
      AddChar(c);
      nextIn := nextIn[1..];
      if mode != RUNNING {
        availInExpect := availInExpect - 1;
      }
    }

    /** BZ2_compressBlock: the block leaves, its code is ready for output. */
    method CompressBlock(last: bool, ghost demand: bool)
      requires Conserved() && Delivered() && Counted() && state == INPUT && (last ==> demand)
      requires if demand then stateInCh == 256 && owed >= 1
               else stateInCh < 256 && nblockMAX <= nblock <= nblockMAX + 4
      modifies this`handed, this`zbits, this`stateOutPos, this`state, this`history, this`demanded, this`owed
      ensures Conserved() && Delivered() && Counted() && state == OUTPUT && stateOutPos == 0
      ensures !demand ==> owed == old(owed)
      ensures |handed| == |old(handed)| + 1 && old(handed) == handed[..|old(handed)|]
      ensures |handed[|old(handed)|].block| == nblock && handed[|old(handed)|].last == last
      ensures zbits == pack(old(handed), handed[|old(handed)|])
    {
      hide Runs, Rep, Plain, Coded, Whole, Unrle, Decoded, AllWhole, Packed, Seams, Trues, Apart;
      UnrleCoded(runs);
      var h := Handed(block[..nblock], last);
      DecodedSnoc(pack, handed, h);
      NotEmpty(runs);
      SeamsClose(handed, history, demanded, runs, PendingRuns(), nblockMAX, h, demand);
      TruesSnoc(demanded, demand);
      assert [] + PendingRuns() == PendingRuns();
      HandOver(h, demand);
    }

    method HandOver(h: Handed, ghost demand: bool)
      requires demand ==> owed >= 1
      modifies this`handed, this`zbits, this`stateOutPos, this`state, this`history, this`demanded, this`owed
      ensures handed == old(handed) + [h] && zbits == pack(old(handed), h) && stateOutPos == 0 && state == OUTPUT
      ensures history == old(history) + [runs] && demanded == old(demanded) + [demand]
      ensures owed == old(owed) - if demand then 1 else 0
    {
      zbits, stateOutPos := pack(handed, h), 0;
      handed, history, demanded := handed + [h], history + [runs], demanded + [demand];
      owed := if demand then owed - 1 else owed;
      state := OUTPUT;
    }

    lemma NotEmpty(rs: seq<Run>)
      requires Runs(rs)
      ensures rs == [] ==> Coded(rs) == []
    {
    }

    method ClearInUse()
      requires inUse.Length == 256
      modifies inUse
      ensures forall c :: 0 <= c < 256 ==> !inUse[c]
    {
      for i := 0 to 256
        invariant forall c :: 0 <= c < i ==> !inUse[c]
      {
        inUse[i] := false;
      }
    }

    /** prepare_new_block */
    method PrepareNewBlock()
      requires Conserved() && Delivered() && state == OUTPUT && stateOutPos == |zbits|
      modifies this`nblock, this`runs, this`zbits, this`stateOutPos, this`state, inUse
      ensures Conserved() && Delivered() && state == INPUT && nblock == 0 && runs == []
    {
      hide Whole, Rep, Decoded, Packed, Seams;
      ghost var ahead := Ahead();
      nblock, zbits, stateOutPos := 0, [], 0;
      ClearInUse();
      runs := [];
      state := INPUT;
      assert Ahead() == ahead;
    }

    /** copy_output_until_stop */
    method CopyOutput() returns (progress: bool)
      requires Delivered()
      modifies this`stateOutPos, this`availOut, this`output
      ensures Delivered() && (availOut == 0 || stateOutPos == |zbits|) && old(stateOutPos) <= stateOutPos
      ensures availOut + |output| == old(availOut + |output|)
      ensures output == old(output) + zbits[old(stateOutPos)..stateOutPos]
      ensures progress <==> availOut < old(availOut)
      ensures progress <==> stateOutPos > old(stateOutPos)
    {
      hide Packed;
      progress := false;
      while availOut > 0 && stateOutPos < |zbits|
        invariant Delivered() && old(stateOutPos) <= stateOutPos
        invariant availOut + |output| == old(availOut + |output|)
        invariant output == old(output) + zbits[old(stateOutPos)..stateOutPos]
        invariant progress <==> availOut < old(availOut)
        invariant progress <==> stateOutPos > old(stateOutPos)
        decreases availOut
      {
        progress := true;
        WriteByte();
      }
    }

    method WriteByte()
      requires Delivered() && availOut > 0 && stateOutPos < |zbits|
      modifies this`stateOutPos, this`availOut, this`output
      ensures Delivered() && stateOutPos == old(stateOutPos) + 1 && availOut == old(availOut) - 1
      ensures output == old(output) + [zbits[old(stateOutPos)]]
    {
      hide Packed;
      assert [zbits[stateOutPos]] + zbits[stateOutPos + 1..] == zbits[stateOutPos..];
      output := output + [zbits[stateOutPos]];
      stateOutPos := stateOutPos + 1;
      availOut := availOut - 1;
    }

    /** The input half of handle_compress: fill the block; compress it when it is full or flushed. */
    method InputStep() returns (progress: bool, done: bool)
      requires Valid() && state == INPUT && mode != IDLE && Owing()
      modifies this`nblock, this`runs, this`stateInCh, this`stateInLen, this`consumed, this`nextIn
      modifies this`availInExpect, this`handed, this`zbits, this`stateOutPos, this`state, block, inUse
      modifies this`history, this`demanded, this`owed
      ensures !done ==> Owing()
      ensures Valid() && consumed + nextIn == old(consumed + nextIn)
      ensures |nextIn| <= |old(nextIn)| && (progress <==> |nextIn| < |old(nextIn)|)
      ensures mode != RUNNING ==> |nextIn| - availInExpect == old(|nextIn| - availInExpect)
      ensures done ==> state == INPUT && nextIn == [] && mode == RUNNING
      ensures !done ==> state == OUTPUT && (progress || Closed())
      ensures !done && Closed() && mode == FINISHING && EndsStream(pack) ==> stateOutPos < |zbits|
    {
      hide Conserved, Delivered, Counted;
      progress := CopyInput();
      done := false;
      if mode != RUNNING && availInExpect == 0 {
        FlushRL();
        CompressBlock(mode == FINISHING, true);
      } else if nblock >= nblockMAX {
        CompressBlock(false, false);
      } else if nextIn == [] {
        done := true;
      }
    }

    /** The output half: write what there is room for, and begin a new block unless done. */
    method OutputStep() returns (progress: bool, done: bool)
      requires Valid() && state == OUTPUT && mode != IDLE && Owing()
      modifies this`stateOutPos, this`availOut, this`output, this`nblock, this`runs, this`zbits, this`state, inUse
      ensures Valid() && availOut + |output| == old(availOut + |output|) && availOut <= old(availOut)
      ensures progress <==> availOut < old(availOut)
      ensures !done ==> state == INPUT && !(stateInCh == 256 && mode != RUNNING && availInExpect == 0) && Owing()
      ensures done && availOut > 0 ==> mode != RUNNING && Drained()
      ensures done && mode == FINISHING ==> state == OUTPUT
      ensures done ==> Rested() || (mode == FINISHING && Drained() && Closed()) || Flushed()
      ensures done && !Rested() && old(stateOutPos) < old(|zbits|) ==> progress
    {
      hide Conserved, Delivered, Counted;
      progress := CopyOutput();
      done := true;
      if stateOutPos < |zbits| {
        return;
      }
      if mode == FINISHING && availInExpect == 0 && stateInCh == 256 {
        return;
      }
      PrepareNewBlock();
      done := mode == FLUSHING && availInExpect == 0 && stateInCh == 256;
    }

    /** A flush is complete. */
    ghost predicate Flushed()
      reads this
      ensures Flushed() ==> Drained()
    {
      mode == FLUSHING && Drained() && !Closed()
    }

    /** What handle_compress leaves when the output has room to spare: nothing to write, nothing to read. */
    ghost predicate Caught()
      reads this
    {
      if mode == RUNNING then state == INPUT && nextIn == [] else Drained()
    }

    /** handle_compress */
    method HandleCompress() returns (progress: bool)
      requires Valid() && Rested() && mode != IDLE && EndsStream(pack)
      modifies this, block, inUse
      ensures Valid() && mode == old(mode) && consumed + nextIn == old(consumed + nextIn)
      ensures availOut + |output| == old(availOut + |output|) && availOut <= old(availOut) && |nextIn| <= |old(nextIn)|
      ensures mode != RUNNING ==> |nextIn| - availInExpect == old(|nextIn| - availInExpect)
      ensures progress <==> |nextIn| < |old(nextIn)| || availOut < old(availOut)
      ensures availOut > 0 ==> Caught()
      ensures begun == old(begun)
      ensures Rested() || (mode == FINISHING && Drained() && Closed() && progress) || Flushed()
      ensures mode == FINISHING ==> state == OUTPUT
    {
      hide Conserved, Delivered, Counted;
      progress := false;
      while true
        invariant Valid() && mode == old(mode) && consumed + nextIn == old(consumed + nextIn)
        invariant |nextIn| <= |old(nextIn)| && availOut <= old(availOut)
        invariant availOut + |output| == old(availOut + |output|)
        invariant mode != RUNNING ==> |nextIn| - availInExpect == old(|nextIn| - availInExpect)
        invariant progress <==> |nextIn| < |old(nextIn)| || availOut < old(availOut)
        invariant mode == FINISHING && Closed() ==> stateOutPos < |zbits|
        invariant Owing() && begun == old(begun)
        decreases |nextIn|, if Closed() then 0 else 1
      {
        if state == OUTPUT {
          var p, done := OutputStep();
          progress := progress || p;
          if done {
            break;
          }
        }
        var p, done := InputStep();
        progress := progress || p;
        if done {
          break;
        }
      }
    }

    ghost predicate Drained()
      reads this
    {
      availInExpect == 0 && stateInCh == 256 && stateOutPos == |zbits|
    }

    /** BZ2_bzCompress */
    method Compress(action: Action) returns (r: Code)
      requires Valid() && Rested() && EndsStream(pack)
      modifies this, block, inUse
      ensures Valid() && Rested() && consumed + nextIn == old(consumed + nextIn)
      ensures availOut + |output| == old(availOut + |output|)
      ensures begun <= old(begun) + if action in {FLUSH, FINISH} then 1 else 0
      ensures Answer(old(mode), action, old(availInExpect), |old(nextIn)|, old(availOut),
                     Result(r, mode, availInExpect, |nextIn|, availOut))
      ensures r == STREAM_END || (r == RUN_OK && action == FLUSH) ==> nextIn == [] && Drained()
    {
      hide Conserved, Delivered, Closing, Counted;
      match mode {
        case IDLE =>
          return SEQUENCE_ERROR;
        case RUNNING =>
          match action {
            case RUN =>
              var progress := HandleCompress();
              return if progress then RUN_OK else PARAM_ERROR;
            case FLUSH =>
              BeginClosing(FLUSHING);
              r := ContinueFlush();
            case FINISH =>
              BeginClosing(FINISHING);
              r := ContinueFinish();
            case OTHER =>
              return PARAM_ERROR;
          }
        case FLUSHING =>
          if action != FLUSH || availInExpect != |nextIn| {
            return SEQUENCE_ERROR;
          }
          r := ContinueFlush();
        case FINISHING =>
          if action != FINISH || availInExpect != |nextIn| {
            return SEQUENCE_ERROR;
          }
          r := ContinueFinish();
      }
    }

    method BeginClosing(m: Mode)
      requires Valid() && Rested() && mode == RUNNING && m in {FLUSHING, FINISHING}
      modifies this`mode, this`availInExpect, this`begun, this`owed
      ensures Valid() && Rested() && mode == m && availInExpect == |nextIn| && begun == old(begun) + 1
    {
      hide Conserved, Delivered;
      availInExpect := |nextIn|;
      mode := m;
      begun, owed := begun + 1, 1;
    }

    method ContinueFlush() returns (r: Code)
      requires Valid() && Rested() && mode == FLUSHING && availInExpect == |nextIn| && EndsStream(pack)
      modifies this, block, inUse
      ensures Valid() && Rested() && consumed + nextIn == old(consumed + nextIn)
      ensures availOut + |output| == old(availOut + |output|) && availOut <= old(availOut) && |nextIn| <= |old(nextIn)|
      ensures r in {FLUSH_OK, RUN_OK} && begun == old(begun)
      ensures r == FLUSH_OK ==> mode == FLUSHING && availInExpect == |nextIn| && availOut == 0
      ensures r == RUN_OK ==> mode == RUNNING && nextIn == [] && Drained()
    {
      hide Conserved, Delivered, Counted;
      var _ := HandleCompress();
      if availInExpect > 0 || stateInCh != 256 || stateOutPos < |zbits| {
        return FLUSH_OK;
      }
      SetMode(RUNNING);
      return RUN_OK;
    }

    method ContinueFinish() returns (r: Code)
      requires Valid() && Rested() && mode == FINISHING && availInExpect == |nextIn| && EndsStream(pack)
      modifies this, block, inUse
      ensures Valid() && Rested() && consumed + nextIn == old(consumed + nextIn)
      ensures availOut + |output| == old(availOut + |output|) && availOut <= old(availOut) && |nextIn| <= |old(nextIn)|
      ensures r in {FINISH_OK, SEQUENCE_ERROR, STREAM_END} && begun == old(begun)
      ensures r != STREAM_END ==> mode == FINISHING && availInExpect == |nextIn| && availOut == 0
      ensures r != STREAM_END ==> (r == FINISH_OK <==> |nextIn| < |old(nextIn)| || availOut < old(availOut))
      ensures r == STREAM_END ==> mode == IDLE && nextIn == [] && Drained()
    {
      hide Conserved, Delivered, Counted;
      var progress := HandleCompress();
      if !progress {
        return SEQUENCE_ERROR;
      }
      if availInExpect > 0 || stateInCh != 256 || stateOutPos < |zbits| {
        return FINISH_OK;
      }
      SetMode(IDLE);
      return STREAM_END;
    }

    method SetMode(m: Mode)
      requires Valid() && Drained()
      requires (mode == FLUSHING && m == RUNNING && !Closed()) || (mode == FINISHING && m == IDLE && Closed())
      modifies this`mode
      ensures Valid() && Rested() && mode == m
    {
      hide Conserved, Delivered;
      mode := m;
    }

    /** The caller supplies more input and room for output. */
    method Supply(input: seq<Byte>, room: nat)
      requires Valid() && Rested()
      modifies this`nextIn, this`availOut
      ensures Valid() && Rested() && nextIn == old(nextIn) + input && availOut == room
    {
      hide Conserved, Delivered, Closing;
      nextIn := nextIn + input;
      availOut := room;
    }

    /** What was written is part of what the blocks became, all of it once drained. */
    lemma Written()
      requires Delivered()
      ensures output <= Packed(pack, handed)
      ensures stateOutPos == |zbits| ==> output == Packed(pack, handed)
    {
    }

    lemma LastOnly()
      requires Closing()
      ensures forall i :: 0 <= i < |handed| && handed[i].last ==> i == |handed| - 1
      ensures forall i :: 0 <= i < |handed| ==> |handed[i].block| <= nblockMAX + 9
      ensures mode == IDLE ==> handed != [] && handed[|handed| - 1].last
    {
    }

    /** With no run pending and none begun, the blocks alone stand for all that was read. */
    lemma NothingPending()
      requires Valid() && stateInCh == 256
      ensures AllWhole(handed) && Decoded(handed) == consumed
    {
    }

    /** The current block as it stands. */
    method Current() returns (held: seq<Byte>)
      requires Valid()
      ensures held == if state == INPUT then block[..nblock] else []
      ensures Whole(held) && AllWhole(handed) && |held| < nblockMAX
      ensures Decoded(handed) + Unrle(held) + Pending() == consumed
    {
      hide Runs, Coded, Decoded, Delivered;
      held := [];
      if state == INPUT {
        UnrleCoded(runs);
        held := block[..nblock];
      }
    }

    /** The pending run's code may be put behind the current block. */
    lemma AheadText()
      requires Valid()
      ensures Runs(Ahead()) && Coded(Ahead()) == Standing() + Rle(Pending())
      ensures Whole(Standing()) && Plain(Ahead()) == Unrle(Standing()) + Pending()
    {
      hide Runs, Coded, Plain, Rle, Rep, Whole, Unrle, Seams, Decoded, Delivered;
      var before := if state == INPUT then runs else [];
      NoRuns();
      NoCode();
      CodeOfText(before);
      assert Standing() == Coded(before);
      if 0 <= stateInCh < 256 {
        var p := Run(stateInCh, stateInLen);
        CodedSnoc(before, p);
        CodedSnoc([], p);
        assert [] + [p] == [p];
        assert [] + Pair(p.c, p.n) == Pair(p.c, p.n) && [] + Rep(p.c, p.n) == Rep(p.c, p.n);
        CodeOfText([p]);
        assert Pending() == Rep(p.c, p.n) && [p] == [] + [p];
      } else {
        assert before + [] == before && Coded(before) + [] == Coded(before) && Plain(before) + [] == Plain(before);
        CodeOfText([]);
      }
    }

    /** The block being filled. */
    ghost function Standing(): seq<Byte>
      requires state == INPUT ==> nblock <= block.Length
      reads this`state, this`nblock, block
    {
      if state == INPUT then block[..nblock] else []
    }

    /** How the text read so far has been cut into blocks. */
    lemma CutGreedily()
      requires Valid()
      ensures AllWhole(handed) && Whole(Standing()) && Greedy(handed, demanded, nblockMAX) && Trues(demanded) <= begun
      ensures Standing() + Rle(Pending()) == Rle(Unrle(Standing()) + Pending())
      ensures handed != [] && !demanded[|handed| - 1] ==>
        var last := handed[|handed| - 1].block;
        last + (Standing() + Rle(Pending())) == Rle(Unrle(last) + (Unrle(Standing()) + Pending()))
    {
      hide Runs, Coded, Plain, Rle, Rep, Whole, Unrle, Seams, Decoded, Delivered, Closing, BlockOk;
      AheadText();
      SeamsText(handed, history, demanded, Ahead(), nblockMAX);
    }
  }

  /** A call: more input, an action, and room for output. */
  datatype Request = Request(input: seq<Byte>, action: Action, room: nat)

  /**
   * What a call left: the mode, the input a flush or finish still expects,
   * the input not yet read and the room not used.
   */
  datatype Result = Result(code: Code, mode: Mode, awaited: nat, unread: nat, room: nat)

  /** A call that continues a flush or finish with the input it was begun with, or begins one. */
  predicate InSequence(mode: Mode, action: Action, awaited: nat, unread: nat) {
    mode == RUNNING ||
    (awaited == unread && ((mode == FLUSHING && action == FLUSH) || (mode == FINISHING && action == FINISH)))
  }

  /**
   * The calling discipline.  With output room to spare, a run has read
   * everything, a flush and a finish are complete; without, they are to be
   * continued; a call out of sequence does nothing.
   */
  predicate Answer(mode: Mode, action: Action, awaited: nat, unread: nat, room: nat, r: Result) {
    var progress := r.unread < unread || r.room < room;
    && r.unread <= unread && r.room <= room
    && if !InSequence(mode, action, awaited, unread) then r == Result(SEQUENCE_ERROR, mode, awaited, unread, room)
       else match action
         case RUN =>
           && r.mode == RUNNING && r.code == (if progress then RUN_OK else PARAM_ERROR)
           && (r.room > 0 ==> r.unread == 0)
         case FLUSH =>
           if r.mode == RUNNING then r.code == RUN_OK && r.unread == 0
           else r.mode == FLUSHING && r.code == FLUSH_OK && r.awaited == r.unread && r.room == 0
         case FINISH =>
           if r.mode == IDLE then r.code == STREAM_END && r.unread == 0
           else
             && r.mode == FINISHING && r.awaited == r.unread && r.room == 0
             && r.code == (if progress then FINISH_OK else SEQUENCE_ERROR)
         case OTHER => r == Result(PARAM_ERROR, mode, awaited, unread, room)
  }

  /** All the input handed over by a run of calls. */
  function Supplied(calls: seq<Request>): seq<Byte> {
    if calls == [] then [] else Supplied(calls[..|calls| - 1]) + calls[|calls| - 1].input
  }

  /** All the room used by a run of calls. */
  function Used(calls: seq<Request>, results: seq<Result>): int
    requires |results| <= |calls|
  {
    if results == [] then 0
    else
      var k := |results| - 1;
      Used(calls, results[..k]) + calls[k].room - results[k].room
  }

  /** How call k finds the compressor. */
  function Before(results: seq<Result>, k: nat): Result
    requires k <= |results|
  {
    if k == 0 then Result(RUN_OK, RUNNING, 0, 0, 0) else results[k - 1]
  }

  predicate Answered(calls: seq<Request>, results: seq<Result>, k: nat)
    requires k < |results| <= |calls|
  {
    var b, call := Before(results, k), calls[k];
    Answer(b.mode, call.action, b.awaited, b.unread + |call.input|, call.room, results[k])
  }

  ghost predicate AllAnswered(calls: seq<Request>, results: seq<Result>) {
    |results| <= |calls| && forall k: nat :: k < |results| ==> Answered(calls, results, k)
  }

  lemma EndsIdle(mode: Mode, action: Action, awaited: nat, unread: nat, room: nat, r: Result)
    requires Answer(mode, action, awaited, unread, room, r)
    ensures r.code == STREAM_END ==> r.mode == IDLE
  {
  }

  lemma AnsweredBy(calls: seq<Request>, results: seq<Result>, r: Result)
    requires |results| < |calls|
    requires var b, call := Before(results, |results|), calls[|results|];
      Answer(b.mode, call.action, b.awaited, b.unread + |call.input|, call.room, r)
    ensures Answered(calls, results + [r], |results|)
  {
    hide Answer;
    assert Before(results + [r], |results|) == Before(results, |results|);
  }

  lemma AnsweredNext(calls: seq<Request>, results: seq<Result>, r: Result)
    requires AllAnswered(calls, results) && |results| < |calls| && Answered(calls, results + [r], |results|)
    ensures AllAnswered(calls, results + [r])
    ensures Used(calls, results + [r]) == Used(calls, results) + calls[|results|].room - r.room
  {
    hide Answer;
    var now := results + [r];
    assert now[..|results|] == results;
    forall k: nat | k < |now| ensures Answered(calls, now, k) {
      if k < |results| {
        assert Answered(calls, results, k);
        assert Before(now, k) == Before(results, k) && now[k] == results[k];
      }
    }
  }

  lemma SuppliedNext(calls: seq<Request>, k: nat)
    requires k < |calls|
    ensures Supplied(calls[..k + 1]) == Supplied(calls[..k]) + calls[k].input
  {
    assert calls[..k + 1][..k] == calls[..k];
  }

  lemma NoneYet(calls: seq<Request>)
    ensures AllAnswered(calls, []) && Used(calls, []) == 0 && Supplied(calls[..0]) == []
  {
  }

  /** How many calls flush or finish. */
  function Closings(calls: seq<Request>): nat {
    if calls == [] then 0
    else Closings(calls[..|calls| - 1]) + if calls[|calls| - 1].action in {FLUSH, FINISH} then 1 else 0
  }

  lemma ClosingsNext(calls: seq<Request>, k: nat)
    requires k < |calls|
    ensures Closings(calls[..k + 1]) == Closings(calls[..k]) + if calls[k].action in {FLUSH, FINISH} then 1 else 0
    ensures Closings(calls[..0]) == 0
  {
    assert calls[..k + 1][..k] == calls[..k];
  }

  /** The state at the end of a run: the current block, the pending run and the unread input. */
  datatype Held = Held(block: seq<Byte>, run: seq<Byte>, unread: seq<Byte>)

  /**
   * Every run of calls, whatever the actions and buffer sizes: the blocks
   * handed over, the current block, the pending run and the unread input
   * stand for exactly the input supplied; what is written is what the block
   * compressor made of the blocks, as far as there was room; and every call
   * keeps the discipline.  Every block is the run-length code of its text,
   * cut where it is full or, no more often than there are flushes and
   * finishes, on demand; runs go on across a cut that was not demanded.
   */
  method Run(size: nat, pack: Packer, calls: seq<Request>)
    returns (handed: seq<Handed>, output: seq<Byte>, held: Held, results: seq<Result>, ghost demanded: seq<bool>)
    requires size >= 20 && EndsStream(pack)
    ensures |results| == |calls| && AllAnswered(calls, results)
    ensures AllWhole(handed) && Whole(held.block)
    ensures Decoded(handed) + Unrle(held.block) + held.run + held.unread == Supplied(calls)
    ensures |held.block| < size - 19 && |held.run| <= 255 && |held.unread| == Before(results, |calls|).unread
    ensures output <= Packed(pack, handed) && |output| == Used(calls, results)
    ensures calls != [] && Complete(calls[|calls| - 1].action, results[|calls| - 1].code) ==>
      Decoded(handed) == Supplied(calls) && output == Packed(pack, handed)
    ensures forall i :: 0 <= i < |handed| ==> |handed[i].block| <= size - 10
    ensures forall i :: 0 <= i < |handed| && handed[i].last ==> i == |handed| - 1
    ensures calls != [] && results[|calls| - 1].code == STREAM_END ==> handed != [] && handed[|handed| - 1].last
    ensures Greedy(handed, demanded, size - 19) && Trues(demanded) <= Closings(calls)
    ensures held.block + Rle(held.run) == Rle(Unrle(held.block) + held.run)
    ensures handed != [] && !demanded[|handed| - 1] ==>
      var last := handed[|handed| - 1].block;
      last + (held.block + Rle(held.run)) == Rle(Unrle(last) + (Unrle(held.block) + held.run))
  {
    hide EState.Conserved, EState.Delivered, EState.Closing, AllWhole, Decoded, Packed, EndsStream, Supplied, Used;
    hide AllAnswered, Greedy, Rle, Whole, Unrle, Trues, Closings;
    var s := new EState(size, pack);
    results := CallAll(s, calls);
    var block := s.Current();
    handed, output := s.handed, s.output;
    held := Held(block, s.Pending(), s.nextIn);
    s.CutGreedily();
    demanded := s.demanded;
    s.Written();
    s.LastOnly();
    if s.stateInCh == 256 {
      s.NothingPending();
    }
  }

  /** The calls one after another. */
  method CallAll(s: EState, calls: seq<Request>) returns (results: seq<Result>)
    requires s.Valid() && s.Rested() && EndsStream(s.pack)
    requires s.mode == RUNNING && s.availInExpect == 0 && s.consumed == [] && s.nextIn == [] && s.output == []
    requires s.begun == 0
    modifies s, s.block, s.inUse
    ensures s.Valid() && s.consumed + s.nextIn == Supplied(calls)
    ensures |results| == |calls| && AllAnswered(calls, results) && |s.output| == Used(calls, results)
    ensures |s.nextIn| == Before(results, |calls|).unread
    ensures calls != [] && Complete(calls[|calls| - 1].action, results[|calls| - 1].code) ==>
      s.nextIn == [] && s.Drained()
    ensures calls != [] && results[|calls| - 1].code == STREAM_END ==> s.mode == IDLE
    ensures s.begun <= Closings(calls)
  {
    hide EState.Valid, AllAnswered, Answer, EndsStream, Supplied, Used, Closings;
    results := [];
    NoneYet(calls);
    while |results| < |calls|
      invariant |results| <= |calls| && AllAnswered(calls, results) && |s.output| == Used(calls, results)
      invariant s.Valid() && s.Rested() && s.consumed + s.nextIn == Supplied(calls[..|results|])
      invariant Before(results, |results|).mode == s.mode && Before(results, |results|).unread == |s.nextIn|
      invariant Before(results, |results|).awaited == s.availInExpect
      invariant results != [] && Complete(calls[|results| - 1].action, results[|results| - 1].code) ==>
        s.nextIn == [] && s.Drained()
      invariant results != [] && results[|results| - 1].code == STREAM_END ==> s.mode == IDLE
      invariant s.begun <= Closings(calls[..|results|])
    {
      var call := calls[|results|];
      SuppliedNext(calls, |results|);
      ClosingsNext(calls, |results|);
      s.Supply(call.input, call.room);
      ghost var was, before := s.mode, Before(results, |results|);
      var code := s.Compress(call.action);
      var r := Result(code, s.mode, s.availInExpect, |s.nextIn|, s.availOut);
      EndsIdle(was, call.action, before.awaited, before.unread + |call.input|, call.room, r);
      AnsweredBy(calls, results, r);
      AnsweredNext(calls, results, r);
      results := results + [r];
    }
    assert calls[..|results|] == calls;
  }

  /** The call ended the stream or completed a flush. */
  predicate Complete(action: Action, r: Code) {
    r == STREAM_END || (r == RUN_OK && action == FLUSH)
  }


  lemma RepOne(c: Byte)
    ensures Rep(c, 1) == [c]
  {
  }

  lemma RepMore(c: Byte, n: nat)
    ensures Rep(c, n + 1) == Rep(c, n) + [c]
  {
    RepAdd(c, n, 1);
    RepOne(c);
  }
}
