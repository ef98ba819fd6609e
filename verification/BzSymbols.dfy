/**
 * The block data proper of a bzip2 stream: symbols in groups of fifty, each
 * group coded with the table its selector names, written by bsW and read
 * back by GET_MTF_VAL, whatever the pieces the input arrives in.
 */
module BzSymbols {
  import opened Sequences
  import opened Powers
  import opened BitStrings
  import opened BzCodes
  import opened BzBits

  const GROUP: nat := 50

  /** The lengths that symbol k is coded with. */
  function LensAt(lens: seq<seq<nat>>, selector: seq<nat>, k: nat): (r: seq<nat>)
    requires k / GROUP < |selector| && selector[k / GROUP] < |lens|
  {
    lens[selector[k / GROUP]]
  }

  /** Every symbol has a table and a code in it. */
  ghost predicate Codable(syms: seq<nat>, lens: seq<seq<nat>>, selector: seq<nat>) {
    && (forall t :: 0 <= t < |lens| ==> Kraft(lens[t]) && LengthsOk(lens[t]))
    && (forall k: nat :: k < |syms| ==> CodableAt(syms, lens, selector, k))
  }

  predicate CodableAt(syms: seq<nat>, lens: seq<seq<nat>>, selector: seq<nat>, k: nat)
    requires k < |syms|
  {
    k / GROUP < |selector| && selector[k / GROUP] < |lens| && syms[k] < |lens[selector[k / GROUP]]|
  }

  /** The bits of symbol k. */
  ghost function BitsAt(syms: seq<nat>, lens: seq<seq<nat>>, selector: seq<nat>, k: nat): (r: seq<Bit>)
    requires Codable(syms, lens, selector) && k < |syms|
    ensures CodableAt(syms, lens, selector, k) && |r| == LensAt(lens, selector, k)[syms[k]]
  {
    assert CodableAt(syms, lens, selector, k);
    SymbolBits(LensAt(lens, selector, k), syms[k])
  }

  /** The bits of the symbols from k on. */
  ghost function From(syms: seq<nat>, lens: seq<seq<nat>>, selector: seq<nat>, k: nat): (r: seq<Bit>)
    requires Codable(syms, lens, selector) && k <= |syms|
    decreases |syms| - k
  {
    if k == |syms| then [] else BitsAt(syms, lens, selector, k) + From(syms, lens, selector, k + 1)
  }

  /** Code values for every table. */
  ghost predicate CodesFor(codes: seq<seq<nat>>, lens: seq<seq<nat>>) {
    |codes| == |lens| && forall t :: 0 <= t < |lens| ==> CodesOf(codes[t], lens[t])
  }

  ghost predicate CodesOf(code: seq<nat>, lens: seq<nat>) {
    |code| == |lens| && forall s :: 0 <= s < |lens| ==> code[s] == CodeOf(lens, s)
  }

  lemma Writable(syms: seq<nat>, lens: seq<seq<nat>>, selector: seq<nat>, codes: seq<seq<nat>>, k: nat)
    requires Codable(syms, lens, selector) && CodesFor(codes, lens) && k < |syms|
    ensures CodableAt(syms, lens, selector, k) && |codes| == |lens|
    ensures var t := selector[k / GROUP]; var n := lens[t][syms[k]];
      && n <= LONGEST && syms[k] < |codes[t]| && codes[t][syms[k]] < Pow2(n)
      && Code(codes[t][syms[k]], n) == BitsAt(syms, lens, selector, k)
  {
    hide CodeOf, Pow2, Code;
    assert CodableAt(syms, lens, selector, k);
    CodeFits(lens[selector[k / GROUP]], syms[k]);
  }

  /** The group loop of sendMTFValues. */
  method Send(w: BitWriter, syms: seq<nat>, lens: seq<seq<nat>>, selector: seq<nat>, codes: seq<seq<nat>>)
    requires w.Valid() && Codable(syms, lens, selector) && CodesFor(codes, lens)
    modifies w
    ensures w.Valid() && w.All() == old(w.All()) + From(syms, lens, selector, 0)
  {
    hide Codable, CodesFor, HoldsTop, Code, Bits;
    var gs, selCtr := 0, 0;
    assert w.All() + From(syms, lens, selector, 0) == old(w.All()) + From(syms, lens, selector, 0);
    while gs < |syms|
      invariant 0 <= gs <= |syms| && (gs == GROUP * selCtr || gs == |syms|) && w.Valid()
      invariant w.All() + From(syms, lens, selector, gs) == old(w.All()) + From(syms, lens, selector, 0)
    {
      var ge := gs + GROUP - 1;
      if ge >= |syms| {
        ge := |syms| - 1;
      }
      var i := gs;
      while i <= ge
        invariant gs <= i <= ge + 1 && w.Valid()
        invariant w.All() + From(syms, lens, selector, i) == old(w.All()) + From(syms, lens, selector, 0)
      {
        Writable(syms, lens, selector, codes, i);
        assert i / GROUP == selCtr;
        ghost var before := w.All();
        w.Write(lens[selector[selCtr]][syms[i]], codes[selector[selCtr]][syms[i]]);
        Assoc(before, BitsAt(syms, lens, selector, i), From(syms, lens, selector, i + 1));
        i := i + 1;
      }
      gs := ge + 1;
      selCtr := selCtr + 1;
    }
    assert w.All() + [] == w.All();
  }

  lemma Assoc(a: seq<Bit>, b: seq<Bit>, c: seq<Bit>)
    ensures (a + b) + c == a + (b + c)
  {
  }

  // ------------------------------------------------------------------
  // Reading

  datatype Got = Symbol(s: nat) | More | Corrupt
  datatype Stage = Idle | FirstBits | OneMore

  /** How far into symbol k the reader is: read has been consumed, rest is the stream from here on. */
  ghost predicate Within(syms: seq<nat>, lens: seq<seq<nat>>, selector: seq<nat>, tail: seq<Bit>, k: nat,
                         read: seq<Bit>, rest: seq<Bit>) {
    && Codable(syms, lens, selector) && k <= |syms|
    && read + rest == From(syms, lens, selector, k) + tail
    && (k == |syms| ==> read == [])
    && (k < |syms| ==> |read| <= |BitsAt(syms, lens, selector, k)|)
  }

  /** What has been read is a prefix of the symbol's bits. */
  lemma WithinPrefix(syms: seq<nat>, lens: seq<seq<nat>>, selector: seq<nat>, tail: seq<Bit>, k: nat, read: seq<Bit>,
                     rest: seq<Bit>)
    requires Within(syms, lens, selector, tail, k, read, rest) && k < |syms|
    ensures var c := BitsAt(syms, lens, selector, k);
      read == c[..|read|] && rest == c[|read|..] + (From(syms, lens, selector, k + 1) + tail)
  {
    hide BitsAt, Codable, From;
    var c, next := BitsAt(syms, lens, selector, k), From(syms, lens, selector, k + 1);
    FromNext(syms, lens, selector, k);
    Assoc(c, next, tail);
    PrefixOf(read, rest, c, next + tail);
  }

  lemma FromNext(syms: seq<nat>, lens: seq<seq<nat>>, selector: seq<nat>, k: nat)
    requires Codable(syms, lens, selector) && k < |syms|
    ensures From(syms, lens, selector, k) == BitsAt(syms, lens, selector, k) + From(syms, lens, selector, k + 1)
  {
  }

  lemma PrefixOf(read: seq<Bit>, rest: seq<Bit>, c: seq<Bit>, more: seq<Bit>)
    requires read + rest == c + more && |read| <= |c|
    ensures read == c[..|read|] && rest == c[|read|..] + more
  {
    var all := c + more;
    assert all[..|read|] == c[..|read|];
    assert all[|read|..] == c[|read|..] + more;
  }

  lemma WithinRead(syms: seq<nat>, lens: seq<seq<nat>>, selector: seq<nat>, tail: seq<Bit>, k: nat, read: seq<Bit>,
                   rest: seq<Bit>, n: nat)
    requires Within(syms, lens, selector, tail, k, read, rest) && k < |syms| && n <= |rest|
    requires |read| + n <= |BitsAt(syms, lens, selector, k)|
    ensures Within(syms, lens, selector, tail, k, read + rest[..n], rest[n..])
  {
    assert (read + rest[..n]) + rest[n..] == read + rest;
  }

  lemma WithinDone(syms: seq<nat>, lens: seq<seq<nat>>, selector: seq<nat>, tail: seq<Bit>, k: nat, read: seq<Bit>,
                   rest: seq<Bit>)
    requires Within(syms, lens, selector, tail, k, read, rest) && k < |syms| &&
      |read| == |BitsAt(syms, lens, selector, k)|
    ensures Within(syms, lens, selector, tail, k + 1, [], rest)
  {
    hide BitsAt;
    WithinPrefix(syms, lens, selector, tail, k, read, rest);
    var c := BitsAt(syms, lens, selector, k);
    assert c[|read|..] == [];
    assert rest == From(syms, lens, selector, k + 1) + tail;
    assert [] + rest == rest;
  }

  /** Decode tables for every set of lengths. */
  ghost predicate TablesFor(tables: seq<Table>, lens: seq<seq<nat>>) {
    |tables| == |lens| && forall t :: 0 <= t < |lens| ==> TableFor(tables[t], lens[t]) && |lens[t]| <= 258
  }

  class SymbolReader {
    const reader: BitReader
    const tables: seq<Table>
    const selector: seq<nat>
    var groupNo: int
    var groupPos: nat
    var stage: Stage
    var zn: nat
    var zvec: nat
    // the message: its symbols, how they are coded, and the bits that follow it
    ghost const syms: seq<nat>
    ghost const lens: seq<seq<nat>>
    ghost const tail: seq<Bit>
    // symbols delivered, bits of the next one consumed, the whole stream from there on,
    // and the part of it that has not arrived
    ghost var k: nat
    ghost var read: seq<Bit>
    ghost var rest: seq<Bit>
    ghost var future: seq<Bit>

    ghost predicate Grouped()
      reads this
    {
      && groupNo >= -1 && groupPos < GROUP
      && k + (if stage == Idle then 0 else 1) + groupPos == GROUP * (groupNo + 1)
    }

    ghost predicate Valid()
      reads this, reader
    {
      && reader.Valid() && TablesFor(tables, lens) && Grouped()
      && Within(syms, lens, selector, tail, k, read, rest) && reader.Ahead() + future == rest
      && (stage == Idle ==> read == [])
      && (stage != Idle ==> k < |syms| && InCode())
    }

    /** In the middle of symbol k: the group's table is in use. */
    ghost predicate InCode()
      reads this
      requires k < |syms|
    {
      && CodableAt(syms, lens, selector, k) && groupNo == k / GROUP
      && |tables| == |lens|
      && var t := tables[selector[groupNo]];
         && (stage == FirstBits ==> read == [] && zn == t.minLen)
         && (stage == OneMore ==> zn == |read| + 1 <= |BitsNow()| && |read| >= t.minLen && zvec == Msb(read))
    }

    ghost function BitsNow(): seq<Bit>
      reads this
    {
      if Codable(syms, lens, selector) && k < |syms| then BitsAt(syms, lens, selector, k) else []
    }

    constructor (reader: BitReader, tables: seq<Table>, selector: seq<nat>, ghost syms: seq<nat>,
                 ghost lens: seq<seq<nat>>, ghost tail: seq<Bit>, ghost future: seq<Bit>)
      requires TablesFor(tables, lens) && Codable(syms, lens, selector) && reader.Valid()
      requires reader.Ahead() + future == From(syms, lens, selector, 0) + tail
      ensures Valid() && k == 0 && this.reader == reader && this.future == future
      ensures this.syms == syms && this.lens == lens && this.selector == selector && this.tail == tail
    {
      hide From, Codable, TablesFor, HoldsLow, Bits, CodableAt;
      this.reader, this.tables, this.selector := reader, tables, selector;
      groupNo, groupPos, stage, zn, zvec := -1, 0, Idle, 0, 0;
      this.syms, this.lens, this.tail := syms, lens, tail;
      k, read := 0, [];
      rest, this.future := From(syms, lens, selector, 0) + tail, future;
    }

    /** The stream goes on with these bytes. */
    method Supply(bytes: seq<Byte>)
      requires Valid() && Bits(bytes) <= future
      modifies this`future, reader
      ensures Valid() && old(future) == Bits(bytes) + future
    {
      hide Within, TablesFor, HoldsLow, Bits;
      ghost var b := Bits(bytes);
      Arrived(reader.Ahead(), b, future);
      reader.Supply(bytes);
      future := future[|b|..];
    }

    /** The next n bits of the symbol, if they have arrived. */
    method Take(n: nat) returns (ok: bool, v: nat)
      requires reader.Valid() && n <= LONGEST && k < |syms| && reader.Ahead() + future == rest
      requires Within(syms, lens, selector, tail, k, read, rest) && |read| + n <= |BitsNow()|
      modifies this`read, this`rest, reader
      ensures reader.Valid() && Within(syms, lens, selector, tail, k, read, rest) && reader.Ahead() + future == rest
      ensures ok <==> n <= |old(reader.Ahead())|
      ensures ok ==> |read| == |old(read)| + n && v == Msb(read[|old(read)|..]) && read[..|old(read)|] == old(read)
      ensures !ok ==> read == old(read) && rest == old(rest) && reader.Ahead() == old(reader.Ahead())
    {
      hide HoldsLow, Bits, Msb, From, BitsAt;
      ghost var a := reader.Ahead();
      ok, v := reader.GetBits(n);
      if ok {
        WithinRead(syms, lens, selector, tail, k, read, rest, n);
        assert a[..n] == rest[..n] && rest[n..] == a[n..] + future;
        read := read + rest[..n];
        rest := rest[n..];
      }
    }

    /** The group logic at the start of GET_MTF_VAL. */
    method Begin() returns (ok: bool)
      requires Valid() && stage == Idle && k < |syms|
      modifies this`groupNo, this`groupPos, this`stage, this`zn
      ensures ok && Valid() && stage == FirstBits
    {
      hide HoldsLow, Bits, From, BitsAt, Within, TablesFor, TableFor, Codable, CodableAt;
      GroupOf(k, groupNo, groupPos);
      TablesSize(tables, lens);
      CodableHere(syms, lens, selector, tail, k, read, rest);
      if groupPos == 0 {
        groupNo := groupNo + 1;
        if groupNo >= |selector| {
          return false;
        }
        groupPos := GROUP;
      }
      groupPos := groupPos - 1;
      zn := tables[selector[groupNo]].minLen;
      stage := FirstBits;
      ok := true;
    }

    /** zn bits of symbol k have been read, and zvec is their value. */
    ghost predicate Matching()
      reads this, reader
    {
      && reader.Valid() && TablesFor(tables, lens) && k < |syms| && reader.Ahead() + future == rest
      && Within(syms, lens, selector, tail, k, read, rest) && CodableAt(syms, lens, selector, k)
      && groupNo == k / GROUP && groupPos < GROUP && k + 1 + groupPos == GROUP * (groupNo + 1)
      && zn == |read| >= tables[selector[groupNo]].minLen && zvec == Msb(read)
    }

    /** limit tells a complete code from a prefix, and the tables then name the symbol. */
    lemma Decide()
      requires Matching()
      ensures var t := tables[selector[groupNo]];
        && 1 <= zn <= LONGEST && |t.limit| == |t.base| == TABLE
        && zn <= |BitsNow()| && (zvec <= t.limit[zn] <==> zn == |BitsNow()|)
        && (zn == |BitsNow()| ==> 0 <= zvec - t.base[zn] < |t.perm| <= 258 && t.perm[zvec - t.base[zn]] == syms[k])
    {
      hide From, First, CodeOf, Msb;
      var ln := LensAt(lens, selector, k);
      var t := tables[selector[groupNo]];
      assert TableFor(t, ln);
      WithinPrefix(syms, lens, selector, tail, k, read, rest);
      var c := BitsAt(syms, lens, selector, k);
      PrefixAbove(ln, syms[k], zn, c);
      if zn == |c| {
        assert read == c;
        Named(t, ln, syms[k]);
      }
    }

    /** One more bit of the symbol. */
    method TakeOne() returns (ok: bool)
      requires Matching() && zn < |BitsNow()|
      modifies this`read, this`rest, this`zn, this`zvec, this`stage, reader
      ensures ok ==> Matching() && zn == old(zn) + 1
      ensures !ok ==> Valid() && stage == OneMore && |reader.Ahead()| + |read| < |BitsNow()|
    {
      hide From, BitsAt, Msb, Codable, TableFor, HoldsLow, Bits;
      ghost var was := read;
      zn := zn + 1;
      var zj;
      ok, zj := Take(1);
      if ok {
        LastBit(read, was, zj);
        zvec := 2 * zvec + zj;
      } else {
        stage := OneMore;
      }
    }

    /** The first bits of a symbol, as many as the shortest code has. */
    method TakeFirst() returns (ok: bool)
      requires Valid() && stage == FirstBits
      modifies this`read, this`rest, this`zvec, reader
      ensures ok ==> Matching()
      ensures !ok ==> Valid() && |reader.Ahead()| + |read| < |BitsNow()|
    {
      hide From, Msb, HoldsLow, Bits, Within, TableFor, CodableAt;
      ShortestFits(tables, lens, selector, syms, tail, k, read, rest);
      var v;
      ok, v := Take(zn);
      if ok {
        assert read[0..] == read;
        zvec := v;
      }
    }

    /** The bit that was waited for. */
    method TakeNext() returns (ok: bool)
      requires Valid() && stage == OneMore
      modifies this`read, this`rest, this`zvec, reader
      ensures ok ==> Matching()
      ensures !ok ==> Valid() && |reader.Ahead()| + |read| < |BitsNow()|
    {
      hide From, BitsAt, Msb, Codable, TableFor, HoldsLow, Bits;
      ghost var was := read;
      var zj;
      ok, zj := Take(1);
      if ok {
        LastBit(read, was, zj);
        zvec := 2 * zvec + zj;
      }
    }

    /** Compare with limit and read on until the code is complete. */
    method Match() returns (r: Got)
      requires Matching()
      modifies this, reader
      ensures Valid() && r != Corrupt
      ensures future == old(future) && (r.Symbol? ==> r.s == syms[old(k)] && k == old(k) + 1)
      ensures r.More? ==> k == old(k) && |reader.Ahead()| + |read| < |BitsNow()|
    {
      hide From, BitsAt, Msb, Codable, TableFor, HoldsLow, Bits, Within;
      var t := tables[selector[groupNo]];
      while true
        invariant Matching() && k == old(k) && future == old(future) && t == tables[selector[groupNo]]
        decreases |BitsNow()| - zn
      {
        Decide();
        if zn > 20 {
          return Corrupt;
        }
        if zvec <= t.limit[zn] {
          break;
        }
        var ok := TakeOne();
        if !ok {
          return More;
        }
      }
      Decide();
      var p := zvec - t.base[zn];
      if p < 0 || p >= 258 {
        return Corrupt;
      }
      r := Symbol(t.perm[p]);
      WithinDone(syms, lens, selector, tail, k, read, rest);
      k, read, stage := k + 1, [], Idle;
    }

    /** GET_MTF_VAL: the next symbol, or a wait for input that can be taken up again. */
    method Next() returns (r: Got)
      requires Valid() && k < |syms|
      modifies this, reader
      ensures Valid() && r != Corrupt
      ensures future == old(future) && (r.Symbol? ==> r.s == syms[old(k)] && k == old(k) + 1)
      ensures r.More? ==> k == old(k) && |reader.Ahead()| + |read| < |BitsNow()|
    {
      hide TablesFor, Within, InCode, HoldsLow, Bits, Matching, BitsNow;
      if stage == Idle {
        var ok := Begin();
        if !ok {
          return Corrupt;
        }
      }
      var ok;
      if stage == FirstBits {
        ok := TakeFirst();
      } else {
        ok := TakeNext();
      }
      if !ok {
        return More;
      }
      r := Match();
    }

    /** After the last symbol the reader stands where the message ends. */
    lemma Served(chunks: seq<seq<Byte>>, slack: seq<Bit>)
      requires Valid() && future == Bits(Concat(chunks)) + slack
      ensures k == |syms| ==> (reader.Ahead() + Bits(Concat(chunks))) + slack == tail
      ensures reader.Valid()
    {
      hide HoldsLow, Bits, Concat, TablesFor, InCode;
      AssocBits(reader.Ahead(), Bits(Concat(chunks)), slack);
      if k == |syms| {
        LastFrom(syms, lens, selector);
        assert [] + rest == rest && [] + tail == tail;
      }
    }

    /** Waiting means that the message has not arrived in full. */
    lemma Incomplete()
      requires Valid() && k < |syms| && |reader.Ahead()| + |read| < |BitsNow()|
      ensures |future| > |tail|
    {
      WithinPrefix(syms, lens, selector, tail, k, read, rest);
    }
  }

  lemma ShortestFits(tables: seq<Table>, lens: seq<seq<nat>>, selector: seq<nat>, syms: seq<nat>, tail: seq<Bit>,
                     k: nat,
                     read: seq<Bit>, rest: seq<Bit>)
    requires TablesFor(tables, lens) && Within(syms, lens, selector, tail, k, read, rest) && k < |syms|
    ensures Codable(syms, lens, selector) && CodableAt(syms, lens, selector, k) && |tables| == |lens|
    ensures tables[selector[k / GROUP]].minLen <= |BitsAt(syms, lens, selector, k)| <= LONGEST
  {
    hide From;
    var ln := LensAt(lens, selector, k);
    assert TableFor(tables[selector[k / GROUP]], ln);
    assert LengthsOk(ln);
  }

  lemma LastFrom(syms: seq<nat>, lens: seq<seq<nat>>, selector: seq<nat>)
    requires Codable(syms, lens, selector)
    ensures From(syms, lens, selector, |syms|) == []
  {
  }

  lemma Arrived(ahead: seq<Bit>, b: seq<Bit>, future: seq<Bit>)
    requires b <= future
    ensures b + future[|b|..] == future && ahead + future == (ahead + b) + future[|b|..]
  {
  }

  lemma GroupOf(k: nat, groupNo: int, groupPos: nat)
    requires groupPos < GROUP && groupNo >= -1 && k + groupPos == GROUP * (groupNo + 1)
    ensures k / GROUP == if groupPos == 0 then groupNo + 1 else groupNo
  {
  }

  lemma TablesSize(tables: seq<Table>, lens: seq<seq<nat>>)
    requires TablesFor(tables, lens)
    ensures |tables| == |lens|
  {
  }

  lemma CodableHere(syms: seq<nat>, lens: seq<seq<nat>>, selector: seq<nat>, tail: seq<Bit>, k: nat, read: seq<Bit>,
                    rest: seq<Bit>)
    requires Within(syms, lens, selector, tail, k, read, rest) && k < |syms|
    ensures Codable(syms, lens, selector) && CodableAt(syms, lens, selector, k)
    ensures k / GROUP < |selector| && selector[k / GROUP] < |lens|
  {
    assert CodableAt(syms, lens, selector, k);
  }

  lemma LastBit(read: seq<Bit>, was: seq<Bit>, zj: nat)
    requires |read| == |was| + 1 && read[..|was|] == was && zj == Msb(read[|was|..])
    ensures Msb(read) == 2 * Msb(was) + zj
  {
    hide Msb;
    var b := read[|was|..];
    assert read == was + b;
    MsbAppend(was, b);
    assert Pow2(1) == 2;
  }

  // ------------------------------------------------------------------
  // A whole message

  /** The end-of-block symbol comes last, and only there. */
  ghost predicate Ended(syms: seq<nat>, eob: nat) {
    syms != [] && syms[|syms| - 1] == eob && forall k :: 0 <= k < |syms| - 1 ==> syms[k] != eob
  }

  predicate Done(got: seq<nat>, eob: nat) {
    got != [] && got[|got| - 1] == eob
  }

  lemma DoneWhen(got: seq<nat>, syms: seq<nat>, eob: nat)
    requires Ended(syms, eob) && got <= syms
    ensures Done(got, eob) <==> got == syms
  {
  }

  /**
   * Whatever pieces the bytes arrive in, and whatever follows the message in
   * the stream, the reader delivers its symbols and nothing else; all of
   * them once the message is there in full, and then nothing of what
   * follows has been used up.
   */
  method Receive(src: Source, tables: seq<Table>, selector: seq<nat>, eob: nat,
                 ghost syms: seq<nat>, ghost lens: seq<seq<nat>>, ghost tail: seq<Bit>)
    returns (got: seq<nat>)
    requires src.Valid() && TablesFor(tables, lens) && Codable(syms, lens, selector) && Ended(syms, eob)
    requires src.Rest() <= From(syms, lens, selector, 0) + tail
    modifies src, src.reader
    ensures got <= syms && src.Valid()
    ensures |old(src.Rest())| >= |From(syms, lens, selector, 0)| ==>
      got == syms && old(src.Rest()) == From(syms, lens, selector, 0) + src.Rest()
  {
    hide SymbolReader.Valid, From, Codable, TablesFor, Bits, HoldsLow, Concat, Ended, Done;
    ghost var all := From(syms, lens, selector, 0) + tail;
    ghost var start, slack := src.Rest(), all[|src.Rest()|..];
    AssocBits(src.reader.Ahead(), Bits(Concat(src.chunks)), slack);
    var s := new SymbolReader(src.reader, tables, selector, syms, lens, tail, Bits(Concat(src.chunks)) + slack);
    got := Deliver(s, eob, []);
    while !Done(got, eob) && src.chunks != []
      invariant s.Valid() && fresh(s) && s.reader == src.reader
      invariant s.syms == syms && s.lens == lens && s.selector == selector && s.tail == tail
      invariant s.k == |got| <= |syms| && got <= syms && s.future == Bits(Concat(src.chunks)) + slack
      invariant !Done(got, eob) ==> |s.future| > |tail|
      decreases |src.chunks|
    {
      var cs := src.chunks;
      NextPiece(cs, slack);
      s.Supply(cs[0]);
      src.chunks := cs[1..];
      CancelFront(Bits(cs[0]), s.future, Bits(Concat(src.chunks)) + slack);
      got := Deliver(s, eob, got);
    }
    DoneWhen(got, syms, eob);
    s.Served(src.chunks, slack);
    if got == syms {
      Remainder(start, slack, From(syms, lens, selector, 0), src.Rest(), tail);
    } else {
      NoBits();
    }
  }

  lemma NextPiece(chunks: seq<seq<Byte>>, slack: seq<Bit>)
    requires chunks != []
    ensures Bits(Concat(chunks)) + slack == Bits(chunks[0]) + (Bits(Concat(chunks[1..])) + slack)
  {
    hide Bits, Concat;
    assert chunks == [chunks[0]] + chunks[1..];
    ConcatCons(chunks[0], chunks[1..]);
    BitsAppend(chunks[0], Concat(chunks[1..]));
    AssocBits(Bits(chunks[0]), Bits(Concat(chunks[1..])), slack);
  }

  lemma NoBits()
    ensures Bits(Concat([])) == []
  {
  }

  /** Deliver symbols until the end of the block, or until the input runs out. */
  method Deliver(s: SymbolReader, eob: nat, before: seq<nat>) returns (got: seq<nat>)
    requires s.Valid() && s.k == |before| <= |s.syms| && before <= s.syms && Ended(s.syms, eob)
    modifies s, s.reader
    ensures s.Valid() && s.k == |got| <= |s.syms| && got <= s.syms && s.future == old(s.future)
    ensures !Done(got, eob) ==> |s.future| > |s.tail|
  {
    hide SymbolReader.Valid;
    got := before;
    while !Done(got, eob)
      invariant s.Valid() && s.k == |got| <= |s.syms| && got <= s.syms && s.future == old(s.future)
      decreases |s.syms| - |got|
    {
      DoneWhen(got, s.syms, eob);
      var r := s.Next();
      if r.More? {
        s.Incomplete();
        return;
      }
      got := got + [r.s];
    }
  }
}
