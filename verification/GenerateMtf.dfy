/**
 * generateMTFValues (compress.c): the last column of the sorted block is
 * read through ptr and coded into 16-bit symbols, which are written over
 * the memory that holds ptr.
 */
module GenerateMtf {
  import opened Sequences
  import opened Permutations
  import opened Rotations
  import opened Bwt
  import opened MoveToFront
  import M = MtfCoding

  /** arr1 as words: mem lists its 16-bit halves, the lower half of a word first. */
  function WordAt(mem: seq<nat>, i: nat): nat
    requires 2 * i + 1 < |mem|
  {
    mem[2 * i] + 65536 * mem[2 * i + 1]
  }

  /** The pointers from place i on are still there. */
  ghost predicate Unread(mem: seq<nat>, ptr: seq<int>, i: nat) {
    2 * |ptr| <= |mem| && forall k :: i <= k < |ptr| ==> WordAt(mem, k) == ptr[k]
  }

  /** mtfFreq counts the symbols written. */
  ghost predicate Counted(freq: seq<nat>, syms: seq<nat>) {
    && (forall s :: s in syms ==> s < |freq|)
    && forall s :: 0 <= s < |freq| ==> freq[s] == multiset(syms)[s]
  }

  class Writer {
    const mem: array<nat>
    const freq: array<nat>
    var wr: nat

    constructor (mem: array<nat>, symbols: nat)
      ensures this.mem == mem && fresh(freq) && freq.Length == symbols && wr == 0
      ensures Counted(freq[..], [])
    {
      this.mem := mem;
      freq := new nat[symbols](_ => 0);
      wr := 0;
    }

    ghost predicate Written(syms: seq<nat>)
      reads this, mem, freq
    {
      mem != freq && wr == |syms| <= mem.Length && mem[..wr] == syms && Counted(freq[..], syms)
    }

    /** mtfv[wr] = s; wr++; mtfFreq[s]++ */
    method Put(s: nat, ghost syms: seq<nat>)
      requires Written(syms) && s < freq.Length && wr < mem.Length
      modifies this`wr, mem, freq
      ensures Written(syms + [s]) && wr == old(wr) + 1
      ensures forall p :: wr <= p < mem.Length ==> mem[p] == old(mem[p])
    {
      mem[wr] := s;
      freq[s] := freq[s] + 1;
      wr := wr + 1;
      assert mem[..wr] == syms + [s];
    }

    /** Write out the zeros held back. */
    method PutRun(pend: nat, ghost syms: seq<nat>)
      requires Written(syms) && pend > 0 && wr + pend <= mem.Length && freq.Length >= 2
      modifies this`wr, mem, freq
      ensures Written(syms + M.Digits(pend)) && wr <= old(wr) + pend
      ensures forall p :: wr <= p < mem.Length ==> mem[p] == old(mem[p])
    {
      hide Written, M.Digits;
      M.DigitsShort(pend);
      ghost var done: seq<nat> := syms;
      WrittenSize(syms);
      var zPend := pend - 1;
      assert syms + [] == syms;
      while true
        invariant zPend >= 0 && Written(done) && done + M.Digits(zPend + 1) == syms + M.Digits(pend)
        invariant wr == |done| && wr + zPend + 1 <= mem.Length
        invariant forall p :: wr <= p < mem.Length ==> mem[p] == old(mem[p])
        decreases zPend
      {
        DigitsNext(zPend, done);
        var s: nat := if zPend % 2 == 1 then M.RUNB else M.RUNA;
        Put(s, done);
        done := done + [s];
        if zPend < 2 {
          assert done + [] == done;
          break;
        }
        zPend := (zPend - 2) / 2;
      }
      WrittenSize(done);
    }

    lemma WrittenSize(syms: seq<nat>)
      requires Written(syms)
      ensures wr == |syms|
    {
    }
  }

  lemma DigitsNext(z: nat, done: seq<nat>)
    ensures var s := if z % 2 == 1 then M.RUNB else M.RUNA;
      done + M.Digits(z + 1) == (done + [s]) + (if z < 2 then [] else M.Digits((z - 2) / 2 + 1))
  {
    hide M.Digits;
    var d, m := z % 2, if z < 2 then 0 else (z - 2) / 2 + 1;
    assert z + 1 == d + 1 + 2 * m;
    M.DigitsCons(d, m);
    DigitsNone();
    assert done + ([d] + M.Digits(m)) == (done + [d]) + M.Digits(m);
  }

  lemma DigitsNone()
    ensures M.Digits(0) == []
  {
  }

  /** Move x to the front of yy and return where it was; x is known not to be there already. */
  method ToFront(yy: array<nat>, n: nat, x: nat) returns (j: nat)
    requires 2 <= n <= yy.Length && x in yy[..n] && yy[0] != x
    modifies yy
    ensures j == M.Find(old(yy[..n]), x) > 0 && yy[..n] == Front(old(yy[..n]), j)
  {
    ghost var was := yy[..n];
    ghost var k := M.Find(was, x);
    FindFirst(was, x);
    var tmp := yy[1];
    yy[1] := yy[0];
    j := 1;
    while x != tmp
      invariant 1 <= j <= k && tmp == was[j] && yy[0] == was[0]
      invariant forall i :: 1 <= i <= j ==> yy[i] == was[i - 1]
      invariant forall i :: j < i < n ==> yy[i] == was[i]
      decreases k - j
    {
      j := j + 1;
      var tmp2 := tmp;
      tmp := yy[j];
      yy[j] := tmp2;
    }
    yy[0] := tmp;
    assert yy[..n] == Front(was, j);
  }

  lemma {:induction false} FindFirst(list: seq<nat>, x: nat)
    requires x in list
    ensures forall i :: 0 <= i < M.Find(list, x) ==> list[i] != x
  {
    if list[0] != x {
      assert x in list[1..];
      FindFirst(list[1..], x);
    }
  }

  // ------------------------------------------------------------------
  // The bytes in use

  /** The bytes below k that occur, in order. */
  function Used(inUse: seq<bool>, k: nat): (r: seq<Byte>)
    requires k <= |inUse| == 256
    ensures |r| <= k && forall i :: 0 <= i < |r| ==> r[i] < k && inUse[r[i]]
  {
    if k == 0 then [] else if inUse[k - 1] then Used(inUse, k - 1) + [k - 1] else Used(inUse, k - 1)
  }

  lemma {:induction false} UsedAll(inUse: seq<bool>, k: nat, c: Byte)
    requires k <= |inUse| == 256 && c < k && inUse[c]
    ensures c in Used(inUse, k)
  {
    if c < k - 1 { UsedAll(inUse, k - 1, c); }
  }

  /** unseqToSeq numbers the bytes in use. */
  ghost predicate Numbers(unseqToSeq: seq<nat>, used: seq<Byte>)
    ensures Numbers(unseqToSeq, used) ==> |unseqToSeq| == 256
  {
    |unseqToSeq| == 256 && forall i :: 0 <= i < |used| ==> unseqToSeq[used[i]] == i
  }

  /** makeMaps_e */
  method MakeMapsE(inUse: array<bool>) returns (unseqToSeq: array<nat>, nInUse: nat)
    requires inUse.Length == 256
    ensures fresh(unseqToSeq) && Numbers(unseqToSeq[..], Used(inUse[..], 256)) && nInUse == |Used(inUse[..], 256)|
  {
    unseqToSeq := new nat[256](_ => 0);
    nInUse := 0;
    for i := 0 to 256
      invariant nInUse == |Used(inUse[..], i)| && Numbers(unseqToSeq[..], Used(inUse[..], i))
    {
      if inUse[i] {
        unseqToSeq[i] := nInUse;
        nInUse := nInUse + 1;
      }
    }
  }

  /** makeMaps_d */
  method MakeMapsD(inUse: array<bool>) returns (seqToUnseq: array<nat>, nInUse: nat)
    requires inUse.Length == 256
    ensures fresh(seqToUnseq) && seqToUnseq.Length == 256
    ensures nInUse == |Used(inUse[..], 256)| && seqToUnseq[..nInUse] == Used(inUse[..], 256)
    ensures forall x :: 0 <= x < 256 ==> seqToUnseq[x] < 256
  {
    seqToUnseq := new nat[256](_ => 0);
    nInUse := 0;
    for i := 0 to 256
      invariant nInUse == |Used(inUse[..], i)| && seqToUnseq[..nInUse] == Used(inUse[..], i)
      invariant forall x :: 0 <= x < 256 ==> seqToUnseq[x] < 256
    {
      if inUse[i] {
        seqToUnseq[nInUse] := i;
        nInUse := nInUse + 1;
      }
    }
  }

  /** The last column, its bytes numbered. */
  ghost function Numbered(l: seq<Byte>, unseqToSeq: seq<nat>): (r: seq<nat>)
    requires |unseqToSeq| == 256
    ensures |r| == |l| && forall i :: 0 <= i < |l| ==> r[i] == unseqToSeq[l[i]]
  {
    seq(|l|, i requires 0 <= i < |l| => unseqToSeq[l[i]])
  }

  // ------------------------------------------------------------------
  // The loop

  /** Everything still to be written, given what has been. */
  ghost predicate Owed(all: seq<nat>, syms: seq<nat>, ls: seq<nat>, i: nat, list: seq<nat>, pend: nat, eob: nat) {
    && i <= |ls| && list != [] && (forall x :: x in ls ==> x in list)
    && (forall x :: x in ls[i..] ==> x in list)
    && all == syms + M.Encode(ls[i..], list, pend, eob)
    && |syms| + pend <= i
  }

  lemma OwedZero(all: seq<nat>, syms: seq<nat>, ls: seq<nat>, i: nat, list: seq<nat>, pend: nat, eob: nat)
    requires Owed(all, syms, ls, i, list, pend, eob) && i < |ls| && list[0] == ls[i]
    ensures Owed(all, syms, ls, i + 1, list, pend + 1, eob)
  {
    assert ls[i..][1..] == ls[i + 1..];
  }

  lemma OwedPosition(all: seq<nat>, syms: seq<nat>, ls: seq<nat>, i: nat, list: seq<nat>, pend: nat, eob: nat, j: nat)
    requires Owed(all, syms, ls, i, list, pend, eob) && i < |ls| && list[0] != ls[i] && ls[i] in list &&
      j == M.Find(list, ls[i])
    ensures Owed(all, syms + M.Digits(pend) + [j + 1], ls, i + 1, Front(list, j), 0, eob)
  {
    hide M.Digits, M.Find, M.Encode;
    assert ls[i..][1..] == ls[i + 1..];
    M.FrontIn(list, j);
    M.DigitsShort(pend);
    PositionCode(ls[i..], list, pend, eob, j);
    Regroup(syms, M.Digits(pend), [j + 1], M.Encode(ls[i + 1..], Front(list, j), 0, eob));
  }

  lemma PositionCode(ls: seq<nat>, list: seq<nat>, pend: nat, eob: nat, j: nat)
    requires list != [] && ls != [] && (forall x :: x in ls ==> x in list) && list[0] != ls[0] &&
      j == M.Find(list, ls[0])
    ensures forall x :: x in ls[1..] ==> x in Front(list, j)
    ensures M.Encode(ls, list, pend, eob) == M.Digits(pend) + [j + 1] + M.Encode(ls[1..], Front(list, j), 0, eob)
  {
    hide M.Digits, M.Find;
    M.FrontIn(list, j);
  }

  lemma Regroup(a: seq<nat>, b: seq<nat>, c: seq<nat>, d: seq<nat>)
    ensures a + (b + c + d) == (a + b + c) + d
  {
  }

  lemma OwedEnd(all: seq<nat>, syms: seq<nat>, ls: seq<nat>, list: seq<nat>, pend: nat, eob: nat)
    requires Owed(all, syms, ls, |ls|, list, pend, eob)
    ensures all == syms + M.Digits(pend) + [eob]
  {
    assert ls[|ls|..] == [];
  }

  /** A byte that is not at the front: write out the run before it and its position. */
  method PutPosition(w: Writer, yy: array<nat>, n: nat, x: nat, pend: nat,
                     ghost all: seq<nat>, ghost syms: seq<nat>, ghost ls: seq<nat>, ghost i: nat, ghost eob: nat)
    returns (ghost syms': seq<nat>)
    requires w.Written(syms) && yy != w.mem && yy != w.freq && 1 <= n <= yy.Length && w.freq.Length == n + 2
    requires Owed(all, syms, ls, i, yy[..n], pend, eob) && i < |ls| && x == ls[i] && yy[0] != x && i < w.mem.Length
    modifies w`wr, w.mem, w.freq, yy
    ensures w.Written(syms') && Owed(all, syms', ls, i + 1, yy[..n], 0, eob)
    ensures forall p :: i + 1 <= p < w.mem.Length ==> w.mem[p] == old(w.mem[p])
  {
    hide M.Digits, M.Find, M.Encode, Writer.Written;
    w.WrittenSize(syms);
    assert x in ls;
    syms' := syms;
    if pend > 0 {
      w.PutRun(pend, syms);
      syms' := syms + M.Digits(pend);
    } else {
      DigitsNone();
      assert syms + [] == syms;
    }
    w.WrittenSize(syms');
    M.DigitsShort(pend);
    ghost var list := yy[..n];
    var j := ToFront(yy, n, x);
    OwedPosition(all, syms, ls, i, list, pend, eob, j);
    w.Put(j + 1, syms');
    syms' := syms' + [j + 1];
  }

  /** The number of a byte of the block in the list of bytes in use. */
  lemma NumberedIn(l: seq<Byte>, inUse: seq<bool>, unseqToSeq: seq<nat>)
    requires |inUse| == 256 && Numbers(unseqToSeq, Used(inUse, 256)) && forall c: Byte :: c in l ==> inUse[c]
    ensures forall x :: x in Numbered(l, unseqToSeq) ==> x in Upto(|Used(inUse, 256)|)
  {
    var ls, used := Numbered(l, unseqToSeq), Used(inUse, 256);
    forall x | x in ls ensures x in Upto(|used|) {
      var i :| 0 <= i < |ls| && ls[i] == x;
      assert l[i] in l;
      UsedAll(inUse, 256, l[i]);
      var k :| 0 <= k < |used| && used[k] == l[i];
      assert x == k && Upto(|used|)[k] == k;
    }
  }

  lemma OwedStart(ls: seq<nat>, list: seq<nat>, eob: nat)
    requires list != [] && forall x :: x in ls ==> x in list
    ensures Owed(M.Encode(ls, list, 0, eob), [], ls, 0, list, 0, eob)
  {
    assert ls[0..] == ls;
    assert [] + M.Encode(ls, list, 0, eob) == M.Encode(ls, list, 0, eob);
  }

  /** The symbols of a block, as the specification gives them. */
  ghost function SymbolsOf(b: Block, ptr: seq<int>, inUse: seq<bool>, unseqToSeq: seq<nat>): (r: seq<nat>)
    requires |ptr| == |b| && InRange(ptr, 0, |b|) && |inUse| == 256
    requires Numbers(unseqToSeq, Used(inUse, 256)) && forall c: Byte :: c in b ==> inUse[c]
  {
    var l := LastColumn(b, ptr);
    ColumnBytes(b, ptr);
    NumberedIn(l, inUse, unseqToSeq);
    SomeUsed(b, inUse);
    var n := |Used(inUse, 256)|;
    M.Encode(Numbered(l, unseqToSeq), Upto(n), 0, n + 1)
  }

  lemma ColumnBytes(b: Block, ptr: seq<int>)
    requires |ptr| == |b| && InRange(ptr, 0, |b|)
    ensures forall c: Byte :: c in LastColumn(b, ptr) ==> c in b
  {
  }

  lemma SomeUsed(b: Block, inUse: seq<bool>)
    requires |inUse| == 256 && forall c: Byte :: c in b ==> inUse[c]
    ensures Used(inUse, 256) != []
  {
    assert b[0] in b;
    UsedAll(inUse, 256, b[0]);
  }

  /** generateMTFValues */
  method Generate(mem: array<nat>, block: array<Byte>, nblock: nat, inUse: array<bool>, ghost ptr: seq<int>)
    returns (nMTF: nat, mtfFreq: array<nat>, unseqToSeq: array<nat>, nInUse: nat)
    requires 1 <= nblock <= block.Length && |ptr| == nblock && InRange(ptr, 0, nblock) && Unread(mem[..], ptr, 0)
    requires inUse.Length == 256 && forall c: Byte :: c in block[..nblock] ==> inUse[c]
    modifies mem
    ensures fresh(mtfFreq) && fresh(unseqToSeq) && nInUse == |Used(inUse[..], 256)| && mtfFreq.Length == nInUse + 2
    ensures Numbers(unseqToSeq[..], Used(inUse[..], 256)) && nMTF <= mem.Length
    ensures mem[..nMTF] == SymbolsOf(block[..nblock], ptr, inUse[..], unseqToSeq[..])
    ensures Counted(mtfFreq[..], mem[..nMTF]) && nMTF <= nblock + 1
  {
    hide M.Encode, Numbers, Used, Unread, Owed, Counted, Writer.Written;
    unseqToSeq, nInUse := MakeMapsE(inUse);
    var yy := new nat[256](_ => 0);
    InitList(yy);
    UnreadSize(mem[..], ptr);
    nMTF, mtfFreq := Loop(mem, block, nblock, inUse, unseqToSeq, nInUse, yy, ptr);
  }

  method InitList(yy: array<nat>)
    modifies yy
    ensures forall i :: 0 <= i < yy.Length ==> yy[i] == i
  {
    for i := 0 to yy.Length
      invariant forall k :: 0 <= k < i ==> yy[k] == k
    {
      yy[i] := i;
    }
  }

  lemma UnreadSize(mem: seq<nat>, ptr: seq<int>)
    requires Unread(mem, ptr, 0)
    ensures 2 * |ptr| <= |mem|
  {
  }

  /** Read the byte before rotation i's start, through a pointer that has not been overwritten. */
  method ColumnByte(mem: array<nat>, block: array<Byte>, nblock: nat, i: nat, ghost ptr: seq<int>) returns (c: Byte)
    requires 1 <= nblock <= block.Length && |ptr| == nblock && InRange(ptr, 0, nblock) && i < nblock &&
      Unread(mem[..], ptr, i)
    ensures c == LastColumn(block[..nblock], ptr)[i]
  {
    assert WordAt(mem[..], i) == ptr[i];
    var j := (mem[2 * i] + 65536 * mem[2 * i + 1]) as int - 1;
    if j < 0 {
      j := j + nblock;
    }
    c := block[j];
  }

  method Loop(mem: array<nat>, block: array<Byte>, nblock: nat, inUse: array<bool>, unseqToSeq: array<nat>, nInUse: nat,
              yy: array<nat>, ghost ptr: seq<int>)
    returns (nMTF: nat, mtfFreq: array<nat>)
    requires 1 <= nblock <= block.Length && |ptr| == nblock && InRange(ptr, 0, nblock) && Unread(mem[..], ptr, 0)
    requires inUse.Length == 256 && forall c: Byte :: c in block[..nblock] ==> inUse[c]
    requires unseqToSeq != mem && unseqToSeq != yy && yy != mem && 2 * nblock <= mem.Length
    requires Numbers(unseqToSeq[..], Used(inUse[..], 256)) && nInUse == |Used(inUse[..], 256)|
    requires nInUse <= yy.Length && forall i :: 0 <= i < yy.Length ==> yy[i] == i
    modifies mem, yy
    ensures fresh(mtfFreq) && mtfFreq.Length == nInUse + 2 && nMTF <= mem.Length && nMTF <= nblock + 1
    ensures mem[..nMTF] == SymbolsOf(block[..nblock], ptr, inUse[..], unseqToSeq[..])
    ensures Counted(mtfFreq[..], mem[..nMTF])
  {
    hide M.Encode, Numbers, Used, Unread, Owed, Counted, SymbolsOf;
    ghost var b, l := block[..nblock], LastColumn(block[..nblock], ptr);
    ghost var ls, eob, all := Numbered(l, unseqToSeq[..]), nInUse + 1, SymbolsOf(b, ptr, inUse[..], unseqToSeq[..]);
    Begin(b, ptr, inUse[..], unseqToSeq[..], yy[..nInUse]);
    var w := new Writer(mem, nInUse + 2);
    var zPend := 0;
    ghost var syms: seq<nat> := [];
    for i := 0 to nblock
      invariant w.Written(syms) && Owed(all, syms, ls, i, yy[..nInUse], zPend, eob) && Unread(mem[..], ptr, i)
      invariant 1 <= nInUse && w.mem == mem && fresh(w) && fresh(w.freq) && yy != w.freq &&
        unseqToSeq[..] == old(unseqToSeq[..])
      invariant block[..nblock] == b && inUse[..] == old(inUse[..])
    {
      var c := ColumnByte(mem, block, nblock, i, ptr);
      var x := unseqToSeq[c];
      assert x == ls[i];
      ghost var before := mem[..];
      if yy[0] == x {
        OwedZero(all, syms, ls, i, yy[..nInUse], zPend, eob);
        zPend := zPend + 1;
      } else {
        syms := PutPosition(w, yy, nInUse, x, zPend, all, syms, ls, i, eob);
        zPend := 0;
      }
      UnreadNext(before, mem[..], ptr, i);
    }
    Finish(w, zPend, nInUse + 1, all, syms, ls, yy[..nInUse]);
    nMTF, mtfFreq := w.wr, w.freq;
  }

  lemma UnreadNext(mem: seq<nat>, mem': seq<nat>, ptr: seq<int>, i: nat)
    requires Unread(mem, ptr, i) && |mem'| == |mem| && forall p :: i + 1 <= p < |mem| ==> mem'[p] == mem[p]
    ensures Unread(mem', ptr, i + 1)
  {
    forall k | i + 1 <= k < |ptr| ensures WordAt(mem', k) == ptr[k] {
      assert WordAt(mem, k) == ptr[k];
    }
  }

  lemma Begin(b: Block, ptr: seq<int>, inUse: seq<bool>, unseqToSeq: seq<nat>, list: seq<nat>)
    requires |ptr| == |b| && InRange(ptr, 0, |b|) && |inUse| == 256
    requires Numbers(unseqToSeq, Used(inUse, 256)) && forall c: Byte :: c in b ==> inUse[c]
    requires |list| == |Used(inUse, 256)| && forall i :: 0 <= i < |list| ==> list[i] == i
    ensures |unseqToSeq| == 256 && list != []
    ensures Owed(SymbolsOf(b, ptr, inUse, unseqToSeq), [], Numbered(LastColumn(b, ptr), unseqToSeq), 0, list, 0, |list| + 1)
  {
    hide M.Encode, Used, Owed;
    var l := LastColumn(b, ptr);
    ColumnBytes(b, ptr);
    NumberedIn(l, inUse, unseqToSeq);
    SomeUsed(b, inUse);
    assert list == Upto(|list|);
    OwedStart(Numbered(l, unseqToSeq), list, |list| + 1);
  }

  /** The last run and the end of the block. */
  method Finish(w: Writer, pend: nat, eob: nat, ghost all: seq<nat>, ghost syms: seq<nat>, ghost ls: seq<nat>,
                ghost list: seq<nat>)
    requires w.Written(syms) && Owed(all, syms, ls, |ls|, list, pend, eob) && |ls| < w.mem.Length &&
      w.freq.Length == eob + 1 && eob >= 2
    modifies w`wr, w.mem, w.freq
    ensures w.Written(all) && w.wr <= |ls| + 1
  {
    hide M.Encode, M.Digits, Writer.Written;
    OwedEnd(all, syms, ls, list, pend, eob);
    w.WrittenSize(syms);
    M.DigitsShort(pend);
    ghost var syms' := syms;
    if pend > 0 {
      w.PutRun(pend, syms);
      syms' := syms + M.Digits(pend);
    } else {
      DigitsNone();
      assert syms + [] == syms;
    }
    w.WrittenSize(syms');
    w.Put(eob, syms');
  }
}
