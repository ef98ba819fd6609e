/**
 * The output side of bzip2's decompressor: the bytes of a block are fetched
 * along T^-1, from either memory layout, and run-length decoded into
 * whatever room the caller's buffers have.
 */
module BzDecode {
  import opened Sequences
  import opened Powers
  import opened Permutations
  import opened Rotations
  import opened Bwt
  import opened BwtTables
  import opened InitialRle

  // ------------------------------------------------------------------
  // The block a last column stands for

  ghost function ForwardLinks(l: Block): (f: seq<int>)
    ensures |f| == |l| && forall k :: 0 <= k < |l| ==> f[k] == LF(l, k)
  {
    seq(|l|, k requires 0 <= k < |l| => LF(l, k))
  }

  lemma ForwardPerm(l: Block)
    ensures IsPerm(ForwardLinks(l))
  {
    var f := ForwardLinks(l);
    forall k | 0 <= k < |f| ensures 0 <= f[k] < |f| {
      LFBound(l, k);
    }
    forall j, k | 0 <= j < k < |f| ensures f[j] != f[k] {
      if l[j] > l[k] { LFMono(l, k, j); } else { LFMono(l, j, k); }
    }
  }

  ghost function BackLinks(l: Block): (t: seq<int>)
    ensures InvertsLF(l, t) && IsPerm(t)
  {
    ForwardPerm(l);
    var f := ForwardLinks(l);
    var t := seq(|l|, r requires 0 <= r < |l| => Index(f, r));
    assert InvertsLF(l, t) by { BackInverts(l, f, t); }
    InverseIsPerm(l, t);
    t
  }

  lemma BackInverts(l: Block, f: seq<int>, t: seq<int>)
    requires f == ForwardLinks(l) && IsPerm(f) && |t| == |l| && forall r :: 0 <= r < |l| ==> t[r] == Index(f, r)
    ensures InvertsLF(l, t)
  {
    forall k | 0 <= k < |l| ensures LF(l, k) < |l| && t[LF(l, k)] == k {
      LFBound(l, k);
      assert f[k] == LF(l, k);
      IndexUnique(f, k);
    }
  }

  lemma BackUnique(l: Block, t: seq<int>)
    requires InvertsLF(l, t)
    ensures t == BackLinks(l)
  {
    InverseIsPerm(l, t);
    var u := BackLinks(l);
    InverseIsPerm(l, u);
    forall a | 0 <= a < |l| ensures t[a] == u[a] {
      LFBound(l, t[a]);
      assert u[LF(l, t[a])] == t[a];
    }
  }

  /** The block: walk T^-1 from origPtr over the last column. */
  ghost function BlockOf(l: Block, origPtr: nat): (b: Block)
    requires origPtr < |l|
    ensures |b| == |l|
  {
    var t := BackLinks(l);
    Walk(l, t, t[origPtr], |l|)
  }

  /** The row k links on from r. */
  ghost function Row(t: seq<int>, r: nat, k: nat): (x: nat)
    requires InRange(t, 0, |t|) && r < |t|
    ensures x < |t|
    decreases k
  {
    if k == 0 then r else Row(t, t[r], k - 1)
  }

  lemma {:induction false} RowNext(t: seq<int>, r: nat, k: nat)
    requires InRange(t, 0, |t|) && r < |t|
    ensures Row(t, r, k + 1) == t[Row(t, r, k)]
    decreases k
  {
    if k > 0 {
      RowNext(t, t[r], k - 1);
    }
  }

  lemma {:induction false} WalkRow(l: seq<Byte>, t: seq<int>, r: nat, n: nat, k: nat)
    requires |t| == |l| && InRange(t, 0, |l|) && r < |l| && k < n
    ensures Walk(l, t, r, n)[k] == l[Row(t, r, k)]
    decreases k
  {
    if k > 0 {
      WalkRow(l, t, t[r], n - 1, k - 1);
    }
  }

  // ------------------------------------------------------------------
  // Reading the first column

  /** BZ2_indexIntoF: which byte's range a row falls into. */
  method IndexIntoF(indx: int, cftab: array<int>, ghost l: seq<Byte>) returns (nb: int)
    requires Cumulative(cftab[..], l) && 0 <= indx < |l|
    ensures 0 <= nb < 256 && CountLess(l, nb, |l|) <= indx < CountLess(l, nb + 1, |l|)
  {
    hide CountLess;
    CountLessAll(l, |l|);
    var cf := cftab[..];
    assert cf[0] == 0 && cf[256] == |l|;
    nb := 0;
    var na := 256;
    while na - nb != 1
      invariant 0 <= nb < na <= 256 && cftab[nb] <= indx < cftab[na]
      decreases na - nb
    {
      var mid := (nb + na) / 2;
      if indx >= cftab[mid] {
        nb := mid;
      } else {
        na := mid;
      }
    }
    assert cf[nb] == CountLess(l, nb, |l|) && cf[nb + 1] == CountLess(l, nb + 1, |l|);
  }

  /** The byte whose range holds row r is the byte that row t[r] of the last column holds. */
  lemma ByteOfRow(l: Block, t: seq<int>, r: nat, c: int)
    requires InvertsLF(l, t) && IsPerm(t) && r < |l|
    requires 0 <= c < 256 && CountLess(l, c, |l|) <= r < CountLess(l, c + 1, |l|)
    ensures c == l[t[r]]
  {
    InverseIsPerm(l, t);
    var k, d := t[r], l[t[r]];
    LFBound(l, k);
    CountLessStep(l, c, |l|);
    CountLessStep(l, d, |l|);
    if c < d {
      CountLessMono(l, c, d, |l|);
    } else if d < c {
      CountLessMono(l, d, c, |l|);
    }
  }

  // ------------------------------------------------------------------
  // Fetching and run-length decoding

  /**
   * What the decoder writes for a coded string, even one that breaks off
   * after four equal bytes: the byte x fetched beyond the end then serves
   * as the count.
   */
  function Written(s: seq<Byte>, x: Byte): (r: seq<Byte>)
    ensures Whole(s) ==> r == Unrle(s)
  {
    if s == [] then []
    else
      var k := Lead(s);
      if k < 4 then Rep(s[0], k) + Written(s[k..], x)
      else if |s| > 4 then Rep(s[0], s[4] as nat + 4) + Written(s[5..], x)
      else Rep(s[0], x as nat + 4)
  }

  /** What is left of the block when `used` bytes have been fetched, the last one not yet acted on. */
  ghost predicate Owing(b: seq<Byte>, x: Byte, used: nat, k0: Byte, ch: Byte, len: nat, emitted: seq<Byte>) {
    && 1 <= used <= |b| + 2
    && (used <= |b| ==> k0 == b[used - 1])
    && (used == |b| + 2 ==> !Whole(b) && emitted + Rep(ch, len) == Written(b, x))
    && (used <= |b| + 1 ==>
        var rest := b[used - 1..];
        && (Whole(b) <==> Whole(rest))
        && emitted + Rep(ch, len) + Written(rest, x) == Written(b, x))
  }

  /** A run has been taken off the block from place p on. */
  ghost predicate RunTaken(b: seq<Byte>, x: Byte, p: nat, used: nat, k0: Byte, ch: Byte, len: nat)
    requires p < |b|
  {
    var rest := b[p..];
    && ch == rest[0] && (used <= |b| ==> used >= 1 && k0 == b[used - 1])
    && (if Lead(rest) < 4 then len == Lead(rest) && used == p + 1 + Lead(rest)
        else if |rest| >= 5 then len == rest[4] as nat + 4 && used == p + 6
        else len == x as nat + 4 && used == |b| + 2)
  }

  lemma OwingRun(b: seq<Byte>, x: Byte, p: nat, used: nat, k0: Byte, ch: Byte, len: nat, k0': Byte, ch': Byte,
                 emitted: seq<Byte>)
    requires p < |b| && Owing(b, x, p + 1, k0', ch', 0, emitted) && RunTaken(b, x, p, used, k0, ch, len)
    ensures Owing(b, x, used, k0, ch, len, emitted)
  {
    hide Rep, Lead, Written, Whole;
    var rest := b[p..];
    assert emitted + Written(rest, x) == Written(b, x) by {
      RepNone(ch');
      assert emitted + [] == emitted;
    }
    if Lead(rest) < 4 {
      assert b[used - 1..] == rest[Lead(rest)..];
      WrittenStep(rest, x);
    } else if |rest| >= 5 {
      assert b[used - 1..] == rest[5..];
      WrittenStep(rest, x);
    } else {
      WrittenEnd(rest, x);
    }
  }

  lemma RepNone(c: Byte)
    ensures Rep(c, 0) == []
  {
  }

  lemma WrittenEnd(s: seq<Byte>, x: Byte)
    requires s != [] && Lead(s) == 4 && |s| == 4
    ensures !Whole(s) && Written(s, x) == Rep(s[0], x as nat + 4)
  {
  }

  lemma WrittenStep(s: seq<Byte>, x: Byte)
    requires s != [] && (Lead(s) < 4 || |s| >= 5)
    ensures var n, k := if Lead(s) < 4 then Lead(s) else s[4] as nat + 4, if Lead(s) < 4 then Lead(s) else 5;
      (Whole(s) <==> Whole(s[k..])) && Written(s, x) == Rep(s[0], n) + Written(s[k..], x)
  {
    hide Rep;
  }

  lemma OwingEmit(b: seq<Byte>, x: Byte, used: nat, k0: Byte, ch: Byte, len: nat, emitted: seq<Byte>)
    requires Owing(b, x, used, k0, ch, len, emitted) && len > 0
    ensures Owing(b, x, used, k0, ch, len - 1, emitted + [ch])
  {
    hide Written, Whole;
    assert Rep(ch, len) == [ch] + Rep(ch, len - 1);
    assert emitted + ([ch] + Rep(ch, len - 1)) == emitted + [ch] + Rep(ch, len - 1);
  }

  class DState {
    const small: bool
    const nblock: nat
    const tt: array<int>
    const ll16: array<int>
    const ll4: array<int>
    const cftab: array<int>
    var tPos: nat
    var nblockUsed: nat
    var k0: Byte
    var stateOutCh: Byte
    var stateOutLen: nat
    ghost const l: Block
    ghost const origPtr: nat
    ghost const v: seq<int>
    ghost const cycle: set<int>
    ghost var emitted: seq<Byte>

    /** BZ_X_OUTPUT is entered with T^-1 in tt. */
    constructor Fast(tt: array<int>, ghost l: Block, origPtr: nat)
      requires origPtr < tt.Length == |l|
      requires var t := BackLinks(l); forall r :: 0 <= r < |l| ==> tt[r] == l[r] + 256 * t[r]
      ensures Linked() && At(0) && nblockUsed == 0 && stateOutLen == 0 && stateOutCh == 0
      ensures !small && this.l == l && this.origPtr == origPtr && emitted == []
    {
      hide Row, InvertsLF, LF;
      small, nblock, this.tt := false, tt.Length, tt;
      ll16, ll4, cftab := new int[0], new int[0], new int[0];
      this.l, this.origPtr, v, cycle := l, origPtr, [], {};
      tPos, nblockUsed, k0, stateOutCh, stateOutLen, emitted := tt[origPtr] / 256, 0, 0, 0, 0, [];
      new;
      DivModUnique(tt[origPtr], 256, BackLinks(l)[origPtr], l[origPtr]);
      RowNone(BackLinks(l), BackLinks(l)[origPtr]);
    }

    /** The same with the cycle of origPtr turned round in ll16 and ll4. */
    constructor Small(ll16: array<int>, ll4: array<int>, cftab: array<int>, ghost l: Block, origPtr: nat,
                      ghost v: seq<int>, ghost cycle: set<int>)
      requires origPtr < ll16.Length == |l| && 2 * ll4.Length >= |l| && Cumulative(cftab[..], l)
      requires Holds20(ll16[..], ll4[..], v) && Turned(v, BackLinks(l), cycle, origPtr)
      ensures Linked() && At(0) && nblockUsed == 0 && stateOutLen == 0 && stateOutCh == 0
      ensures small && this.l == l && this.origPtr == origPtr && emitted == []
    {
      hide Row, InvertsLF, LF, Holds20, Cumulative;
      HoldsSize(ll16[..], ll4[..], v);
      CumulativeSize(cftab[..], l);
      small, nblock, tt := true, ll16.Length, new int[0];
      this.ll16, this.ll4, this.cftab := ll16, ll4, cftab;
      this.l, this.origPtr, this.v, this.cycle := l, origPtr, v, cycle;
      tPos, nblockUsed, k0, stateOutCh, stateOutLen, emitted := origPtr, 0, 0, 0, 0, [];
      new;
      RowNone(BackLinks(l), origPtr);
    }

    /** The first byte is fetched ahead. */
    method Start()
      requires Linked() && At(0) && nblockUsed == 0 && stateOutLen == 0 && stateOutCh == 0 && emitted == []
      modifies this`tPos, this`nblockUsed, this`k0
      ensures Valid()
    {
      hide Linked, At, BlockOf, Owing, Stream;
      k0 := Fetch();
      OwingStart(BlockOf(l, origPtr), Stream(nblock), k0);
    }

    ghost predicate Sized()
    {
      && |l| == nblock && origPtr < nblock
      && (!small ==> tt.Length == nblock)
      && (small ==> ll16.Length == nblock && |v| == nblock && 2 * ll4.Length >= nblock && cftab.Length == 257)
    }

    /** The tables hold T^-1, at least along the cycle of origPtr. */
    ghost predicate Linked()
      reads tt, ll16, ll4, cftab
      ensures Linked() ==> Sized()
    {
      && Sized()
      && var t := BackLinks(l);
         && (!small ==> forall r :: 0 <= r < nblock ==> tt[r] == l[r] + 256 * t[r])
         && (small ==> Holds20(ll16[..], ll4[..], v) && Turned(v, t, cycle, origPtr) && Cumulative(cftab[..], l))
    }

    /** m bytes have been fetched. */
    ghost predicate At(m: nat)
      reads this`tPos
      requires Sized()
    {
      var t := BackLinks(l);
      if small then tPos == Row(t, origPtr, m) && tPos in cycle else tPos == Row(t, t[origPtr], m)
    }

    /** The byte fetched after m others. */
    ghost function Stream(m: nat): Byte
      requires Sized()
    {
      var t := BackLinks(l);
      l[Row(t, t[origPtr], m)]
    }

    /** BZ_GET_FAST; the check on tPos never fires, since links stay below nblock. */
    method GetFast(ghost m: nat) returns (c: Byte)
      requires Linked() && !small && At(m)
      modifies this`tPos
      ensures At(m + 1) && c == Stream(m)
    {
      hide Row, LF, InvertsLF;
      ghost var t := BackLinks(l);
      RowNext(t, t[origPtr], m);
      DivModUnique(tt[tPos], 256, t[tPos], l[tPos]);
      assert tPos < nblock;
      var w := tt[tPos];
      c := w % 256;
      tPos := w / 256;
    }

    /** BZ_GET_SMALL */
    method GetSmall(ghost m: nat) returns (c: Byte)
      requires Linked() && small && At(m)
      modifies this`tPos
      ensures At(m + 1) && c == Stream(m)
    {
      hide Row, LF, InvertsLF, Holds20, Cumulative;
      ghost var t := BackLinks(l);
      RowNext(t, origPtr, m);
      RowShift(t, origPtr, m);
      assert tPos < nblock;
      var b := IndexIntoF(tPos, cftab, l);
      ByteOfRow(l, t, tPos, b);
      c := b;
      var next := Get(ll16, ll4, tPos, v);
      tPos := next;
    }

    lemma StreamBlock(m: nat)
      requires Sized() && m < nblock
      ensures Stream(m) == BlockOf(l, origPtr)[m]
    {
      var t := BackLinks(l);
      WalkRow(l, t, t[origPtr], nblock, m);
    }

    ghost predicate Valid()
      reads this, tt, ll16, ll4, cftab
    {
      && Linked() && At(nblockUsed)
      && Owing(BlockOf(l, origPtr), Stream(nblock), nblockUsed, k0, stateOutCh, stateOutLen, emitted)
    }

    /** Fetch one more byte and count it. */
    method Fetch() returns (c: Byte)
      requires Linked() && At(nblockUsed)
      modifies this`tPos, this`nblockUsed
      ensures At(nblockUsed) && nblockUsed == old(nblockUsed) + 1
      ensures nblockUsed <= nblock ==> c == BlockOf(l, origPtr)[nblockUsed - 1]
      ensures nblockUsed == nblock + 1 ==> c == Stream(nblock)
    {
      hide Linked, Row, BlockOf, InvertsLF;
      if nblockUsed < nblock {
        StreamBlock(nblockUsed);
      }
      if small {
        c := GetSmall(nblockUsed);
      } else {
        c := GetFast(nblockUsed);
      }
      nblockUsed := nblockUsed + 1;
    }

    /** A new run, as the SMALL decoder starts it. */
    method NewRunSmall()
      requires Linked() && At(nblockUsed) && 1 <= nblockUsed <= nblock
      requires k0 == BlockOf(l, origPtr)[nblockUsed - 1]
      modifies this`tPos, this`nblockUsed, this`k0, this`stateOutCh, this`stateOutLen
      ensures At(nblockUsed)
      ensures RunTaken(BlockOf(l, origPtr), Stream(nblock), old(nblockUsed) - 1, nblockUsed, k0, stateOutCh, stateOutLen)
    {
      hide Linked, At, BlockOf, Stream;
      ghost var b, p := BlockOf(l, origPtr), nblockUsed - 1;
      ghost var rest := b[p..];
      stateOutLen := 1;
      stateOutCh := k0;
      var k1 := Fetch();
      if nblockUsed == nblock + 1 { return; }
      if k1 != k0 { k0 := k1; return; }
      stateOutLen := 2;
      k1 := Fetch();
      if nblockUsed == nblock + 1 { return; }
      if k1 != k0 { k0 := k1; return; }
      stateOutLen := 3;
      k1 := Fetch();
      if nblockUsed == nblock + 1 { return; }
      if k1 != k0 { k0 := k1; return; }
      k1 := Fetch();
      stateOutLen := k1 as nat + 4;
      k0 := Fetch();
    }

    /** A new run, as the FAST decoder starts it; a single byte is told apart before the end is. */
    method NewRunFast()
      requires Linked() && At(nblockUsed) && 1 <= nblockUsed <= nblock
      requires k0 == BlockOf(l, origPtr)[nblockUsed - 1]
      modifies this`tPos, this`nblockUsed, this`k0, this`stateOutCh, this`stateOutLen
      ensures At(nblockUsed)
      ensures RunTaken(BlockOf(l, origPtr), Stream(nblock), old(nblockUsed) - 1, nblockUsed, k0, stateOutCh, stateOutLen)
    {
      hide Linked, At, BlockOf, Stream;
      ghost var b, p := BlockOf(l, origPtr), nblockUsed - 1;
      ghost var rest := b[p..];
      stateOutLen := 1;
      stateOutCh := k0;
      var k1 := Fetch();
      if k1 != k0 { k0 := k1; return; }
      if nblockUsed == nblock + 1 { return; }
      stateOutLen := 2;
      k1 := Fetch();
      if nblockUsed == nblock + 1 { return; }
      if k1 != k0 { k0 := k1; return; }
      stateOutLen := 3;
      k1 := Fetch();
      if nblockUsed == nblock + 1 { return; }
      if k1 != k0 { k0 := k1; return; }
      k1 := Fetch();
      stateOutLen := k1 as nat + 4;
      k0 := Fetch();
    }

    /** Write out the current run as far as there is room. */
    method Drain(room: nat) returns (out: seq<Byte>)
      requires Valid()
      modifies this`stateOutLen, this`emitted
      ensures Valid() && |out| <= room && emitted == old(emitted) + out
      ensures stateOutLen == 0 || |out| == room
    {
      hide Linked, At, BlockOf, Owing, Stream;
      out := [];
      while stateOutLen > 0 && |out| < room
        invariant Valid() && |out| <= room && emitted == old(emitted) + out
        decreases stateOutLen
      {
        OwingEmit(BlockOf(l, origPtr), Stream(nblock), nblockUsed, k0, stateOutCh, stateOutLen, emitted);
        out := out + [stateOutCh];
        emitted := emitted + [stateOutCh];
        stateOutLen := stateOutLen - 1;
      }
    }

    /** Begin the next run of the block. */
    method NextRun()
      requires Valid() && stateOutLen == 0 && nblockUsed <= nblock
      modifies this`tPos, this`nblockUsed, this`k0, this`stateOutCh, this`stateOutLen
      ensures Valid() && nblockUsed > old(nblockUsed)
    {
      hide Linked, At, BlockOf, Owing, RunTaken, Stream;
      ghost var b, used, k, c := BlockOf(l, origPtr), nblockUsed, k0, stateOutCh;
      OwingByte(b, Stream(nblock), used, k0, c, emitted);
      if small {
        NewRunSmall();
      } else {
        NewRunFast();
      }
      TakenMore(b, Stream(nblock), used - 1, nblockUsed, k0, stateOutCh, stateOutLen);
      OwingRun(b, Stream(nblock), used - 1, nblockUsed, k0, stateOutCh, stateOutLen, k, c, emitted);
    }

    ghost predicate Finished()
      reads this
    {
      nblockUsed == nblock + 1 && stateOutLen == 0
    }

    /** unRLE_obuf_to_output_SMALL */
    method UnrleSmall(room: nat) returns (out: seq<Byte>, corrupt: bool)
      requires Valid() && small
      modifies this`tPos, this`nblockUsed, this`k0, this`stateOutCh, this`stateOutLen, this`emitted
      ensures Valid() && |out| <= room && emitted == old(emitted) + out
      ensures corrupt ==> !Whole(BlockOf(l, origPtr)) && stateOutLen == 0 && nblockUsed == nblock + 2
      ensures if corrupt then |out| < room else Finished() || |out| == room
    {
      hide Linked, At, BlockOf, Owing, Stream;
      out := [];
      while true
        invariant Valid() && |out| <= room && emitted == old(emitted) + out
        decreases nblock + 2 - nblockUsed
      {
        OwingUsed(BlockOf(l, origPtr), Stream(nblock), nblockUsed, k0, stateOutCh, stateOutLen, emitted);
        var more := Drain(room - |out|);
        out := out + more;
        if |out| == room { return out, false; }
        if nblockUsed == nblock + 1 { return out, false; }
        if nblockUsed > nblock + 1 { return out, true; }
        NextRun();
        OwingUsed(BlockOf(l, origPtr), Stream(nblock), nblockUsed, k0, stateOutCh, stateOutLen, emitted);
      }
    }

    /** unRLE_obuf_to_output_FAST: goes on to the next run even when the room is just used up. */
    method UnrleFast(room: nat) returns (out: seq<Byte>, corrupt: bool)
      requires Valid() && !small
      modifies this`tPos, this`nblockUsed, this`k0, this`stateOutCh, this`stateOutLen, this`emitted
      ensures Valid() && |out| <= room && emitted == old(emitted) + out
      ensures corrupt ==> !Whole(BlockOf(l, origPtr)) && stateOutLen == 0 && nblockUsed == nblock + 2
      ensures !corrupt ==> Finished() || (|out| == room && stateOutLen > 0)
    {
      hide Linked, At, BlockOf, Owing, Stream;
      out := [];
      while true
        invariant Valid() && |out| <= room && emitted == old(emitted) + out
        decreases nblock + 2 - nblockUsed
      {
        OwingUsed(BlockOf(l, origPtr), Stream(nblock), nblockUsed, k0, stateOutCh, stateOutLen, emitted);
        if stateOutLen > 0 {
          var more := Drain(room - |out|);
          out := out + more;
          if stateOutLen > 0 { return out, false; }
        }
        if nblockUsed > nblock + 1 { return out, true; }
        if nblockUsed == nblock + 1 { return out, false; }
        NextRun();
        OwingUsed(BlockOf(l, origPtr), Stream(nblock), nblockUsed, k0, stateOutCh, stateOutLen, emitted);
      }
    }
  }

  lemma OwingStart(b: seq<Byte>, x: Byte, k0: Byte)
    requires b != [] && k0 == b[0]
    ensures Owing(b, x, 1, k0, 0, 0, [])
  {
    assert b[0..] == b;
    RepNone(0);
  }

  lemma OwingByte(b: seq<Byte>, x: Byte, used: nat, k0: Byte, ch: Byte, emitted: seq<Byte>)
    requires Owing(b, x, used, k0, ch, 0, emitted) && used <= |b|
    ensures 1 <= used && k0 == b[used - 1]
  {
  }

  lemma OwingUsed(b: seq<Byte>, x: Byte, used: nat, k0: Byte, ch: Byte, len: nat, emitted: seq<Byte>)
    requires Owing(b, x, used, k0, ch, len, emitted)
    ensures 1 <= used <= |b| + 2 && (used == |b| + 2 ==> !Whole(b))
  {
  }

  lemma TakenMore(b: seq<Byte>, x: Byte, p: nat, used: nat, k0: Byte, ch: Byte, len: nat)
    requires p < |b| && RunTaken(b, x, p, used, k0, ch, len)
    ensures used > p + 1
  {
  }

  lemma RowNone(t: seq<int>, r: nat)
    requires InRange(t, 0, |t|) && r < |t|
    ensures Row(t, r, 0) == r
  {
  }

  lemma HoldsSize(ll16: seq<int>, ll4: seq<int>, v: seq<int>)
    requires Holds20(ll16, ll4, v)
    ensures |v| == |ll16| && 2 * |ll4| >= |v|
  {
  }

  lemma CumulativeSize(cf: seq<int>, l: seq<Byte>)
    requires Cumulative(cf, l)
    ensures |cf| == 257
  {
  }

  lemma RowShift(t: seq<int>, r: nat, k: nat)
    requires InRange(t, 0, |t|) && r < |t|
    ensures Row(t, t[r], k) == Row(t, r, k + 1)
  {
  }

  // ------------------------------------------------------------------
  // Whole blocks

  lemma LinksInverse(l: Block)
    ensures Inverse(ForwardLinks(l), BackLinks(l))
  {
    var f, t := ForwardLinks(l), BackLinks(l);
    ForwardPerm(l);
    InverseIsPerm(l, t);
    forall x | 0 <= x < |l| ensures t[f[x]] == x && f[t[x]] == x {
      LFBound(l, x);
    }
  }

  /** From the last column, as the symbol loop left it, to the state that writes it out. */
  method Open(small: bool, column: array<int>, ll4: array<int>, unzftab: array<int>, origPtr: nat, ghost l: Block)
    returns (s: DState)
    requires column != ll4 && column[..] == l && origPtr < |l| <= 0x10_0000
    requires 2 * ll4.Length >= |l| && Bytes(ll4[..])
    requires unzftab != column && unzftab != ll4
    requires unzftab.Length == 256 && forall c :: 0 <= c < 256 ==> unzftab[c] == CountEq(l, c, |l|)
    modifies column, ll4
    ensures fresh(s) && s.Valid() && s.small == small && s.l == l && s.origPtr == origPtr && s.emitted == []
  {
    hide Cumulative, Holds20, Turned, InvertsLF, LF, Inverse, DState.Valid, Spreading;
    var cftab := MakeCftab(unzftab, l);
    if small {
      ghost var f := LinkSmall(column, ll4, cftab, l);
      LinksInverse(l);
      SpreadingEnd(column[..], ll4[..], l, f);
      ghost var v, cycle := Reverse(column, ll4, origPtr, f, BackLinks(l));
      s := new DState.Small(column, ll4, cftab, l, origPtr, v, cycle);
      s.Start();
    } else {
      ghost var t := LinkFast(column, cftab, l);
      BackUnique(l, t);
      s := new DState.Fast(column, l, origPtr);
      s.Start();
    }
  }

  lemma SpreadingEnd(ll16: seq<int>, ll4: seq<int>, l: Block, v: seq<int>)
    requires Spreading(ll16, ll4, l, v, |l|)
    ensures v == ForwardLinks(l) && Holds20(ll16, ll4, v)
  {
  }

  /** How much of a text of len bytes buffers of the given sizes take up. */
  function Offset(len: nat, rooms: seq<nat>): (r: nat)
    ensures r <= len
  {
    if rooms == [] then 0
    else
      var n := Offset(len, rooms[..|rooms| - 1]) + rooms[|rooms| - 1];
      if n <= len then n else len
  }

  /** A text dealt out to them. */
  function Dealt(text: seq<Byte>, rooms: seq<nat>): (r: seq<seq<Byte>>)
    ensures |r| == |rooms|
  {
    if rooms == [] then []
    else
      var init := rooms[..|rooms| - 1];
      Dealt(text, init) + [text[Offset(|text|, init)..OffsetMono(|text|, rooms)]]
  }

  function OffsetMono(len: nat, rooms: seq<nat>): (r: nat)
    requires rooms != []
    ensures Offset(len, rooms[..|rooms| - 1]) <= r == Offset(len, rooms) <= len
  {
    Offset(len, rooms)
  }

  lemma {:induction false} DealtPrefix(text: seq<Byte>, rooms: seq<nat>, k: nat)
    requires k <= |rooms|
    ensures Dealt(text, rooms)[..k] == Dealt(text, rooms[..k])
    decreases |rooms|
  {
    if k == |rooms| {
      assert rooms[..k] == rooms;
    } else {
      var init := rooms[..|rooms| - 1];
      DealtPrefix(text, init, k);
      assert init[..k] == rooms[..k];
    }
  }

  ghost function ExtraByte(l: Block, origPtr: nat): Byte
    requires origPtr < |l|
  {
    var t := BackLinks(l);
    l[Row(t, t[origPtr], |l|)]
  }

  /** Everything a block writes out. */
  ghost function TextOf(l: Block, origPtr: nat): seq<Byte>
    requires origPtr < |l|
  {
    Written(BlockOf(l, origPtr), ExtraByte(l, origPtr))
  }

  lemma WholeText(l: Block, origPtr: nat)
    requires origPtr < |l| && Whole(BlockOf(l, origPtr))
    ensures TextOf(l, origPtr) == Unrle(BlockOf(l, origPtr))
  {
  }

  lemma OwingPrefix(b: seq<Byte>, x: Byte, used: nat, k0: Byte, ch: Byte, len: nat, emitted: seq<Byte>)
    requires Owing(b, x, used, k0, ch, len, emitted)
    ensures emitted <= Written(b, x)
    ensures used >= |b| + 1 && len == 0 ==> emitted == Written(b, x)
    ensures used == |b| + 1 ==> Whole(b)
  {
    RepNone(ch);
    if used == |b| + 1 {
      assert b[used - 1..] == [];
    }
  }

  lemma MoreToCome(s: DState)
    requires s.Valid() && s.stateOutLen > 0
    ensures s.origPtr < |s.l| && |s.emitted| < |TextOf(s.l, s.origPtr)|
  {
    hide DState.Linked, Written, BlockOf;
    OwingPrefix(BlockOf(s.l, s.origPtr), s.Stream(s.nblock), s.nblockUsed, s.k0, s.stateOutCh, s.stateOutLen,
                s.emitted);
  }

  /**
   * When a cut-off code is noticed: the SMALL loop stops first when a buffer
   * is full, the FAST loop goes on to the end of the block.
   */
  predicate Noticed(small: bool, len: nat, room: nat) {
    if small then room > len else room >= len
  }

  lemma Served(s: DState)
    requires s.Valid()
    ensures s.origPtr < |s.l|
    ensures s.emitted <= TextOf(s.l, s.origPtr)
    ensures s.nblockUsed >= s.nblock + 1 && s.stateOutLen == 0 ==> s.emitted == TextOf(s.l, s.origPtr)
    ensures s.nblockUsed == s.nblock + 1 ==> Whole(BlockOf(s.l, s.origPtr))
  {
    hide Owing, DState.Linked;
    OwingPrefix(BlockOf(s.l, s.origPtr), s.Stream(s.nblock), s.nblockUsed, s.k0, s.stateOutCh, s.stateOutLen, s.emitted);
  }

  /** Fill one buffer after another until the block is out or found to be corrupt. */
  method WriteOut(s: DState, rooms: seq<nat>) returns (outs: seq<seq<Byte>>, corrupt: bool)
    requires s.Valid() && s.emitted == []
    modifies s
    ensures |outs| <= |rooms| && outs == Dealt(TextOf(s.l, s.origPtr), rooms[..|outs|])
    ensures corrupt <==> !Whole(BlockOf(s.l, s.origPtr)) && Noticed(s.small, |TextOf(s.l, s.origPtr)|, Total(rooms))
    ensures if corrupt then FirstNoticed(s.small, |TextOf(s.l, s.origPtr)|, rooms, |outs|) else |outs| == |rooms|
  {
    hide DState.Valid, TextOf, Offset, Whole, BlockOf, Total, Dealt;
    Served(s);
    ghost var text, whole := TextOf(s.l, s.origPtr), Whole(BlockOf(s.l, s.origPtr));
    SomeText(s.l, s.origPtr);
    outs, corrupt := [], false;
    OffsetNone(|text|);
    while |outs| < |rooms| && !corrupt
      invariant |outs| <= |rooms| && s.Valid() && outs == Dealt(text, rooms[..|outs|])
      invariant |s.emitted| == Offset(|text|, rooms[..|outs|])
      invariant corrupt ==> !whole && FirstNoticed(s.small, |text|, rooms, |outs|)
      invariant !corrupt && !whole ==>
        |s.emitted| == Total(rooms[..|outs|]) && !Noticed(s.small, |text|, Total(rooms[..|outs|]))
      decreases |rooms| - |outs|, !corrupt
    {
      var room := rooms[|outs|];
      ghost var before, upTo := s.emitted, rooms[..|outs| + 1];
      Served(s);
      var out: seq<Byte>;
      if s.small {
        out, corrupt := s.UnrleSmall(room);
      } else {
        out, corrupt := s.UnrleFast(room);
        if s.stateOutLen > 0 { MoreToCome(s); }
      }
      Served(s);
      assert upTo[..|upTo| - 1] == rooms[..|outs|];
      DealtNext(text, upTo, before, out);
      TotalSnoc(rooms, |outs|);
      outs := outs + [out];
    }
    assert rooms[..|rooms|] == rooms;
    if corrupt { TotalMono(rooms, |outs|); }
  }

  /** The cut-off code is noticed in the k-th buffer and not before. */
  ghost predicate FirstNoticed(small: bool, len: nat, rooms: seq<nat>, k: nat) {
    1 <= k <= |rooms| && Noticed(small, len, Total(rooms[..k])) && !Noticed(small, len, Total(rooms[..k - 1]))
  }

  lemma SomeText(l: Block, origPtr: nat)
    requires origPtr < |l|
    ensures |TextOf(l, origPtr)| > 0 && Total([]) == 0
  {
    hide BlockOf, BackLinks;
  }

  lemma OffsetNone(len: nat)
    ensures Offset(len, []) == 0
  {
  }

  lemma DealtNext(text: seq<Byte>, rooms: seq<nat>, before: seq<Byte>, out: seq<Byte>)
    requires rooms != [] && before + out <= text && |before| == Offset(|text|, rooms[..|rooms| - 1])
    requires |out| <= rooms[|rooms| - 1] && (|out| == rooms[|rooms| - 1] || before + out == text)
    ensures Dealt(text, rooms) == Dealt(text, rooms[..|rooms| - 1]) + [out]
    ensures |before + out| == Offset(|text|, rooms)
  {
    hide Offset, Dealt;
    PieceEnd(|text|, rooms, |before|, |out|);
    PieceAt(text, before, out);
    DealtUnfold(text, rooms);
  }

  lemma PieceEnd(len: nat, rooms: seq<nat>, before: nat, out: nat)
    requires rooms != [] && before == Offset(len, rooms[..|rooms| - 1]) && before + out <= len
    requires out <= rooms[|rooms| - 1] && (out == rooms[|rooms| - 1] || before + out == len)
    ensures Offset(len, rooms) == before + out
  {
    OffsetNext(len, rooms);
  }

  lemma PieceAt(text: seq<Byte>, before: seq<Byte>, out: seq<Byte>)
    requires before + out <= text
    ensures text[|before|..|before| + |out|] == out
  {
    var both := before + out;
    assert text[|before|..|both|] == text[..|both|][|before|..];
  }

  lemma OffsetNext(len: nat, rooms: seq<nat>)
    requires rooms != []
    ensures var n := Offset(len, rooms[..|rooms| - 1]) + rooms[|rooms| - 1];
      Offset(len, rooms) == if n <= len then n else len
  {
  }

  lemma DealtUnfold(text: seq<Byte>, rooms: seq<nat>)
    requires rooms != []
    ensures Offset(|text|, rooms[..|rooms| - 1]) <= Offset(|text|, rooms)
    ensures var before := rooms[..|rooms| - 1];
      Dealt(text, rooms) == Dealt(text, before) + [text[Offset(|text|, before)..Offset(|text|, rooms)]]
  {
  }

  /**
   * SMALL and FAST decoding of the same last column, into the same buffers:
   * as long as neither reports corruption they write the same bytes, and
   * for a whole block neither does.  For a block that breaks off they report
   * it alike except when some of the buffers hold exactly what it writes:
   * then FAST notices in the last of these, SMALL one buffer later.
   */
  method SameBytes(l: Block, origPtr: nat, rooms: seq<nat>)
    returns (fast: seq<seq<Byte>>, small: seq<seq<Byte>>, corruptFast: bool, corruptSmall: bool)
    requires origPtr < |l| <= 0x10_0000
    ensures !corruptFast && !corruptSmall ==> fast == small == Dealt(TextOf(l, origPtr), rooms)
    ensures forall k :: 0 <= k < |fast| && k < |small| ==> fast[k] == small[k]
    ensures Whole(BlockOf(l, origPtr)) ==>
      !corruptFast && !corruptSmall && fast == small == Dealt(Unrle(BlockOf(l, origPtr)), rooms)
    ensures corruptFast <==> !Whole(BlockOf(l, origPtr)) && Total(rooms) >= |TextOf(l, origPtr)|
    ensures corruptSmall <==> !Whole(BlockOf(l, origPtr)) && Total(rooms) > |TextOf(l, origPtr)|
    ensures corruptFast == corruptSmall && |fast| == |small| <==>
      Whole(BlockOf(l, origPtr)) || NoneExact(|TextOf(l, origPtr)|, rooms)
  {
    hide DState.Valid, Offset, BlockOf, CountEq, Dealt, Unrle, Whole, Total, FirstNoticed;
    fast, corruptFast := Decode(false, l, origPtr, rooms);
    small, corruptSmall := Decode(true, l, origPtr, rooms);
    ghost var text := TextOf(l, origPtr);
    DealtPrefix(text, rooms, |fast|);
    DealtPrefix(text, rooms, |small|);
    assert rooms[..|rooms|] == rooms;
    if !Whole(BlockOf(l, origPtr)) {
      Alike(|text|, rooms, corruptFast, corruptSmall, |fast|, |small|);
    }
  }

  /** No number of buffers holds just so many bytes. */
  ghost predicate NoneExact(len: nat, rooms: seq<nat>) {
    forall k :: 0 <= k <= |rooms| ==> Total(rooms[..k]) != len
  }

  lemma Alike(len: nat, rooms: seq<nat>, fast: bool, small: bool, kf: nat, ks: nat)
    requires fast <==> Noticed(false, len, Total(rooms))
    requires small <==> Noticed(true, len, Total(rooms))
    requires if fast then FirstNoticed(false, len, rooms, kf) else kf == |rooms|
    requires if small then FirstNoticed(true, len, rooms, ks) else ks == |rooms|
    ensures fast == small && kf == ks <==> NoneExact(len, rooms)
  {
    hide Total;
    assert rooms[..|rooms|] == rooms;
    if NoneExact(len, rooms) {
      if fast && small {
        if kf < ks { Growing(rooms, kf, ks - 1); }
        if ks < kf { Growing(rooms, ks, kf - 1); }
      }
    } else {
      var k :| 0 <= k <= |rooms| && Total(rooms[..k]) == len;
      Growing(rooms, k, |rooms|);
      if small && kf == ks {
        if k < kf { Growing(rooms, k, kf - 1); } else { Growing(rooms, kf, k); }
      }
    }
  }

  lemma Growing(rooms: seq<nat>, j: nat, k: nat)
    requires j <= k <= |rooms|
    ensures Total(rooms[..j]) <= Total(rooms[..k])
  {
    TotalMono(rooms[..k], j);
    assert rooms[..k][..j] == rooms[..j];
  }

  /** Four zero bytes without a count, decoded into a buffer of four bytes: only FAST reports the missing count. */
  lemma ModesDiffer()
    ensures var l: Block := [0, 0, 0, 0];
      && !Whole(BlockOf(l, 0)) && TextOf(l, 0) == [0, 0, 0, 0]
      && !NoneExact(|TextOf(l, 0)|, [4]) && Total([4]) == 4
  {
    var l: Block := [0, 0, 0, 0];
    var t := BackLinks(l);
    forall k: nat | k < 4 ensures BlockOf(l, 0)[k] == 0 {
      WalkRow(l, t, t[0], 4, k);
    }
    assert BlockOf(l, 0) == l;
    assert ExtraByte(l, 0) == 0;
    WrittenEnd(l, 0);
    assert [4][..1] == [4] && [4][..0] == [];
    assert Total([]) == 0;
    assert Total([4][..1]) == 4;
  }

  method Decode(small: bool, l: Block, origPtr: nat, rooms: seq<nat>) returns (outs: seq<seq<Byte>>, corrupt: bool)
    requires origPtr < |l| <= 0x10_0000
    ensures |outs| <= |rooms| && outs == Dealt(TextOf(l, origPtr), rooms[..|outs|])
    ensures corrupt <==> !Whole(BlockOf(l, origPtr)) && Noticed(small, |TextOf(l, origPtr)|, Total(rooms))
    ensures if corrupt then FirstNoticed(small, |TextOf(l, origPtr)|, rooms, |outs|) else |outs| == |rooms|
  {
    hide DState.Valid, Offset, BlockOf, CountEq, Dealt, Unrle, Whole, TextOf, Total, FirstNoticed;
    var column, ll4 := new int[|l|](_ => 0), new int[|l|](_ => 0);
    Load(column, l);
    var counts := Tally(l);
    var s := Open(small, column, ll4, counts, origPtr, l);
    outs, corrupt := WriteOut(s, rooms);
  }

  method Load(a: array<int>, l: Block)
    requires a.Length == |l|
    modifies a
    ensures a[..] == l
  {
    for i := 0 to |l|
      invariant a[..i] == l[..i]
    {
      a[i] := l[i];
    }
  }

  /** unzftab */
  method Tally(l: Block) returns (counts: array<int>)
    ensures fresh(counts) && counts.Length == 256 && forall c :: 0 <= c < 256 ==> counts[c] == CountEq(l, c, |l|)
  {
    counts := new int[256](_ => 0);
    for i := 0 to |l|
      invariant forall c :: 0 <= c < 256 ==> counts[c] == CountEq(l, c, i)
    {
      counts[l[i]] := counts[l[i]] + 1;
    }
  }
}
