/**
 * The symbol loop of BZ2_decompress: run digits and positions are turned
 * back into the last column, through the sliced move-to-front list, and the
 * bytes are counted for the T^-1 construction.
 */
module MtfDecode {
  import opened Sequences
  import opened Rotations
  import opened Bwt
  import opened MoveToFront
  import opened SlicedMtf
  import M = MtfCoding

  datatype Status = Ok | DataError | NeedMore

  /** 2 * 1024 * 1024 */
  const TOO_BIG: nat := 0x20_0000

  predicate BytesOnly(list: seq<nat>) {
    forall x :: x in list ==> x < 256
  }

  /** The column written so far stands for the numbers ls, and counts holds its bytes. */
  ghost predicate Column(tt: seq<int>, counts: seq<int>, seqToUnseq: seq<nat>, ls: seq<nat>)
    ensures Column(tt, counts, seqToUnseq, ls) ==> |ls| <= |tt|
  {
    && |counts| == 256 && |seqToUnseq| == 256 && |ls| <= |tt|
    && (forall i :: 0 <= i < |ls| ==> ls[i] < 256 && tt[i] == seqToUnseq[ls[i]] < 256)
    && (forall c :: 0 <= c < 256 ==> counts[c] == multiset(tt[..|ls|])[c])
  }

  lemma ColumnNext(tt: seq<int>, counts: seq<int>, seqToUnseq: seq<nat>, ls: seq<nat>, x: nat)
    requires Column(tt, counts, seqToUnseq, ls) && |ls| < |tt| && x < 256 && seqToUnseq[x] < 256
    ensures var c := seqToUnseq[x]; Column(tt[|ls| := c], counts[c := counts[c] + 1], seqToUnseq, ls + [x])
  {
    var c := seqToUnseq[x];
    var tt' := tt[|ls| := c];
    assert tt'[..|ls| + 1] == tt[..|ls|] + [c];
  }

  class Decoder {
    const tt: array<int>
    const unzftab: array<int>
    const seqToUnseq: array<nat>
    const mtf: Mtf
    const eob: nat
    var nblock: nat
    ghost var ls: seq<nat>
    ghost var list: seq<nat>

    ghost predicate Shaped()
    {
      && tt != unzftab && unzftab.Length == 256 && seqToUnseq.Length == 256 && 2 <= eob <= 257
      && tt.Length < TOO_BIG - 1
      && seqToUnseq != mtf.mtfa && tt != mtf.mtfbase && unzftab != mtf.mtfbase
    }

    ghost predicate Valid()
      reads this, tt, unzftab, seqToUnseq, mtf.mtfa, mtf.mtfbase
    {
      && Shaped() && mtf.Is(list) && |list| == ENTRIES && BytesOnly(list)
      && nblock == |ls| && Column(tt[..], unzftab[..], seqToUnseq[..], ls)
      && (forall x :: 0 <= x < 256 ==> seqToUnseq[x] < 256)
    }

    constructor (nblockMAX: nat, seqToUnseq: array<nat>, nInUse: nat)
      requires 1 <= nInUse <= 256 && seqToUnseq.Length == 256 && nblockMAX < TOO_BIG - 1
      requires forall x :: 0 <= x < 256 ==> seqToUnseq[x] < 256
      ensures Valid() && ls == [] && list == Identity() && eob == nInUse + 1 && tt.Length == nblockMAX
      ensures this.seqToUnseq == seqToUnseq && fresh(tt) && fresh(unzftab) && fresh(mtf) && fresh(mtf.mtfa) &&
        fresh(mtf.mtfbase)
    {
      tt := new int[nblockMAX](_ => 0);
      unzftab := new int[256](_ => 0);
      this.seqToUnseq := seqToUnseq;
      mtf := new Mtf();
      eob := nInUse + 1;
      nblock, ls, list := 0, [], Identity();
      new;
      assert tt[..0] == [];
    }

    /** Store one byte and count it. */
    method Store(x: nat)
      requires Valid() && nblock < tt.Length && x < 256
      modifies this`nblock, this`ls, tt, unzftab
      ensures Valid() && ls == old(ls) + [x]
    {
      hide Sliced, Column;
      ColumnNext(tt[..], unzftab[..], seqToUnseq[..], ls, x);
      var c := seqToUnseq[x];
      tt[nblock] := c;
      unzftab[c] := unzftab[c] + 1;
      nblock := nblock + 1;
      ls := ls + [x];
    }

    /** A run of the front byte; false if the block would overflow. */
    method StoreRun(es: nat) returns (fits: bool)
      requires Valid()
      modifies this`nblock, this`ls, tt, unzftab
      ensures Valid() && (fits <==> old(nblock) + es <= tt.Length)
      ensures fits ==> ls == old(ls) + Rep(list[0], es)
    {
      hide Sliced, Column, Rep;
      var uc := mtf.First(list);
      assert uc in list;
      var left := es;
      while left > 0
        invariant 0 <= left <= es && Valid() && nblock == old(nblock) + (es - left) && uc == list[0]
        invariant ls == old(ls) + Rep(list[0], es - left)
      {
        if nblock >= tt.Length {
          return false;
        }
        RepMore(uc, es - left);
        Store(uc);
        left := left - 1;
      }
      return true;
    }

    /** A byte taken from place n of the list, which it moves to the front of. */
    method StoreMoved(n: nat)
      requires Valid() && nblock < tt.Length && n < ENTRIES
      modifies this`nblock, this`ls, this`list, tt, unzftab, mtf.mtfa, mtf.mtfbase
      ensures Valid() && ls == old(ls) + [old(list)[n]] && list == Front(old(list), n)
    {
      hide Sliced, Column;
      M.FrontIn(list, n);
      var uc := mtf.Move(n, list);
      assert uc in list;
      list := Front(list, n);
      Store(uc);
    }

    /** What is still to come, appended to what has been stored, is what the symbols decode to. */
    ghost predicate Ahead(o: M.Outcome, syms: seq<nat>)
      reads this
    {
      list != [] && M.Prefixed(ls, M.Decode(syms, list, 0, 1, eob)) == o
    }

    /**
     * Read run digits from place start on; the value so far is at least
     * N - 1, so a weight that is too big means a run that does not fit.
     */
    method ReadRun(syms: seq<nat>, start: nat) returns (r: Status, es: nat, pos: nat)
      requires Shaped() && list != [] && start < |syms| && syms[start] <= M.RUNB
      ensures start < pos <= |syms| && r in {Ok, DataError, NeedMore}
      ensures r == NeedMore ==> M.Decode(syms[start..], list, 0, 1, eob) == M.Unfinished
      ensures r == Ok ==> pos < |syms| && syms[pos] > M.RUNB
      ensures r == Ok ==> M.Decode(syms[start..], list, 0, 1, eob) == M.Decode(syms[pos..], list, es, 1, eob)
      ensures r == DataError && M.Decode(syms[start..], list, 0, 1, eob).Block? ==>
        |M.Decode(syms[start..], list, 0, 1, eob).ls| > tt.Length
    {
      hide M.Decode;
      ghost var o := M.Decode(syms[start..], list, 0, 1, eob);
      var N := 1;
      es, pos := 0, start;
      while true
        invariant start <= pos < |syms| && syms[pos] <= M.RUNB && es >= N - 1 && N >= 1
        invariant o == M.Decode(syms[pos..], list, es, N, eob)
        decreases |syms| - pos
      {
        if N >= TOO_BIG {
          if o.Block? { M.DecodeLong(syms[pos..], list, es, N, eob); }
          return DataError, es, pos + 1;
        }
        DigitRead(syms, pos, list, es, N, eob);
        es := es + (syms[pos] + 1) * N;
        N := N * 2;
        pos := pos + 1;
        if pos == |syms| {
          NothingRead(syms, list, es, N, eob);
          return NeedMore, es, pos;
        }
        if syms[pos] > M.RUNB {
          break;
        }
      }
      M.DecodeWeight(syms[pos..], list, es, N, 1, eob);
      return Ok, es, pos;
    }

    /** A run and the symbol after it, which the next round looks at again. */
    method TakeRun(syms: seq<nat>, start: nat, ghost o: M.Outcome) returns (r: Status, pos: nat)
      requires start < |syms| && Valid() && Ahead(o, syms[start..]) && syms[start] <= M.RUNB
      requires forall s :: s in syms ==> s <= eob
      modifies this`nblock, this`ls, tt, unzftab
      ensures Valid() && start < pos <= |syms|
      ensures r == Ok ==> pos < |syms| && Ahead(o, syms[pos..])
      ensures r == NeedMore ==> o == M.Unfinished
      ensures r == DataError && o.Block? ==> |o.ls| > tt.Length
    {
      hide M.Decode, Sliced, Column, Rep;
      var es;
      r, es, pos := ReadRun(syms, start);
      if r == Ok {
        var fits := StoreRun(es);
        assert syms[pos] in syms;
        if fits {
          RunTaken(syms, pos, list, es, eob);
          if M.Decode(syms[pos..], list, 0, 1, eob).Block? {
            AppendAssoc(old(ls), Rep(list[0], es), M.Decode(syms[pos..], list, 0, 1, eob).ls);
          }
        } else {
          if o.Block? { M.DecodeLong(syms[pos..], list, es, 1, eob); }
          r := DataError;
        }
      }
    }

    /** The symbol loop up to EOB. */
    method Symbols(syms: seq<nat>) returns (r: Status)
      requires Valid() && ls == [] && list == Identity() && forall s :: s in syms ==> s <= eob
      modifies this, tt, unzftab, mtf.mtfa, mtf.mtfbase
      ensures Valid()
      ensures r == Ok ==> M.Decode(syms, Identity(), 0, 1, eob) == M.Block(ls)
      ensures r == NeedMore ==> M.Decode(syms, Identity(), 0, 1, eob) == M.Unfinished
      ensures r == DataError && M.Decode(syms, Identity(), 0, 1, eob).Block? ==>
        |M.Decode(syms, Identity(), 0, 1, eob).ls| > tt.Length
    {
      hide M.Decode, Sliced, Column, Rep;
      ghost var o := M.Decode(syms, Identity(), 0, 1, eob);
      var pos := 0;
      assert syms[0..] == syms;
      assert M.Prefixed([], o) == o;
      while true
        invariant Valid() && pos <= |syms| && Ahead(o, syms[pos..])
        decreases |syms| - pos
      {
        if pos == |syms| {
          NothingRead(syms, list, 0, 1, eob);
          return NeedMore;
        }
        assert syms[pos] in syms;
        if syms[pos] == eob {
          EndRead(syms, pos, list, eob);
          assert ls + [] == ls;
          return Ok;
        }
        if syms[pos] <= M.RUNB {
          r, pos := TakeRun(syms, pos, o);
          if r != Ok {
            return r;
          }
        } else {
          PositionRead(syms, pos, list, eob);
          ghost var before := ls;
          if nblock >= tt.Length {
            return DataError;
          }
          StoreMoved(syms[pos] - 1);
          pos := pos + 1;
        }
      }
    }
  }

  lemma AppendAssoc(a: seq<nat>, b: seq<nat>, c: seq<nat>)
    ensures (a + b) + c == a + (b + c)
  {
  }

  lemma EndRead(syms: seq<nat>, pos: nat, list: seq<nat>, eob: nat)
    requires pos < |syms| && syms[pos] == eob > M.RUNB && list != []
    ensures M.Decode(syms[pos..], list, 0, 1, eob) == M.Block([])
  {
    assert Rep(list[0], 0) == [];
  }

  lemma PositionRead(syms: seq<nat>, pos: nat, list: seq<nat>, eob: nat)
    requires pos < |syms| && M.RUNB < syms[pos] < eob && syms[pos] - 1 < |list|
    ensures M.Decode(syms[pos..], list, 0, 1, eob) ==
      M.Prefixed([list[syms[pos] - 1]], M.Decode(syms[pos + 1..], Front(list, syms[pos] - 1), 0, 1, eob))
  {
    assert syms[pos..][1..] == syms[pos + 1..];
    assert Rep(list[0], 0) + [list[syms[pos] - 1]] == [list[syms[pos] - 1]];
  }

  /** A run that has been read can be stored at once. */
  lemma RunTaken(syms: seq<nat>, pos: nat, list: seq<nat>, es: nat, eob: nat)
    requires pos < |syms| && M.RUNB < syms[pos] <= eob && list != []
    ensures M.Decode(syms[pos..], list, es, 1, eob) == M.Prefixed(Rep(list[0], es), M.Decode(syms[pos..], list, 0, 1, eob))
  {
    var s := syms[pos];
    assert Rep(list[0], 0) == [];
    assert Rep(list[0], es) + [] == Rep(list[0], es);
    if s != eob && s - 1 < |list| {
      var x, rest := list[s - 1], M.Decode(syms[pos..][1..], Front(list, s - 1), 0, 1, eob);
      assert [] + [x] == [x];
      if rest.Block? {
        AppendAssoc(Rep(list[0], es), [x], rest.ls);
      }
    }
  }

  lemma DigitRead(syms: seq<nat>, pos: nat, list: seq<nat>, run: nat, weight: nat, eob: nat)
    requires pos < |syms| && syms[pos] <= M.RUNB && list != []
    ensures M.Decode(syms[pos..], list, run, weight, eob) ==
      M.Decode(syms[pos + 1..], list, run + (syms[pos] + 1) * weight, 2 * weight, eob)
  {
    assert syms[pos..][1..] == syms[pos + 1..];
  }

  lemma NothingRead(syms: seq<nat>, list: seq<nat>, run: nat, weight: nat, eob: nat)
    requires list != []
    ensures M.Decode(syms[|syms|..], list, run, weight, eob) == M.Unfinished
  {
  }

  lemma RepMore(x: nat, n: nat)
    ensures Rep(x, n + 1) == Rep(x, n) + [x] && Rep(x, 0) == []
  {
  }
}
