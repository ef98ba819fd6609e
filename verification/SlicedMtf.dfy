/**
 * The decoder's move-to-front list (decompress.c): 256 entries in 16 lines
 * of 16, the lines spread out over a buffer of 4096.  Moving an entry to
 * the front shifts one line and passes one entry from each line to the
 * next, so that lines drift down; when the first one reaches the bottom
 * all are packed together at the top again.
 */
module SlicedMtf {
  import opened MoveToFront

  const LINES: nat := 16
  const LINE: nat := 16
  const SIZE: nat := 4096
  const ENTRIES: nat := 256

  /** s lies at position pos of m. */
  predicate At(m: seq<nat>, pos: int, s: seq<nat>)
    ensures At(m, pos, s) ==> 0 <= pos && pos + |s| <= |m|
  {
    0 <= pos && pos + |s| <= |m| && m[pos..pos + |s|] == s
  }

  function Line(list: seq<nat>, i: nat): (r: seq<nat>)
    requires |list| == ENTRIES && i < LINES
    ensures |r| == LINE
  {
    list[LINE * i..LINE * i + LINE]
  }

  /** The lines follow each other without overlap. */
  predicate InOrder(base: seq<int>) {
    && |base| == LINES && base[0] >= 0 && base[LINES - 1] + LINE <= SIZE
    && forall i :: 0 < i < LINES ==> base[i - 1] + LINE <= base[i]
  }

  ghost predicate LineAt(m: seq<nat>, base: seq<int>, list: seq<nat>, i: nat)
    requires |base| == LINES && |list| == ENTRIES && i < LINES
  {
    At(m, base[i], Line(list, i))
  }

  /** The buffer m with line starts base holds the list. */
  ghost predicate Sliced(m: seq<nat>, base: seq<int>, list: seq<nat>)
    ensures Sliced(m, base, list) ==> |m| == SIZE && |base| == LINES && |list| == ENTRIES
  {
    && |m| == SIZE && |list| == ENTRIES && InOrder(base)
    && forall i: nat :: i < LINES ==> LineAt(m, base, list, i)
  }

  lemma AtEntry(m: seq<nat>, pos: int, s: seq<nat>, j: nat)
    requires At(m, pos, s) && j < |s|
    ensures m[pos + j] == s[j]
  {
    assert m[pos + j] == m[pos..pos + |s|][j];
  }

  /** Writing outside a slice leaves it. */
  lemma AtKept(m: seq<nat>, pos: int, s: seq<nat>, p: int, x: nat)
    requires At(m, pos, s) && 0 <= p < |m| && (p < pos || p >= pos + |s|)
    ensures At(m[p := x], pos, s)
  {
    assert m[p := x][pos..pos + |s|] == m[pos..pos + |s|];
  }

  lemma Entry(m: seq<nat>, base: seq<int>, list: seq<nat>, n: nat)
    requires Sliced(m, base, list) && n < ENTRIES
    ensures var p := base[n / LINE] + n % LINE; 0 <= p < SIZE && m[p] == list[n]
  {
    var i, j := n / LINE, n % LINE;
    assert LineAt(m, base, list, i);
    AtEntry(m, base[i], Line(list, i), j);
    assert Line(list, i)[j] == list[LINE * i + j];
  }

  // ------------------------------------------------------------------
  // The general case

  /**
   * Entries have been passed on as far as line k: later lines hold the new
   * list, earlier ones still the old, and line k lacks its first entry.
   */
  ghost predicate Passing(m: seq<nat>, base: seq<int>, list: seq<nat>, new': seq<nat>, k: nat)
    ensures Passing(m, base, list, new', k) ==>
      |m| == SIZE && |base| == LINES && |list| == |new'| == ENTRIES && k < LINES
  {
    && |m| == SIZE && |base| == LINES && |list| == |new'| == ENTRIES && k < LINES
    && base[0] >= 1 && base[LINES - 1] + (if k == LINES - 1 then LINE - 1 else LINE) <= SIZE
    && (forall i :: 0 < i < LINES ==> base[i - 1] + (if i - 1 == k then LINE - 1 else LINE) <= base[i])
    && (forall i: nat :: k < i < LINES ==> LineAt(m, base, new', i))
    && At(m, base[k], Line(new', k)[1..])
    && (forall i: nat :: i < k ==> LineAt(m, base, list, i))
  }

  lemma PassOn(m: seq<nat>, base: seq<int>, list: seq<nat>, new': seq<nat>, n: nat, k: nat, m': seq<nat>,
               base': seq<int>)
    requires n < |list| && Passing(m, base, list, new', k) && new' == Front(list, n) && 0 < k <= n / LINE
    requires 0 <= base[k] - 1 < SIZE && 0 <= base[k - 1] + LINE - 1 < SIZE
    requires base' == base[k := base[k] - 1] && m' == m[base[k] - 1 := m[base[k - 1] + LINE - 1]]
    ensures Passing(m', base', list, new', k - 1)
  {
    hide Line, At;
    var p, x := base[k] - 1, m[base[k - 1] + LINE - 1];
    assert LineAt(m, base, list, k - 1);
    FrontLine(list, n, k);
    FrontRest(list, n, k - 1);
    AtEntry(m, base[k - 1], Line(list, k - 1), LINE - 1);
    AtPrepend(m, base[k], Line(new', k), x);
    AtShorter(m, base[k - 1], Line(list, k - 1));
    AtKept(m, base[k - 1], Line(list, k - 1)[..LINE - 1], p, x);
    forall i: nat | k < i < LINES ensures LineAt(m', base', new', i) {
      assert LineAt(m, base, new', i);
      Later(base, k, i);
      AtKept(m, base[i], Line(new', i), p, x);
    }
    forall i: nat | i < k - 1 ensures LineAt(m', base', list, i) {
      assert LineAt(m, base, list, i);
      EarlierStep(base, k, i);
      Earlier(base, k, i + 1);
      AtKept(m, base[i], Line(list, i), p, x);
    }
  }

  lemma {:induction false} Later(base: seq<int>, k: nat, i: nat)
    requires |base| == LINES && k < i < LINES
    requires forall j :: 0 < j < LINES ==> base[j - 1] + (if j - 1 == k then LINE - 1 else LINE) <= base[j]
    ensures base[k] + LINE - 1 <= base[i]
  {
    if i > k + 1 { Later(base, k, i - 1); }
  }

  lemma {:induction false} Earlier(base: seq<int>, k: nat, i: nat)
    requires |base| == LINES && i < k < LINES
    requires forall j :: 0 < j < LINES ==> base[j - 1] + (if j - 1 == k then LINE - 1 else LINE) <= base[j]
    ensures base[i] + LINE <= base[k]
    decreases k - i
  {
    if i + 1 < k { EarlierStep(base, k, i); Earlier(base, k, i + 1); }
  }

  lemma EarlierStep(base: seq<int>, k: nat, i: nat)
    requires |base| == LINES && i + 1 < k < LINES
    requires forall j :: 0 < j < LINES ==> base[j - 1] + (if j - 1 == k then LINE - 1 else LINE) <= base[j]
    ensures base[i] + LINE <= base[i + 1]
  {
    var j := i + 1;
    assert base[j - 1] + LINE <= base[j];
  }

  /** A line that receives the last entry of the line before. */
  lemma FrontLine(list: seq<nat>, n: nat, k: nat)
    requires |list| == ENTRIES && n < ENTRIES && 0 < k <= n / LINE
    ensures Line(Front(list, n), k)[0] == Line(list, k - 1)[LINE - 1]
  {
  }

  /** A line that gives away its last entry. */
  lemma FrontRest(list: seq<nat>, n: nat, k: nat)
    requires |list| == ENTRIES && n < ENTRIES && k < n / LINE
    ensures Line(Front(list, n), k)[1..] == Line(list, k)[..LINE - 1]
  {
  }

  lemma AtPrepend(m: seq<nat>, pos: int, s: seq<nat>, x: nat)
    requires |s| > 0 && At(m, pos, s[1..]) && pos >= 1 && s[0] == x
    ensures At(m[pos - 1 := x], pos - 1, s)
  {
    var m' := m[pos - 1 := x];
    assert m'[pos - 1..pos - 1 + |s|] == [x] + m[pos..pos + |s| - 1];
    assert s == [x] + s[1..];
  }

  lemma AtShorter(m: seq<nat>, pos: int, s: seq<nat>)
    requires |s| > 0 && At(m, pos, s)
    ensures At(m, pos, s[..|s| - 1])
  {
    assert m[pos..pos + |s| - 1] == m[pos..pos + |s|][..|s| - 1];
  }

  /** m[lo..hi] after everything but its last entry has moved up by one; m[lo] itself is left. */
  ghost predicate MovedUp(m: seq<nat>, m': seq<nat>, lo: nat, hi: nat)
    ensures MovedUp(m, m', lo, hi) ==> |m'| == |m|
  {
    && |m'| == |m| && lo <= hi < |m|
    && (forall p :: lo < p <= hi ==> m'[p] == m[p - 1])
    && (forall p :: 0 <= p < |m| && (p <= lo || p > hi) ==> m'[p] == m[p])
  }

  lemma MovedKept(m: seq<nat>, m': seq<nat>, lo: nat, hi: nat, pos: int, s: seq<nat>)
    requires MovedUp(m, m', lo, hi) && At(m, pos, s) && (pos + |s| <= lo || pos > hi)
    ensures At(m', pos, s)
  {
    assert m'[pos..pos + |s|] == m[pos..pos + |s|];
  }

  /** Taking entry off out of line k. */
  lemma PassStart(m: seq<nat>, base: seq<int>, list: seq<nat>, n: nat, m': seq<nat>, base': seq<int>)
    requires Sliced(m, base, list) && base[0] >= 1 && LINE <= n < ENTRIES
    requires base' == base[n / LINE := base[n / LINE] + 1] && 0 <= base[n / LINE]
    requires MovedUp(m, m', base[n / LINE], base[n / LINE] + n % LINE)
    ensures Passing(m', base', list, Front(list, n), n / LINE)
  {
    hide Line, At, MovedUp;
    var k, off, new' := n / LINE, n % LINE, Front(list, n);
    assert LineAt(m, base, list, k);
    RestOfLine(m, m', base[k], list, n);
    forall i: nat | k < i < LINES ensures LineAt(m', base', new', i) {
      assert LineAt(m, base, list, i);
      Ordered(base, k, i);
      FrontBeyond(list, n, i);
      MovedKept(m, m', base[k], base[k] + off, base[i], Line(list, i));
    }
    forall i: nat | i < k ensures LineAt(m', base', list, i) {
      assert LineAt(m, base, list, i);
      Ordered(base, i, k);
      MovedKept(m, m', base[k], base[k] + off, base[i], Line(list, i));
    }
  }

  lemma {:induction false} Ordered(base: seq<int>, i: nat, k: nat)
    requires InOrder(base) && i < k < LINES
    ensures base[i] + LINE <= base[k]
  {
    if i + 1 < k { Ordered(base, i, k - 1); }
  }

  lemma FrontBeyond(list: seq<nat>, n: nat, i: nat)
    requires |list| == ENTRIES && n < ENTRIES && n / LINE < i < LINES
    ensures Line(Front(list, n), i) == Line(list, i)
  {
  }

  lemma RestOfLine(m: seq<nat>, m': seq<nat>, pos: nat, list: seq<nat>, n: nat)
    requires |list| == ENTRIES && n < ENTRIES && At(m, pos, Line(list, n / LINE)) && MovedUp(m, m', pos, pos + n % LINE)
    ensures At(m', pos + 1, Line(Front(list, n), n / LINE)[1..])
  {
    var k, off := n / LINE, n % LINE;
    var rest := Line(Front(list, n), k)[1..];
    forall j | 0 <= j < LINE - 1 ensures m'[pos + 1 + j] == rest[j] {
      assert rest[j] == Front(list, n)[LINE * k + 1 + j];
      assert m[pos + j] == m[pos..pos + LINE][j] && m[pos + 1 + j] == m[pos..pos + LINE][1 + j];
    }
    assert m'[pos + 1..pos + LINE] == rest;
  }

  /** The first line receives the entry itself. */
  lemma PassEnd(m: seq<nat>, base: seq<int>, list: seq<nat>, n: nat, m': seq<nat>, base': seq<int>)
    requires n < |list| && Passing(m, base, list, Front(list, n), 0)
    requires base' == base[0 := base[0] - 1] && m' == m[base[0] - 1 := list[n]]
    ensures Sliced(m', base', Front(list, n)) && base'[0] >= 0
  {
    hide Line, At;
    var new' := Front(list, n);
    FirstEntry(new');
    AtPrepend(m, base[0], Line(new', 0), list[n]);
    forall i: nat | 0 < i < LINES ensures LineAt(m', base', new', i) {
      assert LineAt(m, base, new', i);
      Later(base, 0, i);
      AtKept(m, base[i], Line(new', i), base[0] - 1, list[n]);
    }
  }

  lemma FirstEntry(list: seq<nat>)
    requires |list| == ENTRIES
    ensures Line(list, 0)[0] == list[0]
  {
  }

  // ------------------------------------------------------------------
  // Within the first line, and packing

  lemma FrontNear(m: seq<nat>, base: seq<int>, list: seq<nat>, n: nat, m': seq<nat>, m2: seq<nat>)
    requires Sliced(m, base, list) && n < LINE && MovedUp(m, m', base[0], base[0] + n) && m2 == m'[base[0] := list[n]]
    ensures Sliced(m2, base, Front(list, n))
  {
    hide Line, At, MovedUp;
    var new' := Front(list, n);
    assert LineAt(m, base, list, 0);
    RestOfLine(m, m', base[0], list, n);
    FirstEntry(new');
    AtPrepend(m', base[0] + 1, Line(new', 0), list[n]);
    forall i: nat | 0 < i < LINES ensures LineAt(m2, base, new', i) {
      assert LineAt(m, base, list, i);
      Ordered(base, 0, i);
      FrontBeyond(list, n, i);
      MovedKept(m, m', base[0], base[0] + n, base[i], Line(list, i));
      AtKept(m', base[i], Line(list, i), base[0], list[n]);
    }
  }

  /** Where line i goes when the lines are packed. */
  function Packed(i: nat): nat { SIZE - ENTRIES + LINE * i }

  lemma {:induction false} RoomAbove(base: seq<int>, i: nat)
    requires InOrder(base) && i < LINES
    ensures base[i] <= Packed(i)
    decreases LINES - i
  {
    var k := i + 1;
    if k < LINES {
      RoomAbove(base, k);
      assert base[k - 1] + LINE <= base[k];
    }
  }

  /** m' is m with n entries at from copied to to. */
  ghost predicate Copied(m: seq<nat>, m': seq<nat>, from: nat, to: nat, n: nat) {
    && |m'| == |m| && from <= to && to + n <= |m|
    && m'[to..to + n] == m[from..from + n]
    && (forall p :: 0 <= p < |m| && (p < to || p >= to + n) ==> m'[p] == m[p])
  }

  lemma PackStep(m: seq<nat>, base: seq<int>, list: seq<nat>, k: nat, m': seq<nat>)
    requires Sliced(m, base, list) && k < LINES && base[k] >= 0
    requires forall i :: k < i < LINES ==> base[i] == Packed(i)
    requires Copied(m, m', base[k], Packed(k), LINE)
    ensures Sliced(m', base[k := Packed(k)], list)
  {
    hide Line;
    var base' := base[k := Packed(k)];
    RoomAbove(base, k);
    assert LineAt(m, base, list, k);
    forall i: nat | i < LINES ensures LineAt(m', base', list, i) {
      assert LineAt(m, base, list, i);
      if i < k {
        Ordered(base, i, k);
        assert m'[base[i]..base[i] + LINE] == m[base[i]..base[i] + LINE];
      } else if i > k {
        assert m'[base[i]..base[i] + LINE] == m[base[i]..base[i] + LINE];
      }
    }
  }

  // ------------------------------------------------------------------
  // The program

  class Mtf {
    const mtfa: array<nat>
    const mtfbase: array<int>

    /** At rest the first line has not reached the bottom. */
    ghost predicate Is(list: seq<nat>)
      reads mtfa, mtfbase
    {
      Sliced(mtfa[..], mtfbase[..], list) && mtfbase.Length > 0 && mtfbase[0] >= 1
    }

    /** MTF init: the identity list. */
    constructor ()
      ensures Is(Identity()) && fresh(mtfa) && fresh(mtfbase)
    {
      mtfa := new nat[SIZE](_ => 0);
      mtfbase := new int[LINES](_ => 0);
      new;
      var kk := SIZE - 1;
      var ii := LINES - 1;
      while ii >= 0
        invariant -1 <= ii < LINES && kk == SIZE - ENTRIES + LINE * (ii + 1) - 1
        invariant forall p :: kk < p < SIZE ==> mtfa[p] == p - (SIZE - ENTRIES)
        invariant forall i :: ii < i < LINES ==> mtfbase[i] == Packed(i)
      {
        var jj := LINE - 1;
        while jj >= 0
          invariant -1 <= jj < LINE && kk == SIZE - ENTRIES + LINE * ii + jj && 0 <= ii
          invariant forall p :: kk < p < SIZE ==> mtfa[p] == p - (SIZE - ENTRIES)
          invariant forall i :: ii < i < LINES ==> mtfbase[i] == Packed(i)
        {
          mtfa[kk] := ii * LINE + jj;
          kk := kk - 1;
          jj := jj - 1;
        }
        mtfbase[ii] := kk + 1;
        ii := ii - 1;
      }
      IdentitySliced(mtfa[..], mtfbase[..]);
    }

    method MoveUp(lo: nat, hi: nat)
      requires lo <= hi < mtfa.Length
      modifies mtfa
      ensures MovedUp(old(mtfa[..]), mtfa[..], lo, hi)
    {
      var pp := hi;
      while pp > lo
        invariant lo <= pp <= hi
        invariant forall p :: pp < p <= hi ==> mtfa[p] == old(mtfa[p - 1])
        invariant forall p :: 0 <= p < mtfa.Length && (p <= pp || p > hi) ==> mtfa[p] == old(mtfa[p])
      {
        mtfa[pp] := mtfa[pp - 1];
        pp := pp - 1;
      }
    }

    /** Copy a line upwards, last entry first. */
    method CopyLine(from: nat, to: nat)
      requires from <= to && to + LINE <= mtfa.Length
      modifies mtfa
      ensures Copied(old(mtfa[..]), mtfa[..], from, to, LINE)
    {
      var jj := LINE - 1;
      while jj >= 0
        invariant -1 <= jj < LINE
        invariant forall p :: to + jj < p < to + LINE ==> mtfa[p] == old(mtfa[p - to + from])
        invariant forall p :: 0 <= p < mtfa.Length && (p <= to + jj || p >= to + LINE) ==> mtfa[p] == old(mtfa[p])
      {
        mtfa[to + jj] := mtfa[from + jj];
        jj := jj - 1;
      }
      assert mtfa[to..to + LINE] == old(mtfa[from..from + LINE]);
    }

    /** Pack the lines together at the top; the list is not changed. */
    method Pack(ghost list: seq<nat>)
      requires Sliced(mtfa[..], mtfbase[..], list)
      modifies mtfa, mtfbase
      ensures Is(list)
    {
      hide Sliced, Copied;
      var ii := LINES;
      while ii > 0
        invariant 0 <= ii <= LINES && Sliced(mtfa[..], mtfbase[..], list)
        invariant forall i :: ii <= i < LINES ==> mtfbase[i] == Packed(i)
      {
        ii := ii - 1;
        SlicedBase(mtfa[..], mtfbase[..], list, ii);
        ghost var m, base := mtfa[..], mtfbase[..];
        CopyLine(mtfbase[ii], Packed(ii));
        PackStep(m, base, list, ii, mtfa[..]);
        mtfbase[ii] := Packed(ii);
        assert mtfbase[..] == base[ii := Packed(ii)];
      }
    }

    /** Pass the last entry of each line before k to the next line. */
    method PassAll(start: nat, n: nat, ghost list: seq<nat>)
      requires n < |list| && Passing(mtfa[..], mtfbase[..], list, Front(list, n), start) && start == n / LINE
      modifies mtfa, mtfbase
      ensures Passing(mtfa[..], mtfbase[..], list, Front(list, n), 0)
    {
      hide Passing;
      var lno := start;
      while lno > 0
        invariant 0 <= lno <= start && Passing(mtfa[..], mtfbase[..], list, Front(list, n), lno)
      {
        PassingBase(mtfa[..], mtfbase[..], list, Front(list, n), lno);
        ghost var m, base := mtfa[..], mtfbase[..];
        mtfbase[lno] := mtfbase[lno] - 1;
        mtfa[mtfbase[lno]] := mtfa[mtfbase[lno - 1] + LINE - 1];
        PassOn(m, base, list, Front(list, n), n, lno, mtfa[..], mtfbase[..]);
        lno := lno - 1;
      }
    }

    method Far(n: nat, ghost list: seq<nat>) returns (uc: nat)
      requires Is(list) && LINE <= n < ENTRIES
      modifies mtfa, mtfbase
      ensures uc == list[n] && Is(Front(list, n))
    {
      hide Sliced, Passing, MovedUp;
      Entry(mtfa[..], mtfbase[..], list, n);
      var lno, off := n / LINE, n % LINE;
      SlicedBase(mtfa[..], mtfbase[..], list, lno);
      ghost var m, base := mtfa[..], mtfbase[..];
      var pp := mtfbase[lno] + off;
      uc := mtfa[pp];
      MoveUp(mtfbase[lno], pp);
      mtfbase[lno] := mtfbase[lno] + 1;
      PassStart(m, base, list, n, mtfa[..], mtfbase[..]);
      PassAll(lno, n, list);
      PassingFirst(mtfa[..], mtfbase[..], list, Front(list, n));
      m, base := mtfa[..], mtfbase[..];
      mtfbase[0] := mtfbase[0] - 1;
      mtfa[mtfbase[0]] := uc;
      PassEnd(m, base, list, n, mtfa[..], mtfbase[..]);
      if mtfbase[0] == 0 {
        Pack(Front(list, n));
      }
    }

    method Near(n: nat, ghost list: seq<nat>) returns (uc: nat)
      requires Is(list) && n < LINE
      modifies mtfa
      ensures uc == list[n] && Is(Front(list, n))
    {
      hide Sliced, MovedUp;
      Entry(mtfa[..], mtfbase[..], list, n);
      SlicedBase(mtfa[..], mtfbase[..], list, 0);
      ghost var m := mtfa[..];
      var pp: nat := mtfbase[0];
      uc := mtfa[pp + n];
      MoveUp(pp, pp + n);
      ghost var m' := mtfa[..];
      mtfa[pp] := uc;
      FrontNear(m, mtfbase[..], list, n, m', mtfa[..]);
    }

    /** uc = MTF(n): the entry n places from the front, which it then becomes. */
    method Move(n: nat, ghost list: seq<nat>) returns (uc: nat)
      requires Is(list) && n < ENTRIES
      modifies mtfa, mtfbase
      ensures uc == list[n] && Is(Front(list, n))
    {
      if n < LINE {
        uc := Near(n, list);
      } else {
        uc := Far(n, list);
      }
    }

    /** The front entry. */
    method First(ghost list: seq<nat>) returns (uc: nat)
      requires Is(list)
      ensures uc == list[0]
    {
      Entry(mtfa[..], mtfbase[..], list, 0);
      uc := mtfa[mtfbase[0]];
    }
  }

  function Identity(): (r: seq<nat>)
    ensures |r| == ENTRIES && forall i :: 0 <= i < ENTRIES ==> r[i] == i
  {
    seq(ENTRIES, i => i)
  }

  lemma IdentitySliced(m: seq<nat>, base: seq<int>)
    requires |m| == SIZE && |base| == LINES
    requires forall p :: SIZE - ENTRIES <= p < SIZE ==> m[p] == p - (SIZE - ENTRIES)
    requires forall i :: 0 <= i < LINES ==> base[i] == Packed(i)
    ensures Sliced(m, base, Identity())
  {
    forall i: nat | i < LINES ensures LineAt(m, base, Identity(), i) {
      assert m[base[i]..base[i] + LINE] == Line(Identity(), i);
    }
  }

  lemma SlicedBase(m: seq<nat>, base: seq<int>, list: seq<nat>, k: nat)
    requires Sliced(m, base, list) && k < LINES
    ensures 0 <= base[k] <= Packed(k)
  {
    RoomAbove(base, k);
    if k > 0 { Ordered(base, 0, k); }
  }

  lemma PassingBase(m: seq<nat>, base: seq<int>, list: seq<nat>, new': seq<nat>, k: nat)
    requires Passing(m, base, list, new', k) && k > 0
    ensures 0 <= base[k] - 1 < SIZE && 0 <= base[k - 1] + LINE - 1 < SIZE
  {
    Earlier(base, k, k - 1);
    assert LineAt(m, base, list, k - 1);
  }

  lemma PassingFirst(m: seq<nat>, base: seq<int>, list: seq<nat>, new': seq<nat>)
    requires Passing(m, base, list, new', 0)
    ensures 1 <= base[0] <= SIZE
  {
  }
}
