/**
 * The decoder's preparation of a block: from the last column to the vector
 * T^-1 that the output walk follows, in the two memory layouts of DState.
 */
module BwtTables {
  import opened Powers
  import opened Permutations
  import opened Rotations
  import opened Bwt

  /** cftab: how many bytes lie below each value. */
  ghost predicate Cumulative(cf: seq<int>, l: seq<Byte>) {
    |cf| == 257 && forall c :: 0 <= c <= 256 ==> cf[c] == CountLess(l, c, |l|)
  }

  /** From the counts of each byte to cftab. */
  method MakeCftab(unzftab: array<int>, ghost l: seq<Byte>) returns (cftab: array<int>)
    requires unzftab.Length == 256 && forall c :: 0 <= c < 256 ==> unzftab[c] == CountEq(l, c, |l|)
    ensures fresh(cftab) && Cumulative(cftab[..], l)
  {
    cftab := new int[257](_ => 0);
    for i := 1 to 257
      invariant cftab[0] == 0 && forall c :: 1 <= c < i ==> cftab[c] == unzftab[c - 1]
    {
      cftab[i] := unzftab[i - 1];
    }
    CountLessAll(l, |l|);
    for i := 1 to 257
      invariant forall c :: 0 <= c < i ==> cftab[c] == CountLess(l, c, |l|)
      invariant forall c :: i <= c <= 256 ==> cftab[c] == unzftab[c - 1]
    {
      CountLessStep(l, i - 1, |l|);
      cftab[i] := cftab[i] + cftab[i - 1];
    }
  }

  /** cftab while a counting sort is under way: i bytes have been placed. */
  ghost predicate Placing(cf: seq<int>, l: seq<Byte>, i: nat)
    requires i <= |l|
  {
    |cf| == 257 && forall c :: 0 <= c < 256 ==> cf[c] == CountLess(l, c, |l|) + CountEq(l, c, i)
  }

  lemma PlacingStart(cf: seq<int>, l: seq<Byte>)
    requires Cumulative(cf, l)
    ensures Placing(cf, l, 0)
  {
  }

  lemma PlacingStep(cf: seq<int>, l: seq<Byte>, i: nat)
    requires i < |l| && Placing(cf, l, i)
    ensures cf[l[i]] == LF(l, i) < |l|
    ensures Placing(cf[l[i] := cf[l[i]] + 1], l, i + 1)
  {
    LFBound(l, i);
  }

  // ------------------------------------------------------------------
  // FAST: byte and link share a word

  /** Rows reached so far hold their link above the byte, the others the byte alone. */
  ghost predicate Linking(tt: seq<int>, l: seq<Byte>, t: seq<int>, hit: set<int>, i: nat)
    ensures Linking(tt, l, t, hit, i) ==> |tt| == |t| == |l|
  {
    && |tt| == |t| == |l| && i <= |l|
    && (forall r :: 0 <= r < |l| ==> tt[r] == l[r] + 256 * t[r])
    && (forall r :: 0 <= r < |l| && r !in hit ==> t[r] == 0)
    && (forall r :: r in hit ==> 0 <= r < |l| && 0 <= t[r] < i && LF(l, t[r]) == r)
    && (forall k :: 0 <= k < i ==> LF(l, k) in hit && t[LF(l, k)] == k)
  }

  lemma LinkingStep(tt: seq<int>, l: seq<Byte>, t: seq<int>, hit: set<int>, i: nat)
    requires Linking(tt, l, t, hit, i) && i < |l|
    ensures var r := LF(l, i); r < |l| && t[r] == 0
    ensures var r := LF(l, i); Linking(tt[r := tt[r] + 256 * i], l, t[r := i], hit + {r}, i + 1)
  {
    hide LF;
    LFBound(l, i);
    NotHit(tt, l, t, hit, i);
  }

  lemma NotHit(tt: seq<int>, l: seq<Byte>, t: seq<int>, hit: set<int>, i: nat)
    requires Linking(tt, l, t, hit, i) && i < |l|
    ensures LF(l, i) !in hit
  {
    hide LF;
    var r := LF(l, i);
    if r in hit {
      if l[t[r]] > l[i] { LFMono(l, i, t[r]); } else { LFMono(l, t[r], i); }
    }
  }

  /** The T^-1 vector, in place over the last column. */
  method LinkFast(tt: array<int>, cftab: array<int>, ghost l: seq<Byte>) returns (ghost t: seq<int>)
    requires tt != cftab && tt[..] == l && Cumulative(cftab[..], l)
    modifies tt, cftab
    ensures InvertsLF(l, t) && tt.Length == |l| && forall r :: 0 <= r < |l| ==> tt[r] == l[r] + 256 * t[r]
  {
    hide Placing, Linking, Cumulative, LF;
    var n := tt.Length;
    t := seq(n, _ => 0);
    ghost var hit: set<int> := {};
    LinkingStart(tt[..], l, t);
    PlacingStart(cftab[..], l);
    for i := 0 to n
      invariant Placing(cftab[..], l, i) && Linking(tt[..], l, t, hit, i)
    {
      LinkingByte(tt[..], l, t, hit, i);
      var uc := tt[i] % 256;
      PlacingStep(cftab[..], l, i);
      LinkingStep(tt[..], l, t, hit, i);
      var at := cftab[uc];
      ghost var r := LF(l, i);
      tt[at] := tt[at] + 256 * i;
      cftab[uc] := cftab[uc] + 1;
      t, hit := t[r := i], hit + {r};
    }
    LinkingEnd(tt[..], l, t, hit);
  }

  lemma LinkingStart(tt: seq<int>, l: seq<Byte>, t: seq<int>)
    requires tt == l && |t| == |l| && forall r :: 0 <= r < |l| ==> t[r] == 0
    ensures Linking(tt, l, t, {}, 0)
  {
  }

  lemma LinkingByte(tt: seq<int>, l: seq<Byte>, t: seq<int>, hit: set<int>, i: nat)
    requires Linking(tt, l, t, hit, i) && i < |l|
    ensures |tt| == |l| && tt[i] % 256 == l[i]
  {
    DivModUnique(tt[i], 256, t[i], l[i]);
  }

  lemma LinkingEnd(tt: seq<int>, l: seq<Byte>, t: seq<int>, hit: set<int>)
    requires Linking(tt, l, t, hit, |l|)
    ensures InvertsLF(l, t) && |tt| == |l| && forall r :: 0 <= r < |l| ==> tt[r] == l[r] + 256 * t[r]
  {
  }

  // ------------------------------------------------------------------
  // SMALL: twenty bits, sixteen in ll16 and four in half a byte of ll4

  /** GET_LL4 */
  function Nibble(ll4: seq<int>, i: nat): int
    requires i / 2 < |ll4|
  {
    if i % 2 == 0 then ll4[i / 2] % 16 else ll4[i / 2] / 16
  }

  /** GET_LL */
  function GetLL(ll16: seq<int>, ll4: seq<int>, i: nat): int
    requires i < |ll16| && i / 2 < |ll4|
  {
    ll16[i] + 65536 * Nibble(ll4, i)
  }

  predicate Bytes(ll4: seq<int>) {
    forall i :: 0 <= i < |ll4| ==> 0 <= ll4[i] < 256
  }

  /** The twenty-bit entries that the two arrays hold. */
  ghost predicate Holds20(ll16: seq<int>, ll4: seq<int>, v: seq<int>) {
    && |v| == |ll16| && 2 * |ll4| >= |v| && Bytes(ll4)
    && forall i :: 0 <= i < |v| ==> GetLL(ll16, ll4, i) == v[i]
  }

  /** SET_LL4 */
  method SetLL4(ll4: array<int>, i: nat, n: int)
    requires i / 2 < ll4.Length && Bytes(ll4[..]) && 0 <= n < 16
    modifies ll4
    ensures Bytes(ll4[..]) && Nibble(ll4[..], i) == n
    ensures forall j: nat :: j != i && j / 2 < ll4.Length ==> Nibble(ll4[..], j) == Nibble(old(ll4[..]), j)
  {
    var b := ll4[i / 2];
    if i % 2 == 0 {
      ll4[i / 2] := b / 16 * 16 + n;
    } else {
      ll4[i / 2] := b % 16 + 16 * n;
    }
  }

  /** SET_LL stores one entry and disturbs no other, though two share a byte. */
  method SetLL(ll16: array<int>, ll4: array<int>, i: nat, n: int, ghost v: seq<int>)
    requires ll16 != ll4 && Holds20(ll16[..], ll4[..], v) && i < |v| && 0 <= n < 0x10_0000
    modifies ll16, ll4
    ensures Holds20(ll16[..], ll4[..], v[i := n]) && ll16[..] == old(ll16[..])[i := n % 65536]
  {
    ll16[i] := n % 65536;
    SetLL4(ll4, i, n / 65536);
    assert Nibble(ll4[..], i) == n / 65536;
    forall j | 0 <= j < |v| ensures GetLL(ll16[..], ll4[..], j) == v[i := n][j] {
      assert j != i ==> GetLL(old(ll16[..]), old(ll4[..]), j) == v[j];
    }
  }

  /** What is linked so far: T for the rows before i, bytes from there on. */
  ghost predicate Spreading(ll16: seq<int>, ll4: seq<int>, l: seq<Byte>, v: seq<int>, i: nat)
    ensures Spreading(ll16, ll4, l, v, i) ==> |ll16| == |v| == |l|
  {
    && Holds20(ll16, ll4, v) && |v| == |l| && i <= |l|
    && (forall k :: 0 <= k < i ==> v[k] == LF(l, k))
    && (forall k :: i <= k < |l| ==> ll16[k] == l[k])
  }

  method Copy(cftab: array<int>) returns (r: array<int>)
    ensures fresh(r) && r[..] == cftab[..]
  {
    r := new int[cftab.Length](_ => 0);
    for i := 0 to cftab.Length
      invariant r[..i] == cftab[..i]
    {
      r[i] := cftab[i];
    }
  }

  /** The T vector, in place over the last column. */
  method LinkSmall(ll16: array<int>, ll4: array<int>, cftab: array<int>, ghost l: seq<Byte>) returns (ghost v: seq<int>)
    requires ll16 != ll4 && ll16 != cftab && ll4 != cftab && Cumulative(cftab[..], l)
    requires ll16[..] == l && 2 * ll4.Length >= |l| && Bytes(ll4[..]) && |l| <= 0x10_0000
    modifies ll16, ll4
    ensures Spreading(ll16[..], ll4[..], l, v, |l|)
  {
    hide Placing, Spreading, Cumulative, LF, Holds20;
    var cftabCopy := Copy(cftab);
    v := Entries(ll16[..], ll4[..]);
    SpreadingStart(ll16[..], ll4[..], l, v);
    PlacingStart(cftabCopy[..], l);
    for i := 0 to ll16.Length
      invariant Placing(cftabCopy[..], l, i) && Spreading(ll16[..], ll4[..], l, v, i)
      invariant cftab[..] == old(cftab[..])
    {
      SpreadingByte(ll16[..], ll4[..], l, v, i);
      var uc := ll16[i];
      PlacingStep(cftabCopy[..], l, i);
      ghost var before, before4 := ll16[..], ll4[..];
      SetLL(ll16, ll4, i, cftabCopy[uc], v);
      SpreadingStep(before, before4, ll16[..], ll4[..], l, v, i);
      cftabCopy[uc] := cftabCopy[uc] + 1;
      v := v[i := LF(l, i)];
    }
  }

  ghost function Entries(ll16: seq<int>, ll4: seq<int>): (v: seq<int>)
    requires 2 * |ll4| >= |ll16| && Bytes(ll4)
    ensures Holds20(ll16, ll4, v)
  {
    seq(|ll16|, i requires 0 <= i < |ll16| => GetLL(ll16, ll4, i))
  }

  lemma SpreadingStart(ll16: seq<int>, ll4: seq<int>, l: seq<Byte>, v: seq<int>)
    requires Holds20(ll16, ll4, v) && ll16 == l
    ensures Spreading(ll16, ll4, l, v, 0)
  {
  }

  lemma SpreadingByte(ll16: seq<int>, ll4: seq<int>, l: seq<Byte>, v: seq<int>, i: nat)
    requires Spreading(ll16, ll4, l, v, i) && i < |l|
    ensures ll16[i] == l[i] && Holds20(ll16, ll4, v)
  {
  }

  lemma SpreadingStep(before: seq<int>, before4: seq<int>, ll16: seq<int>, ll4: seq<int>, l: seq<Byte>, v: seq<int>,
                      i: nat)
    requires i < |l| && Spreading(before, before4, l, v, i) && ll16 == before[i := LF(l, i) % 65536]
    requires Holds20(ll16, ll4, v[i := LF(l, i)])
    ensures Spreading(ll16, ll4, l, v[i := LF(l, i)], i + 1)
  {
    hide LF, Holds20;
  }

  // ------------------------------------------------------------------
  // Pointer reversal

  /**
   * Rows in done have had their pointer turned round; they are the rows
   * after origPtr on its cycle, up to i, and the next one is j.
   */
  ghost predicate Turning(v: seq<int>, f: seq<int>, t: seq<int>, done: set<int>, origPtr: int, i: int, j: int) {
    && |v| == |f| == |t| && 0 <= origPtr < |f| && 0 <= i < |f| && 0 <= j < |f| && j == f[i]
    && (forall x :: x in done ==> 0 <= x < |f| && v[x] == t[x])
    && (forall x :: 0 <= x < |f| && x !in done ==> v[x] == f[x])
    && (forall x :: x in done ==> t[x] in done || t[x] == origPtr)
    && (i in done || (i == origPtr && done == {}))
  }

  ghost predicate Inverse(f: seq<int>, t: seq<int>) {
    && |f| == |t|
    && (forall x :: 0 <= x < |f| ==> 0 <= f[x] < |f| && 0 <= t[x] < |f|)
    && (forall x :: 0 <= x < |f| ==> t[f[x]] == x)
    && (forall x :: 0 <= x < |f| ==> f[t[x]] == x)
  }

  lemma TurnStep(v: seq<int>, f: seq<int>, t: seq<int>, done: set<int>, origPtr: int, i: int, j: int)
    requires Turning(v, f, t, done, origPtr, i, j) && Inverse(f, t) && j !in done
    ensures v[j] == f[j] && Turning(v[j := i], f, t, done + {j}, origPtr, j, f[j])
    ensures j != origPtr ==> f[j] !in done + {j}
  {
    assert t[j] == i;
    if f[j] == j {
      assert i == j;
    }
  }

  /** The rows on the cycle of origPtr lead backwards; done is closed under t and holds origPtr. */
  ghost predicate Turned(v: seq<int>, t: seq<int>, done: set<int>, origPtr: int) {
    && |v| == |t| && origPtr in done
    && (forall x :: x in done ==> 0 <= x < |t| && v[x] == t[x] && t[x] in done)
  }

  /** T^-1 by pointer reversal; the loop ends because T is a permutation. */
  method Reverse(ll16: array<int>, ll4: array<int>, origPtr: nat, ghost f: seq<int>, ghost t: seq<int>)
    returns (ghost v: seq<int>, ghost done: set<int>)
    requires ll16 != ll4 && Holds20(ll16[..], ll4[..], f) && Inverse(f, t) && origPtr < |f| <= 0x10_0000
    modifies ll16, ll4
    ensures Holds20(ll16[..], ll4[..], v) && Turned(v, t, done, origPtr)
  {
    hide Holds20, Inverse, Turning;
    InverseRange(f, t);
    v, done := f, {};
    var i: nat := origPtr;
    var j := Get(ll16, ll4, i, v);
    TurnStart(f, t, origPtr);
    while true
      invariant Holds20(ll16[..], ll4[..], v) && |v| == |f| && 0 <= i < |f| && 0 <= j < |f|
      invariant Turning(v, f, t, done, origPtr, i, j) && j !in done && |done| <= |f|
      decreases |f| - |done|
    {
      var tmp := Get(ll16, ll4, j, v);
      TurnStep(v, f, t, done, origPtr, i, j);
      SetLL(ll16, ll4, j, i, v);
      v := v[j := i];
      done := done + {j};
      i := j;
      j := tmp;
      DoneBound(v, f, t, done, origPtr, i, j);
      if i == origPtr {
        break;
      }
    }
    TurnEnd(v, f, t, done, origPtr, i, j);
  }

  method Get(ll16: array<int>, ll4: array<int>, i: nat, ghost v: seq<int>) returns (r: int)
    requires Holds20(ll16[..], ll4[..], v) && i < |v|
    ensures r == v[i]
  {
    var high := if i % 2 == 0 then ll4[i / 2] % 16 else ll4[i / 2] / 16;
    r := ll16[i] + 65536 * high;
    assert r == GetLL(ll16[..], ll4[..], i);
  }

  lemma InverseRange(f: seq<int>, t: seq<int>)
    requires Inverse(f, t)
    ensures |f| == |t| && forall x :: 0 <= x < |f| ==> 0 <= f[x] < |f| && 0 <= t[x] < |f|
  {
  }

  lemma TurnStart(f: seq<int>, t: seq<int>, origPtr: int)
    requires Inverse(f, t) && 0 <= origPtr < |f|
    ensures Turning(f, f, t, {}, origPtr, origPtr, f[origPtr])
  {
  }

  lemma DoneBound(v: seq<int>, f: seq<int>, t: seq<int>, done: set<int>, origPtr: int, i: int, j: int)
    requires Turning(v, f, t, done, origPtr, i, j)
    ensures |done| <= |f|
  {
    SetBound(done, |f|);
  }

  lemma TurnEnd(v: seq<int>, f: seq<int>, t: seq<int>, done: set<int>, origPtr: int, i: int, j: int)
    requires Turning(v, f, t, done, origPtr, i, j) && i == origPtr && done != {}
    ensures Turned(v, t, done, origPtr)
  {
  }
}
