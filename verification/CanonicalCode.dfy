/**
 Canonical Huffman codes (section 3.2.2 of RFC 1951), from code lengths 0..15 where 0 means
 unused.  A code of length l occupies an interval of 2^(15 - l) among the 2^15 strings of
 15 bits; codes are laid out in order of (length, symbol).
 */
module CanonicalCode {
  import opened Powers
  import opened BitStrings

  const MAXBITS := 15
  const SPACE := 0x8000  // 2^MAXBITS

  predicate Lengths(lens: seq<nat>) {
    forall i :: 0 <= i < |lens| ==> lens[i] <= MAXBITS
  }

  /** Symbols below k of length l. */
  function Count(lens: seq<nat>, l: nat, k: nat): (r: nat)
    requires k <= |lens|
    ensures r <= k
  {
    if k == 0 then 0 else Count(lens, l, k - 1) + if lens[k - 1] == l then 1 else 0
  }

  function Total(lens: seq<nat>, l: nat): (r: nat) { Count(lens, l, |lens|) }

  /** Size of the interval of a code of length l. */
  function Cell(l: nat): (r: nat)
    requires l <= MAXBITS
    ensures r >= 1
  {
    Pow2(MAXBITS - l)
  }

  lemma CellHalves(l: nat)
    requires l < MAXBITS
    ensures Cell(l) == 2 * Cell(l + 1)
  {
  }

  lemma CellTimes(l: nat)
    requires l <= MAXBITS
    ensures Pow2(l) * Cell(l) == SPACE
  {
    Pow2Add(l, MAXBITS - l);
    Pow2Space();
  }

  lemma Pow2Space()
    ensures Pow2(MAXBITS) == SPACE
  {
    assert Pow2(10) == 0x400;
  }

  /** Strings of MAXBITS bits taken by all codes shorter than l. */
  function Used(lens: seq<nat>, l: nat): (r: nat)
    requires 1 <= l <= MAXBITS + 1
  {
    if l == 1 then 0 else Used(lens, l - 1) + Total(lens, l - 1) * Cell(l - 1)
  }

  /** The Kraft condition, and equality in it. */
  predicate NotOver(lens: seq<nat>) { Used(lens, MAXBITS + 1) <= SPACE }
  predicate Complete(lens: seq<nat>) { Used(lens, MAXBITS + 1) == SPACE }

  /** next_code[l] of the RFC before any code of length l is assigned. */
  function FirstCode(lens: seq<nat>, l: nat): (r: nat)
    requires 1 <= l <= MAXBITS
  {
    if l == 1 then 0 else 2 * (FirstCode(lens, l - 1) + Total(lens, l - 1))
  }

  /** The code of symbol s, high bit first. */
  function CodeOf(lens: seq<nat>, s: nat): (r: nat)
    requires s < |lens| && 1 <= lens[s] <= MAXBITS
  {
    FirstCode(lens, lens[s]) + Count(lens, lens[s], s)
  }

  /** Start of the interval of the i-th code of length l. */
  function PosAt(lens: seq<nat>, l: nat, i: nat): (r: nat)
    requires 1 <= l <= MAXBITS
  {
    Used(lens, l) + i * Cell(l)
  }

  lemma {:induction false} FirstCodePos(lens: seq<nat>, l: nat)
    requires 1 <= l <= MAXBITS
    ensures FirstCode(lens, l) * Cell(l) == Used(lens, l)
  {
    hide Pow2, Cell, Total;
    if l > 1 {
      FirstCodePos(lens, l - 1);
      CellHalves(l - 1);
      DoubleDist(FirstCode(lens, l - 1), Total(lens, l - 1), Cell(l));
    }
  }

  lemma DoubleDist(f: int, t: int, c: int)
    ensures (2 * (f + t)) * c == f * (2 * c) + t * (2 * c)
  {
  }

  lemma CodePos(lens: seq<nat>, s: nat)
    requires s < |lens| && 1 <= lens[s] <= MAXBITS
    ensures CodeOf(lens, s) * Cell(lens[s]) == PosAt(lens, lens[s], Count(lens, lens[s], s))
  {
    var l := lens[s];
    FirstCodePos(lens, l);
    MulDist(FirstCode(lens, l), Count(lens, l, s), Cell(l));
  }

  lemma {:induction false} CountMono(lens: seq<nat>, l: nat, j: nat, k: nat)
    requires j <= k <= |lens|
    ensures Count(lens, l, j) <= Count(lens, l, k)
    ensures j < k && lens[j] == l ==> Count(lens, l, j) < Count(lens, l, k)
    decreases k
  {
    if j < k { CountMono(lens, l, j, k - 1); }
  }

  lemma {:induction false} UsedMono(lens: seq<nat>, l: nat, m: nat)
    requires 1 <= l <= m <= MAXBITS + 1
    ensures Used(lens, l) <= Used(lens, m)
    decreases m
  {
    hide Pow2, Cell, Total;
    if l < m {
      UsedMono(lens, l, m - 1);
      MulMono(0, Total(lens, m - 1), Cell(m - 1));
    }
  }

  /** The i-th code of length l ends where the next begins, and within what longer codes leave. */
  lemma PosEnd(lens: seq<nat>, l: nat, i: nat)
    requires 1 <= l <= MAXBITS && i < Total(lens, l)
    ensures PosAt(lens, l, i) + Cell(l) == PosAt(lens, l, i + 1) <= Used(lens, l + 1) <= Used(lens, MAXBITS + 1)
  {
    MulDist(i, 1, Cell(l));
    MulMono(i + 1, Total(lens, l), Cell(l));
    UsedMono(lens, l + 1, MAXBITS + 1);
  }

  /** Under the Kraft condition every code fits its length. */
  lemma CodeFits(lens: seq<nat>, s: nat)
    requires s < |lens| && 1 <= lens[s] <= MAXBITS && NotOver(lens)
    ensures CodeOf(lens, s) < Pow2(lens[s])
  {
    var l, c := lens[s], CodeOf(lens, s);
    CodePos(lens, s);
    CountMono(lens, l, s, |lens|);
    PosEnd(lens, l, Count(lens, l, s));
    CellTimes(l);
    if c >= Pow2(l) { MulMono(Pow2(l), c, Cell(l)); }
  }

  /** The bits sent for symbol s. */
  function SymBits(lens: seq<nat>, s: nat): (r: seq<Bit>)
    requires s < |lens| && 1 <= lens[s] <= MAXBITS && NotOver(lens)
    ensures |r| == lens[s] && Msb(r) == CodeOf(lens, s)
  {
    CodeFits(lens, s);
    Code(CodeOf(lens, s), lens[s])
  }

  function SymPos(lens: seq<nat>, s: nat): (r: nat)
    requires s < |lens| && 1 <= lens[s] <= MAXBITS
  {
    PosAt(lens, lens[s], Count(lens, lens[s], s))
  }

  /** A string starts with a code exactly when its first 15 bits lie in the code's interval. */
  lemma PrefixInterval(c: seq<Bit>, v: seq<Bit>)
    requires 1 <= |c| <= MAXBITS <= |v|
    ensures c <= v <==> Msb(c) * Cell(|c|) <= Msb(v[..MAXBITS]) < Msb(c) * Cell(|c|) + Cell(|c|)
  {
    hide Msb, Pow2;
    var l := |c|;
    var a, b := v[..l], v[l..MAXBITS];
    assert v[..MAXBITS] == a + b;
    MsbAppend(a, b);
    MsbBound(b);
    if c <= v {
      assert a == c;
    }
    if Msb(c) != Msb(a) {
      Apart(Msb(c), Msb(a), Msb(b), Cell(l));
    } else {
      MsbInjective(c, a);
    }
  }

  lemma Apart(q: int, q': int, r: int, m: int)
    requires q != q' && 0 <= r < m
    ensures !(q * m <= q' * m + r < q * m + m)
  {
    if q < q' { MulMono(q + 1, q', m); MulSucc(q, m); } else { MulMono(q' + 1, q, m); MulSucc(q', m); }
  }

  lemma SymInterval(lens: seq<nat>, s: nat, v: seq<Bit>)
    requires s < |lens| && 1 <= lens[s] <= MAXBITS <= |v| && NotOver(lens)
    ensures SymBits(lens, s) <= v <==> SymPos(lens, s) <= Msb(v[..MAXBITS]) < SymPos(lens, s) + Cell(lens[s])
  {
    CodePos(lens, s);
    PrefixInterval(SymBits(lens, s), v);
  }

  /** Symbol s comes before the i-th code of length l in canonical order. */
  predicate Before(lens: seq<nat>, s: nat, l: nat, i: nat)
    requires s < |lens|
  {
    1 <= lens[s] && (lens[s] < l || (lens[s] == l && Count(lens, l, s) < i))
  }

  lemma BeforePos(lens: seq<nat>, s: nat, l: nat, i: nat)
    requires s < |lens| && 1 <= l <= MAXBITS && Before(lens, s, l, i)
    ensures SymPos(lens, s) + Cell(lens[s]) <= PosAt(lens, l, i)
  {
    hide Pow2, Cell, Used, Count;
    var m := lens[s];
    CountMono(lens, m, s, |lens|);
    PosEnd(lens, m, Count(lens, m, s));
    if m < l {
      UsedMono(lens, m + 1, l);
    } else {
      MulMono(Count(lens, m, s) + 1, i, Cell(l));
    }
  }

  /** No string starts with two codes: the code is prefix-free. */
  lemma PrefixFree(lens: seq<nat>, s: nat, t: nat, v: seq<Bit>)
    requires s < |lens| && t < |lens| && 1 <= lens[s] <= MAXBITS && 1 <= lens[t] <= MAXBITS && NotOver(lens)
    requires |v| >= MAXBITS && SymBits(lens, s) <= v && SymBits(lens, t) <= v
    ensures s == t
  {
    SymInterval(lens, s, v);
    SymInterval(lens, t, v);
    if s != t {
      var i, j := Count(lens, lens[s], s), Count(lens, lens[t], t);
      if s < t { CountMono(lens, lens[s], s, t); } else { CountMono(lens, lens[t], t, s); }
      if Before(lens, s, lens[t], j) {
        BeforePos(lens, s, lens[t], j);
      } else {
        BeforePos(lens, t, lens[s], i);
      }
    }
  }

  /** The i-th symbol of length l. */
  lemma {:induction false} Nth(lens: seq<nat>, l: nat, i: nat, k: nat) returns (s: nat)
    requires k <= |lens| && i < Count(lens, l, k)
    ensures s < k && lens[s] == l && Count(lens, l, s) == i
  {
    if lens[k - 1] == l && Count(lens, l, k - 1) == i {
      s := k - 1;
    } else {
      s := Nth(lens, l, i, k - 1);
    }
  }

  /** In a complete code every string starts with the code of some symbol. */
  lemma Covers(lens: seq<nat>, v: seq<Bit>) returns (s: nat)
    requires Complete(lens) && |v| >= MAXBITS
    ensures s < |lens| && 1 <= lens[s] <= MAXBITS && SymBits(lens, s) <= v
  {
    var x := Msb(v[..MAXBITS]);
    MsbBound(v[..MAXBITS]);
    Pow2Space();
    s := Locate(lens, x, MAXBITS + 1);
    SymInterval(lens, s, v);
  }

  lemma {:induction false} Locate(lens: seq<nat>, x: nat, m: nat) returns (s: nat)
    requires 1 <= m <= MAXBITS + 1 && x < Used(lens, m)
    ensures s < |lens| && 1 <= lens[s] <= MAXBITS && SymPos(lens, s) <= x < SymPos(lens, s) + Cell(lens[s])
    decreases m
  {
    var l := m - 1;
    if x < Used(lens, l) {
      s := Locate(lens, x, l);
    } else {
      var i := LocateIn(x - Used(lens, l), Cell(l), Total(lens, l));
      s := Nth(lens, l, i, |lens|);
      MulDist(i, 1, Cell(l));
    }
  }

  lemma {:induction false} LocateIn(y: nat, c: nat, n: nat) returns (i: nat)
    requires y < n * c
    ensures i < n && i * c <= y < i * c + c
    decreases n
  {
    MulDist(n - 1, 1, c);
    if y >= (n - 1) * c {
      i := n - 1;
    } else {
      i := LocateIn(y, c, n - 1);
    }
  }

  /** Symbols in use of length below l. */
  function Start(lens: seq<nat>, l: nat): (r: nat)
    requires 1 <= l
  {
    if l == 1 then 0 else Start(lens, l - 1) + Total(lens, l - 1)
  }

  lemma {:induction false} StartMono(lens: seq<nat>, l: nat, m: nat)
    requires 1 <= l <= m
    ensures Start(lens, l) <= Start(lens, m)
    decreases m
  {
    if l < m { StartMono(lens, l, m - 1); }
  }

  /** Symbols among the first k with a length in 1..m-1. */
  function Below(lens: seq<nat>, m: nat, k: nat): (r: nat)
    requires k <= |lens|
    ensures r <= k
  {
    if k == 0 then 0 else Below(lens, m, k - 1) + if 1 <= lens[k - 1] < m then 1 else 0
  }

  lemma {:induction false} StartAll(lens: seq<nat>, k: nat)
    requires k <= |lens|
    ensures forall m :: m >= 1 ==> Below(lens, m + 1, k) == Below(lens, m, k) + Count(lens, m, k)
    ensures Below(lens, 1, k) == 0
  {
    if k > 0 { StartAll(lens, k - 1); }
  }

  lemma {:induction false} StartCount(lens: seq<nat>, m: nat)
    requires 1 <= m
    ensures Start(lens, m) == Below(lens, m, |lens|)
  {
    StartAll(lens, |lens|);
    if m > 1 {
      StartCount(lens, m - 1);
      assert Below(lens, (m - 1) + 1, |lens|) == Below(lens, m - 1, |lens|) + Count(lens, m - 1, |lens|);
    }
  }

  lemma {:induction false} UsedGap(lens: seq<nat>, l: nat, m: nat)
    requires 1 <= l <= m <= MAXBITS + 1 && forall j :: l <= j < m ==> Total(lens, j) == 0
    ensures Used(lens, m) == Used(lens, l)
    decreases m
  {
    hide Pow2, Cell, Total;
    if l < m { UsedGap(lens, l, m - 1); }
  }

  lemma CellSplit(l: nat, l2: nat)
    requires l <= l2 <= MAXBITS
    ensures Cell(l) == Pow2(l2 - l) * Cell(l2)
  {
    Pow2Add(l2 - l, MAXBITS - l2);
  }

  lemma MulCancel(a: int, b: int, c: nat)
    requires a * c == b * c && c >= 1
    ensures a == b
  {
    if a < b { MulMono(a + 1, b, c); MulSucc(a, c); }
    if b < a { MulMono(b + 1, a, c); MulSucc(b, c); }
  }

  lemma {:induction false} CountTrim(lens: seq<nat>, n: nat, l: nat, k: nat)
    requires n <= k <= |lens| && l >= 1 && forall s :: n <= s < |lens| ==> lens[s] == 0
    ensures Count(lens, l, k) == Count(lens[..n], l, n)
    decreases k
  {
    if k > n { CountTrim(lens, n, l, k - 1); } else { CountFront(lens, n, l, k); }
  }

  lemma {:induction false} CountFront(lens: seq<nat>, n: nat, l: nat, k: nat)
    requires k <= n <= |lens|
    ensures Count(lens, l, k) == Count(lens[..n], l, k)
  {
    if k > 0 { CountFront(lens, n, l, k - 1); }
  }

  lemma {:induction false} UsedTrim(lens: seq<nat>, n: nat, l: nat)
    requires n <= |lens| && 1 <= l <= MAXBITS + 1 && forall s :: n <= s < |lens| ==> lens[s] == 0
    ensures Used(lens, l) == Used(lens[..n], l) && (l <= MAXBITS ==> FirstCode(lens, l) == FirstCode(lens[..n], l))
    decreases l
  {
    hide Cell, Count;
    if l > 1 {
      UsedTrim(lens, n, l - 1);
      CountTrim(lens, n, l - 1, |lens|);
    }
  }

  /** Unused symbols at the end change nothing. */
  lemma Trim(lens: seq<nat>, n: nat)
    requires n <= |lens| && forall s :: n <= s < |lens| ==> lens[s] == 0
    ensures Complete(lens) == Complete(lens[..n]) && NotOver(lens) == NotOver(lens[..n])
    ensures forall s :: 0 <= s < n && 1 <= lens[s] <= MAXBITS ==> CodeOf(lens, s) == CodeOf(lens[..n], s)
  {
    hide Used, FirstCode, Count;
    UsedTrim(lens, n, MAXBITS + 1);
    forall s | 0 <= s < n && 1 <= lens[s] <= MAXBITS ensures CodeOf(lens, s) == CodeOf(lens[..n], s) {
      UsedTrim(lens, n, lens[s]);
      CountFront(lens, n, lens[s], s);
    }
  }
}
