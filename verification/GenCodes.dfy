/**
 gen_codes and bi_reverse (trees.c): the encoder's codes, stored low bit first, and their
 agreement with the decoder's table.
 */
module GenCodes {
  import opened Powers
  import opened BitStrings
  import opened CanonicalCode
  import T = InflateTable

  /** A code turned end for end: the string whose high-first value is code, read low-first. */
  method BiReverse(code: nat, len: nat) returns (res: nat)
    requires 1 <= len && code < Pow2(len)
    ensures res == Idx(Code(code, len))
  {
    hide Idx, Msb, Pow2, Code;
    ghost var c := Code(code, len);
    var x, n := code, len;
    res := 0;
    Ends(c);
    while n > 0
      invariant 0 <= n <= len && x == Msb(c[..n]) && res == 2 * Idx(c[n..])
      decreases n
    {
      LastBit(c, n);
      res := res + x % 2;  // res is even, so this is res | (code & 1)
      x := x / 2;
      res := 2 * res;
      n := n - 1;
    }
    assert c[0..] == c;
    res := res / 2;
  }

  lemma Ends(c: seq<Bit>)
    ensures Msb(c[..|c|]) == Msb(c) && Idx(c[|c|..]) == 0
  {
    assert c[..|c|] == c;
  }

  lemma LastBit(c: seq<Bit>, n: nat)
    requires 1 <= n <= |c|
    ensures Msb(c[..n]) % 2 == c[n - 1] && Msb(c[..n]) / 2 == Msb(c[..n - 1])
    ensures Idx(c[n - 1..]) == c[n - 1] + 2 * Idx(c[n..])
  {
    hide Msb, Idx;
    var high, low := c[..n], c[n - 1..];
    assert high[..n - 1] == c[..n - 1] && low[1..] == c[n..];
    LastOf(high);
    FirstOf(low);
  }

  lemma LastOf(s: seq<Bit>)
    requires s != []
    ensures Msb(s) % 2 == s[|s| - 1] && Msb(s) / 2 == Msb(s[..|s| - 1])
  {
    hide Msb;
    LastIs(s);
    DivModUnique(Msb(s), 2, Msb(s[..|s| - 1]), s[|s| - 1]);
  }

  lemma LastIs(s: seq<Bit>)
    requires s != []
    ensures Msb(s) == 2 * Msb(s[..|s| - 1]) + s[|s| - 1]
  {
  }

  lemma FirstOf(s: seq<Bit>)
    requires s != []
    ensures Idx(s) == s[0] + 2 * Idx(s[1..])
  {
  }

  /** Codes of length l start below 2^l, so a 16-bit counter holds them. */
  lemma FirstFits(lens: seq<nat>, l: nat)
    requires 1 <= l <= MAXBITS && NotOver(lens)
    ensures FirstCode(lens, l) <= Pow2(l) <= SPACE
  {
    FirstCodePos(lens, l);
    UsedMono(lens, l, MAXBITS + 1);
    CellTimes(l);
    if FirstCode(lens, l) > Pow2(l) { MulMono(Pow2(l) + 1, FirstCode(lens, l), Cell(l)); MulSucc(Pow2(l), Cell(l)); }
    Pow2Mono(l, MAXBITS);
    Pow2Space();
  }

  /** nextCode[l] is the code that the next symbol of length l will get. */
  ghost predicate NextCodes(nextCode: seq<nat>, lens: seq<nat>, n: nat)
    requires n <= |lens|
    ensures NextCodes(nextCode, lens, n) ==> |nextCode| == MAXBITS + 1
  {
    |nextCode| == MAXBITS + 1 && forall l :: 1 <= l <= MAXBITS ==> nextCode[l] == FirstCode(lens, l) + Count(lens, l, n)
  }

  method AssignOne(lens: seq<nat>, nextCode: array<nat>, n: nat) returns (r: nat)
    requires Lengths(lens) && NotOver(lens) && n < |lens| && NextCodes(nextCode[..], lens, n)
    modifies nextCode
    ensures NextCodes(nextCode[..], lens, n + 1)
    ensures lens[n] >= 1 ==> r == Idx(SymBits(lens, n))
  {
    hide Idx, Pow2, SymBits, Count, FirstCode;
    T.CountNext(lens, n);
    r := 0;
    var len := lens[n];
    if len != 0 {
      CodeFits(lens, n);
      SymIsCode(lens, n);
      r := BiReverse(nextCode[len], len);
      nextCode[len] := nextCode[len] + 1;
    }
  }

  /** gen_codes: code[n] for every n of non-zero length, from the counts of each length. */
  method Assign(lens: seq<nat>, blCount: array<int>) returns (code: array<nat>)
    requires Lengths(lens) && NotOver(lens) && blCount.Length == MAXBITS + 1 && blCount[0] == 0
    requires forall l :: 1 <= l <= MAXBITS ==> blCount[l] == Total(lens, l)
    ensures fresh(code) && code.Length == |lens|
    ensures forall s :: 0 <= s < |lens| && lens[s] >= 1 ==> code[s] == Idx(SymBits(lens, s))
  {
    hide Idx, SymBits, NextCodes;
    var nextCode := FirstCodes(lens, blCount);
    NextCodesStart(nextCode[..], lens);
    code := new nat[|lens|](_ => 0);
    for n := 0 to |lens|
      invariant nextCode != code && NextCodes(nextCode[..], lens, n)
      invariant forall s :: 0 <= s < n && lens[s] >= 1 ==> code[s] == Idx(SymBits(lens, s))
    {
      var r := AssignOne(lens, nextCode, n);
      if lens[n] != 0 { code[n] := r; }
    }
  }

  lemma NextCodesStart(nextCode: seq<nat>, lens: seq<nat>)
    requires |nextCode| == MAXBITS + 1 && forall l :: 1 <= l <= MAXBITS ==> nextCode[l] == FirstCode(lens, l)
    ensures NextCodes(nextCode, lens, 0)
  {
  }

  lemma SymIsCode(lens: seq<nat>, s: nat)
    requires s < |lens| && 1 <= lens[s] <= MAXBITS && NotOver(lens) && CodeOf(lens, s) < Pow2(lens[s])
    ensures SymBits(lens, s) == Code(CodeOf(lens, s), lens[s])
  {
  }

  /** The value stored in a 16-bit ush; a first code is never cut off. */
  function Truncated(x: nat, lens: seq<nat>, l: nat): (r: nat)
    requires 1 <= l <= MAXBITS && NotOver(lens) && x == FirstCode(lens, l)
    ensures r == x
  {
    FirstFits(lens, l);
    DivModUnique(x, 0x1_0000, 0, x);
    x % 0x1_0000
  }

  lemma FirstCodeNext(lens: seq<nat>, l: nat)
    requires 1 <= l <= MAXBITS
    ensures FirstCode(lens, l) == if l == 1 then 0 else 2 * (FirstCode(lens, l - 1) + Total(lens, l - 1))
  {
  }

  method FirstCodes(lens: seq<nat>, blCount: array<int>) returns (nextCode: array<nat>)
    requires NotOver(lens) && blCount.Length == MAXBITS + 1 && blCount[0] == 0
    requires forall l :: 1 <= l <= MAXBITS ==> blCount[l] == Total(lens, l)
    ensures fresh(nextCode) && nextCode.Length == MAXBITS + 1
    ensures forall l :: 1 <= l <= MAXBITS ==> nextCode[l] == FirstCode(lens, l)
  {
    hide Total, Pow2, Used, NotOver, FirstCode;
    nextCode := new nat[MAXBITS + 1](_ => 0);
    var code := 0;
    var bits := 1;
    while bits <= MAXBITS
      invariant 1 <= bits <= MAXBITS + 1
      invariant code == if bits == 1 then 0 else FirstCode(lens, bits - 1)
      invariant forall l :: 1 <= l < bits ==> nextCode[l] == FirstCode(lens, l)
    {
      FirstCodeNext(lens, bits);
      code := Truncated(2 * (code + blCount[bits - 1]), lens, bits);
      nextCode[bits] := code;
      bits := bits + 1;
    }
  }

  lemma {:induction false} Pow2Exceeds(x: nat)
    ensures x < Pow2(x)
  {
    if x > 0 { Pow2Exceeds(x - 1); }
  }

  /**
   Encoder and decoder agree: whenever the low bits of the accumulator are the code that gen_codes
   assigned to s, the lookup in inflate_table's table finds s and drops exactly its length.
   */
  lemma EncodeDecode(tab: seq<T.Entry>, root: nat, links: map<nat, T.Sub>, kind: T.Kind, lens: seq<nat>,
                     s: nat, code: nat, hold: nat)
    requires T.Fits(kind, lens) && T.AllDone(tab, root, links, kind, lens) && s < |lens| && lens[s] >= 1
    requires code == Idx(SymBits(lens, s)) && hold % Pow2(lens[s]) == code
    ensures hold % Pow2(root) < |tab|
    ensures T.Look(tab, root, hold) == T.Found(T.Plain(kind, s, 0).op, T.Plain(kind, s, 0).val, lens[s])
  {
    hide Idx, Pow2, SymBits, T.AllDone;
    var n := hold + MAXBITS;
    var v := LowBits(hold, n);
    Pow2Exceeds(hold);
    Pow2Mono(hold, n);
    LowBitsIdx(hold, n);
    T.MatchIdx(SymBits(lens, s), v, n);
    assert v[..n] == v;
    T.LookSymbol(tab, root, links, kind, lens, v, s);
  }
}
