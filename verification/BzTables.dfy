/**
 * The choice of coding tables in sendMTFValues (compress.c): an initial
 * division of the alphabet, then four passes in which every group of fifty
 * symbols picks its cheapest table and every table is rebuilt for the
 * groups that picked it.
 */
module BzTables {
  import opened BzSymbols
  import H = HuffmanLengths
  import O = OptimalCode

  const LESSER_ICOST: nat := 0
  const GREATER_ICOST: nat := 15
  const N_ITERS: nat := 4
  const MAX_LEN: nat := 17
  const MOST_SYMBOLS: nat := 900001

  /** How many tables a block of so many symbols gets. */
  function GroupCount(nMTF: nat): (n: nat)
    ensures 2 <= n <= 6
  {
    if nMTF < 200 then 2
    else if nMTF < 600 then 3
    else if nMTF < 1200 then 4
    else if nMTF < 2400 then 5
    else 6
  }

  // ------------------------------------------------------------------
  // The initial tables

  /** A table that favours the symbols from lo up to hi. */
  predicate Favours(len: seq<nat>, lo: nat, hi: nat) {
    forall v :: 0 <= v < |len| ==> len[v] == if lo <= v < hi then LESSER_ICOST else GREATER_ICOST
  }

  lemma {:induction false} SumUpTo(freq: seq<nat>, i: nat, j: nat)
    requires i <= j <= |freq|
    ensures H.Sum(freq[..i]) <= H.Sum(freq[..j])
    ensures forall v :: i <= v < j && freq[v] > 0 ==> H.Sum(freq[..i]) < H.Sum(freq[..j])
  {
    if i < j {
      SumUpTo(freq, i, j - 1);
      assert freq[..j][..j - 1] == freq[..j - 1];
    }
  }

  /** How often the symbols from gs up to j occur. */
  ghost function Taken(freq: seq<nat>, gs: nat, j: nat): int
    requires gs <= j <= |freq|
  {
    H.Sum(freq[..j]) - H.Sum(freq[..gs])
  }

  /** stop is the first end at which the symbols from gs on have their share, or the end of the alphabet. */
  ghost predicate Reaches(freq: seq<nat>, gs: nat, share: int, stop: nat) {
    && gs <= stop <= |freq| && (forall j :: gs <= j < stop ==> Taken(freq, gs, j) < share)
    && (stop == |freq| || Taken(freq, gs, stop) >= share)
  }

  /** Symbols from gs on until their frequencies come to tFreq. */
  method Part(freq: seq<nat>, gs: nat, tFreq: int) returns (ge: int, aFreq: int)
    requires gs <= |freq|
    ensures gs - 1 <= ge < |freq| && aFreq == H.Sum(freq[..ge + 1]) - H.Sum(freq[..gs])
    ensures aFreq >= tFreq || ge == |freq| - 1
    ensures Reaches(freq, gs, tFreq, ge + 1)
  {
    ge, aFreq := gs - 1, 0;
    while aFreq < tFreq && ge < |freq| - 1
      invariant gs - 1 <= ge < |freq| && aFreq == H.Sum(freq[..ge + 1]) - H.Sum(freq[..gs])
      invariant forall j :: gs <= j <= ge ==> Taken(freq, gs, j) < tFreq
      decreases |freq| - ge
    {
      ge := ge + 1;
      assert freq[..ge + 1][..ge] == freq[..ge];
      aFreq := aFreq + freq[ge];
    }
  }

  /** The tables 0 to n - 1 favour disjoint stretches of the alphabet, from the last table down. */
  ghost predicate Divided(lens: seq<seq<nat>>, cut: seq<nat>, n: nat, alphaSize: nat)
    ensures Divided(lens, cut, n, alphaSize) ==> |lens| == n
  {
    && |lens| == n && 0 < |cut| <= n + 1 && cut[0] == 0 && (forall t :: 0 <= t < n ==> |lens[t]| == alphaSize)
    && (forall i :: 0 <= i < |cut| ==> cut[i] <= alphaSize)
    && forall i :: 0 <= i < |cut| - 1 ==> cut[i] <= cut[i + 1] && Favours(lens[n - 1 - i], cut[i], cut[i + 1])
  }

  /**
   * The i-th of n stretches: from its start it goes on until it has an equal
   * share of what is left; every second one in between leaves its last
   * symbol to the next, if it has another.
   */
  ghost predicate CutAt(freq: seq<nat>, n: nat, i: nat, from: nat, stop: nat, to: nat)
    requires i < n && from <= |freq|
  {
    && Reaches(freq, from, Taken(freq, from, |freq|) / (n - i), stop)
    && to == if stop > from + 1 && 0 < i < n - 1 && i % 2 == 1 then stop - 1 else stop
  }

  ghost predicate Stretch(freq: seq<nat>, n: nat, i: nat, from: nat, to: nat)
    requires i < n && from <= |freq|
  {
    exists stop: nat :: CutAt(freq, n, i, from, stop, to)
  }

  /** The first k stretches have been cut like that. */
  ghost predicate Shared(freq: seq<nat>, cut: seq<nat>, n: nat, k: nat) {
    && k <= n && k < |cut| && (forall i :: 0 <= i <= k ==> cut[i] <= |freq|)
    && forall i :: 0 <= i < k ==> Stretch(freq, n, i, cut[i], cut[i + 1])
  }

  lemma SharedNext(freq: seq<nat>, cut: seq<nat>, n: nat, to: nat)
    requires cut != [] && |cut| <= n && Shared(freq, cut, n, |cut| - 1) && to <= |freq|
    requires Stretch(freq, n, |cut| - 1, cut[|cut| - 1], to)
    ensures Shared(freq, cut + [to], n, |cut|)
  {
    hide Stretch;
    var cut' := cut + [to];
    forall i | 0 <= i < |cut| ensures Stretch(freq, n, i, cut'[i], cut'[i + 1]) {
      assert cut'[i] == cut[i];
      assert i < |cut| - 1 ==> cut'[i + 1] == cut[i + 1];
    }
  }

  /** Generate an initial set of coding tables: together they favour every symbol that occurs. */
  method InitialTables(freq: seq<nat>, nMTF: nat, nGroups: nat) returns (lens: seq<seq<nat>>, ghost cut: seq<nat>)
    requires H.Sum(freq) == nMTF && nGroups >= 1
    ensures Divided(lens, cut, nGroups, |freq|) && |cut| == nGroups + 1 && Shared(freq, cut, nGroups, nGroups)
    ensures forall v: nat :: v < |freq| && freq[v] > 0 ==> Favoured(lens, v)
  {
    hide H.Sum, Reaches, Shared, Divided;
    var alphaSize := |freq|;
    lens := seq(nGroups, _ => seq(alphaSize, _ => GREATER_ICOST));
    var nPart, remF, gs := nGroups, nMTF as int, 0;
    cut := [0];
    SumNone(freq);
    NoneShared(freq, nGroups);
    NoneDivided(nGroups, alphaSize);
    while nPart > 0
      invariant 0 <= nPart <= nGroups && 0 <= gs <= alphaSize
      invariant |cut| == nGroups - nPart + 1 && cut[nGroups - nPart] == gs
      invariant Divided(lens, cut, nGroups, alphaSize) && remF == nMTF - H.Sum(freq[..gs])
      invariant nPart == 0 ==> remF <= 0 || gs == alphaSize
      invariant Shared(freq, cut, nGroups, nGroups - nPart)
    {
      SumUpTo(freq, gs, alphaSize);
      assert freq[..alphaSize] == freq;
      var tFreq := remF / nPart;
      var ge, aFreq := Part(freq, gs, tFreq);
      ghost var stop := ge + 1;
      if ge > gs && nPart != nGroups && nPart != 1 && (nGroups - nPart) % 2 == 1 {
        assert freq[..ge + 1][..ge] == freq[..ge];
        SumLast(freq, ge);
        aFreq := aFreq - freq[ge];
        ge := ge - 1;
      }
      var len := seq(alphaSize, v => if gs <= v <= ge then LESSER_ICOST else GREATER_ICOST);
      assert CutAt(freq, nGroups, nGroups - nPart, gs, stop, ge + 1);
      SharedNext(freq, cut, nGroups, ge + 1);
      DividedNext(lens, cut, nGroups, alphaSize, len, ge + 1);
      lens := lens[nPart - 1 := len];
      cut := cut + [ge + 1];
      nPart := nPart - 1;
      gs := ge + 1;
      remF := remF - aFreq;
    }
    SumUpTo(freq, gs, alphaSize);
    assert freq[..alphaSize] == freq;
    forall v: nat | v < |freq| && freq[v] > 0 ensures Favoured(lens, v) {
      InStretch(lens, cut, nGroups, alphaSize, v, nGroups);
    }
  }

  /** The tables are filled from the last to the first. */
  lemma DividedNext(lens: seq<seq<nat>>, cut: seq<nat>, n: nat, alphaSize: nat, len: seq<nat>, end: nat)
    requires Divided(lens, cut, n, alphaSize) && |cut| <= n && |len| == alphaSize
    requires cut[|cut| - 1] <= end <= alphaSize && Favours(len, cut[|cut| - 1], end)
    ensures Divided(lens[n - |cut| := len], cut + [end], n, alphaSize)
  {
  }

  lemma NoneDivided(n: nat, alphaSize: nat)
    ensures Divided(seq(n, _ => seq(alphaSize, _ => GREATER_ICOST)), [0], n, alphaSize)
  {
  }

  lemma NoneShared(freq: seq<nat>, n: nat)
    ensures Shared(freq, [0], n, 0)
  {
  }

  ghost predicate Favoured(lens: seq<seq<nat>>, v: nat) {
    exists t :: 0 <= t < |lens| && v < |lens[t]| && lens[t][v] == LESSER_ICOST
  }

  lemma {:induction false} InStretch(lens: seq<seq<nat>>, cut: seq<nat>, n: nat, alphaSize: nat, v: nat, i: nat)
    requires Divided(lens, cut, n, alphaSize) && |cut| == n + 1 && i <= n && v < cut[i]
    ensures Favoured(lens, v)
  {
    if v < cut[i - 1] {
      InStretch(lens, cut, n, alphaSize, v, i - 1);
    } else {
      assert Favours(lens[n - 1 - (i - 1)], cut[i - 1], cut[i - 1 + 1]);
      assert lens[n - i][v] == LESSER_ICOST;
    }
  }

  lemma SumNone(freq: seq<nat>)
    ensures H.Sum(freq[..0]) == 0
  {
  }

  lemma SumLast(freq: seq<nat>, k: nat)
    requires k < |freq|
    ensures H.Sum(freq[..k + 1]) == H.Sum(freq[..k]) + freq[k]
  {
    assert freq[..k + 1][..k] == freq[..k];
  }

  // ------------------------------------------------------------------
  // One group

  /** Bits that the symbols from lo up to hi take in a table. */
  function Cost(mtfv: seq<nat>, lo: nat, hi: nat, len: seq<nat>): (c: nat)
    requires lo <= hi <= |mtfv| && forall k :: 0 <= k < |mtfv| ==> mtfv[k] < |len|
  {
    if lo == hi then 0 else Cost(mtfv, lo, hi - 1, len) + len[mtfv[hi - 1]]
  }

  ghost predicate Coded(mtfv: seq<nat>, lens: seq<seq<nat>>, alphaSize: nat) {
    && (forall k :: 0 <= k < |mtfv| ==> mtfv[k] < alphaSize)
    && forall t :: 0 <= t < |lens| ==> |lens[t]| == alphaSize && AtMost(lens[t])
  }

  predicate AtMost(len: seq<nat>) {
    forall v :: 0 <= v < |len| ==> len[v] <= MAX_LEN
  }

  lemma {:induction false} CostBound(mtfv: seq<nat>, lo: nat, hi: nat, len: seq<nat>)
    requires lo <= hi <= |mtfv| && (forall k :: 0 <= k < |mtfv| ==> mtfv[k] < |len|) && AtMost(len)
    ensures Cost(mtfv, lo, hi, len) <= MAX_LEN * (hi - lo)
  {
    if lo < hi { CostBound(mtfv, lo, hi - 1, len); }
  }

  /** len_pack: the lengths of two tables side by side in one word. */
  method Pack(low: seq<nat>, high: seq<nat>) returns (pack: seq<nat>)
    requires |low| == |high|
    ensures |pack| == |low| && forall v :: 0 <= v < |pack| ==> pack[v] == low[v] + 0x1_0000 * high[v]
  {
    pack := [];
    for v := 0 to |low|
      invariant |pack| == v && forall u :: 0 <= u < v ==> pack[u] == low[u] + 0x1_0000 * high[u]
    {
      pack := pack + [high[v] * 0x1_0000 + low[v]];
    }
  }

  /** Two costs added up at once in the halves of a word: neither runs over. */
  method PairCost(mtfv: seq<nat>, gs: nat, low: seq<nat>, high: seq<nat>, pack: seq<nat>) returns (c: nat, d: nat)
    requires gs + GROUP <= |mtfv| && |low| == |high| == |pack| && AtMost(low) && AtMost(high)
    requires forall k :: 0 <= k < |mtfv| ==> mtfv[k] < |low|
    requires forall v :: 0 <= v < |pack| ==> pack[v] == low[v] + 0x1_0000 * high[v]
    ensures c == Cost(mtfv, gs, gs + GROUP, low) && d == Cost(mtfv, gs, gs + GROUP, high)
  {
    var both := 0;
    for nn := 0 to GROUP
      invariant both == Cost(mtfv, gs, gs + nn, low) + 0x1_0000 * Cost(mtfv, gs, gs + nn, high)
    {
      both := both + pack[mtfv[gs + nn]];
    }
    CostBound(mtfv, gs, gs + GROUP, low);
    CostBound(mtfv, gs, gs + GROUP, high);
    c, d := both % 0x1_0000, both / 0x1_0000;
  }

  ghost predicate Costs(cost: seq<nat>, mtfv: seq<nat>, lo: nat, hi: nat, lens: seq<seq<nat>>, alphaSize: nat)
    requires lo <= hi <= |mtfv| && Coded(mtfv, lens, alphaSize)
  {
    |cost| == |lens| && forall t :: 0 <= t < |lens| ==> cost[t] == Cost(mtfv, lo, hi, lens[t])
  }

  /** The fast track for six tables and a full group. */
  method FastCosts(mtfv: seq<nat>, gs: nat, lens: seq<seq<nat>>, lenPack: seq<seq<nat>>, ghost alphaSize: nat)
    returns (cost: seq<nat>)
    requires Coded(mtfv, lens, alphaSize) && |lens| == 6 && gs + GROUP <= |mtfv| && Packed(lenPack, lens)
    ensures Costs(cost, mtfv, gs, gs + GROUP, lens, alphaSize)
  {
    var c0, c1 := PairCost(mtfv, gs, lens[0], lens[1], lenPack[0]);
    var c2, c3 := PairCost(mtfv, gs, lens[2], lens[3], lenPack[1]);
    var c4, c5 := PairCost(mtfv, gs, lens[4], lens[5], lenPack[2]);
    cost := [c0, c1, c2, c3, c4, c5];
  }

  ghost predicate Packed(lenPack: seq<seq<nat>>, lens: seq<seq<nat>>) {
    && |lens| == 6 && |lenPack| == 3
    && forall p :: 0 <= p < 3 ==>
      |lenPack[p]| == |lens[2 * p]| == |lens[2 * p + 1]| &&
      forall v :: 0 <= v < |lenPack[p]| ==> lenPack[p][v] == lens[2 * p][v] + 0x1_0000 * lens[2 * p + 1][v]
  }

  method PackAll(lens: seq<seq<nat>>) returns (lenPack: seq<seq<nat>>)
    requires |lens| == 6 && forall t :: 0 <= t < 6 ==> |lens[t]| == |lens[0]|
    ensures Packed(lenPack, lens)
  {
    var a := Pack(lens[0], lens[1]);
    var b := Pack(lens[2], lens[3]);
    var c := Pack(lens[4], lens[5]);
    lenPack := [a, b, c];
  }

  /** What the group costs in each table, counted in 16 bits. */
  method GroupCosts(mtfv: seq<nat>, gs: nat, ge: nat, lens: seq<seq<nat>>, lenPack: seq<seq<nat>>, ghost alphaSize: nat)
    returns (cost: seq<nat>)
    requires Coded(mtfv, lens, alphaSize) && gs <= ge < |mtfv| && ge < gs + GROUP
    requires |lens| == 6 ==> Packed(lenPack, lens)
    ensures Costs(cost, mtfv, gs, ge + 1, lens, alphaSize)
  {
    hide Packed, Cost;
    if |lens| == 6 && GROUP == ge - gs + 1 {
      cost := FastCosts(mtfv, gs, lens, lenPack, alphaSize);
      return;
    }
    cost := seq(|lens|, _ => 0);
    CostNone(mtfv, gs, lens, alphaSize);
    for i := gs to ge + 1
      invariant Costs(cost, mtfv, gs, i, lens, alphaSize)
    {
      cost := AddCosts(mtfv, gs, i, lens, cost, alphaSize);
    }
  }

  lemma CostNone(mtfv: seq<nat>, lo: nat, lens: seq<seq<nat>>, alphaSize: nat)
    requires Coded(mtfv, lens, alphaSize) && lo <= |mtfv|
    ensures Costs(seq(|lens|, _ => 0), mtfv, lo, lo, lens, alphaSize)
  {
  }

  /** cost[t] += len[t][icv] for every table, in 16 bits. */
  method AddCosts(mtfv: seq<nat>, gs: nat, i: nat, lens: seq<seq<nat>>, cost: seq<nat>, ghost alphaSize: nat)
    returns (next: seq<nat>)
    requires Coded(mtfv, lens, alphaSize) && gs <= i < |mtfv| && i < gs + GROUP
    requires Costs(cost, mtfv, gs, i, lens, alphaSize)
    ensures Costs(next, mtfv, gs, i + 1, lens, alphaSize)
  {
    var icv := mtfv[i];
    next := cost;
    for t := 0 to |lens|
      invariant |next| == |lens|
      invariant forall u :: 0 <= u < t ==> next[u] == Cost(mtfv, gs, i + 1, lens[u])
      invariant forall u :: t <= u < |lens| ==> next[u] == cost[u]
    {
      CostBound(mtfv, gs, i + 1, lens[t]);
      next := next[t := (next[t] + lens[t][icv]) % 0x1_0000];
    }
  }

  /** The first of the cheapest. */
  method Best(cost: seq<nat>) returns (bt: int)
    requires cost != [] && forall t :: 0 <= t < |cost| ==> cost[t] < 999999999
    ensures 0 <= bt < |cost| && forall t :: 0 <= t < |cost| ==> cost[bt] <= cost[t] && (t < bt ==> cost[bt] < cost[t])
  {
    var bc := 999999999;
    bt := -1;
    for t := 0 to |cost|
      invariant -1 <= bt < t && (t > 0 ==> bt >= 0) && bc == if bt < 0 then 999999999 else cost[bt]
      invariant bt >= 0 ==> forall u :: 0 <= u < t ==> cost[bt] <= cost[u] && (u < bt ==> cost[bt] < cost[u])
    {
      if cost[t] < bc {
        bc, bt := cost[t], t;
      }
    }
  }

  // ------------------------------------------------------------------
  // One pass

  /** The end of group g. */
  function GroupEnd(n: nat, g: nat): (e: nat)
    requires GROUP * g < n
    ensures GROUP * g < e <= n && e <= GROUP * g + GROUP
  {
    if GROUP * g + GROUP < n then GROUP * g + GROUP else n
  }

  /** Group g is coded with the first of the tables that take the fewest bits for it. */
  ghost predicate Cheapest(mtfv: seq<nat>, lens: seq<seq<nat>>, alphaSize: nat, g: nat, sel: nat)
    requires Coded(mtfv, lens, alphaSize) && GROUP * g < |mtfv|
  {
    var e := GroupEnd(|mtfv|, g);
    && sel < |lens|
    && forall t :: 0 <= t < |lens| ==>
      var c, d := Cost(mtfv, GROUP * g, e, lens[sel]), Cost(mtfv, GROUP * g, e, lens[t]);
      c <= d && (t < sel ==> c < d)
  }

  /** How often symbol v occurs among the first n symbols in groups coded with table t. */
  function Uses(mtfv: seq<nat>, selector: seq<nat>, t: nat, v: nat, n: nat): (r: nat)
    requires n <= |mtfv| && n <= GROUP * |selector|
  {
    if n == 0 then 0
    else
      Uses(mtfv, selector, t, v, n - 1) + if selector[(n - 1) / GROUP] == t && mtfv[n - 1] == v then 1 else 0
  }

  lemma {:induction false} UsesMore(mtfv: seq<nat>, selector: seq<nat>, sel: nat, t: nat, v: nat, n: nat)
    requires n <= |mtfv| && n <= GROUP * |selector|
    ensures Uses(mtfv, selector + [sel], t, v, n) == Uses(mtfv, selector, t, v, n)
  {
    if n > 0 { UsesMore(mtfv, selector, sel, t, v, n - 1); }
  }

  /** The frequencies counted so far, table by table. */
  ghost predicate Tallied(rfreq: seq<seq<nat>>, mtfv: seq<nat>, selector: seq<nat>, n: nat, nGroups: nat,
                          alphaSize: nat)
    requires n <= |mtfv| && n <= GROUP * |selector|
  {
    && |rfreq| == nGroups
    && (forall t :: 0 <= t < nGroups ==> |rfreq[t]| == alphaSize && H.Sum(rfreq[t]) <= n)
    && forall t, v :: 0 <= t < nGroups && 0 <= v < alphaSize ==> rfreq[t][v] == Uses(mtfv, selector, t, v, n)
  }

  lemma {:induction false} SumBump(f: seq<nat>, v: nat)
    requires v < |f|
    ensures H.Sum(f[v := f[v] + 1]) == H.Sum(f) + 1
  {
    var n := |f| - 1;
    var f' := f[v := f[v] + 1];
    if v < n {
      SumBump(f[..n], v);
      assert f'[..n] == f[..n][v := f[..n][v] + 1];
    } else {
      assert f'[..n] == f[..n];
    }
  }

  /** One more symbol of the group: rfreq[bt][mtfv[i]]++. */
  lemma TallyOne(rfreq: seq<seq<nat>>, mtfv: seq<nat>, selector: seq<nat>, n: nat, nGroups: nat, alphaSize: nat,
                 bt: nat)
    requires n < |mtfv| && n < GROUP * |selector| && Tallied(rfreq, mtfv, selector, n, nGroups, alphaSize)
    requires bt == selector[n / GROUP] < nGroups && mtfv[n] < alphaSize
    ensures var v := mtfv[n];
      Tallied(rfreq[bt := rfreq[bt][v := rfreq[bt][v] + 1]], mtfv, selector, n + 1, nGroups, alphaSize)
  {
    hide H.Sum;
    SumBump(rfreq[bt], mtfv[n]);
  }

  lemma TallyGroup(rfreq: seq<seq<nat>>, mtfv: seq<nat>, selector: seq<nat>, n: nat, nGroups: nat, alphaSize: nat,
                   sel: nat)
    requires n <= |mtfv| && n <= GROUP * |selector| && Tallied(rfreq, mtfv, selector, n, nGroups, alphaSize)
    ensures Tallied(rfreq, mtfv, selector + [sel], n, nGroups, alphaSize)
  {
    hide H.Sum;
    forall t, v | 0 <= t < nGroups && 0 <= v < alphaSize
      ensures rfreq[t][v] == Uses(mtfv, selector + [sel], t, v, n)
    {
      UsesMore(mtfv, selector, sel, t, v, n);
    }
  }

  /** Increment the symbol frequencies for the selected table. */
  method TallySymbols(rfreq: seq<seq<nat>>, mtfv: seq<nat>, selector: seq<nat>, gs: nat, ge: nat, bt: nat,
                      ghost alphaSize: nat)
    returns (r: seq<seq<nat>>)
    requires gs <= ge < |mtfv| && |selector| > 0 && gs == GROUP * (|selector| - 1) && ge < gs + GROUP
    requires bt == selector[|selector| - 1] < |rfreq| && forall k :: 0 <= k < |mtfv| ==> mtfv[k] < alphaSize
    requires Tallied(rfreq, mtfv, selector, gs, |rfreq|, alphaSize)
    ensures Tallied(r, mtfv, selector, ge + 1, |rfreq|, alphaSize)
  {
    hide Tallied;
    r := rfreq;
    for i := gs to ge + 1
      invariant |r| == |rfreq| && Tallied(r, mtfv, selector, i, |rfreq|, alphaSize)
    {
      TallySize(r, mtfv, selector, i, |rfreq|, alphaSize);
      TallyOne(r, mtfv, selector, i, |rfreq|, alphaSize, bt);
      r := r[bt := r[bt][mtfv[i] := r[bt][mtfv[i]] + 1]];
    }
  }

  lemma TallySize(rfreq: seq<seq<nat>>, mtfv: seq<nat>, selector: seq<nat>, n: nat, nGroups: nat, alphaSize: nat)
    requires n <= |mtfv| && n <= GROUP * |selector| && Tallied(rfreq, mtfv, selector, n, nGroups, alphaSize)
    ensures |rfreq| == nGroups && forall t :: 0 <= t < nGroups ==> |rfreq[t]| == alphaSize && H.Sum(rfreq[t]) <= n
  {
  }

  ghost predicate AllCheapest(mtfv: seq<nat>, lens: seq<seq<nat>>, alphaSize: nat, selector: seq<nat>)
    requires Coded(mtfv, lens, alphaSize)
  {
    forall g: nat :: g < |selector| && GROUP * g < |mtfv| ==> Cheapest(mtfv, lens, alphaSize, g, selector[g])
  }

  /** Assign every group its cheapest table, counting the symbols each table then has to code. */
  method Assign(mtfv: seq<nat>, lens: seq<seq<nat>>, alphaSize: nat) returns (selector: seq<nat>, rfreq: seq<seq<nat>>)
    requires Coded(mtfv, lens, alphaSize) && lens != []
    ensures |selector| == (|mtfv| + GROUP - 1) / GROUP && AllCheapest(mtfv, lens, alphaSize, selector)
    ensures Tallied(rfreq, mtfv, selector, |mtfv|, |lens|, alphaSize)
  {
    hide Tallied, Coded, Cheapest, Packed;
    rfreq := seq(|lens|, _ => seq(alphaSize, _ => 0));
    selector := [];
    TallyNone(mtfv, |lens|, alphaSize);
    var lenPack: seq<seq<nat>> := [];
    if |lens| == 6 {
      CodedSizes(mtfv, lens, alphaSize);
      lenPack := PackAll(lens);
    }
    var gs := 0;
    while gs < |mtfv|
      invariant 0 <= gs <= |mtfv| && |selector| == (gs + GROUP - 1) / GROUP
      invariant gs == GROUP * |selector| || gs == |mtfv|
      invariant AllCheapest(mtfv, lens, alphaSize, selector) && Tallied(rfreq, mtfv, selector, gs, |lens|, alphaSize)
    {
      var ge := gs + GROUP - 1;
      if ge >= |mtfv| {
        ge := |mtfv| - 1;
      }
      var bt := Pick(mtfv, |selector|, ge, lens, lenPack, alphaSize);
      TallyGroup(rfreq, mtfv, selector, gs, |lens|, alphaSize, bt);
      TallySize(rfreq, mtfv, selector, gs, |lens|, alphaSize);
      CodedSizes(mtfv, lens, alphaSize);
      CheapestHere(mtfv, lens, alphaSize, |selector|, bt);
      selector := selector + [bt];
      rfreq := TallySymbols(rfreq, mtfv, selector, gs, ge, bt, alphaSize);
      gs := ge + 1;
    }
  }

  lemma CheapestHere(mtfv: seq<nat>, lens: seq<seq<nat>>, alphaSize: nat, g: nat, sel: nat)
    requires Coded(mtfv, lens, alphaSize) && GROUP * g < |mtfv| && Cheapest(mtfv, lens, alphaSize, g, sel)
    ensures sel < |lens|
  {
  }

  lemma CodedSizes(mtfv: seq<nat>, lens: seq<seq<nat>>, alphaSize: nat)
    requires Coded(mtfv, lens, alphaSize)
    ensures forall t :: 0 <= t < |lens| ==> |lens[t]| == alphaSize
    ensures forall k :: 0 <= k < |mtfv| ==> mtfv[k] < alphaSize
  {
  }

  lemma TallyNone(mtfv: seq<nat>, nGroups: nat, alphaSize: nat)
    ensures Tallied(seq(nGroups, _ => seq(alphaSize, _ => 0)), mtfv, [], 0, nGroups, alphaSize)
  {
    SumZero(alphaSize);
  }

  lemma {:induction false} SumZero(n: nat)
    ensures H.Sum(seq(n, _ => 0)) == 0
  {
    if n > 0 {
      SumZero(n - 1);
      assert seq(n, _ => 0)[..n - 1] == seq(n - 1, _ => 0);
    }
  }

  /** The coding table that is best for group g. */
  method Pick(mtfv: seq<nat>, g: nat, ge: nat, lens: seq<seq<nat>>, lenPack: seq<seq<nat>>, ghost alphaSize: nat)
    returns (bt: nat)
    requires Coded(mtfv, lens, alphaSize) && lens != [] && GROUP * g < |mtfv| && ge + 1 == GroupEnd(|mtfv|, g)
    requires |lens| == 6 ==> Packed(lenPack, lens)
    ensures Cheapest(mtfv, lens, alphaSize, g, bt)
  {
    hide Packed, Cost;
    var cost := GroupCosts(mtfv, GROUP * g, ge, lens, lenPack, alphaSize);
    forall t | 0 <= t < |cost| ensures cost[t] < 999999999 {
      CostBound(mtfv, GROUP * g, ge + 1, lens[t]);
    }
    bt := Best(cost);
  }

  // ------------------------------------------------------------------
  // New tables

  /** Frequencies of the symbols in the groups coded with table t. */
  ghost function Frequencies(mtfv: seq<nat>, selector: seq<nat>, t: nat, alphaSize: nat): (r: seq<int>)
    requires |mtfv| <= GROUP * |selector|
    ensures |r| == alphaSize
  {
    seq(alphaSize, v requires 0 <= v < alphaSize => Uses(mtfv, selector, t, v, |mtfv|))
  }

  /** A complete code of 1 to 17 bits. */
  ghost predicate Complete(len: seq<nat>, alphaSize: nat) {
    |len| == alphaSize && (forall v :: 0 <= v < alphaSize ==> 1 <= len[v] <= MAX_LEN) && H.Kraft(len) == 1.0
  }

  /** Optimal for the frequencies after some rounds of halving, each made only because optimal lengths were too long. */
  ghost predicate Fitted(len: seq<nat>, freq: seq<int>, rounds: nat) {
    var w := H.StartWeights(freq);
    && O.Optimal(H.Rescaled(w, rounds), len, H.All(|freq|))
    && forall k: nat :: k < rounds ==> O.Exceeds(H.Rescaled(w, k), H.All(|freq|), MAX_LEN)
  }

  lemma {:induction false} StartSum(freq: seq<nat>)
    ensures H.Sum(H.StartWeights(freq)) <= H.Sum(freq) + |freq|
  {
    if freq != [] {
      var n := |freq| - 1;
      StartSum(freq[..n]);
      assert H.StartWeights(freq)[..n] == H.StartWeights(freq[..n]);
    }
  }

  method Rebuild(freq: seq<nat>, alphaSize: nat) returns (len: seq<nat>, ghost rounds: nat)
    requires 3 <= alphaSize == |freq| <= H.MAX_ALPHA && H.Sum(freq) <= MOST_SYMBOLS
    ensures Complete(len, alphaSize) && Fitted(len, freq, rounds)
  {
    hide H.Sum, H.Kraft, O.Optimal, O.Exceeds, H.All, H.Rescaled;
    var l, f := new nat[alphaSize](_ => 0), new int[alphaSize](i requires 0 <= i < |freq| => freq[i]);
    assert f[..alphaSize] == freq;
    StartSum(freq);
    rounds := H.MakeCodeLengths(l, f, alphaSize, MAX_LEN);
    len := l[..];
    assert len == l[..alphaSize];
  }

  ghost predicate AllComplete(lens: seq<seq<nat>>, n: nat, alphaSize: nat) {
    |lens| == n && forall t :: 0 <= t < n ==> Complete(lens[t], alphaSize)
  }

  ghost predicate AllFitted(lens: seq<seq<nat>>, mtfv: seq<nat>, selector: seq<nat>, alphaSize: nat, rounds: seq<nat>)
    requires |mtfv| <= GROUP * |selector|
  {
    |lens| == |rounds| && forall t :: 0 <= t < |lens| ==> Fitted(lens[t], Frequencies(mtfv, selector, t, alphaSize), rounds[t])
  }

  /** Recompute the tables based on the accumulated frequencies. */
  method RebuildAll(rfreq: seq<seq<nat>>, mtfv: seq<nat>, selector: seq<nat>, nGroups: nat, alphaSize: nat)
    returns (lens: seq<seq<nat>>, ghost rounds: seq<nat>)
    requires 3 <= alphaSize <= H.MAX_ALPHA && |mtfv| <= MOST_SYMBOLS && |mtfv| <= GROUP * |selector|
    requires Tallied(rfreq, mtfv, selector, |mtfv|, nGroups, alphaSize)
    ensures AllComplete(lens, nGroups, alphaSize) && AllFitted(lens, mtfv, selector, alphaSize, rounds)
  {
    hide Complete, Fitted, H.Sum;
    lens, rounds := [], [];
    for t := 0 to nGroups
      invariant AllComplete(lens, t, alphaSize) && AllFitted(lens, mtfv, selector, alphaSize, rounds)
    {
      ghost var r;
      var len;
      len, r := Rebuild(rfreq[t], alphaSize);
      assert rfreq[t] == Frequencies(mtfv, selector, t, alphaSize);
      lens, rounds := lens + [len], rounds + [r];
    }
  }

  lemma CompleteCoded(mtfv: seq<nat>, lens: seq<seq<nat>>, n: nat, alphaSize: nat)
    requires AllComplete(lens, n, alphaSize) && forall k :: 0 <= k < |mtfv| ==> mtfv[k] < alphaSize
    ensures Coded(mtfv, lens, alphaSize)
  {
    hide H.Kraft;
    forall t | 0 <= t < |lens| ensures |lens[t]| == alphaSize && AtMost(lens[t]) {
      assert Complete(lens[t], alphaSize);
    }
  }

  /** Tables that favour consecutive stretches of the alphabet, and together every symbol that occurs. */
  ghost predicate Initial(lens: seq<seq<nat>>, freq: seq<nat>, n: nat) {
    && (exists cut: seq<nat> :: |cut| == n + 1 && Divided(lens, cut, n, |freq|) && Shared(freq, cut, n, n))
    && forall v: nat :: v < |freq| && freq[v] > 0 ==> Favoured(lens, v)
  }

  /** One pass: every group takes its cheapest table, and each table is rebuilt for the groups that took it. */
  ghost predicate Improved(mtfv: seq<nat>, n: nat, alphaSize: nat, before: seq<seq<nat>>, selector: seq<nat>,
                           after: seq<seq<nat>>, rounds: seq<nat>)
    ensures Improved(mtfv, n, alphaSize, before, selector, after, rounds) ==> Coded(mtfv, before, alphaSize)
  {
    && |before| == n && Coded(mtfv, before, alphaSize) && |selector| == (|mtfv| + GROUP - 1) / GROUP
    && AllCheapest(mtfv, before, alphaSize, selector)
    && AllComplete(after, n, alphaSize) && AllFitted(after, mtfv, selector, alphaSize, rounds)
  }

  /** The tables before every pass and after the last, and what each pass chose. */
  ghost predicate Passes(mtfv: seq<nat>, freq: seq<nat>, tables: seq<seq<seq<nat>>>, choices: seq<seq<nat>>,
                         rounds: seq<seq<nat>>)
    ensures Passes(mtfv, freq, tables, choices, rounds) ==>
      |tables| == |choices| + 1 && |rounds| == |choices| && Initial(tables[0], freq, GroupCount(|mtfv|))
  {
    && |tables| == |choices| + 1 && |rounds| == |choices| && Initial(tables[0], freq, GroupCount(|mtfv|))
    && forall k :: 0 <= k < |choices| ==>
      Improved(mtfv, GroupCount(|mtfv|), |freq|, tables[k], choices[k], tables[k + 1], rounds[k])
  }

  lemma PassesNext(mtfv: seq<nat>, freq: seq<nat>, tables: seq<seq<seq<nat>>>, choices: seq<seq<nat>>,
                   rounds: seq<seq<nat>>, after: seq<seq<nat>>, selector: seq<nat>, r: seq<nat>)
    requires Passes(mtfv, freq, tables, choices, rounds)
    requires Improved(mtfv, GroupCount(|mtfv|), |freq|, tables[|choices|], selector, after, r)
    ensures Passes(mtfv, freq, tables + [after], choices + [selector], rounds + [r])
  {
    hide Improved, Initial;
    var tables', choices', rounds' := tables + [after], choices + [selector], rounds + [r];
    forall k | 0 <= k < |choices'|
      ensures Improved(mtfv, GroupCount(|mtfv|), |freq|, tables'[k], choices'[k], tables'[k + 1], rounds'[k])
    {
      assert k < |choices| ==> tables'[k] == tables[k] && tables'[k + 1] == tables[k + 1] && choices'[k] == choices[k];
    }
  }

  /**
   * The choice of tables: four passes from the initial ones, the last of
   * which leaves complete codes of at most 17 bits, fitted to the groups
   * that use them, while every group uses the table that was cheapest for
   * it after the third.
   */
  method Choose(mtfv: seq<nat>, mtfFreq: seq<nat>)
    returns (lens: seq<seq<nat>>, selector: seq<nat>, ghost tables: seq<seq<seq<nat>>>, ghost choices: seq<seq<nat>>,
             ghost rounds: seq<seq<nat>>)
    requires 1 <= |mtfv| <= MOST_SYMBOLS && 3 <= |mtfFreq| <= H.MAX_ALPHA && H.Sum(mtfFreq) == |mtfv|
    requires forall k :: 0 <= k < |mtfv| ==> mtfv[k] < |mtfFreq|
    ensures Passes(mtfv, mtfFreq, tables, choices, rounds) && |choices| == N_ITERS
    ensures lens == tables[N_ITERS] && selector == choices[N_ITERS - 1]
    ensures var n := |mtfv|; |lens| == 2 + (if n >= 200 then 1 else 0) + (if n >= 600 then 1 else 0)
                                         + (if n >= 1200 then 1 else 0) + (if n >= 2400 then 1 else 0)
  {
    hide Tallied, AllCheapest, AllFitted, AllComplete, H.Sum, Coded, Passes, Initial, Improved, Shared;
    var alphaSize, nGroups := |mtfFreq|, GroupCount(|mtfv|);
    ghost var cut;
    lens, cut := InitialTables(mtfFreq, |mtfv|, nGroups);
    InitialCoded(mtfv, lens, cut, alphaSize);
    Begun(mtfv, mtfFreq, lens, cut);
    selector, tables, choices, rounds := [], [lens], [], [];
    for iter := 0 to N_ITERS
      invariant |lens| == nGroups && Coded(mtfv, lens, alphaSize) && Passes(mtfv, mtfFreq, tables, choices, rounds)
      invariant |choices| == iter && lens == tables[iter] && (iter > 0 ==> selector == choices[iter - 1])
    {
      ghost var before, r := lens, [];
      var rfreq;
      selector, rfreq := Assign(mtfv, lens, alphaSize);
      lens, r := RebuildAll(rfreq, mtfv, selector, nGroups, alphaSize);
      CompleteCoded(mtfv, lens, nGroups, alphaSize);
      CompleteSize(lens, nGroups, alphaSize);
      ImprovedBy(mtfv, nGroups, alphaSize, before, selector, lens, r);
      PassesNext(mtfv, mtfFreq, tables, choices, rounds, lens, selector, r);
      tables, choices, rounds := tables + [lens], choices + [selector], rounds + [r];
    }
  }

  lemma LastPass(mtfv: seq<nat>, freq: seq<nat>, tables: seq<seq<seq<nat>>>, choices: seq<seq<nat>>,
                 rounds: seq<seq<nat>>)
    requires Passes(mtfv, freq, tables, choices, rounds) && choices != []
    ensures |tables| == |choices| + 1 && |rounds| == |choices|
    ensures var k := |choices| - 1;
      Improved(mtfv, GroupCount(|mtfv|), |freq|, tables[k], choices[k], tables[k + 1], rounds[k])
  {
    hide Improved, Initial;
    var k := |choices| - 1;
    assert Improved(mtfv, GroupCount(|mtfv|), |freq|, tables[k], choices[k], tables[k + 1], rounds[k]);
  }

  lemma Begun(mtfv: seq<nat>, freq: seq<nat>, lens: seq<seq<nat>>, cut: seq<nat>)
    requires Divided(lens, cut, GroupCount(|mtfv|), |freq|) && |cut| == GroupCount(|mtfv|) + 1
    requires Shared(freq, cut, GroupCount(|mtfv|), GroupCount(|mtfv|))
    requires forall v: nat :: v < |freq| && freq[v] > 0 ==> Favoured(lens, v)
    ensures Passes(mtfv, freq, [lens], [], [])
  {
    hide Divided, Shared;
  }

  lemma ImprovedBy(mtfv: seq<nat>, n: nat, alphaSize: nat, before: seq<seq<nat>>, selector: seq<nat>,
                   after: seq<seq<nat>>, rounds: seq<nat>)
    requires |before| == n && Coded(mtfv, before, alphaSize) && |selector| == (|mtfv| + GROUP - 1) / GROUP
    requires AllCheapest(mtfv, before, alphaSize, selector)
    requires AllComplete(after, n, alphaSize) && AllFitted(after, mtfv, selector, alphaSize, rounds)
    ensures Improved(mtfv, n, alphaSize, before, selector, after, rounds)
  {
  }

  lemma CompleteSize(lens: seq<seq<nat>>, n: nat, alphaSize: nat)
    requires AllComplete(lens, n, alphaSize)
    ensures |lens| == n
  {
  }

  lemma InitialCoded(mtfv: seq<nat>, lens: seq<seq<nat>>, cut: seq<nat>, alphaSize: nat)
    requires Divided(lens, cut, |lens|, alphaSize) && |cut| == |lens| + 1
    requires forall k :: 0 <= k < |mtfv| ==> mtfv[k] < alphaSize
    ensures Coded(mtfv, lens, alphaSize)
  {
    forall t | 0 <= t < |lens| ensures |lens[t]| == alphaSize && AtMost(lens[t]) {
      var i := |lens| - 1 - t;
      assert Favours(lens[|lens| - 1 - i], cut[i], cut[i + 1]);
    }
  }
}
