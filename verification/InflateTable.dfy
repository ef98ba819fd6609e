/**
 inflate_table (inftrees.c): the two-level decoding table of a canonical code.  A root table of
 2^root entries is indexed by the next root bits; entries of longer codes link to sub-tables.
 */
module InflateTable {
  import opened Powers
  import opened BitStrings
  import opened CanonicalCode
  import opened TableSize

  datatype Kind = CODES | LENS | DISTS

  datatype Entry = Entry(op: nat, bits: nat, val: nat)

  const ENOUGH_LENS := 852
  const ENOUGH_DISTS := 592

  const LBASE: seq<nat> := [3, 4, 5, 6, 7, 8, 9, 10, 11, 13, 15, 17, 19, 23, 27, 31,
                            35, 43, 51, 59, 67, 83, 99, 115, 131, 163, 195, 227, 258, 0, 0]
  const LEXT: seq<nat> := [16, 16, 16, 16, 16, 16, 16, 16, 17, 17, 17, 17, 18, 18, 18, 18,
                           19, 19, 19, 19, 20, 20, 20, 20, 21, 21, 21, 21, 16, 72, 78]
  const DBASE: seq<nat> := [1, 2, 3, 4, 5, 7, 9, 13, 17, 25, 33, 49, 65, 97, 129, 193,
                            257, 385, 513, 769, 1025, 1537, 2049, 3073, 4097, 6145,
                            8193, 12289, 16385, 24577, 0, 0]
  const DEXT: seq<nat> := [16, 16, 16, 16, 17, 17, 18, 18, 19, 19, 20, 20, 21, 21, 22, 22,
                           23, 23, 24, 24, 25, 25, 26, 26, 27, 27, 28, 28, 29, 29, 64, 64]

  /** How many symbols a code of each kind may have. */
  function MaxSymbols(kind: Kind): nat {
    match kind case CODES => 19 case LENS => 288 case DISTS => 32
  }

  /** The entry for symbol s when bits bits are left to drop. */
  function Plain(kind: Kind, s: nat, bits: nat): (e: Entry)
    requires s < MaxSymbols(kind)
    ensures e.op == 0 || e.op >= 16
  {
    match kind
    case CODES => Entry(0, bits, s)
    case LENS =>
      if s < 256 then Entry(0, bits, s)
      else if s == 256 then Entry(96, bits, 0)
      else
        assert LEXT[s - 257] >= 16;
        Entry(LEXT[s - 257], bits, LBASE[s - 257])
    case DISTS =>
      assert DEXT[s] >= 16;
      Entry(DEXT[s], bits, DBASE[s])
  }

  // ---------------------------------------------------------------- indices and prefixes

  /** A table of 2^k entries read at v is hit by code c iff v starts with c. */
  lemma MatchIdx(c: seq<Bit>, v: seq<Bit>, k: nat)
    requires |c| <= k <= |v|
    ensures Idx(v[..k]) % Pow2(|c|) == Idx(c) <==> c <= v
  {
    hide Idx, Pow2;
    var w := v[..k];
    IdxSplit(w, |c|);
    assert w[..|c|] == v[..|c|];
    if Idx(v[..|c|]) == Idx(c) { IdxInjective(v[..|c|], c); }
    if c <= v { assert v[..|c|] == c; }
  }

  /** The same for a sub-table reached through root bits. */
  lemma MatchSub(c: seq<Bit>, v: seq<Bit>, root: nat, k: nat)
    requires root <= |c| <= root + k <= |v| && v[..root] == c[..root]
    ensures Idx(v[root..root + k]) % Pow2(|c| - root) == Idx(c[root..]) <==> c <= v
  {
    hide Idx, Pow2;
    var w := v[root..];
    MatchIdx(c[root..], w, k);
    assert w[..k] == v[root..root + k];
    if c[root..] <= w {
      assert v[..|c|] == v[..root] + w[..|c| - root];
      assert c == c[..root] + c[root..];
    }
    if c <= v {
      assert w[..|c| - root] == v[..|c|][root..];
    }
  }

  // ---------------------------------------------------------------- what the table means

  datatype Sub = Sub(off: nat, bits: nat)

  /** Root index of strings that start with v. */
  function RootIdx(v: seq<Bit>, root: nat): nat
    requires root <= |v|
  {
    Idx(v[..root])
  }

  /** Strings starting with the short code c find e in the root table, at a place that is no link. */
  ghost predicate ShortDone(tab: seq<Entry>, root: nat, links: map<nat, Sub>, c: seq<Bit>, e: Entry) {
    forall v: seq<Bit> :: |v| == MAXBITS && c <= v && root <= MAXBITS ==>
      RootIdx(v, root) !in links && RootIdx(v, root) < |tab| && tab[RootIdx(v, root)] == e
  }

  function SubIdx(v: seq<Bit>, root: nat, sub: Sub): nat
    requires root + sub.bits <= |v|
  {
    sub.off + Idx(v[root..root + sub.bits])
  }

  /** Strings starting with the long code c find e in the sub-table linked from its first root bits. */
  ghost predicate LongDone(tab: seq<Entry>, root: nat, links: map<nat, Sub>, c: seq<Bit>, e: Entry)
    requires root <= |c|
  {
    var q := RootIdx(c, root);
    && q in links && |c| <= root + links[q].bits <= MAXBITS
    && forall v: seq<Bit> :: |v| == MAXBITS && c <= v ==>
         SubIdx(v, root, links[q]) < |tab| && tab[SubIdx(v, root, links[q])] == e
  }

  predicate Fits(kind: Kind, lens: seq<nat>) {
    |lens| <= MaxSymbols(kind) && Lengths(lens) && NotOver(lens)
  }

  ghost predicate SymDone(tab: seq<Entry>, root: nat, links: map<nat, Sub>, kind: Kind, lens: seq<nat>, s: nat)
    requires Fits(kind, lens) && s < |lens| && lens[s] >= 1
  {
    if lens[s] <= root then ShortDone(tab, root, links, SymBits(lens, s), Plain(kind, s, lens[s]))
    else LongDone(tab, root, links, SymBits(lens, s), Plain(kind, s, lens[s] - root))
  }

  /** All symbols before the i-th of length l are in the table. */
  ghost predicate Done(tab: seq<Entry>, root: nat, links: map<nat, Sub>, kind: Kind, lens: seq<nat>, l: nat, i: nat)
    requires Fits(kind, lens)
  {
    forall s :: 0 <= s < |lens| && Before(lens, s, l, i) ==> SymDone(tab, root, links, kind, lens, s)
  }

  /** Link q: its root entry, and a sub-table within lo..hi. */
  predicate LinkOk(tab: seq<Entry>, root: nat, q: nat, sub: Sub, lo: nat, hi: nat) {
    && q < Pow2(root) <= lo <= sub.off && sub.off + Pow2(sub.bits) <= hi <= |tab|
    && 1 <= sub.bits && root + sub.bits <= MAXBITS && tab[q] == Entry(sub.bits, root, sub.off)
  }

  /** The links so far; all but the current one, low, lie below next. */
  ghost predicate Layout(tab: seq<Entry>, root: nat, links: map<nat, Sub>, low: int, next: nat, used: nat) {
    && next <= used <= |tab|
    && forall q :: q in links ==> LinkOk(tab, root, q, links[q], Pow2(root), if q == low then used else next)
  }

  // ---------------------------------------------------------------- filling in one code

  /** tab' is tab with here written wherever the index in base.. has remainder hd mod 2^step. */
  predicate Filled(tab: seq<Entry>, tab': seq<Entry>, base: nat, curr: nat, step: nat, hd: nat, here: Entry)
    ensures Filled(tab, tab', base, curr, step, hd, here) ==> |tab'| == |tab|
  {
    && |tab'| == |tab| && base + Pow2(curr) <= |tab|
    && forall j :: 0 <= j < |tab| ==>
         tab'[j] == if base <= j < base + Pow2(curr) && (j - base) % Pow2(step) == hd then here else tab[j]
  }

  lemma IdxRoot(v: seq<Bit>, root: nat)
    requires root <= |v|
    ensures RootIdx(v, root) < Pow2(root)
  {
    IdxBound(v[..root]);
  }

  lemma IdxSub(v: seq<Bit>, root: nat, sub: Sub)
    requires root + sub.bits <= |v|
    ensures sub.off <= SubIdx(v, root, sub) < sub.off + Pow2(sub.bits)
  {
    IdxBound(v[root..root + sub.bits]);
  }

  /** Writing a code of at most root bits puts it in the root table... */
  lemma FillRootNew(tab: seq<Entry>, tab': seq<Entry>, root: nat, c: seq<Bit>, here: Entry)
    requires |c| <= root <= MAXBITS && Filled(tab, tab', 0, root, |c|, Idx(c), here)
    ensures ShortDone(tab', root, map[], c, here)
  {
    forall v: seq<Bit> | |v| == MAXBITS && c <= v
      ensures RootIdx(v, root) < |tab'| && tab'[RootIdx(v, root)] == here
    {
      MatchIdx(c, v, root);
      IdxRoot(v, root);
    }
  }

  /** ...and disturbs no code that shares no string with it. */
  lemma FillRootOld(tab: seq<Entry>, tab': seq<Entry>, root: nat, c: seq<Bit>, here: Entry, d: seq<Bit>, e: Entry)
    requires |c| <= root <= MAXBITS && Filled(tab, tab', 0, root, |c|, Idx(c), here)
    requires ShortDone(tab, root, map[], d, e)
    requires forall v: seq<Bit> :: |v| == MAXBITS && d <= v ==> !(c <= v)
    ensures ShortDone(tab', root, map[], d, e)
  {
    forall v: seq<Bit> | |v| == MAXBITS && d <= v
      ensures RootIdx(v, root) < |tab'| && tab'[RootIdx(v, root)] == e
    {
      MatchIdx(c, v, root);
      IdxRoot(v, root);
      assert tab[RootIdx(v, root)] == e;
    }
  }

  /** Two different symbols' codes start no common string. */
  lemma Disjoint(kind: Kind, lens: seq<nat>, s: nat, t: nat)
    requires Fits(kind, lens) && s < |lens| && t < |lens| && s != t && lens[s] >= 1 && lens[t] >= 1
    ensures forall v: seq<Bit> :: |v| == MAXBITS && SymBits(lens, t) <= v ==> !(SymBits(lens, s) <= v)
  {
    forall v: seq<Bit> | |v| == MAXBITS && SymBits(lens, t) <= v ensures !(SymBits(lens, s) <= v) {
      if SymBits(lens, s) <= v { PrefixFree(lens, s, t, v); }
    }
  }

  /** A symbol before the next code is before the current one, or is the current one. */
  lemma BeforeNext(lens: seq<nat>, t: nat, s: nat, l: nat, i: nat)
    requires s < |lens| && t < |lens| && lens[s] == l && Count(lens, l, s) == i && Before(lens, t, l, i + 1)
    ensures t == s || Before(lens, t, l, i)
  {
    if lens[t] == l && Count(lens, l, t) == i && t != s {
      if t < s { CountMono(lens, l, t, s); } else { CountMono(lens, l, s, t); }
    }
  }

  lemma FillRoot(tab: seq<Entry>, tab': seq<Entry>, root: nat, kind: Kind, lens: seq<nat>, s: nat, l: nat, i: nat)
    requires Fits(kind, lens) && s < |lens| && lens[s] == l && Count(lens, l, s) == i && 1 <= l <= root <= MAXBITS
    requires Done(tab, root, map[], kind, lens, l, i)
    requires Filled(tab, tab', 0, root, l, Idx(SymBits(lens, s)), Plain(kind, s, l))
    ensures Done(tab', root, map[], kind, lens, l, i + 1)
  {
    var c, here := SymBits(lens, s), Plain(kind, s, l);
    forall t | 0 <= t < |lens| && Before(lens, t, l, i + 1) ensures SymDone(tab', root, map[], kind, lens, t) {
      BeforeNext(lens, t, s, l, i);
      if t == s {
        FillRootNew(tab, tab', root, c, here);
      } else {
        assert SymDone(tab, root, map[], kind, lens, t);
        Disjoint(kind, lens, s, t);
        FillRootOld(tab, tab', root, c, here, SymBits(lens, t), Plain(kind, t, lens[t]));
      }
    }
  }

  lemma FillSubNew(tab: seq<Entry>, tab': seq<Entry>, root: nat, links: map<nat, Sub>, c: seq<Bit>, here: Entry)
    requires root <= |c| && RootIdx(c, root) in links
    requires |c| <= root + links[RootIdx(c, root)].bits <= MAXBITS
    requires Filled(tab, tab', links[RootIdx(c, root)].off, links[RootIdx(c, root)].bits, |c| - root, Idx(c[root..]), here)
    ensures LongDone(tab', root, links, c, here)
  {
    var sub := links[RootIdx(c, root)];
    forall v: seq<Bit> | |v| == MAXBITS && c <= v
      ensures SubIdx(v, root, sub) < |tab'| && tab'[SubIdx(v, root, sub)] == here
    {
      assert v[..root] == c[..root];
      MatchSub(c, v, root, sub.bits);
      IdxSub(v, root, sub);
    }
  }

  /** Sub-table writes leave every code in the root table alone... */
  lemma FillSubShort(tab: seq<Entry>, tab': seq<Entry>, root: nat, links: map<nat, Sub>, sub: Sub, step: nat, hd: nat,
                     here: Entry, d: seq<Bit>, e: Entry)
    requires root <= MAXBITS && Filled(tab, tab', sub.off, sub.bits, step, hd, here) && Pow2(root) <= sub.off
    requires ShortDone(tab, root, links, d, e)
    ensures ShortDone(tab', root, links, d, e)
  {
    forall v: seq<Bit> | |v| == MAXBITS && d <= v
      ensures RootIdx(v, root) !in links && RootIdx(v, root) < |tab'| && tab'[RootIdx(v, root)] == e
    {
      IdxRoot(v, root);
      assert tab[RootIdx(v, root)] == e;
    }
  }

  /** ...and every long code that shares no string with the one written. */
  lemma FillSubLong(tab: seq<Entry>, tab': seq<Entry>, root: nat, links: map<nat, Sub>, low: nat, next: nat, used: nat,
                    c: seq<Bit>, here: Entry, d: seq<Bit>, e: Entry)
    requires root <= |c| && root <= |d| && RootIdx(c, root) == low && low in links && links[low].off == next
    requires Layout(tab, root, links, low, next, used)
    requires |c| <= root + links[low].bits <= MAXBITS
    requires Filled(tab, tab', next, links[low].bits, |c| - root, Idx(c[root..]), here)
    requires LongDone(tab, root, links, d, e)
    requires forall v: seq<Bit> :: |v| == MAXBITS && d <= v ==> !(c <= v)
    ensures LongDone(tab', root, links, d, e)
  {
    var q := RootIdx(d, root);
    forall v: seq<Bit> | |v| == MAXBITS && d <= v
      ensures SubIdx(v, root, links[q]) < |tab'| && tab'[SubIdx(v, root, links[q])] == e
    {
      hide Filled, Idx, Layout, Pow2;
      FillSubAt(tab, tab', root, links, low, next, used, c, here, d, v);
    }
  }

  lemma FillSubAt(tab: seq<Entry>, tab': seq<Entry>, root: nat, links: map<nat, Sub>, low: nat, next: nat, used: nat,
                  c: seq<Bit>, here: Entry, d: seq<Bit>, v: seq<Bit>)
    requires root <= |c| && root <= |d| && RootIdx(c, root) == low && low in links && links[low].off == next
    requires Layout(tab, root, links, low, next, used)
    requires |c| <= root + links[low].bits <= MAXBITS && RootIdx(d, root) in links
    requires Filled(tab, tab', next, links[low].bits, |c| - root, Idx(c[root..]), here)
    requires |v| == MAXBITS && d <= v && !(c <= v) && root + links[RootIdx(d, root)].bits <= MAXBITS
    requires SubIdx(v, root, links[RootIdx(d, root)]) < |tab|
    ensures tab'[SubIdx(v, root, links[RootIdx(d, root)])] == tab[SubIdx(v, root, links[RootIdx(d, root)])]
  {
    hide Idx, Pow2;
    var q := RootIdx(d, root);
    var sub := links[q];
    assert LinkOk(tab, root, q, sub, Pow2(root), if q == low then used else next);
    hide Layout;
    IdxSub(v, root, sub);
    if q == low {
      IdxInjective(d[..root], c[..root]);
      SubMiss(tab, tab', root, sub, c, here, v);
    }
  }

  lemma SubMiss(tab: seq<Entry>, tab': seq<Entry>, root: nat, sub: Sub, c: seq<Bit>, here: Entry, v: seq<Bit>)
    requires root <= |c| <= root + sub.bits <= MAXBITS == |v| && v[..root] == c[..root] && !(c <= v)
    requires Filled(tab, tab', sub.off, sub.bits, |c| - root, Idx(c[root..]), here) && SubIdx(v, root, sub) < |tab|
    ensures tab'[SubIdx(v, root, sub)] == tab[SubIdx(v, root, sub)]
  {
    hide Idx, Pow2;
    MatchSub(c, v, root, sub.bits);
  }

  lemma LayoutCurrent(tab: seq<Entry>, root: nat, links: map<nat, Sub>, low: nat, next: nat, used: nat)
    requires Layout(tab, root, links, low, next, used) && low in links
    ensures LinkOk(tab, root, low, links[low], Pow2(root), used)
  {
  }

  lemma FillSubOne(tab: seq<Entry>, tab': seq<Entry>, root: nat, links: map<nat, Sub>, kind: Kind, lens: seq<nat>,
                   s: nat, low: nat, next: nat, used: nat, t: nat)
    requires Fits(kind, lens) && s < |lens| && 1 <= root < lens[s] <= MAXBITS
    requires Layout(tab, root, links, low, next, used) && low in links && links[low].off == next
    requires RootIdx(SymBits(lens, s), root) == low && lens[s] <= root + links[low].bits <= MAXBITS
    requires Filled(tab, tab', next, links[low].bits, lens[s] - root, Idx(SymBits(lens, s)[root..]), Plain(kind, s, lens[s] - root))
    requires t < |lens| && lens[t] >= 1 && (t == s || SymDone(tab, root, links, kind, lens, t))
    ensures SymDone(tab', root, links, kind, lens, t)
  {
    hide ShortDone, LongDone, Filled, Layout, Plain, Idx, SymBits;
    var c, here := SymBits(lens, s), Plain(kind, s, lens[s] - root);
    if t == s {
      FillSubNew(tab, tab', root, links, c, here);
    } else {
      Disjoint(kind, lens, s, t);
      if lens[t] <= root {
        LayoutCurrent(tab, root, links, low, next, used);
        FillSubShort(tab, tab', root, links, links[low], lens[s] - root, Idx(c[root..]), here,
                     SymBits(lens, t), Plain(kind, t, lens[t]));
      } else {
        FillSubLong(tab, tab', root, links, low, next, used, c, here, SymBits(lens, t), Plain(kind, t, lens[t] - root));
      }
    }
  }

  lemma FillSub(tab: seq<Entry>, tab': seq<Entry>, root: nat, links: map<nat, Sub>, kind: Kind, lens: seq<nat>,
                s: nat, l: nat, i: nat, low: nat, next: nat, used: nat)
    requires Fits(kind, lens) && s < |lens| && lens[s] == l && Count(lens, l, s) == i && 1 <= root < l <= MAXBITS
    requires Layout(tab, root, links, low, next, used) && low in links && links[low].off == next
    requires RootIdx(SymBits(lens, s), root) == low && l <= root + links[low].bits <= MAXBITS
    requires Done(tab, root, links, kind, lens, l, i)
    requires Filled(tab, tab', next, links[low].bits, l - root, Idx(SymBits(lens, s)[root..]), Plain(kind, s, l - root))
    ensures Done(tab', root, links, kind, lens, l, i + 1)
  {
    hide SymDone, Filled, Layout, Plain, Idx, SymBits;
    forall t | 0 <= t < |lens| && Before(lens, t, l, i + 1) ensures SymDone(tab', root, links, kind, lens, t) {
      BeforeNext(lens, t, s, l, i);
      FillSubOne(tab, tab', root, links, kind, lens, s, low, next, used, t);
    }
  }

  lemma FillLayout(tab: seq<Entry>, tab': seq<Entry>, root: nat, links: map<nat, Sub>, low: nat, next: nat, used: nat,
                   step: nat, hd: nat, here: Entry)
    requires Layout(tab, root, links, low, next, used) && low in links && links[low].off == next
    requires Filled(tab, tab', next, links[low].bits, step, hd, here)
    ensures Layout(tab', root, links, low, next, used)
  {
    assert LinkOk(tab, root, low, links[low], Pow2(root), used);
    forall q | q in links
      ensures LinkOk(tab', root, q, links[q], Pow2(root), if q == low then used else next)
    {
      assert LinkOk(tab, root, q, links[q], Pow2(root), if q == low then used else next);
    }
  }

  // ---------------------------------------------------------------- starting a sub-table

  /** Strings with the root prefix of an aligned code start no code before it. */
  lemma AlignedFresh(kind: Kind, lens: seq<nat>, q: seq<Bit>, l: nat, i: nat, t: nat, v: seq<Bit>)
    requires Fits(kind, lens) && 1 <= l <= MAXBITS && t < |lens| && Before(lens, t, l, i)
    requires 1 <= |q| <= MAXBITS && Msb(q) * Cell(|q|) == PosAt(lens, l, i)
    requires |v| == MAXBITS && SymBits(lens, t) <= v
    ensures !(q <= v)
  {
    SymInterval(lens, t, v);
    BeforePos(lens, t, l, i);
    PrefixInterval(q, v);
  }

  /** Linking a new sub-table keeps all codes so far: none shares the new prefix. */
  lemma NewSub(tab: seq<Entry>, tab': seq<Entry>, root: nat, links: map<nat, Sub>, links': map<nat, Sub>,
               kind: Kind, lens: seq<nat>, l: nat, i: nat, low: int, q: seq<Bit>, next: nat, used: nat, sub: Sub)
    requires Fits(kind, lens) && 1 <= l <= MAXBITS && 1 <= root == |q| && root + sub.bits <= MAXBITS && 1 <= sub.bits
    requires Msb(q) * Cell(root) == PosAt(lens, l, i)
    requires Layout(tab, root, links, low, next, used) && Done(tab, root, links, kind, lens, l, i)
    requires sub.off == used && Pow2(root) <= used && used + Pow2(sub.bits) <= |tab|
    requires Idx(q) < |tab| && tab' == tab[Idx(q) := Entry(sub.bits, root, used)] && links' == links[Idx(q) := sub]
    ensures Done(tab', root, links', kind, lens, l, i)
    ensures Layout(tab', root, links', Idx(q), used, used + Pow2(sub.bits))
  {
    NewSubLayout(tab, tab', root, links, links', low, q, next, used, sub);
    forall t | 0 <= t < |lens| && Before(lens, t, l, i) ensures SymDone(tab', root, links', kind, lens, t) {
      assert SymDone(tab, root, links, kind, lens, t);
      var d := SymBits(lens, t);
      forall v: seq<Bit> | |v| == MAXBITS && d <= v ensures !(q <= v) {
        AlignedFresh(kind, lens, q, l, i, t, v);
      }
      if lens[t] <= root {
        NewSubShort(tab, tab', root, links, links', q, sub, d, Plain(kind, t, lens[t]));
      } else {
        NewSubLong(tab, tab', root, links, links', low, q, next, used, sub, d, Plain(kind, t, lens[t] - root));
      }
    }
  }

  lemma NewSubLayout(tab: seq<Entry>, tab': seq<Entry>, root: nat, links: map<nat, Sub>, links': map<nat, Sub>,
                     low: int, q: seq<Bit>, next: nat, used: nat, sub: Sub)
    requires root == |q| && root + sub.bits <= MAXBITS && 1 <= sub.bits
    requires Layout(tab, root, links, low, next, used)
    requires sub.off == used && Pow2(root) <= used && used + Pow2(sub.bits) <= |tab|
    requires Idx(q) < |tab| && tab' == tab[Idx(q) := Entry(sub.bits, root, used)] && links' == links[Idx(q) := sub]
    ensures Layout(tab', root, links', Idx(q), used, used + Pow2(sub.bits))
  {
    IdxBound(q);
    forall p | p in links'
      ensures LinkOk(tab', root, p, links'[p], Pow2(root), if p == Idx(q) then used + Pow2(sub.bits) else used)
    {
      if p != Idx(q) {
        assert LinkOk(tab, root, p, links[p], Pow2(root), if p == low then used else next);
      }
    }
  }

  lemma NewSubShort(tab: seq<Entry>, tab': seq<Entry>, root: nat, links: map<nat, Sub>, links': map<nat, Sub>,
                    q: seq<Bit>, sub: Sub, d: seq<Bit>, e: Entry)
    requires root == |q| <= MAXBITS && ShortDone(tab, root, links, d, e)
    requires Idx(q) < |tab| && tab' == tab[Idx(q) := Entry(sub.bits, root, sub.off)] && links' == links[Idx(q) := sub]
    requires forall v: seq<Bit> :: |v| == MAXBITS && d <= v ==> !(q <= v)
    ensures ShortDone(tab', root, links', d, e)
  {
    forall v: seq<Bit> | |v| == MAXBITS && d <= v
      ensures RootIdx(v, root) !in links' && RootIdx(v, root) < |tab'| && tab'[RootIdx(v, root)] == e
    {
      assert tab[RootIdx(v, root)] == e;
      if RootIdx(v, root) == Idx(q) { IdxInjective(v[..root], q); }
    }
  }

  lemma NewSubLong(tab: seq<Entry>, tab': seq<Entry>, root: nat, links: map<nat, Sub>, links': map<nat, Sub>,
                   low: int, q: seq<Bit>, next: nat, used: nat, sub: Sub, d: seq<Bit>, e: Entry)
    requires root == |q| <= |d| && Layout(tab, root, links, low, next, used) && LongDone(tab, root, links, d, e)
    requires Idx(q) < |tab| && tab' == tab[Idx(q) := Entry(sub.bits, root, used)] && links' == links[Idx(q) := sub]
    requires |d| <= MAXBITS && forall v: seq<Bit> :: |v| == MAXBITS && d <= v ==> !(q <= v)
    ensures LongDone(tab', root, links', d, e)
  {
    var p := RootIdx(d, root);
    assert p != Idx(q) by {
      var v := d + Run(0, MAXBITS - |d|);
      assert !(q <= v);
      if p == Idx(q) { IdxInjective(d[..root], q); }
    }
    assert LinkOk(tab, root, p, links[p], Pow2(root), if p == low then used else next);
    IdxBound(q);
    forall v: seq<Bit> | |v| == MAXBITS && d <= v
      ensures SubIdx(v, root, links'[p]) < |tab'| && tab'[SubIdx(v, root, links'[p])] == e
    {
      IdxSub(v, root, links[p]);
      assert tab[SubIdx(v, root, links[p])] == e;
    }
  }

  // ---------------------------------------------------------------- from one code to the next

  /** The successor step of the code loop: bits p..len-1 of huff are all 1, then bit p - 1 is 0. */
  method NextHuff(huff: nat, len: nat, ghost c: seq<Bit>) returns (huff': nat)
    requires 1 <= len == |c| && huff == Idx(c)
    ensures Msb(c) + 1 < Pow2(len) ==> exists d: seq<Bit> :: |d| == len && Msb(d) == Msb(c) + 1 && Idx(d) == huff'
    ensures Msb(c) + 1 == Pow2(len) ==> huff' == 0
  {
    hide Idx, Msb, Pow2;
    var p := len;
    while p > 0 && huff / Pow2(p - 1) % 2 == 1
      invariant 0 <= p <= len && forall j :: p <= j < len ==> c[j] == 1
    {
      IdxBitAt(c, p - 1);
      p := p - 1;
    }
    if p > 0 {
      IdxBitAt(c, p - 1);
      SuccessorMsb(c, p - 1);
      SuccessorIdx(c, p - 1);
      MsbBound(Successor(c, p - 1));
      huff' := huff % Pow2(p - 1) + Pow2(p - 1);
    } else {
      AllOnes(c);
      huff' := 0;
    }
  }

  /** (l, i) and (l2, i2) are consecutive in canonical order. */
  predicate Consecutive(lens: seq<nat>, l: nat, i: nat, l2: nat, i2: nat) {
    && 1 <= l <= MAXBITS && i < Total(lens, l) && 1 <= l2 <= MAXBITS && i2 < Total(lens, l2)
    && ((l2 == l && i2 == i + 1) || (l2 > l && i2 == 0 && i + 1 == Total(lens, l)
        && forall m :: l < m < l2 ==> Total(lens, m) == 0))
  }

  /** Consecutive codes have adjacent intervals. */
  lemma ConsecutivePos(lens: seq<nat>, l: nat, i: nat, l2: nat, i2: nat)
    requires Consecutive(lens, l, i, l2, i2)
    ensures PosAt(lens, l2, i2) == PosAt(lens, l, i) + Cell(l)
  {
    hide Pow2, Cell, Total;
    MulDist(i, 1, Cell(l));
    if l2 > l { UsedGap(lens, l + 1, l2); }
  }

  lemma ConsecutiveDone(tab: seq<Entry>, root: nat, links: map<nat, Sub>, kind: Kind, lens: seq<nat>,
                        l: nat, i: nat, l2: nat, i2: nat)
    requires Fits(kind, lens) && Consecutive(lens, l, i, l2, i2) && Done(tab, root, links, kind, lens, l, i + 1)
    ensures Done(tab, root, links, kind, lens, l2, i2)
  {
    hide SymDone;
    forall t | 0 <= t < |lens| && Before(lens, t, l2, i2) ensures SymDone(tab, root, links, kind, lens, t) {
      assert Before(lens, t, l, i + 1) by {
        CountMono(lens, lens[t], t, |lens|);
        assert Total(lens, lens[t]) > 0;
      }
    }
  }

  /** The next code's table index is what the backward increment gives. */
  lemma NextIdx(lens: seq<nat>, s: nat, s2: nat, i: nat, i2: nat, d: seq<Bit>)
    requires NotOver(lens) && s < |lens| && s2 < |lens| && 1 <= lens[s] <= MAXBITS && 1 <= lens[s2] <= MAXBITS
    requires i == Count(lens, lens[s], s) && i2 == Count(lens, lens[s2], s2)
    requires Consecutive(lens, lens[s], i, lens[s2], i2)
    requires |d| == lens[s] && Msb(d) == Msb(SymBits(lens, s)) + 1
    ensures Idx(SymBits(lens, s2)) == Idx(d)
    ensures Msb(SymBits(lens, s)) + 1 < Pow2(lens[s])
  {
    hide Idx, Msb, Pow2, Cell, Used, FirstCode, SymBits, Count;
    var l, l2, c, c2 := lens[s], lens[s2], SymBits(lens, s), SymBits(lens, s2);
    assert Msb(c2) * Cell(l2) == Msb(d) * Cell(l) by {
      ConsecutivePos(lens, l, i, l2, i2);
      CodePos(lens, s);
      CodePos(lens, s2);
      MulSucc(Msb(c), Cell(l));
    }
    ExtendCode(d, c2);
    MsbBound(d);
  }

  /** A code at the same position as a shorter one is that one extended by zeros. */
  lemma ExtendCode(d: seq<Bit>, c: seq<Bit>)
    requires 1 <= |d| <= |c| <= MAXBITS && Msb(c) * Cell(|c|) == Msb(d) * Cell(|d|)
    ensures c == d + Run(0, |c| - |d|) && Idx(c) == Idx(d)
  {
    hide Idx, Msb, Pow2, Cell;
    var z := Run(0, |c| - |d|);
    CellSplit(|d|, |c|);
    MsbAppend(d, z);
    RunValues(|z|);
    MulAssoc(Msb(d), Pow2(|z|), Cell(|c|));
    MulCancel(Msb(d + z), Msb(c), Cell(|c|));
    MsbInjective(d + z, c);
    IdxAppend(d, z);
  }

  /** A code's interval lies in that of its prefix. */
  lemma PrefixPos(c: seq<Bit>, root: nat)
    requires 1 <= root <= |c| <= MAXBITS
    ensures Msb(c[..root]) * Cell(root) <= Msb(c) * Cell(|c|)
    ensures Msb(c) * Cell(|c|) + Cell(|c|) <= Msb(c[..root]) * Cell(root) + Cell(root)
  {
    hide Msb, Pow2;
    var q, r, l := c[..root], c[root..], |c|;
    assert c == q + r;
    MsbAppend(q, r);
    MsbBound(r);
    CellSplit(root, l);
    MulDist(Msb(q) * Pow2(l - root), Msb(r), Cell(l));
    MulAssoc(Msb(q), Pow2(l - root), Cell(l));
    MulMono(Msb(r) + 1, Pow2(l - root), Cell(l));
    MulMono(0, Msb(r), Cell(l));
    MulSucc(Msb(r), Cell(l));
  }

  // ---------------------------------------------------------------- sizing a sub-table

  /** No code longer than m starts before position end. */
  ghost predicate Capped(lens: seq<nat>, end: int, m: nat) {
    forall l :: m < l <= MAXBITS && Total(lens, l) > 0 ==> Used(lens, l) >= end
  }

  /** The counts still to come once the codes before the i-th of length l are entered. */
  predicate Remaining(count: seq<int>, lens: seq<nat>, l: nat, i: nat) {
    && |count| == MAXBITS + 1 && l <= MAXBITS && i <= Total(lens, l)
    && count[l] == Total(lens, l) - i
    && forall m :: l < m <= MAXBITS ==> count[m] == Total(lens, m)
  }

  /** Free places at length m of a sub-tree that ends at position end. */
  ghost predicate Room(lens: seq<nat>, end: int, l: nat, i: nat, m: nat, left: int)
    requires 1 <= l <= m <= MAXBITS
  {
    left > 0 && left * Cell(m) == end - if m == l then PosAt(lens, l, i) else Used(lens, m)
  }

  lemma RoomStep(lens: seq<nat>, count: seq<int>, end: int, l: nat, i: nat, m: nat, left: int)
    requires 1 <= l <= m < MAXBITS && Remaining(count, lens, l, i) && Room(lens, end, l, i, m, left)
    ensures left - count[m] > 0 ==> Room(lens, end, l, i, m + 1, 2 * (left - count[m]))
    ensures left - count[m] <= 0 ==> Capped(lens, end, m)
  {
    hide Pow2, Cell, Total, Count;
    var r := left - count[m];
    MulDist(r, count[m], Cell(m));
    MulDist(i, count[m], Cell(m));
    assert r * Cell(m) == end - Used(lens, m + 1);
    CellHalves(m);
    MulAssoc(r, 2, Cell(m + 1));
    if r <= 0 {
      MulMono(r, 0, Cell(m));
      forall l' | m < l' <= MAXBITS && Total(lens, l') > 0 ensures Used(lens, l') >= end {
        UsedMono(lens, m + 1, l');
      }
    }
  }

  lemma RoomStart(lens: seq<nat>, l: nat, i: nat, root: nat)
    requires 1 <= root < l <= MAXBITS
    ensures Room(lens, PosAt(lens, l, i) + Cell(root), l, i, l, Pow2(l - root))
  {
    CellSplit(root, l);
  }

  /** Look ahead in the counts for the size of the sub-table of the i-th code of length l. */
  method SubBits(count: array<int>, lens: seq<nat>, l: nat, ghost i: nat, root: nat, max: nat) returns (curr: nat)
    requires 1 <= root < l <= max <= MAXBITS && Remaining(count[..], lens, l, i)
    requires forall m :: max < m <= MAXBITS ==> Total(lens, m) == 0
    ensures 1 <= curr && l <= root + curr <= max
    ensures Capped(lens, PosAt(lens, l, i) + Cell(root), root + curr)
    ensures root + curr > l ==> Used(lens, root + curr) < PosAt(lens, l, i) + Cell(root)
  {
    hide Pow2, Room, Total, Used, Cell;
    ghost var end := PosAt(lens, l, i) + Cell(root);
    curr := l - root;
    var left := Pow2(curr);
    RoomStart(lens, l, i, root);
    while curr + root < max
      invariant l <= curr + root <= max && Room(lens, end, l, i, curr + root, left)
    {
      RoomStep(lens, count[..], end, l, i, curr + root, left);
      RoomLeft(lens, end, l, i, curr + root, left);
      left := left - count[curr + root];
      if left <= 0 { return; }
      curr := curr + 1;
      left := 2 * left;
    }
    RoomLeft(lens, end, l, i, curr + root, left);
  }

  lemma RoomLeft(lens: seq<nat>, end: int, l: nat, i: nat, m: nat, left: int)
    requires 1 <= l <= m <= MAXBITS && Room(lens, end, l, i, m, left)
    ensures m > l ==> Used(lens, m) < end
  {
    hide Used, Cell;
    MulMono(1, left, Cell(m));
  }

  /** A code whose root prefix differs from the one before starts its prefix's interval. */
  lemma Aligned(c: seq<Bit>, d: seq<Bit>, root: nat)
    requires 1 <= root <= |d| <= MAXBITS && 1 <= |c| <= MAXBITS
    requires Msb(d) * Cell(|d|) == Msb(c) * Cell(|c|) + Cell(|c|)
    requires |c| <= root || c[..root] != d[..root]
    ensures Msb(d[..root]) * Cell(root) == Msb(d) * Cell(|d|)
  {
    hide Msb, Pow2, Cell;
    var q := d[..root];
    PrefixPos(d, root);
    if |c| <= root {
      CellSplit(|c|, root);
      MulSucc(Msb(c), Cell(|c|));
      MulAssoc(Msb(c) + 1, Pow2(root - |c|), Cell(root));
      SameMultiple((Msb(c) + 1) * Pow2(root - |c|), Msb(q), Cell(root));
    } else {
      PrefixPos(c, root);
      MulSucc(Msb(c[..root]), Cell(root));
      if Msb(q) <= Msb(c[..root]) {
        MulMono(Msb(q), Msb(c[..root]), Cell(root));
        if Msb(q) == Msb(c[..root]) { MsbInjective(q, c[..root]); }
        if Msb(q) < Msb(c[..root]) { MulMono(Msb(q) + 1, Msb(c[..root]), Cell(root)); MulSucc(Msb(q), Cell(root)); }
      } else {
        MulMono(Msb(c[..root]) + 1, Msb(q), Cell(root));
      }
    }
  }

  /** A multiple of m within [q * m, q * m + m) is q * m. */
  lemma SameMultiple(x: int, q: int, m: nat)
    requires m >= 1 && q * m <= x * m < q * m + m
    ensures x == q
  {
    if x < q { MulMono(x + 1, q, m); MulSucc(x, m); }
    if q < x { MulMono(q + 1, x, m); MulSucc(q, m); }
  }

  // ---------------------------------------------------------------- the state of the code loop

  /** Everything but the extent of Done: which table is being filled, for the pending symbol s. */
  ghost predicate Target(tab: seq<Entry>, root: nat, links: map<nat, Sub>, lens: seq<nat>, s: nat,
                         drop: nat, low: int, next: nat, curr: nat, used: nat)
    requires NotOver(lens) && s < |lens| && 1 <= lens[s] <= MAXBITS && 1 <= root <= MAXBITS
    ensures Target(tab, root, links, lens, s, drop, low, next, curr, used) ==>
      drop <= lens[s] <= drop + curr && next + Pow2(curr) == used <= |tab| && drop + curr <= MAXBITS
    ensures Target(tab, root, links, lens, s, drop, low, next, curr, used) ==>
      drop == if lens[s] <= root then 0 else root
  {
    && next + Pow2(curr) == used <= |tab|
    && if lens[s] <= root then
         links == map[] && drop == 0 && next == 0 && curr == root && low == -1
       else
         var q := SymBits(lens, s)[..root];
         && drop == root && low == Idx(q) && low in links && links[low] == Sub(next, curr)
         && Layout(tab, root, links, low, next, used)
         && lens[s] <= root + curr <= MAXBITS
         && Capped(lens, Msb(q) * Cell(root) + Cell(root), root + curr)
  }

  predicate Pending(lens: seq<nat>, s: nat, l: nat, i: nat) {
    s < |lens| && lens[s] == l && 1 <= l <= MAXBITS && Count(lens, l, s) == i
  }

  /** Entering the pending symbol's code in the table being filled. */
  lemma StepFill(tab: seq<Entry>, tab': seq<Entry>, root: nat, links: map<nat, Sub>, kind: Kind, lens: seq<nat>,
                 s: nat, l: nat, i: nat, drop: nat, low: int, next: nat, curr: nat, used: nat,
                 step: nat, hd: nat, here: Entry)
    requires Fits(kind, lens) && Pending(lens, s, l, i) && 1 <= root <= MAXBITS
    requires Target(tab, root, links, lens, s, drop, low, next, curr, used) && Done(tab, root, links, kind, lens, l, i)
    requires drop + step == l && here == Plain(kind, s, step) && hd == Idx(SymBits(lens, s)) / Pow2(drop)
    requires Filled(tab, tab', next, curr, step, hd, here)
    ensures Target(tab', root, links, lens, s, drop, low, next, curr, used)
    ensures Done(tab', root, links, kind, lens, l, i + 1)
  {
    hide Done, Filled, Layout, Plain, Idx, Msb, Capped, SymBits, Cell;
    var c := SymBits(lens, s);
    IdxSplit(c, drop);
    if l <= root {
      assert c[0..] == c;
      FillRoot(tab, tab', root, kind, lens, s, l, i);
    } else {
      FillSub(tab, tab', root, links, kind, lens, s, l, i, low, next, used);
      FillLayout(tab, tab', root, links, low, next, used, step, hd, here);
    }
  }

  /** The next code goes to the same table when its root prefix is the current one. */
  lemma StepSame(tab: seq<Entry>, root: nat, links: map<nat, Sub>, lens: seq<nat>, s: nat, l: nat, i: nat,
                 s2: nat, l2: nat, i2: nat, drop: nat, low: int, next: nat, curr: nat, used: nat)
    requires NotOver(lens) && Pending(lens, s, l, i) && Pending(lens, s2, l2, i2) && Consecutive(lens, l, i, l2, i2)
    requires 1 <= root <= MAXBITS && Target(tab, root, links, lens, s, drop, low, next, curr, used)
    requires l2 <= root || Idx(SymBits(lens, s2)[..root]) == low
    ensures Target(tab, root, links, lens, s2, drop, low, next, curr, used)
  {
    hide Idx, Msb, Layout, SymBits, Cell, Used, FirstCode;
    if l2 > root {
      var q, c2 := SymBits(lens, s)[..root], SymBits(lens, s2);
      IdxInjective(q, c2[..root]);
      PrefixPos(c2, root);
      CodePos(lens, s2);
      MulMono(0, i2, Cell(l2));
      assert Total(lens, l2) > 0;
    }
  }

  /** A new sub-table for the next code when its root prefix is new. */
  lemma StepNew(tab: seq<Entry>, tab': seq<Entry>, root: nat, links: map<nat, Sub>, links': map<nat, Sub>, kind: Kind,
                lens: seq<nat>, s: nat, l: nat, i: nat, s2: nat, l2: nat, i2: nat,
                drop: nat, low: int, next: nat, curr: nat, used: nat, curr2: nat)
    requires Fits(kind, lens) && Pending(lens, s, l, i) && Pending(lens, s2, l2, i2) && Consecutive(lens, l, i, l2, i2)
    requires 1 <= root < l2 && Target(tab, root, links, lens, s, drop, low, next, curr, used)
    requires Done(tab, root, links, kind, lens, l2, i2)
    requires Idx(SymBits(lens, s2)[..root]) != low
    requires 1 <= curr2 && l2 <= root + curr2 <= MAXBITS && used + Pow2(curr2) <= |tab|
    requires Capped(lens, PosAt(lens, l2, i2) + Cell(root), root + curr2)
    requires RootIdx(SymBits(lens, s2), root) < |tab|
    requires tab' == tab[RootIdx(SymBits(lens, s2), root) := Entry(curr2, root, used)]
    requires links' == links[RootIdx(SymBits(lens, s2), root) := Sub(used, curr2)]
    ensures Done(tab', root, links', kind, lens, l2, i2)
    ensures Target(tab', root, links', lens, s2, root, RootIdx(SymBits(lens, s2), root), used, curr2, used + Pow2(curr2))
  {
    hide Idx, Msb, Done, SymBits, Cell, Used, FirstCode, Capped, Pow2;
    var c, c2 := SymBits(lens, s), SymBits(lens, s2);
    var q := c2[..root];
    CodePos(lens, s);
    CodePos(lens, s2);
    ConsecutivePos(lens, l, i, l2, i2);
    Aligned(c, c2, root);
    assert Pow2(root) <= used && Layout(tab, root, links, low, next, used) by {
      if l > root { LayoutCurrent(tab, root, links, low, next, used); }
    }
    NewSub(tab, tab', root, links, links', kind, lens, l2, i2, low, q, next, used, Sub(used, curr2));
  }

  // ---------------------------------------------------------------- the space used

  /** Entries so far, with the table for symbol s begun. */
  ghost predicate Spent(lens: seq<nat>, root: nat, s: nat, used: nat)
    requires NotOver(lens) && s < |lens| && 1 <= lens[s] <= MAXBITS && 1 <= root <= MAXBITS
  {
    if lens[s] <= root then used == Pow2(root)
    else Complete(lens) ==> used == Pow2(root) + SubSum(lens, root, Msb(SymBits(lens, s)[..root]) + 1)
  }

  lemma SpentSame(lens: seq<nat>, root: nat, s: nat, s2: nat, used: nat)
    requires NotOver(lens) && s < |lens| && 1 <= lens[s] <= MAXBITS && 1 <= root <= MAXBITS
    requires s2 < |lens| && 1 <= lens[s2] <= MAXBITS && Spent(lens, root, s, used) && lens[s] <= lens[s2]
    requires lens[s2] <= root || (lens[s] > root && Idx(SymBits(lens, s2)[..root]) == Idx(SymBits(lens, s)[..root]))
    ensures Spent(lens, root, s2, used)
  {
    hide SymBits, SubSum;
    if lens[s2] > root {
      IdxInjective(SymBits(lens, s2)[..root], SymBits(lens, s)[..root]);
    }
  }

  /** The size chosen for a sub-table is that of the longest code with its root prefix. */
  lemma SizeIs(lens: seq<nat>, root: nat, q: nat, l: nat, i: nat, curr: nat)
    requires Complete(lens) && 1 <= root < l <= root + curr <= MAXBITS && i < Total(lens, l)
    requires PosAt(lens, l, i) == q * Cell(root) && (q + 1) * Cell(root) <= SPACE
    requires Capped(lens, PosAt(lens, l, i) + Cell(root), root + curr)
    requires root + curr > l ==> Used(lens, root + curr) < PosAt(lens, l, i) + Cell(root)
    ensures SubSize(lens, root, q) == Pow2(curr)
  {
    hide Used, Cell, Pow2, Total, Reaches;
    var m, e := root + curr, (q + 1) * Cell(root);
    MulSucc(q, Cell(root));
    MulMono(0, i, Cell(l));
    if Used(lens, m + 1) < e {
      NothingBeyond(lens, m, e);
    }
    ReachesIs(lens, e, m);
  }

  /** Codes of a complete set that go on beyond a position start before it. */
  lemma NothingBeyond(lens: seq<nat>, m: nat, e: nat)
    requires Complete(lens) && 1 <= m <= MAXBITS && Used(lens, m + 1) < e <= SPACE
    ensures !Capped(lens, e, m)
  {
    hide Used, Total;
    if Capped(lens, e, m) {
      var l := m + 1;
      while l <= MAXBITS && Total(lens, l) == 0
        invariant m < l <= MAXBITS + 1 && forall j :: m < j < l ==> Total(lens, j) == 0
      {
        l := l + 1;
      }
      UsedGap(lens, m + 1, l);
    }
  }

  /** A new sub-table adds the size of its root prefix, the next in order. */
  lemma SpentNew(lens: seq<nat>, root: nat, s: nat, l: nat, i: nat, s2: nat, l2: nat, i2: nat, used: nat, curr: nat)
    requires NotOver(lens) && Pending(lens, s, l, i) && Pending(lens, s2, l2, i2) && Consecutive(lens, l, i, l2, i2)
    requires 1 <= root < l2 <= root + curr <= MAXBITS && Spent(lens, root, s, used)
    requires lens[s] <= root || Idx(SymBits(lens, s2)[..root]) != Idx(SymBits(lens, s)[..root])
    requires Capped(lens, PosAt(lens, l2, i2) + Cell(root), root + curr)
    requires root + curr > l2 ==> Used(lens, root + curr) < PosAt(lens, l2, i2) + Cell(root)
    ensures Spent(lens, root, s2, used + Pow2(curr))
  {
    hide Idx, Msb, SymBits, Cell, Used, FirstCode, Capped, Pow2, SubSize;
    var c, c2 := SymBits(lens, s), SymBits(lens, s2);
    var q := Msb(c2[..root]);
    if Complete(lens) {
      CodePos(lens, s);
      CodePos(lens, s2);
      ConsecutivePos(lens, l, i, l2, i2);
      Aligned(c, c2, root);
      MsbBound(c2[..root]);
      CellTimes(root);
      MulMono(q + 1, Pow2(root), Cell(root));
      SizeIs(lens, root, q, l2, i2, curr);
      if l <= root {
        UsedGap(lens, l + 1, root + 1);
        UsedGap(lens, root + 1, l2);
        MulMono(0, i2, Cell(l2));
        NoSubs(lens, root, q);
      } else {
        NextPrefix(c, root, q);
      }
    }
  }

  /** The prefix that starts where a code of another one ends is the next. */
  lemma NextPrefix(c: seq<Bit>, root: nat, q: nat)
    requires 1 <= root < |c| <= MAXBITS && Msb(c) * Cell(|c|) + Cell(|c|) == q * Cell(root)
    ensures q == Msb(c[..root]) + 1
  {
    hide Msb, Cell;
    var p := Msb(c[..root]);
    PrefixPos(c, root);
    MulSucc(p, Cell(root));
    if q <= p { MulMono(q, p, Cell(root)); }
    if q > p + 1 { MulMono(p + 2, q, Cell(root)); MulSucc(p + 1, Cell(root)); }
  }

  /** After the last code all of the table has been counted. */
  lemma SpentEnd(lens: seq<nat>, root: nat, s: nat, l: nat, i: nat, used: nat)
    requires Complete(lens) && Pending(lens, s, l, i) && i + 1 == Total(lens, l) && 1 <= root <= MAXBITS
    requires (forall m :: l < m <= MAXBITS ==> Total(lens, m) == 0) && Spent(lens, root, s, used)
    ensures used == Size(lens, root)
  {
    hide Idx, Msb, SymBits, Cell, Used, FirstCode, Pow2, SubSum;
    PosEnd(lens, l, i);
    UsedNext(lens, l);
    UsedGap(lens, l + 1, MAXBITS + 1);
    CellTimes(root);
    if l <= root {
      UsedMono(lens, l + 1, root + 1);
      UsedMono(lens, root + 1, MAXBITS + 1);
      NoSubs(lens, root, Pow2(root));
    } else {
      CodePos(lens, s);
      NextPrefix(SymBits(lens, s), root, Pow2(root));
    }
  }

  lemma SpentStart(lens: seq<nat>, root: nat, s: nat, used: nat)
    requires NotOver(lens) && s < |lens| && 1 <= lens[s] <= root <= MAXBITS && used == Pow2(root)
    ensures Spent(lens, root, s, used)
  {
  }

  lemma SpentLast(lens: seq<nat>, root: nat, s: nat, l: nat, i: nat, used: nat)
    requires NotOver(lens) && Pending(lens, s, l, i) && i + 1 == Total(lens, l) && 1 <= root <= MAXBITS
    requires (forall m :: l < m <= MAXBITS ==> Total(lens, m) == 0) && Spent(lens, root, s, used)
    ensures Complete(lens) ==> used == Size(lens, root)
    ensures l <= root ==> used == Pow2(root)
  {
    hide Total, Used, SubSum, Msb, SymBits;
    if Complete(lens) { SpentEnd(lens, root, s, l, i, used); }
  }

  lemma SpentWithin(lens: seq<nat>, root: nat, s: nat, used: nat)
    requires NotOver(lens) && s < |lens| && 1 <= lens[s] <= MAXBITS && 1 <= root < lens[s]
    requires Spent(lens, root, s, used)
    ensures Complete(lens) ==> used <= Size(lens, root)
  {
    hide Used, SubSum, Msb, SymBits;
    if Complete(lens) { SpentSome(lens, root, s, used); }
  }

  lemma SpentSome(lens: seq<nat>, root: nat, s: nat, used: nat)
    requires NotOver(lens) && s < |lens| && 1 <= lens[s] <= MAXBITS && 1 <= root < lens[s]
    requires Complete(lens) && Spent(lens, root, s, used)
    ensures used <= Size(lens, root)
  {
    hide SymBits, SubSum;
    var q := SymBits(lens, s)[..root];
    MsbBound(q);
    SubSumMono(lens, root, Msb(q) + 1, Pow2(root));
  }

  // ---------------------------------------------------------------- counting and sorting

  method CountLengths(lens: seq<nat>) returns (count: array<int>)
    requires Lengths(lens)
    ensures fresh(count) && count.Length == MAXBITS + 1
    ensures forall l :: 0 <= l <= MAXBITS ==> count[l] == Total(lens, l)
  {
    count := new int[MAXBITS + 1](_ => 0);
    for sym := 0 to |lens|
      invariant forall l :: 0 <= l <= MAXBITS ==> count[l] == Count(lens, l, sym)
    {
      count[lens[sym]] := count[lens[sym]] + 1;
    }
  }

  /** Place of symbol s in canonical order. */
  function Rank(lens: seq<nat>, s: nat): (r: nat)
    requires s < |lens| && lens[s] >= 1
  {
    Start(lens, lens[s]) + Count(lens, lens[s], s)
  }

  lemma RankBound(lens: seq<nat>, s: nat)
    requires s < |lens| && Lengths(lens) && lens[s] >= 1
    ensures Rank(lens, s) < Start(lens, lens[s] + 1) <= Start(lens, MAXBITS + 1) <= |lens|
  {
    CountMono(lens, lens[s], s, |lens|);
    StartMono(lens, lens[s] + 1, MAXBITS + 1);
    StartAll(lens, |lens|);
    StartCount(lens, MAXBITS + 1);
  }

  lemma RankDistinct(lens: seq<nat>, s: nat, t: nat)
    requires s < t < |lens| && Lengths(lens) && lens[s] >= 1 && lens[t] >= 1
    ensures Rank(lens, s) != Rank(lens, t)
  {
    if lens[s] == lens[t] {
      CountMono(lens, lens[s], s, t);
    } else {
      RankBound(lens, s);
      RankBound(lens, t);
      if lens[s] < lens[t] { StartMono(lens, lens[s] + 1, lens[t]); } else { StartMono(lens, lens[t] + 1, lens[s]); }
    }
  }

  /** work holds the symbols in use below k at their canonical places. */
  ghost predicate OrderedTo(work: seq<nat>, lens: seq<nat>, k: nat)
    requires k <= |lens|
    ensures OrderedTo(work, lens, k) ==> |work| == |lens|
  {
    |work| == |lens| && forall s :: 0 <= s < k && lens[s] >= 1 ==> Rank(lens, s) < |work| && work[Rank(lens, s)] == s
  }

  ghost predicate Ordered(work: seq<nat>, lens: seq<nat>) {
    OrderedTo(work, lens, |lens|)
  }

  lemma OrderedStep(work: seq<nat>, lens: seq<nat>, k: nat)
    requires k < |lens| && Lengths(lens) && OrderedTo(work, lens, k)
    ensures lens[k] == 0 ==> OrderedTo(work, lens, k + 1)
    ensures lens[k] >= 1 ==> Rank(lens, k) < |work| && OrderedTo(work[Rank(lens, k) := k], lens, k + 1)
  {
    if lens[k] >= 1 {
      RankBound(lens, k);
      forall s | 0 <= s < k && lens[s] >= 1 ensures Rank(lens, s) != Rank(lens, k) { RankDistinct(lens, s, k); }
    }
  }

  method Offsets(lens: seq<nat>, count: array<int>) returns (offs: array<int>)
    requires count.Length == MAXBITS + 1 && forall l :: 0 <= l <= MAXBITS ==> count[l] == Total(lens, l)
    ensures fresh(offs) && offs.Length == MAXBITS + 1
    ensures forall m :: 1 <= m <= MAXBITS ==> offs[m] == Start(lens, m)
  {
    hide Total;
    offs := new int[MAXBITS + 1](_ => 0);
    var l := 1;
    while l < MAXBITS
      invariant 1 <= l <= MAXBITS && forall m :: 1 <= m <= l ==> offs[m] == Start(lens, m)
    {
      offs[l + 1] := offs[l] + count[l];
      l := l + 1;
    }
  }

  /** offs[m] is where the next symbol of length m goes. */
  ghost predicate OffsetsAt(offs: seq<int>, lens: seq<nat>, k: nat)
    requires k <= |lens|
    ensures OffsetsAt(offs, lens, k) ==> |offs| == MAXBITS + 1
  {
    |offs| == MAXBITS + 1 && forall m :: 1 <= m <= MAXBITS ==> offs[m] == Start(lens, m) + Count(lens, m, k)
  }

  method PlaceSymbol(work: array<nat>, offs: array<int>, lens: seq<nat>, sym: nat)
    requires sym < |lens| && Lengths(lens) && work as object != offs
    requires OffsetsAt(offs[..], lens, sym) && OrderedTo(work[..], lens, sym)
    modifies work, offs
    ensures OffsetsAt(offs[..], lens, sym + 1) && OrderedTo(work[..], lens, sym + 1)
  {
    hide Start, OrderedTo, Count;
    OrderedStep(work[..], lens, sym);
    CountNext(lens, sym);
    if lens[sym] != 0 {
      var r := offs[lens[sym]];
      ghost var w := work[..];
      work[r] := sym;
      assert work[..] == w[r := sym];
      offs[lens[sym]] := r + 1;
    }
  }

  method SortSymbols(lens: seq<nat>, count: array<int>) returns (work: array<nat>)
    requires Lengths(lens) && count.Length == MAXBITS + 1
    requires forall l :: 0 <= l <= MAXBITS ==> count[l] == Total(lens, l)
    ensures fresh(work) && Ordered(work[..], lens)
  {
    var offs := Offsets(lens, count);
    work := new nat[|lens|](_ => 0);
    for sym := 0 to |lens|
      invariant OffsetsAt(offs[..], lens, sym) && OrderedTo(work[..], lens, sym)
    {
      PlaceSymbol(work, offs, lens, sym);
    }
  }

  lemma CountNext(lens: seq<nat>, k: nat)
    requires k < |lens|
    ensures forall m: nat :: Count(lens, m, k + 1) == Count(lens, m, k) + if lens[k] == m then 1 else 0
  {
  }

  /** The symbol at a canonical place. */
  lemma WorkAt(work: seq<nat>, lens: seq<nat>, l: nat, i: nat)
    requires Ordered(work, lens) && Lengths(lens) && 1 <= l <= MAXBITS && i < Total(lens, l)
    ensures Start(lens, l) + i < |work| && Pending(lens, work[Start(lens, l) + i], l, i)
  {
    var s := Nth(lens, l, i, |lens|);
    assert Rank(lens, s) == Start(lens, l) + i;
  }

  // ---------------------------------------------------------------- replication

  method FillEntries(table: array<Entry>, next: nat, hd: nat, curr: nat, step: nat, here: Entry)
    requires next + Pow2(curr) <= table.Length && step <= curr && hd < Pow2(step)
    modifies table
    ensures Filled(old(table[..]), table[..], next, curr, step, hd, here)
  {
    ghost var tab := table[..];
    var incr := Pow2(step);
    var fill := Pow2(curr);
    Pow2Add(curr - step, step);
    ghost var n := Pow2(curr - step);
    hide Pow2;
    while fill != 0
      invariant 0 <= fill <= Pow2(curr) && fill == n * incr && n >= 0
      invariant forall j :: 0 <= j < table.Length ==>
                  table[j] == if next + fill <= j < next + Pow2(curr) && (j - next) % incr == hd then here else tab[j]
    {
      assert n > 0;
      MulDist(n - 1, 1, incr);
      MulMono(0, n - 1, incr);
      n := n - 1;
      forall x | fill - incr <= x < fill ensures x % incr == x - (fill - incr) {
        DivModUnique(x, incr, n, x - (fill - incr));
      }
      fill := fill - incr;
      table[next + hd + fill] := here;
    }
  }

  // ---------------------------------------------------------------- the procedure

  /** Places left unused, or -1 for an over-subscribed set of lengths. */
  method CheckLengths(count: array<int>, lens: seq<nat>) returns (left: int)
    requires count.Length == MAXBITS + 1 && forall l :: 0 <= l <= MAXBITS ==> count[l] == Total(lens, l)
    ensures left < 0 <==> !NotOver(lens)
    ensures left >= 0 ==> left == SPACE - Used(lens, MAXBITS + 1)
  {
    hide Total, Pow2, Cell;
    left := 1;
    var len := 0;
    CellTimes(0);
    assert Pow2(0) == 1 by { OnePow(); }
    while len < MAXBITS
      invariant 0 <= len <= MAXBITS && left >= 0 && left * Cell(len) == SPACE - Used(lens, len + 1)
    {
      CellHalves(len);
      MulAssoc(left, 2, Cell(len + 1));
      MulDist(2 * left - count[len + 1], count[len + 1], Cell(len + 1));
      len := len + 1;
      left := 2 * left;
      left := left - count[len];
      if left < 0 {
        MulMono(left + 1, 0, Cell(len));
        MulSucc(left, Cell(len));
        UsedMono(lens, len + 1, MAXBITS + 1);
        return;
      }
      MulMono(0, left, Cell(len));
    }
    assert Cell(MAXBITS) == 1 by { OneCell(); }
  }

  lemma OnePow()
    ensures Pow2(0) == 1
  {
  }

  lemma OneCell()
    ensures Cell(MAXBITS) == 1
  {
  }

  /** The entries of the kind still fit the space the caller reserved. */
  predicate Over(kind: Kind, used: nat) {
    (kind.LENS? && used > ENOUGH_LENS) || (kind.DISTS? && used > ENOUGH_DISTS)
  }

  /** All codes are in the table. */
  ghost predicate AllDone(tab: seq<Entry>, root: nat, links: map<nat, Sub>, kind: Kind, lens: seq<nat>)
    requires Fits(kind, lens)
  {
    && root <= MAXBITS
    && (forall s :: 0 <= s < |lens| && lens[s] >= 1 ==> SymDone(tab, root, links, kind, lens, s))
    && (forall q :: q in links ==> LinkEntry(tab, root, q, links[q]))
  }

  predicate LinkEntry(tab: seq<Entry>, root: nat, q: nat, sub: Sub) {
    q < |tab| && tab[q] == Entry(sub.bits, root, sub.off) && 1 <= sub.bits && root + sub.bits <= MAXBITS
  }

  lemma LastDone(tab: seq<Entry>, root: nat, links: map<nat, Sub>, kind: Kind, lens: seq<nat>,
                 s: nat, l: nat, i: nat, drop: nat, low: int, next: nat, curr: nat, used: nat)
    requires Fits(kind, lens) && Pending(lens, s, l, i) && i + 1 == Total(lens, l) && 1 <= root <= MAXBITS
    requires forall m :: l < m <= MAXBITS ==> Total(lens, m) == 0
    requires Target(tab, root, links, lens, s, drop, low, next, curr, used) &&
      Done(tab, root, links, kind, lens, l, i + 1)
    ensures AllDone(tab, root, links, kind, lens)
  {
    hide SymDone;
    forall t | 0 <= t < |lens| && lens[t] >= 1 ensures SymDone(tab, root, links, kind, lens, t) {
      CountMono(lens, lens[t], t, |lens|);
      assert Total(lens, lens[t]) > 0;
      assert Before(lens, t, l, i + 1);
    }
    if l > root {
      forall q | q in links ensures LinkEntry(tab, root, q, links[q]) {
        assert LinkOk(tab, root, q, links[q], Pow2(root), if q == low then used else next);
      }
    }
  }

  /** Next length with codes left, after the last code of length l. */
  lemma NextGroup(work: seq<nat>, lens: seq<nat>, l: nat, max: nat) returns (l2: nat)
    requires Ordered(work, lens) && Lengths(lens) && 1 <= l < max <= MAXBITS && Total(lens, max) > 0
    ensures l < l2 <= max && Total(lens, l2) > 0 && forall m :: l < m < l2 ==> Total(lens, m) == 0
    ensures Start(lens, l2) == Start(lens, l + 1)
  {
    l2 := l + 1;
    while Total(lens, l2) == 0
      invariant l < l2 <= max && Start(lens, l2) == Start(lens, l + 1)
      invariant forall m :: l < m < l2 ==> Total(lens, m) == 0
      decreases max - l2
    {
      l2 := l2 + 1;
    }
  }

  lemma {:induction false} StartGap(lens: seq<nat>, min: nat)
    requires 1 <= min && forall m :: 1 <= m < min ==> Total(lens, m) == 0
    ensures Start(lens, min) == 0
  {
    if min > 1 { StartGap(lens, min - 1); }
  }

  lemma FirstIdx(lens: seq<nat>, s: nat, min: nat)
    requires NotOver(lens) && Pending(lens, s, min, 0) && forall m :: 1 <= m < min ==> Total(lens, m) == 0
    ensures Idx(SymBits(lens, s)) == 0
  {
    UsedGap(lens, 1, min);
    CodePos(lens, s);
    MulCancel(CodeOf(lens, s), 0, Cell(min));
    RunValues(min);
    MsbInjective(SymBits(lens, s), Run(0, min));
  }

  lemma NoneDone(tab: seq<Entry>, root: nat, kind: Kind, lens: seq<nat>, min: nat)
    requires Fits(kind, lens) && forall m :: 1 <= m < min ==> Total(lens, m) == 0
    ensures Done(tab, root, map[], kind, lens, min, 0)
  {
    forall t | 0 <= t < |lens| ensures !Before(lens, t, min, 0) {
      CountMono(lens, lens[t], t, |lens|);
      assert Total(lens, lens[t]) > 0;
    }
  }

  /** Enter the pending symbol's code. */
  method EnterCode(table: array<Entry>, kind: Kind, lens: seq<nat>, s: nat, huff: nat, ghost l: nat, ghost i: nat,
                   ghost root: nat, ghost links: map<nat, Sub>, drop: nat, ghost low: int, next: nat, curr: nat, ghost used: nat)
    requires Fits(kind, lens) && Pending(lens, s, l, i) && 1 <= root <= MAXBITS && huff == Idx(SymBits(lens, s))
    requires Target(table[..], root, links, lens, s, drop, low, next, curr, used)
    requires Done(table[..], root, links, kind, lens, l, i)
    modifies table
    ensures Target(table[..], root, links, lens, s, drop, low, next, curr, used)
    ensures Done(table[..], root, links, kind, lens, l, i + 1)
  {
    hide Target, Done, Filled, Idx, SymBits, Plain, Pow2;
    var step := lens[s] - drop;
    var here := Plain(kind, s, step);
    ghost var tab, c := table[..], SymBits(lens, s);
    IdxSplit(c, drop);
    IdxBound(c[drop..]);
    FillEntries(table, next, huff / Pow2(drop), curr, step, here);
    StepFill(tab, table[..], root, links, kind, lens, s, l, i, drop, low, next, curr, used, step, huff / Pow2(drop), here);
  }

  /** Link a new sub-table, which starts where the tables so far end. */
  method LinkSub(table: array<Entry>, low: nat, curr: nat, root: nat, next: nat)
    requires low < table.Length
    modifies table
    ensures table[..] == old(table[..])[low := Entry(curr, root, next)]
  {
    table[low] := Entry(curr, root, next);
  }

  /** Where the loop goes after entering symbol s: the next symbol in canonical order, or the end. */
  lemma Advance(work: seq<nat>, count: seq<int>, count': seq<int>, lens: seq<nat>, s: nat, l: nat, i: nat, sym: nat,
                max: nat)
    returns (l2: nat, i2: nat)
    requires Ordered(work, lens) && Lengths(lens) && Pending(lens, s, l, i) && 1 <= l <= max <= MAXBITS &&
      Total(lens, max) > 0
    requires i < Total(lens, l) && sym == Start(lens, l) + i && Remaining(count, lens, l, i)
    requires count' == count[l := count[l] - 1]
    requires count'[l] != 0 || l != max
    ensures Consecutive(lens, l, i, l2, i2) && l2 <= max && sym + 1 == Start(lens, l2) + i2 < |work|
    ensures Pending(lens, work[sym + 1], l2, i2) && Remaining(count', lens, l2, i2)
    ensures l2 == if count'[l] == 0 then lens[work[sym + 1]] else l
  {
    if count'[l] != 0 {
      l2, i2 := l, i + 1;
    } else {
      l2 := NextGroup(work, lens, l, max);
      i2 := 0;
    }
    WorkAt(work, lens, l2, i2);
  }

  /** Size, link and switch to a new sub-table for the next code. */
  method StartSub(table: array<Entry>, kind: Kind, lens: seq<nat>, count: array<int>, ghost s: nat, ghost l: nat,
                  ghost i: nat,
                  ghost s2: nat, l2: nat, ghost i2: nat, root: nat, max: nat, huff: nat,
                  ghost links: map<nat, Sub>, ghost drop: nat, ghost low0: int, next0: nat, curr0: nat, used0: nat)
    returns (ok: bool, low: nat, next: nat, curr: nat, used: nat, ghost links': map<nat, Sub>)
    requires Fits(kind, lens) && Pending(lens, s, l, i) && Pending(lens, s2, l2, i2) && Consecutive(lens, l, i, l2, i2)
    requires 1 <= root < l2 <= max <= MAXBITS && Remaining(count[..], lens, l2, i2)
    requires forall m :: max < m <= MAXBITS ==> Total(lens, m) == 0
    requires Target(table[..], root, links, lens, s, drop, low0, next0, curr0, used0)
    requires Done(table[..], root, links, kind, lens, l2, i2)
    requires huff == Idx(SymBits(lens, s2)) && huff % Pow2(root) != low0
    requires kind.LENS? ==> table.Length >= ENOUGH_LENS
    requires kind.DISTS? ==> table.Length >= ENOUGH_DISTS
    requires !kind.CODES? && Spent(lens, root, s, used0)
    modifies table
    ensures Spent(lens, root, s2, used)
    ensures !ok ==> Over(kind, used)
    ensures ok ==> !Over(kind, used) && Done(table[..], root, links', kind, lens, l2, i2)
    ensures ok ==> Target(table[..], root, links', lens, s2, root, low, next, curr, used)
  {
    hide Idx, Msb, Pow2, SymBits, Target, Done, Total, Used, Cell, Remaining, Capped, Spent;
    ghost var tab, c2 := table[..], SymBits(lens, s2);
    next := next0 + Pow2(curr0);
    curr := SubBits(count, lens, l2, i2, root, max);
    used := used0 + Pow2(curr);
    low := huff % Pow2(root);
    IdxSplit(c2, root);
    LowPrefix(tab, root, links, lens, s, drop, low0, next0, curr0, used0);
    SpentNew(lens, root, s, l, i, s2, l2, i2, used0, curr);
    links' := links;
    ok := !Over(kind, used);
    if ok {
      IdxBound(c2[..root]);
      RootFits(tab, root, links, lens, s, drop, low0, next0, curr0, used0);
      LinkSub(table, low, curr, root, next);
      links' := links[low := Sub(next, curr)];
      StepNew(tab, table[..], root, links, links', kind, lens, s, l, i, s2, l2, i2, drop, low0, next0, curr0, used0, curr);
    }
  }

  /** Create a new sub-table if the next code needs one. */
  method NextTable(table: array<Entry>, kind: Kind, lens: seq<nat>, count: array<int>, ghost s: nat, ghost l: nat,
                   ghost i: nat, ghost s2: nat, l2: nat, ghost i2: nat, root: nat, max: nat, huff: nat,
                   ghost links: map<nat, Sub>, drop0: nat, low0: int, next0: nat, curr0: nat, used0: nat)
    returns (ok: bool, drop: nat, low: int, next: nat, curr: nat, used: nat, ghost links': map<nat, Sub>)
    requires Fits(kind, lens) && Pending(lens, s, l, i) && Pending(lens, s2, l2, i2) && Consecutive(lens, l, i, l2, i2)
    requires 1 <= root <= max <= MAXBITS && l2 <= max && Remaining(count[..], lens, l2, i2)
    requires forall m :: max < m <= MAXBITS ==> Total(lens, m) == 0
    requires Target(table[..], root, links, lens, s, drop0, low0, next0, curr0, used0) && Spent(lens, root, s, used0)
    requires Done(table[..], root, links, kind, lens, l2, i2) && huff == Idx(SymBits(lens, s2)) && !Over(kind, used0)
    requires kind.LENS? ==> table.Length >= ENOUGH_LENS
    requires kind.DISTS? ==> table.Length >= ENOUGH_DISTS
    requires kind.CODES? ==> root == max
    modifies table
    ensures !ok ==> Over(kind, used) && root < max && (Complete(lens) ==> used <= Size(lens, root))
    ensures ok ==> !Over(kind, used) && Done(table[..], root, links', kind, lens, l2, i2) && Spent(lens, root, s2, used)
    ensures ok ==> Target(table[..], root, links', lens, s2, drop, low, next, curr, used)
  {
    hide Idx, Msb, Pow2, SymBits, Target, Done, Total, Used, Cell, Remaining, Spent, SubSum;
    ok, drop, low, next, curr, used, links' := true, drop0, low0, next0, curr0, used0, links;
    if l2 > root && huff % Pow2(root) != low {
      ok, low, next, curr, used, links' := StartSub(table, kind, lens, count, s, l, i, s2, l2, i2, root, max, huff,
                                                    links, drop, low, next, curr, used);
      SpentWithin(lens, root, s2, used);
      if drop == 0 { drop := root; }
    } else {
      if l2 > root { IdxSplit(SymBits(lens, s2), root); }
      LowPrefix(table[..], root, links, lens, s, drop, low, next, curr, used);
      SpentSame(lens, root, s, s2, used);
      StepSame(table[..], root, links, lens, s, l, i, s2, l2, i2, drop, low, next, curr, used);
    }
  }

  lemma LowPrefix(tab: seq<Entry>, root: nat, links: map<nat, Sub>, lens: seq<nat>, s: nat,
                  drop: nat, low: int, next: nat, curr: nat, used: nat)
    requires NotOver(lens) && s < |lens| && 1 <= lens[s] <= MAXBITS && 1 <= root <= MAXBITS
    requires Target(tab, root, links, lens, s, drop, low, next, curr, used)
    ensures if lens[s] <= root then low == -1 else low == Idx(SymBits(lens, s)[..root])
  {
  }

  lemma RootFits(tab: seq<Entry>, root: nat, links: map<nat, Sub>, lens: seq<nat>, s: nat,
                 drop: nat, low: int, next: nat, curr: nat, used: nat)
    requires NotOver(lens) && s < |lens| && 1 <= lens[s] <= MAXBITS && 1 <= root <= MAXBITS
    requires Target(tab, root, links, lens, s, drop, low, next, curr, used)
    ensures Pow2(root) <= used <= |tab|
  {
    if lens[s] > root { LayoutCurrent(tab, root, links, low, next, used); }
  }

  lemma StartTarget(tab: seq<Entry>, root: nat, lens: seq<nat>, s: nat, used: nat)
    requires NotOver(lens) && s < |lens| && 1 <= lens[s] <= root <= MAXBITS && used == Pow2(root) <= |tab|
    ensures Target(tab, root, map[], lens, s, 0, -1, 0, root, used)
  {
  }

  lemma RemainingAt(count: seq<int>, lens: seq<nat>, l: nat, i: nat)
    requires Remaining(count, lens, l, i)
    ensures |count| == MAXBITS + 1 && l <= MAXBITS && count[l] == Total(lens, l) - i
  {
  }

  /** After the last code of a complete set the increment wraps to 0. */
  lemma EndHuff(lens: seq<nat>, s: nat, l: nat, i: nat, huff: nat)
    requires Lengths(lens) && NotOver(lens) && Pending(lens, s, l, i) && i + 1 == Total(lens, l)
    requires forall m :: l < m <= MAXBITS ==> Total(lens, m) == 0
    requires var c := SymBits(lens, s); Msb(c) + 1 == Pow2(l) ==> huff == 0
    requires var c := SymBits(lens, s); Msb(c) + 1 < Pow2(l) ==>
               exists d: seq<Bit> :: |d| == l && Msb(d) == Msb(c) + 1 && Idx(d) == huff
    ensures Complete(lens) ==> huff == 0
    ensures !Complete(lens) && l == 1 ==> huff == 1
  {
    hide Msb, Idx, SymBits, Count, FirstCode, Pow2, Cell;
    OneBit();
    var c := SymBits(lens, s);
    CodePos(lens, s);
    PosEnd(lens, l, i);
    UsedGap(lens, l + 1, MAXBITS + 1);
    CellTimes(l);
    MulSucc(Msb(c), Cell(l));
    MsbBound(c);
    if Complete(lens) {
      MulCancel(Msb(c) + 1, Pow2(l), Cell(l));
    } else if l == 1 {
      if Msb(c) + 1 < Pow2(l) {
        var d: seq<Bit> :| |d| == l && Msb(d) == Msb(c) + 1 && Idx(d) == huff;
        assert d == [d[0]];
      }
    }
  }

  lemma TargetRoot(tab: seq<Entry>, root: nat, links: map<nat, Sub>, lens: seq<nat>, s: nat,
                   drop: nat, low: int, next: nat, curr: nat, used: nat)
    requires NotOver(lens) && s < |lens| && 1 <= lens[s] <= MAXBITS && 1 <= root <= MAXBITS
    requires Target(tab, root, links, lens, s, drop, low, next, curr, used)
    ensures lens[s] <= root ==> links == map[]
  {
  }

  lemma NextCode(lens: seq<nat>, s: nat, l: nat, i: nat, s2: nat, l2: nat, i2: nat, huff: nat)
    requires Lengths(lens) && NotOver(lens) && Pending(lens, s, l, i) && Pending(lens, s2, l2, i2)
    requires Consecutive(lens, l, i, l2, i2)
    requires var c := SymBits(lens, s); Msb(c) + 1 < Pow2(l) ==>
               exists d: seq<Bit> :: |d| == l && Msb(d) == Msb(c) + 1 && Idx(d) == huff
    ensures huff == Idx(SymBits(lens, s2))
  {
    hide Msb, Idx, SymBits, Used, Count, FirstCode, Pow2;
    var c := SymBits(lens, s);
    CodePos(lens, s);
    ConsecutivePos(lens, l, i, l2, i2);
    CellTimes(l);
    MulSucc(Msb(c), Cell(l));
    PosEnd(lens, l2, i2);
    if Msb(c) + 1 >= Pow2(l) { MulMono(Pow2(l), Msb(c) + 1, Cell(l)); }
    var d: seq<Bit> :| |d| == l && Msb(d) == Msb(c) + 1 && Idx(d) == huff;
    NextIdx(lens, s, s2, i, i2, d);
  }

  /** The loop that enters all codes; returns 1 when the reserved space is not enough. */
  method BuildTable(kind: Kind, lens: seq<nat>, table: array<Entry>, count: array<int>, work: array<nat>,
                    root: nat, min: nat, max: nat)
    returns (ret: int, used: nat, ghost links: map<nat, Sub>, huff: nat)
    requires Fits(kind, lens) && Ordered(work[..], lens) && Remaining(count[..], lens, min, 0)
    requires 1 <= min <= root <= max <= MAXBITS && Total(lens, min) > 0 && Total(lens, max) > 0
    requires forall m :: 1 <= m < min ==> Total(lens, m) == 0
    requires forall m :: max < m <= MAXBITS ==> Total(lens, m) == 0
    requires kind.LENS? ==> table.Length >= ENOUGH_LENS
    requires kind.DISTS? ==> table.Length >= ENOUGH_DISTS
    requires kind.CODES? ==> root == max && table.Length >= Pow2(root)
    modifies table, count
    ensures ret == 0 || ret == 1
    ensures ret == 1 ==> Over(kind, used)
    ensures ret == 0 ==> !Over(kind, used) && AllDone(table[..], root, links, kind, lens) && used <= table.Length
    ensures Complete(lens) ==> used <= Size(lens, root) && (ret == 0 ==> used == Size(lens, root))
    ensures root == max ==> used == Pow2(root)
    ensures ret == 0 && Complete(lens) ==> huff == 0
    ensures ret == 0 && max == 1 && !Complete(lens) ==> huff == 1 && links == map[]
  {
    hide Idx, Msb, Pow2, SymBits, Target, Done, Ordered, Start, Total, Used, Cell, AllDone, Remaining, Capped;
    hide Spent, SubSum;
    huff := 0;
    var sym, len, next, curr, drop := 0, min, 0, root, 0;
    var low: int := -1;
    links := map[];
    used := Pow2(root);
    ret := 1;
    if Over(kind, used) { return; }
    WorkAt(work[..], lens, min, 0);
    StartGap(lens, min);
    ghost var i: nat := 0;
    FirstIdx(lens, work[sym], min);
    NoneDone(table[..], root, kind, lens, min);
    StartTarget(table[..], root, lens, work[sym], used);
    SpentStart(lens, root, work[sym], used);
    while true
      invariant 1 <= len <= max && sym < work.Length && Pending(lens, work[sym], len, i) && i < Total(lens, len)
      invariant sym == Start(lens, len) + i && Remaining(count[..], lens, len, i) && Ordered(work[..], lens)
      invariant huff == Idx(SymBits(lens, work[sym])) && !Over(kind, used)
      invariant Target(table[..], root, links, lens, work[sym], drop, low, next, curr, used)
      invariant Spent(lens, root, work[sym], used)
      invariant Done(table[..], root, links, kind, lens, len, i)
      decreases work.Length - sym
    {
      var s := work[sym];
      EnterCode(table, kind, lens, s, huff, len, i, root, links, drop, low, next, curr, used);
      ghost var c := SymBits(lens, s);
      huff := NextHuff(huff, len, c);
      ghost var cnt := count[..];
      RemainingAt(cnt, lens, len, i);
      count[len] := count[len] - 1;
      assert count[..] == cnt[len := cnt[len] - 1];
      if count[len] == 0 && len == max {
        LastDone(table[..], root, links, kind, lens, s, len, i, drop, low, next, curr, used);
        SpentLast(lens, root, s, len, i, used);
        EndHuff(lens, s, len, i, huff);
        TargetRoot(table[..], root, links, lens, s, drop, low, next, curr, used);
        break;
      }
      ghost var l2, i2 := Advance(work[..], cnt, count[..], lens, s, len, i, sym, max);
      ghost var l := len;
      sym := sym + 1;
      if count[len] == 0 { len := lens[work[sym]]; }
      NextCode(lens, s, l, i, work[sym], l2, i2, huff);
      ConsecutiveDone(table[..], root, links, kind, lens, l, i, l2, i2);
      var ok;
      ok, drop, low, next, curr, used, links := NextTable(table, kind, lens, count, s, l, i, work[sym], len, i2, root,
                                                          max, huff, links, drop, low, next, curr, used);
      if !ok { return; }
      i := i2;
    }
    ret := 0;
  }

  /** The longest code length in use, 0 if there is none. */
  function MaxLen(lens: seq<nat>): (r: nat)
    ensures forall i :: 0 <= i < |lens| ==> lens[i] <= r
    ensures r > 0 ==> exists i :: 0 <= i < |lens| && lens[i] == r
  {
    if |lens| == 0 then 0
    else
      var m, x := MaxLen(lens[..|lens| - 1]), lens[|lens| - 1];
      if x > m then x else m
  }

  /** The shortest code length in use, 0 if there is none. */
  function MinLen(lens: seq<nat>): (r: nat)
    ensures forall i :: 0 <= i < |lens| && lens[i] > 0 ==> 0 < r <= lens[i]
    ensures r > 0 ==> exists i :: 0 <= i < |lens| && lens[i] == r
  {
    if |lens| == 0 then 0
    else
      var m, x := MinLen(lens[..|lens| - 1]), lens[|lens| - 1];
      if x == 0 || 0 < m < x then m else x
  }

  /** The bits of the root table: as many as asked for, but no fewer than the shortest code has nor more than the longest. */
  function RootBits(lens: seq<nat>, bits: nat): (r: nat)
  {
    var m := if bits > MaxLen(lens) then MaxLen(lens) else bits;
    if m < MinLen(lens) then MinLen(lens) else m
  }

  lemma {:induction false} TotalZero(lens: seq<nat>, l: nat, k: nat)
    requires k <= |lens|
    ensures Count(lens, l, k) == 0 <==> forall i :: 0 <= i < k ==> lens[i] != l
  {
    if k > 0 { TotalZero(lens, l, k - 1); }
  }

  /** The longest and shortest lengths in use. */
  method Extremes(count: array<int>, lens: seq<nat>) returns (min: nat, max: nat)
    requires Lengths(lens) && count.Length == MAXBITS + 1
    requires forall l :: 0 <= l <= MAXBITS ==> count[l] == Total(lens, l)
    ensures max == MaxLen(lens) <= MAXBITS && forall m :: max < m <= MAXBITS ==> Total(lens, m) == 0
    ensures max > 0 ==> 1 <= min <= max && Total(lens, min) > 0 && Total(lens, max) > 0 && min == MinLen(lens)
    ensures max > 0 ==> forall m :: 1 <= m < min ==> Total(lens, m) == 0
  {
    hide Total;
    max := MAXBITS;
    while max >= 1 && count[max] == 0
      invariant 0 <= max <= MAXBITS && forall m :: max < m <= MAXBITS ==> Total(lens, m) == 0
    {
      max := max - 1;
    }
    MaxIs(lens, max);
    min := 1;
    while min < max && count[min] == 0
      invariant 1 <= min && (min <= max || max == 0) && forall m :: 1 <= m < min ==> Total(lens, m) == 0
    {
      min := min + 1;
    }
    if max > 0 { MinIs(lens, min); }
  }

  lemma MinIs(lens: seq<nat>, min: nat)
    requires min >= 1 && Total(lens, min) != 0 && forall m :: 1 <= m < min ==> Total(lens, m) == 0
    ensures MinLen(lens) == min
  {
    TotalZero(lens, min, |lens|);
    TotalZero(lens, MinLen(lens), |lens|);
    assert 1 <= MinLen(lens) < min ==> Total(lens, MinLen(lens)) == 0;
  }

  lemma MaxIs(lens: seq<nat>, max: nat)
    requires Lengths(lens) && max <= MAXBITS && forall m :: max < m <= MAXBITS ==> Total(lens, m) == 0
    requires max > 0 ==> Total(lens, max) != 0
    ensures MaxLen(lens) == max
  {
    TotalZero(lens, max, |lens|);
    TotalZero(lens, MaxLen(lens), |lens|);
    assert MaxLen(lens) > max ==> Total(lens, MaxLen(lens)) == 0;
  }

  const INVALID := Entry(64, 1, 0)

  /** A set of lengths that inflate_table refuses. */
  predicate Refused(kind: Kind, lens: seq<nat>) {
    MaxLen(lens) > 0 && (!NotOver(lens) || (!Complete(lens) && (kind.CODES? || MaxLen(lens) != 1)))
  }

  /** What inflate asks for: at most 286 lengths at nine bits, at most 30 distances at six. */
  predicate Reserved(kind: Kind, lens: seq<nat>, bits: nat) {
    (kind.LENS? && |lens| <= 286 && bits == 9) || (kind.DISTS? && |lens| <= 30 && bits == 6)
  }

  /** The shortest length of a complete code is short. */
  lemma MinSmall(lens: seq<nat>, m: nat)
    requires Complete(lens) && Lengths(lens) && 1 <= m <= MAXBITS && |lens| * Cell(m) < SPACE
    ensures MinLen(lens) < m
  {
    hide Used, Cell, Start, Total, MinLen;
    Coded(lens);
    if MinLen(lens) >= m {
      NoneBelow(lens, m);
      UsedGap(lens, 1, m);
      StartGap(lens, m);
      UsedAtMost(lens, m, MAXBITS + 1);
      StartFirst(lens);
      MulMono(Start(lens, MAXBITS + 1), |lens|, Cell(m));
    }
  }

  lemma NoneBelow(lens: seq<nat>, m: nat)
    requires MinLen(lens) >= m
    ensures forall l :: 1 <= l < m ==> Total(lens, l) == 0
  {
    hide MinLen;
    forall l | 1 <= l < m ensures Total(lens, l) == 0 {
      TotalZero(lens, l, |lens|);
    }
  }

  lemma NoneAbove(lens: seq<nat>)
    ensures forall l :: MaxLen(lens) < l <= MAXBITS ==> Total(lens, l) == 0
  {
    hide MaxLen;
    forall l | MaxLen(lens) < l <= MAXBITS ensures Total(lens, l) == 0 {
      TotalZero(lens, l, |lens|);
    }
  }

  /** The space inflate reserves is enough for every complete set it accepts. */
  lemma Enough(kind: Kind, lens: seq<nat>, bits: nat)
    requires Complete(lens) && Lengths(lens) && Reserved(kind, lens, bits) && 1 <= MaxLen(lens) <= MAXBITS
    ensures RootBits(lens, bits) <= MAXBITS && !Over(kind, Size(lens, RootBits(lens, bits)))
  {
    hide Used, Cell, Start, Total, MinLen, MaxLen, Size, Pow2;
    CellValues();
    MinSmall(lens, if kind.LENS? then 9 else 5);
    if MaxLen(lens) >= bits {
      if kind.LENS? { EnoughLengths(lens); } else { EnoughDistances(lens); }
    } else {
      var m := RootBits(lens, bits);
      NoneAbove(lens);
      UsedGap(lens, MaxLen(lens) + 1, MAXBITS + 1);
      UsedMono(lens, MaxLen(lens) + 1, m + 1);
      UsedMono(lens, m + 1, MAXBITS + 1);
      SizeBound(lens, m);
      Pow2Mono(m, bits);
      PowValues();
    }
  }

  /**
   inflate_table.  It returns -1 exactly on over-subscribed sets and on incomplete ones other than
   a single one-bit code; 1 exactly when the table of an accepted set is larger than the space
   reserved, which it never is for the sets inflate accepts; otherwise the table decodes every code,
   and what no code starts with is marked invalid.
   */
  method Build(kind: Kind, lens: seq<nat>, table: array<Entry>, bits: nat)
    returns (ret: int, root: nat, used: nat, ghost links: map<nat, Sub>)
    requires |lens| <= MaxSymbols(kind) && Lengths(lens) && bits >= 1
    requires kind.LENS? ==> table.Length >= ENOUGH_LENS
    requires kind.DISTS? ==> table.Length >= ENOUGH_DISTS
    requires kind.CODES? ==> MaxLen(lens) <= bits <= MAXBITS && table.Length >= Pow2(bits)
    modifies table
    ensures ret == -1 <==> Refused(kind, lens)
    ensures ret == -1 || ret == 0 || ret == 1
    ensures root <= MAXBITS && root == if MaxLen(lens) == 0 then 1 else RootBits(lens, bits)
    ensures ret == 1 <==> MaxLen(lens) > 0 && Complete(lens) && Over(kind, Size(lens, root))
    ensures ret == 0 && MaxLen(lens) > 0 && Complete(lens) ==> used == Size(lens, root)
    ensures Reserved(kind, lens, bits) ==> ret != 1
    ensures ret == 0 && MaxLen(lens) == 0 ==>
      root == 1 && table.Length >= 2 && table[0] == INVALID && table[1] == INVALID
    ensures ret == 0 && MaxLen(lens) > 0 ==>
      Fits(kind, lens) && !Over(kind, used) && AllDone(table[..], root, links, kind, lens)
    ensures ret == 0 && MaxLen(lens) > 0 && !Complete(lens) ==>
              MaxLen(lens) == 1 && root == 1 && table.Length >= 2 && table[1] == INVALID
  {
    hide Total, Used, AllDone, Ordered, MaxLen, MinLen, Pow2, Size;
    var count := CountLengths(lens);
    var min, max := Extremes(count, lens);
    links, used, ret := map[], 0, 0;
    root := if bits > max then max else bits;
    if max == 0 {
      assert 2 <= table.Length by { TwoEntries(bits); }
      table[0], table[1] := INVALID, INVALID;
      root, used := 1, 2;
      return;
    }
    if root < min { root := min; }
    var left := CheckLengths(count, lens);
    if left < 0 { ret := -1; return; }
    if left > 0 && (kind.CODES? || max != 1) { ret := -1; return; }
    var work := SortSymbols(lens, count);
    var huff;
    assert kind.CODES? ==> root == max;
    assert kind.CODES? ==> Pow2(root) <= table.Length by { if kind.CODES? { Pow2Mono(root, bits); } }
    ret, used, links, huff := BuildTable(kind, lens, table, count, work, root, min, max);
    NeverOver(kind, lens, bits, root);
    if ret == 0 && huff != 0 {
      assert 2 <= table.Length by { TwoEntries(bits); }
      ghost var tab := table[..];
      table[huff] := INVALID;
      MarkInvalid(tab, table[..], root, links, kind, lens, min);
    }
  }

  lemma NeverOver(kind: Kind, lens: seq<nat>, bits: nat, root: nat)
    requires Lengths(lens) && 1 <= MaxLen(lens) <= MAXBITS && root == RootBits(lens, bits) <= MAXBITS
    ensures Reserved(kind, lens, bits) && Complete(lens) ==> !Over(kind, Size(lens, root))
    ensures !Over(kind, Pow2(1))
  {
    hide Used, MaxLen, MinLen, Size;
    if Reserved(kind, lens, bits) && Complete(lens) { Enough(kind, lens, bits); }
    assert Pow2(1) == 2;
  }

  lemma TwoEntries(bits: nat)
    requires bits >= 1
    ensures Pow2(bits) >= 2
  {
  }

  /** Marking index 1 disturbs nothing when the only code is the single bit 0. */
  lemma MarkInvalid(tab: seq<Entry>, tab': seq<Entry>, root: nat, links: map<nat, Sub>, kind: Kind, lens: seq<nat>,
                    min: nat)
    requires Fits(kind, lens) && root == 1 && links == map[] && |tab| >= 2 && tab' == tab[1 := INVALID]
    requires AllDone(tab, root, links, kind, lens) && MaxLen(lens) == 1 && !Complete(lens)
    ensures AllDone(tab', root, links, kind, lens)
  {
    hide ShortDone, SymBits, Plain;
    forall s | 0 <= s < |lens| && lens[s] >= 1 ensures SymDone(tab', root, links, kind, lens, s) {
      assert SymDone(tab, root, links, kind, lens, s);
      SingleBit(lens, s);
      KeepZero(tab, tab', SymBits(lens, s), Plain(kind, s, 1));
    }
  }

  lemma KeepZero(tab: seq<Entry>, tab': seq<Entry>, c: seq<Bit>, e: Entry)
    requires |tab| >= 2 && tab' == tab[1 := INVALID] && c == [0] && ShortDone(tab, 1, map[], c, e)
    ensures ShortDone(tab', 1, map[], c, e)
  {
    OneBit();
    forall v: seq<Bit> | |v| == MAXBITS && c <= v ensures RootIdx(v, 1) < |tab'| && tab'[RootIdx(v, 1)] == e {
      assert v[..1] == c;
      assert tab[RootIdx(v, 1)] == e;
    }
  }

  lemma SingleBit(lens: seq<nat>, s: nat)
    requires Lengths(lens) && NotOver(lens) && !Complete(lens) && MaxLen(lens) == 1 && s < |lens| && lens[s] >= 1
    ensures lens[s] == 1 && SymBits(lens, s) == [0]
  {
    forall m | 1 < m <= MAXBITS ensures Total(lens, m) == 0 { TotalZero(lens, m, |lens|); }
    UsedGap(lens, 2, MAXBITS + 1);
    CellTimes(1);
    OneBit();
    CountMono(lens, 1, s, |lens|);
    var t := Total(lens, 1);
    assert t * Cell(1) < 2 * Cell(1);
    if t >= 2 { MulMono(2, t, Cell(1)); }
    MsbInjective(SymBits(lens, s), [0]);
  }

  // ---------------------------------------------------------------- decoding with the table

  datatype Found = Found(op: nat, val: nat, bits: nat)

  /** The decoder's lookup in its bit accumulator: root entry, then sub-table entry for a link. */
  function Look(tab: seq<Entry>, root: nat, hold: nat): (r: Found)
    requires hold % Pow2(root) < |tab|
  {
    var last := tab[hold % Pow2(root)];
    if last.op != 0 && last.op < 16 then
      var j := last.val + hold % Pow2(last.bits + last.op) / Pow2(last.bits);
      if j < |tab| then Found(tab[j].op, tab[j].val, last.bits + tab[j].bits) else Found(64, 0, 0)
    else Found(last.op, last.val, last.bits)
  }

  /**
   The decoding theorem.  Every string of at least 15 bits starts with the code of exactly one
   symbol of a complete set; looking it up gives that symbol's operation and value, and the bits
   dropped are that symbol's length.
   */
  lemma DecodeTheorem(tab: seq<Entry>, root: nat, links: map<nat, Sub>, kind: Kind, lens: seq<nat>, v: seq<Bit>)
    returns (s: nat)
    requires Fits(kind, lens) && Complete(lens) && AllDone(tab, root, links, kind, lens) && |v| >= MAXBITS
    ensures s < |lens| && lens[s] >= 1 && SymBits(lens, s) <= v
    ensures forall t :: 0 <= t < |lens| && lens[t] >= 1 && SymBits(lens, t) <= v ==> t == s
    ensures Idx(v) % Pow2(root) < |tab|
    ensures Look(tab, root, Idx(v)) == Found(Plain(kind, s, 0).op, Plain(kind, s, 0).val, lens[s])
  {
    s := Covers(lens, v);
    forall t | 0 <= t < |lens| && lens[t] >= 1 && SymBits(lens, t) <= v ensures t == s {
      PrefixFree(lens, s, t, v);
    }
    LookSymbol(tab, root, links, kind, lens, v, s);
  }

  lemma LookSymbol(tab: seq<Entry>, root: nat, links: map<nat, Sub>, kind: Kind, lens: seq<nat>, v: seq<Bit>, s: nat)
    requires Fits(kind, lens) && AllDone(tab, root, links, kind, lens) && |v| >= MAXBITS
    requires s < |lens| && lens[s] >= 1 && SymBits(lens, s) <= v
    ensures Idx(v) % Pow2(root) < |tab|
    ensures Look(tab, root, Idx(v)) == Found(Plain(kind, s, 0).op, Plain(kind, s, 0).val, lens[s])
  {
    hide Idx, Pow2, SymBits, ShortDone, LongDone, Look, LinkEntry;
    var c := SymBits(lens, s);
    assert SymDone(tab, root, links, kind, lens, s);
    if lens[s] <= root {
      LookShort(tab, root, links, c, v, Plain(kind, s, lens[s]));
    } else {
      assert RootIdx(c, root) in links by { LongLinked(tab, root, links, c, Plain(kind, s, lens[s] - root)); }
      LookLong(tab, root, links, c, v, Plain(kind, s, lens[s] - root));
    }
  }

  lemma LongLinked(tab: seq<Entry>, root: nat, links: map<nat, Sub>, c: seq<Bit>, e: Entry)
    requires root <= |c| && LongDone(tab, root, links, c, e)
    ensures RootIdx(c, root) in links
  {
  }

  lemma LookShort(tab: seq<Entry>, root: nat, links: map<nat, Sub>, c: seq<Bit>, v: seq<Bit>, e: Entry)
    requires ShortDone(tab, root, links, c, e) && |c| <= root <= MAXBITS <= |v| && c <= v && (e.op == 0 || e.op >= 16)
    ensures Idx(v) % Pow2(root) < |tab| && Look(tab, root, Idx(v)) == Found(e.op, e.val, e.bits)
  {
    hide Idx, Pow2;
    var w := v[..MAXBITS];
    assert c <= w && w[..root] == v[..root];
    IdxSplit(v, root);
    assert tab[RootIdx(w, root)] == e;
  }

  lemma LongAt(tab: seq<Entry>, root: nat, links: map<nat, Sub>, c: seq<Bit>, v: seq<Bit>, e: Entry) returns (sub: Sub)
    requires root <= |c| <= MAXBITS <= |v| && c <= v && LongDone(tab, root, links, c, e)
    ensures RootIdx(c, root) in links && sub == links[RootIdx(c, root)] && root + sub.bits <= MAXBITS
    ensures SubIdx(v, root, sub) < |tab| && tab[SubIdx(v, root, sub)] == e
  {
    var w, q := v[..MAXBITS], RootIdx(c, root);
    assert |w| == MAXBITS && c <= w;
    assert tab[SubIdx(w, root, links[q])] == e;
    sub := links[q];
    assert w[root..root + sub.bits] == v[root..root + sub.bits];
  }

  lemma LookLong(tab: seq<Entry>, root: nat, links: map<nat, Sub>, c: seq<Bit>, v: seq<Bit>, e: Entry)
    requires root <= |c| <= MAXBITS <= |v| && c <= v && LongDone(tab, root, links, c, e)
    requires RootIdx(c, root) in links && LinkEntry(tab, root, RootIdx(c, root), links[RootIdx(c, root)])
    ensures Idx(v) % Pow2(root) < |tab| && Look(tab, root, Idx(v)) == Found(e.op, e.val, root + e.bits)
  {
    hide Idx, Pow2, LongDone, SubIdx, Look;
    var sub := LongAt(tab, root, links, c, v, e);
    assert c[..root] == v[..root];
    IdxSplit(v, root);
    LookVia(tab, root, v, sub, e);
  }

  /** A lookup that goes through a link. */
  lemma LookVia(tab: seq<Entry>, root: nat, v: seq<Bit>, sub: Sub, e: Entry)
    requires root <= |v| && root + sub.bits <= MAXBITS <= |v| && Idx(v) % Pow2(root) < |tab|
    requires tab[Idx(v) % Pow2(root)] == Entry(sub.bits, root, sub.off) && 1 <= sub.bits
    requires SubIdx(v, root, sub) < |tab| && tab[SubIdx(v, root, sub)] == e
    ensures Look(tab, root, Idx(v)) == Found(e.op, e.val, root + e.bits)
  {
    hide Idx, Pow2;
    HoldSub(v, root, sub.bits);
  }

  /** Bits root..root + k of the accumulator. */
  lemma HoldSub(v: seq<Bit>, root: nat, k: nat)
    requires root + k <= |v|
    ensures Idx(v) % Pow2(root + k) / Pow2(root) == Idx(v[root..root + k])
  {
    hide Idx, Pow2;
    var u := v[..root + k];
    IdxSplit(v, root + k);
    IdxSplit(u, root);
    assert u[root..] == v[root..root + k];
  }
}
