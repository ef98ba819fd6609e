/**
 * The codes of a dynamic block: frequencies counted while the tokens are
 * tallied, and trees built for them.
 */
module DeflateBlock {
  import opened Powers
  import opened BitStrings
  import opened CanonicalCode
  import opened DeflateTokens
  import Lz = Lz77
  import T = InflateTable
  import H = BuildTree
  import O = OptimalCode

  const L_CODES: nat := 286

  /** A token as deflate tallies it. */
  predicate InRange(t: Lz.Token) {
    Lz.WellFormed(t) && Lz.Near(t, FARTHEST)
  }

  ghost predicate AllInRange(toks: seq<Lz.Token>) {
    forall k :: 0 <= k < |toks| ==> InRange(toks[k])
  }

  /** How many of the first k tokens start with symbol s. */
  ghost function Starts(st: Statics, toks: seq<Lz.Token>, k: nat, s: nat): nat
    requires StaticsOk(st) && k <= |toks| && AllInRange(toks)
  {
    if k == 0 then 0 else Starts(st, toks, k - 1, s) + if Symbol(st, toks[k - 1]) == s then 1 else 0
  }

  /** How many of them have distance code s. */
  ghost function Distances(st: Statics, toks: seq<Lz.Token>, k: nat, s: nat): nat
    requires StaticsOk(st) && k <= |toks| && AllInRange(toks)
  {
    if k == 0 then 0
    else
      var t := toks[k - 1];
      Distances(st, toks, k - 1, s) + if t.Match? && DistOf(st, t.distance).code == s then 1 else 0
  }

  lemma {:induction false} Occurs(st: Statics, toks: seq<Lz.Token>, k: nat, i: nat)
    requires StaticsOk(st) && i < k <= |toks| && AllInRange(toks)
    ensures Starts(st, toks, k, Symbol(st, toks[i])) > 0
    ensures toks[i].Match? ==> Distances(st, toks, k, DistOf(st, toks[i].distance).code) > 0
  {
    hide StaticsOk, Symbol;
    if i < k - 1 { Occurs(st, toks, k - 1, i); }
  }

  /** The frequencies of the first k tokens; the end of the block counts once. */
  ghost predicate Counted(st: Statics, toks: seq<Lz.Token>, k: nat, lfreq: seq<nat>, dfreq: seq<nat>)
    requires StaticsOk(st) && k <= |toks| && AllInRange(toks)
  {
    && |lfreq| >= L_CODES && |dfreq| >= D_CODES
    && (forall s: nat :: s < L_CODES ==> lfreq[s] == Starts(st, toks, k, s) + if s == END_BLOCK then 1 else 0)
    && forall s: nat :: s < D_CODES ==> dfreq[s] == Distances(st, toks, k, s)
  }

  lemma CountNext(st: Statics, toks: seq<Lz.Token>, k: nat, lfreq: seq<nat>, dfreq: seq<nat>)
    requires StaticsOk(st) && k < |toks| && AllInRange(toks) && Counted(st, toks, k, lfreq, dfreq)
    ensures var t := toks[k]; var s := Symbol(st, t);
      && s < L_CODES
      && var lfreq' := lfreq[s := lfreq[s] + 1];
         if t.Literal? then Counted(st, toks, k + 1, lfreq', dfreq)
         else
           var d := DistOf(st, t.distance).code;
           Counted(st, toks, k + 1, lfreq', dfreq[d := dfreq[d] + 1])
  {
    hide StaticsOk, LengthSplit, DistSplit;
    assert InRange(toks[k]);
  }

  /** _tr_tally's counting, for one token. */
  method TallyToken(st: Statics, t: Lz.Token, lfreq: array<nat>, dfreq: array<nat>, ghost toks: seq<Lz.Token>,
                    ghost k: nat)
    requires StaticsOk(st) && k < |toks| && AllInRange(toks) && t == toks[k] && lfreq != dfreq
    requires Counted(st, toks, k, lfreq[..], dfreq[..])
    modifies lfreq, dfreq
    ensures Counted(st, toks, k + 1, lfreq[..], dfreq[..])
    ensures forall i :: L_CODES <= i < lfreq.Length ==> lfreq[i] == old(lfreq[i])
  {
    hide StaticsOk, LengthSplit, DistSplit, Counted;
    assert InRange(t);
    CountNext(st, toks, k, lfreq[..], dfreq[..]);
    CountedSizes(st, toks, k, lfreq[..], dfreq[..]);
    ghost var l, d0 := lfreq[..], dfreq[..];
    match t {
      case Literal(b) =>
        lfreq[b as nat] := lfreq[b as nat] + 1;
        assert lfreq[..] == l[b as nat := l[b as nat] + 1];
      case Match(distance, length) =>
        StaticsAt(st, length, distance);
        var code := st.lengthCode[length - Lz.MIN_MATCH] + LITERALS + 1;
        var d := DCode(st, distance - 1);
        lfreq[code] := lfreq[code] + 1;
        dfreq[d] := dfreq[d] + 1;
        assert lfreq[..] == l[code := l[code] + 1] && dfreq[..] == d0[d := d0[d] + 1];
    }
  }

  lemma CountedSizes(st: Statics, toks: seq<Lz.Token>, k: nat, lfreq: seq<nat>, dfreq: seq<nat>)
    requires StaticsOk(st) && k <= |toks| && AllInRange(toks) && Counted(st, toks, k, lfreq, dfreq)
    ensures |lfreq| >= L_CODES && |dfreq| >= D_CODES
  {
  }

  lemma StaticsAt(st: Statics, length: nat, distance: nat)
    requires StaticsOk(st) && Lz.MIN_MATCH <= length <= Lz.MAX_MATCH && 1 <= distance <= FARTHEST
    ensures |st.lengthCode| == 256 && |st.distCode| == 512
    ensures st.lengthCode[length - Lz.MIN_MATCH] == LengthOf(st, length).code < LENGTH_CODES
    ensures DCode(st, distance - 1) == DistOf(st, distance).code < D_CODES
  {
    hide LengthSplit, DistSplit;
    assert LengthOk(st, length - Lz.MIN_MATCH) && DistOk(st, distance - 1);
  }

  /** init_block and the tallies of a whole block. */
  method TallyAll(st: Statics, toks: seq<Lz.Token>, lfreq: array<nat>, dfreq: array<nat>)
    requires StaticsOk(st) && AllInRange(toks) && lfreq != dfreq && lfreq.Length >= L_CODES && dfreq.Length >= D_CODES
    requires (forall i :: 0 <= i < lfreq.Length ==> lfreq[i] == 0) && forall i :: 0 <= i < dfreq.Length ==> dfreq[i] == 0
    modifies lfreq, dfreq
    ensures Counted(st, toks, |toks|, lfreq[..], dfreq[..])
  {
    hide StaticsOk, AllInRange;
    lfreq[END_BLOCK] := 1;
    for k := 0 to |toks|
      invariant Counted(st, toks, k, lfreq[..], dfreq[..])
    {
      TallyToken(st, toks[k], lfreq, dfreq, toks, k);
    }
  }

  /** Every token has codes when every symbol that occurs has. */
  lemma AllCodable(st: Statics, tr: Trees, toks: seq<Lz.Token>, lfreq: seq<nat>, dfreq: seq<nat>)
    requires StaticsOk(st) && TreesOk(tr) && AllInRange(toks) && Counted(st, toks, |toks|, lfreq, dfreq)
    requires forall s: nat :: s < L_CODES && lfreq[s] > 0 ==> HasCode(tr.lit, s)
    requires forall s: nat :: s < D_CODES && dfreq[s] > 0 ==> HasCode(tr.dist, s)
    ensures Ready(st, tr, toks)
  {
    hide StaticsOk, TreesOk, LengthSplit, DistSplit, HasCode;
    forall k | 0 <= k < |toks| ensures Codable(st, tr, toks[k]) {
      assert InRange(toks[k]);
      Occurs(st, toks, |toks|, k);
    }
  }

  /** The lengths that build_tree delivers make a complete code. */
  lemma TreesFit(lit: seq<nat>, dist: seq<nat>, lcode: seq<nat>, dcode: seq<nat>)
    requires 0 < |lit| <= L_CODES && 0 < |dist| <= D_CODES && Complete(lit) && Complete(dist)
    requires H.Coded(lcode, lit) && H.Coded(dcode, dist) && HasCode(lit, END_BLOCK)
    ensures TreesOk(Trees(lit, dist)) && CodesFor(lcode, lit) && CodesFor(dcode, dist)
  {
    hide Used, SymBits;
  }

  /** build_tree for one of the two codes. */
  method BuildCode(b: H.Builder, elems: nat) returns (lens: seq<nat>, code: seq<nat>)
    requires b.Apart(elems) && elems <= Pow2(MAXBITS) && forall x :: 0 <= x < b.depth.Length ==> b.depth[x] < 256
    modifies b, b.heap, b.freq, b.depth, b.dl, b.blCount
    ensures 0 < |lens| <= elems && Complete(lens) && H.Coded(code, lens)
    ensures forall s :: 0 <= s < elems && old(b.freq[s]) > 0 ==> HasCode(lens, s)
  {
    hide H.Coded, Complete, O.Optimal, O.Exceeds, H.Occurring, H.Builder.Graded, Pow2;
    var maxCode, c, _ := b.Build(elems, MAXBITS);
    lens, code := b.dl[..maxCode + 1], c[..];
  }

  /** The two trees of a block. */
  method MakeTrees(st: Statics, toks: seq<Lz.Token>) returns (tr: Trees, lcode: seq<nat>, dcode: seq<nat>)
    requires StaticsOk(st) && AllInRange(toks)
    ensures Ready(st, tr, toks) && CodesFor(lcode, tr.lit) && CodesFor(dcode, tr.dist)
    ensures |tr.lit| <= L_CODES && |tr.dist| <= D_CODES
  {
    hide StaticsOk, AllInRange, Counted, H.Coded, TreesOk, Complete;
    var l := new H.Builder(L_CODES);
    var d := new H.Builder(D_CODES);
    TallyAll(st, toks, l.freq, d.freq);
    ghost var lfreq, dfreq := l.freq[..], d.freq[..];
    SmallTrees();
    EndCounted(st, toks, lfreq, dfreq);
    var lit, dist;
    lit, lcode := BuildCode(l, L_CODES);
    dist, dcode := BuildCode(d, D_CODES);
    tr := Trees(lit, dist);
    TreesFit(lit, dist, lcode, dcode);
    AllCodable(st, tr, toks, lfreq, dfreq);
  }

  lemma SmallTrees()
    ensures L_CODES <= Pow2(MAXBITS) && D_CODES <= Pow2(MAXBITS)
  {
    Pow2Space();
  }

  lemma EndCounted(st: Statics, toks: seq<Lz.Token>, lfreq: seq<nat>, dfreq: seq<nat>)
    requires StaticsOk(st) && AllInRange(toks) && Counted(st, toks, |toks|, lfreq, dfreq)
    ensures |lfreq| >= L_CODES && |dfreq| >= D_CODES && lfreq[END_BLOCK] > 0
  {
  }
}
