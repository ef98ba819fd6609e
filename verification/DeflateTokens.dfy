/**
 * A block of literals and matches as bits (section 3.2.5 of RFC 1951):
 * compress_block sends each as Huffman codes with extra bits, inflate's LEN
 * to DISTEXT states read them back.
 */
module DeflateTokens {
  import opened Sequences
  import opened Powers
  import opened BitStrings
  import opened CanonicalCode
  import opened DeflateBits
  import Lz = Lz77
  import T = InflateTable

  const LITERALS: nat := 256
  const END_BLOCK: nat := 256
  const LENGTH_CODES: nat := 29
  const D_CODES: nat := 30
  const FARTHEST: nat := 32768

  const EXTRA_LBITS: seq<nat> :=
    [0, 0, 0, 0, 0, 0, 0, 0, 1, 1, 1, 1, 2, 2, 2, 2, 3, 3, 3, 3, 4, 4, 4, 4, 5, 5, 5, 5, 0]
  const EXTRA_DBITS: seq<nat> :=
    [0, 0, 0, 0, 1, 1, 2, 2, 3, 3, 4, 4, 5, 5, 6, 6, 7, 7, 8, 8, 9, 9, 10, 10, 11, 11, 12, 12, 13, 13]

  // ------------------------------------------------------------------
  // Lengths and distances as a code and extra bits

  datatype Split = Split(code: nat, extra: nat, value: nat)

  /** The split of a length less MIN_MATCH that the decoder's tables put together again. */
  predicate LengthSplit(s: Split, lc: nat)
    ensures LengthSplit(s, lc) ==> s.code < LENGTH_CODES && s.extra <= 5 && s.value < Pow2(s.extra)
  {
    && s.code < LENGTH_CODES && s.extra == EXTRA_LBITS[s.code] && s.value < Pow2(s.extra)
    && T.LBASE[s.code] + s.value == lc + Lz.MIN_MATCH && T.LEXT[s.code] == 16 + s.extra
  }

  predicate DistSplit(s: Split, dist: nat)
    ensures DistSplit(s, dist) ==> s.code < D_CODES && s.extra <= 13 && s.value < Pow2(s.extra)
  {
    && s.code < D_CODES && s.extra == EXTRA_DBITS[s.code] && s.value < Pow2(s.extra)
    && T.DBASE[s.code] + s.value == dist + 1 && T.DEXT[s.code] == 16 + s.extra
  }

  /** The tables that tr_static_init builds. */
  datatype Statics = Statics(lengthCode: seq<nat>, baseLength: seq<nat>, distCode: seq<nat>, baseDist: seq<nat>)

  /** d_code */
  function DCode(st: Statics, dist: nat): nat
    requires |st.distCode| == 512 && dist < FARTHEST
  {
    if dist < 256 then st.distCode[dist] else st.distCode[256 + dist / 128]
  }

  /** How compress_block takes a length apart. */
  function SplitLength(st: Statics, lc: nat): Split
    requires |st.lengthCode| == 256 && |st.baseLength| == LENGTH_CODES && lc < 256
    requires st.lengthCode[lc] < LENGTH_CODES && (EXTRA_LBITS[st.lengthCode[lc]] > 0 ==> st.baseLength[st.lengthCode[lc]] <= lc)
  {
    var code := st.lengthCode[lc];
    var extra := EXTRA_LBITS[code];
    Split(code, extra, if extra != 0 then lc - st.baseLength[code] else 0)
  }

  function SplitDist(st: Statics, dist: nat): Split
    requires |st.distCode| == 512 && |st.baseDist| == D_CODES && dist < FARTHEST
    requires DCode(st, dist) < D_CODES && (EXTRA_DBITS[DCode(st, dist)] > 0 ==> st.baseDist[DCode(st, dist)] <= dist)
  {
    var code := DCode(st, dist);
    var extra := EXTRA_DBITS[code];
    Split(code, extra, if extra != 0 then dist - st.baseDist[code] else 0)
  }

  ghost predicate StaticsOk(st: Statics) {
    && |st.lengthCode| == 256 && |st.baseLength| == LENGTH_CODES && |st.distCode| == 512 && |st.baseDist| == D_CODES
    && (forall lc: nat :: lc < 256 ==> LengthOk(st, lc)) && (forall dist: nat :: dist < FARTHEST ==> DistOk(st, dist))
  }

  predicate LengthOk(st: Statics, lc: nat)
    requires |st.lengthCode| == 256 && |st.baseLength| == LENGTH_CODES && lc < 256
  {
    var code := st.lengthCode[lc];
    && code < LENGTH_CODES && (EXTRA_LBITS[code] > 0 ==> st.baseLength[code] <= lc)
    && LengthSplit(SplitLength(st, lc), lc)
  }

  predicate DistOk(st: Statics, dist: nat)
    requires |st.distCode| == 512 && |st.baseDist| == D_CODES && dist < FARTHEST
  {
    var code := DCode(st, dist);
    && code < D_CODES && (EXTRA_DBITS[code] > 0 ==> st.baseDist[code] <= dist)
    && DistSplit(SplitDist(st, dist), dist)
  }

  /** The decoder's base values are the sums of the encoder's interval sizes. */
  function LengthStart(c: nat): (r: nat)
    requires c <= 28
  {
    if c == 28 then 256 else
      assert T.LBASE[c] >= 3;
      T.LBASE[c] - 3
  }

  lemma LengthBases(c: nat)
    requires c < 28
    ensures LengthStart(0) == 0 && LengthStart(28) == 256
    ensures LengthStart(c) + Pow2(EXTRA_LBITS[c]) == LengthStart(c + 1) <= 256
  {
    hide Pow2;
    SmallPowers();
  }

  lemma LengthExtras()
    ensures T.LBASE[28] == 258 && forall c :: 0 <= c < 29 ==> T.LEXT[c] == 16 + EXTRA_LBITS[c]
  {
  }

  function NearStart(c: nat): nat
    requires c <= 16
  {
    assert T.DBASE[c] >= 1;
    T.DBASE[c] - 1
  }

  lemma DistBases(c: nat)
    requires c < 16
    ensures NearStart(0) == 0 && NearStart(c) + Pow2(EXTRA_DBITS[c]) == NearStart(c + 1) <= 256 == NearStart(16)
    ensures T.DBASE[c] == NearStart(c) + 1
  {
    hide Pow2;
    SmallPowers();
  }

  lemma DistExtras()
    ensures forall c :: 0 <= c < 30 ==> T.DEXT[c] == 16 + EXTRA_DBITS[c]
  {
  }

  lemma SmallPowers()
    ensures Pow2(0) == 1 && Pow2(1) == 2 && Pow2(2) == 4 && Pow2(3) == 8 && Pow2(4) == 16 && Pow2(5) == 32
    ensures Pow2(6) == 64 && Pow2(7) == 128 && Pow2(8) == 256 && Pow2(9) == 512 && Pow2(10) == 1024
    ensures Pow2(11) == 2048 && Pow2(12) == 4096 && Pow2(13) == 8192
  {
  }

  /** Entry x of a code table: it names an interval that contains x. */
  predicate Within(codes: seq<nat>, bases: seq<nat>, extras: seq<nat>, i: nat, x: nat, n: nat)
    requires i < |codes| && n <= |bases| && n <= |extras|
  {
    var c := codes[i];
    c < n && bases[c] <= x < bases[c] + Pow2(extras[c])
  }

  /** The next entries of a code table. */
  method FillCodes(codes: array<nat>, start: nat, count: nat, code: nat) returns (next: nat)
    requires start + count <= codes.Length
    modifies codes
    ensures next == start + count
    ensures forall i :: 0 <= i < codes.Length ==> codes[i] == if start <= i < next then code else old(codes[i])
  {
    next := start;
    for n := 0 to count
      invariant next == start + n
      invariant forall i :: 0 <= i < codes.Length ==> codes[i] == if start <= i < next then code else old(codes[i])
    {
      codes[next] := code;
      next := next + 1;
    }
  }

  /** One more interval, filled in behind the others. */
  lemma NearNext(codes: seq<nat>, codes': seq<nat>, bases: seq<nat>, extras: seq<nat>, code: nat, start: nat, next: nat,
                 after: nat)
    requires after == code + 1 && |codes'| == |codes| && code < |bases| && code < |extras| && start <= next <= |codes|
    requires next == start + Pow2(extras[code])
    requires forall i :: 0 <= i < |codes| ==> codes'[i] == if start <= i < next then code else codes[i]
    requires bases[code] == start && forall x: nat :: x < start ==> Within(codes, bases, extras, x, x, code)
    ensures forall x: nat :: x < next ==> Within(codes', bases, extras, x, x, after)
  {
    hide Pow2;
    forall x: nat | x < next ensures Within(codes', bases, extras, x, x, after) {
      if x < start {
        assert Within(codes, bases, extras, x, x, code);
      }
    }
  }

  /** The same in units of 128. */
  lemma FarNext(codes: seq<nat>, codes': seq<nat>, bases: seq<nat>, extras: seq<nat>, code: nat, start: nat, next: nat)
    requires |codes'| == |codes| == 512 && code < |bases| && code < |extras| && 2 <= start <= next <= 256
    requires 128 * next == 128 * start + Pow2(extras[code])
    requires forall i :: 0 <= i < |codes| ==> codes'[i] == if 256 + start <= i < 256 + next then code else codes[i]
    requires bases[code] == 128 * start
    requires forall x: nat :: 256 <= x < 128 * start ==> Within(codes, bases, extras, 256 + x / 128, x, code)
    ensures forall x: nat :: 256 <= x < 128 * next ==> Within(codes', bases, extras, 256 + x / 128, x, code + 1)
  {
    hide Pow2;
    forall x: nat | 256 <= x < 128 * next ensures Within(codes', bases, extras, 256 + x / 128, x, code + 1) {
      if x < 128 * start {
        assert Within(codes, bases, extras, 256 + x / 128, x, code);
      }
    }
  }

  /** Bases beyond those in use do not matter, nor do entries elsewhere. */
  lemma WithinKept(codes: seq<nat>, codes': seq<nat>, bases: seq<nat>, bases': seq<nat>, extras: seq<nat>, i: nat,
                   x: nat,
                   n: nat, m: nat)
    requires i < |codes| && i < |codes'| && codes'[i] == codes[i]
    requires n <= m && n <= |bases| && m <= |bases'| && m <= |extras|
    requires (forall c :: 0 <= c < n ==> bases'[c] == bases[c]) && Within(codes, bases, extras, i, x, n)
    ensures Within(codes', bases', extras, i, x, m)
  {
  }

  /** The mapping from length to length code; the last length has a code of its own. */
  method InitLengths() returns (lengthCode: array<nat>, baseLength: array<nat>)
    ensures fresh(lengthCode) && fresh(baseLength) && lengthCode.Length == 256 && baseLength.Length == LENGTH_CODES
    ensures forall lc: nat :: lc < 255 ==> Within(lengthCode[..], baseLength[..], EXTRA_LBITS, lc, lc, 28)
    ensures forall c :: 0 <= c < 28 ==> baseLength[c] == LengthStart(c)
    ensures lengthCode[255] == 28
  {
    hide Pow2, Within, LengthStart;
    lengthCode, baseLength := new nat[256](_ => 0), new nat[LENGTH_CODES](_ => 0);
    LengthBases(0);
    var length, code := 0, 0;
    while code < LENGTH_CODES - 1
      invariant 0 <= code <= 28 && length == LengthStart(code) <= 256
      invariant forall c :: 0 <= c < code ==> baseLength[c] == LengthStart(c)
      invariant forall lc: nat :: lc < length ==> Within(lengthCode[..], baseLength[..], EXTRA_LBITS, lc, lc, code)
    {
      LengthBases(code);
      ghost var codes, bases, start := lengthCode[..], baseLength[..], length;
      baseLength[code] := length;
      length := FillCodes(lengthCode, length, Pow2(EXTRA_LBITS[code]), code);
      KeepAll(codes, bases, baseLength[..], EXTRA_LBITS, code, start);
      NearNext(codes, lengthCode[..], baseLength[..], EXTRA_LBITS, code, start, length, code + 1);
      code := code + 1;
    }
    ghost var codes := lengthCode[..];
    lengthCode[length - 1] := code;
    LastLength(codes, lengthCode[..], baseLength[..]);
  }

  lemma LastLength(codes: seq<nat>, codes': seq<nat>, bases: seq<nat>)
    requires |codes| == |codes'| == 256 && codes' == codes[255 := 28] && |bases| == LENGTH_CODES
    requires forall lc: nat :: lc < 256 ==> Within(codes, bases, EXTRA_LBITS, lc, lc, 28)
    ensures forall lc: nat :: lc < 255 ==> Within(codes', bases, EXTRA_LBITS, lc, lc, 28)
  {
    hide Within;
    forall lc: nat | lc < 255 ensures Within(codes', bases, EXTRA_LBITS, lc, lc, 28) {
      WithinKept(codes, codes', bases, bases, EXTRA_LBITS, lc, lc, 28, 28);
    }
  }

  lemma KeepAll(codes: seq<nat>, bases: seq<nat>, bases': seq<nat>, extras: seq<nat>, code: nat, n: nat)
    requires n <= |codes| && code <= |bases| && code <= |bases'| && code <= |extras|
    requires forall c :: 0 <= c < code ==> bases'[c] == bases[c]
    requires forall x: nat :: x < n ==> Within(codes, bases, extras, x, x, code)
    ensures forall x: nat :: x < n ==> Within(codes, bases', extras, x, x, code)
  {
    hide Within;
    forall x: nat | x < n ensures Within(codes, bases', extras, x, x, code) {
      WithinKept(codes, codes, bases, bases', extras, x, x, code, code);
    }
  }

  /** The mapping from distance to distance code, for distances below 256. */
  method InitNear(distCode: array<nat>, baseDist: array<nat>)
    requires distCode != baseDist && distCode.Length == 512 && baseDist.Length == D_CODES
    modifies distCode, baseDist
    ensures forall d: nat :: d < 256 ==> Within(distCode[..], baseDist[..], EXTRA_DBITS, d, d, 16)
    ensures forall c :: 0 <= c < 16 ==> baseDist[c] + 1 == T.DBASE[c]
  {
    hide Pow2, Within, NearStart;
    DistBases(0);
    var dist, code := 0, 0;
    while code < 16
      invariant 0 <= code <= 16 && dist == NearStart(code) <= 256
      invariant forall c :: 0 <= c < code ==> baseDist[c] + 1 == T.DBASE[c]
      invariant forall d: nat :: d < dist ==> Within(distCode[..], baseDist[..], EXTRA_DBITS, d, d, code)
    {
      DistBases(code);
      ghost var codes, bases, start := distCode[..], baseDist[..], dist;
      baseDist[code] := dist;
      dist := FillCodes(distCode, dist, Pow2(EXTRA_DBITS[code]), code);
      KeepAll(codes, bases, baseDist[..], EXTRA_DBITS, code, start);
      NearNext(codes, distCode[..], baseDist[..], EXTRA_DBITS, code, start, dist, code + 1);
      code := code + 1;
    }
  }

  function FarStart(c: nat): nat
    requires 16 <= c <= D_CODES
  {
    if c == D_CODES then FARTHEST / 128 else
      assert T.DBASE[c] >= 1;
      (T.DBASE[c] - 1) / 128
  }

  lemma FarStep(code: nat)
    requires 16 <= code < D_CODES
    ensures EXTRA_DBITS[code] >= 7 && Pow2(EXTRA_DBITS[code]) == 128 * Pow2(EXTRA_DBITS[code] - 7)
    ensures T.DBASE[code] == 128 * FarStart(code) + 1 && FarStart(16) == 2 <= FarStart(code) && FarStart(D_CODES) == 256
    ensures FarStart(code) + Pow2(EXTRA_DBITS[code] - 7) == FarStart(code + 1) <= 256
  {
    hide Pow2;
    SmallPowers();
  }

  /** Farther distances, in units of 128. */
  method InitFar(distCode: array<nat>, baseDist: array<nat>)
    requires distCode != baseDist && distCode.Length == 512 && baseDist.Length == D_CODES
    requires forall d: nat :: d < 256 ==> Within(distCode[..], baseDist[..], EXTRA_DBITS, d, d, 16)
    requires forall c :: 0 <= c < 16 ==> baseDist[c] + 1 == T.DBASE[c]
    modifies distCode, baseDist
    ensures forall d: nat :: d < 256 ==> Within(distCode[..], baseDist[..], EXTRA_DBITS, d, d, D_CODES)
    ensures forall d: nat :: 256 <= d < FARTHEST ==>
      Within(distCode[..], baseDist[..], EXTRA_DBITS, 256 + d / 128, d, D_CODES)
    ensures forall c :: 0 <= c < D_CODES ==> baseDist[c] + 1 == T.DBASE[c]
  {
    hide Pow2, Within, FarStart;
    FarStep(16);
    var dist, code := 256 / 128, 16;
    while code < D_CODES
      invariant 16 <= code <= D_CODES && 2 <= dist == FarStart(code) <= 256
      invariant forall i :: 0 <= i < 256 ==> distCode[i] == old(distCode[i])
      invariant forall c :: 0 <= c < 16 ==> baseDist[c] == old(baseDist[c])
      invariant forall c :: 0 <= c < code ==> baseDist[c] + 1 == T.DBASE[c]
      invariant forall d: nat :: 256 <= d < 128 * dist ==>
        Within(distCode[..], baseDist[..], EXTRA_DBITS, 256 + d / 128, d, code)
    {
      FarStep(code);
      ghost var codes, bases, start := distCode[..], baseDist[..], dist;
      baseDist[code] := dist * 128;
      var next := FillCodes(distCode, 256 + dist, Pow2(EXTRA_DBITS[code] - 7), code);
      dist := next - 256;
      KeepFar(codes, bases, baseDist[..], EXTRA_DBITS, code, start);
      FarNext(codes, distCode[..], baseDist[..], EXTRA_DBITS, code, start, dist);
      code := code + 1;
    }
    forall d: nat | d < 256 ensures Within(distCode[..], baseDist[..], EXTRA_DBITS, d, d, D_CODES) {
      WithinKept(old(distCode[..]), distCode[..], old(baseDist[..]), baseDist[..], EXTRA_DBITS, d, d, 16, D_CODES);
    }
  }

  lemma KeepFar(codes: seq<nat>, bases: seq<nat>, bases': seq<nat>, extras: seq<nat>, code: nat, n: nat)
    requires |codes| == 512 && n <= 256 && code <= |bases| && code <= |bases'| && code <= |extras|
    requires forall c :: 0 <= c < code ==> bases'[c] == bases[c]
    requires forall x: nat :: 256 <= x < 128 * n ==> Within(codes, bases, extras, 256 + x / 128, x, code)
    ensures forall x: nat :: 256 <= x < 128 * n ==> Within(codes, bases', extras, 256 + x / 128, x, code)
  {
    hide Within;
    forall x: nat | 256 <= x < 128 * n ensures Within(codes, bases', extras, 256 + x / 128, x, code) {
      WithinKept(codes, codes, bases, bases', extras, 256 + x / 128, x, code, code);
    }
  }

  /** tr_static_init's tables of codes. */
  method InitStatics() returns (st: Statics)
    ensures StaticsOk(st)
  {
    hide Within, LengthOk, DistOk;
    var lengthCode, baseLength := InitLengths();
    var distCode, baseDist := new nat[512](_ => 0), new nat[D_CODES](_ => 0);
    InitNear(distCode, baseDist);
    InitFar(distCode, baseDist);
    st := Statics(lengthCode[..], baseLength[..], distCode[..], baseDist[..]);
    forall lc: nat | lc < 256 ensures LengthOk(st, lc) {
      LengthIs(st, lc);
    }
    forall dist: nat | dist < FARTHEST ensures DistOk(st, dist) {
      DistIs(st, dist);
    }
  }

  lemma LengthIs(st: Statics, lc: nat)
    requires |st.lengthCode| == 256 && |st.baseLength| == LENGTH_CODES && lc < 256
    requires lc < 255 ==> Within(st.lengthCode, st.baseLength, EXTRA_LBITS, lc, lc, 28)
    requires (forall c :: 0 <= c < 28 ==> st.baseLength[c] == LengthStart(c)) && st.lengthCode[255] == 28
    ensures LengthOk(st, lc)
  {
    hide Pow2;
    LengthExtras();
    SmallPowers();
  }

  lemma DistIs(st: Statics, dist: nat)
    requires |st.distCode| == 512 && |st.baseDist| == D_CODES && dist < FARTHEST
    requires Within(st.distCode, st.baseDist, EXTRA_DBITS, if dist < 256 then dist else 256 + dist / 128, dist, D_CODES)
    requires forall c :: 0 <= c < D_CODES ==> st.baseDist[c] + 1 == T.DBASE[c]
    ensures DistOk(st, dist)
  {
    hide Pow2;
    DistExtras();
    SmallPowers();
  }

  // ------------------------------------------------------------------
  // What is sent

  /** The code lengths of literals and lengths, and of distances. */
  datatype Trees = Trees(lit: seq<nat>, dist: seq<nat>)

  predicate HasCode(lens: seq<nat>, s: nat) {
    s < |lens| && lens[s] >= 1
  }

  ghost predicate TreesOk(tr: Trees)
    ensures TreesOk(tr) ==> Lengths(tr.lit) && NotOver(tr.lit) && Lengths(tr.dist) && NotOver(tr.dist)
    ensures TreesOk(tr) ==> HasCode(tr.lit, END_BLOCK)
  {
    && T.Fits(T.LENS, tr.lit) && Complete(tr.lit) && T.Fits(T.DISTS, tr.dist) && Complete(tr.dist)
    && HasCode(tr.lit, END_BLOCK)
  }

  ghost function LengthOf(st: Statics, length: nat): (r: Split)
    requires StaticsOk(st) && Lz.MIN_MATCH <= length <= Lz.MAX_MATCH
    ensures LengthSplit(r, length - Lz.MIN_MATCH)
  {
    assert LengthOk(st, length - Lz.MIN_MATCH);
    SplitLength(st, length - Lz.MIN_MATCH)
  }

  ghost function DistOf(st: Statics, distance: nat): (r: Split)
    requires StaticsOk(st) && 1 <= distance <= FARTHEST
    ensures DistSplit(r, distance - 1)
  {
    assert DistOk(st, distance - 1);
    SplitDist(st, distance - 1)
  }

  /** A token in range whose symbols have codes. */
  ghost predicate Codable(st: Statics, tr: Trees, t: Lz.Token)
    requires StaticsOk(st)
  {
    match t
    case Literal(b) => HasCode(tr.lit, b as nat)
    case Match(distance, length) =>
      && Lz.MIN_MATCH <= length <= Lz.MAX_MATCH && 1 <= distance <= FARTHEST
      && HasCode(tr.lit, LITERALS + 1 + LengthOf(st, length).code) && HasCode(tr.dist, DistOf(st, distance).code)
  }

  ghost predicate Ready(st: Statics, tr: Trees, toks: seq<Lz.Token>)
    ensures Ready(st, tr, toks) ==> StaticsOk(st) && TreesOk(tr)
  {
    StaticsOk(st) && TreesOk(tr) && forall k :: 0 <= k < |toks| ==> Codable(st, tr, toks[k])
  }

  ghost function ExtraBits(s: Split): (r: seq<Bit>)
    ensures |r| == s.extra
  {
    LowBits(s.value, s.extra)
  }

  /** The distance's part of a match. */
  ghost function DistBits(st: Statics, tr: Trees, t: Lz.Token): seq<Bit>
    requires StaticsOk(st) && TreesOk(tr) && t.Match? && Codable(st, tr, t)
  {
    var d := DistOf(st, t.distance);
    SymBits(tr.dist, d.code) + ExtraBits(d)
  }

  ghost function TokenBits(st: Statics, tr: Trees, t: Lz.Token): seq<Bit>
    requires StaticsOk(st) && TreesOk(tr) && Codable(st, tr, t)
  {
    match t
    case Literal(b) => SymBits(tr.lit, b as nat)
    case Match(_, length) =>
      var l := LengthOf(st, length);
      SymBits(tr.lit, LITERALS + 1 + l.code) + (ExtraBits(l) + DistBits(st, tr, t))
  }

  /** The tokens from k on, then the end of the block. */
  ghost function From(st: Statics, tr: Trees, toks: seq<Lz.Token>, k: nat): seq<Bit>
    requires Ready(st, tr, toks) && k <= |toks|
    decreases |toks| - k
  {
    if k == |toks| then SymBits(tr.lit, END_BLOCK) else TokenBits(st, tr, toks[k]) + From(st, tr, toks, k + 1)
  }

  // ------------------------------------------------------------------
  // Sending

  /** The codes that gen_codes assigns. */
  ghost predicate CodesFor(code: seq<nat>, lens: seq<nat>)
    requires Lengths(lens) && NotOver(lens)
  {
    forall s :: 0 <= s < |lens| && lens[s] >= 1 ==> s < |code| && code[s] == Idx(SymBits(lens, s))
  }

  /** send_code */
  method SendCode(buf: BitBuffer, code: seq<nat>, lens: seq<nat>, s: nat)
    requires buf.Valid() && Lengths(lens) && NotOver(lens) && CodesFor(code, lens) && HasCode(lens, s)
    modifies buf
    ensures buf.Valid() && buf.All() == old(buf.All()) + SymBits(lens, s)
  {
    hide BitBuffer.Valid, BitBuffer.All, Idx, Pow2, SymBits, LowBits;
    SymLength(lens, s);
    var c := SymBits(lens, s);
    IdxBound(c);
    LowBitsIdx(Idx(c), |c|);
    IdxInjective(LowBits(Idx(c), |c|), c);
    buf.SendBits(code[s], lens[s]);
  }

  lemma SymLength(lens: seq<nat>, s: nat)
    requires Lengths(lens) && NotOver(lens) && HasCode(lens, s)
    ensures |SymBits(lens, s)| == lens[s] <= MAXBITS
  {
  }

  /** Extra bits, when there are any. */
  method SendExtra(buf: BitBuffer, s: Split)
    requires buf.Valid() && s.extra <= BUF_SIZE && s.value < Pow2(s.extra)
    modifies buf
    ensures buf.Valid() && buf.All() == old(buf.All()) + ExtraBits(s)
  {
    hide BitBuffer.Valid, BitBuffer.All, Pow2;
    if s.extra != 0 {
      buf.SendBits(s.value, s.extra);
    } else {
      assert buf.All() + [] == buf.All();
    }
  }

  method SendMatch(buf: BitBuffer, st: Statics, tr: Trees, lcode: seq<nat>, dcode: seq<nat>, t: Lz.Token)
    requires buf.Valid() && StaticsOk(st) && TreesOk(tr) && CodesFor(lcode, tr.lit) && CodesFor(dcode, tr.dist)
    requires t.Match? && Codable(st, tr, t)
    modifies buf
    ensures buf.Valid() && buf.All() == old(buf.All()) + TokenBits(st, tr, t)
  {
    hide BitBuffer.Valid, BitBuffer.All, SymBits, ExtraBits, CodesFor, Pow2, TreesOk;
    ghost var start, l, d := buf.All(), LengthOf(st, t.length), DistOf(st, t.distance);
    var lc := t.length - Lz.MIN_MATCH;
    assert LengthOk(st, lc) && DistOk(st, t.distance - 1);
    var ls := SplitLength(st, lc);
    var ds := SplitDist(st, t.distance - 1);
    ExtrasFit(ls.code, ds.code);
    SendCode(buf, lcode, tr.lit, ls.code + LITERALS + 1);
    SendExtra(buf, ls);
    SendCode(buf, dcode, tr.dist, ds.code);
    SendExtra(buf, ds);
    Nested(start, SymBits(tr.lit, LITERALS + 1 + l.code), ExtraBits(l), SymBits(tr.dist, d.code), ExtraBits(d));
  }

  lemma ExtrasFit(l: nat, d: nat)
    requires l < LENGTH_CODES && d < D_CODES
    ensures EXTRA_LBITS[l] <= 5 && EXTRA_DBITS[d] <= 13
  {
  }

  lemma Nested(s: seq<Bit>, a: seq<Bit>, b: seq<Bit>, c: seq<Bit>, d: seq<Bit>)
    ensures s + a + b + c + d == s + (a + (b + (c + d)))
  {
  }

  method SendToken(buf: BitBuffer, st: Statics, tr: Trees, lcode: seq<nat>, dcode: seq<nat>, t: Lz.Token)
    requires buf.Valid() && StaticsOk(st) && TreesOk(tr) && CodesFor(lcode, tr.lit) && CodesFor(dcode, tr.dist)
    requires Codable(st, tr, t)
    modifies buf
    ensures buf.Valid() && buf.All() == old(buf.All()) + TokenBits(st, tr, t)
  {
    hide BitBuffer.Valid, BitBuffer.All, CodesFor, SymBits, StaticsOk, TreesOk;
    match t {
      case Literal(b) => SendCode(buf, lcode, tr.lit, b as nat);
      case Match(_, _) => SendMatch(buf, st, tr, lcode, dcode, t);
    }
  }

  /** compress_block */
  method CompressBlock(buf: BitBuffer, toks: seq<Lz.Token>, st: Statics, tr: Trees, lcode: seq<nat>, dcode: seq<nat>)
    requires buf.Valid() && Ready(st, tr, toks) && CodesFor(lcode, tr.lit) && CodesFor(dcode, tr.dist)
    modifies buf
    ensures buf.Valid() && buf.All() == old(buf.All()) + From(st, tr, toks, 0)
  {
    hide BitBuffer.Valid, BitBuffer.All, CodesFor, TokenBits, SymBits, StaticsOk;
    ghost var start := buf.All();
    var lx := 0;
    while lx < |toks|
      invariant 0 <= lx <= |toks| && buf.Valid()
      invariant buf.All() + From(st, tr, toks, lx) == start + From(st, tr, toks, 0)
    {
      ghost var all := buf.All();
      SendToken(buf, st, tr, lcode, dcode, toks[lx]);
      Assoc(all, TokenBits(st, tr, toks[lx]), From(st, tr, toks, lx + 1));
      lx := lx + 1;
    }
    SendCode(buf, lcode, tr.lit, END_BLOCK);
  }

  // ------------------------------------------------------------------
  // Looking symbols up

  /** inflate_table's table for a complete code. */
  ghost predicate TableOk(tab: seq<T.Entry>, root: nat, links: map<nat, T.Sub>, kind: T.Kind, lens: seq<nat>)
    ensures TableOk(tab, root, links, kind, lens) ==> Lengths(lens) && NotOver(lens) && root <= MAXBITS
    ensures TableOk(tab, root, links, kind, lens) ==> |lens| <= T.MaxSymbols(kind)
  {
    T.Fits(kind, lens) && Complete(lens) && T.AllDone(tab, root, links, kind, lens) && root <= MAXBITS
  }

  /** A table of one level. */
  predicate NoneLonger(lens: seq<nat>, root: nat) {
    forall i :: 0 <= i < |lens| ==> lens[i] <= root
  }

  predicate IsLink(e: T.Entry) { e.op != 0 && e.op < 16 }

  function Meaning(kind: T.Kind, lens: seq<nat>, s: nat): T.Found
    requires |lens| <= T.MaxSymbols(kind) && s < |lens|
  {
    T.Found(T.Plain(kind, s, 0).op, T.Plain(kind, s, 0).val, lens[s])
  }

  /** Zeros beyond the bits at hand. */
  lemma Padded(p: seq<Bit>, n: nat)
    ensures Idx(p + Run(0, n)) == Idx(p)
  {
    hide Idx, Run, Pow2;
    RunValues(n);
    IdxAppend(p, Run(0, n));
  }

  lemma PrefixLonger(c: seq<Bit>, p: seq<Bit>, q: seq<Bit>)
    requires c <= p
    ensures c <= p + q
  {
  }

  lemma PrefixShorter(c: seq<Bit>, p: seq<Bit>, q: seq<Bit>)
    requires c <= p + q && |c| <= |p|
    ensures c <= p
  {
    assert c == (p + q)[..|c|] == p[..|c|];
  }

  /**
   * With p at hand, of a stream that goes on with the code of s: the lookup
   * says s as soon as the bits it wants are there, and before that the code
   * of s is not there in full either.
   */
  lemma LookPartial(tab: seq<T.Entry>, root: nat, links: map<nat, T.Sub>, kind: T.Kind, lens: seq<nat>, p: seq<Bit>,
                    q: seq<Bit>, s: nat)
    requires TableOk(tab, root, links, kind, lens) && HasCode(lens, s) && SymBits(lens, s) <= p + q
    ensures |lens| <= T.MaxSymbols(kind) && Idx(p) % Pow2(root) < |tab|
    ensures var f := T.Look(tab, root, Idx(p));
      && 1 <= f.bits <= MAXBITS
      && (f.bits <= |p| ==> f == Meaning(kind, lens, s))
      && (f.bits > |p| ==> lens[s] > |p|)
    ensures var e := tab[Idx(p) % Pow2(root)];
      (IsLink(e) ==> e.bits == root) && (NoneLonger(lens, root) ==> !IsLink(e))
  {
    hide Idx, Pow2, SymBits, Complete, T.Look, Run, T.AllDone;
    var z := Run(0, MAXBITS);
    var v := p + z;
    Padded(p, MAXBITS);
    var s' := T.DecodeTheorem(tab, root, links, kind, lens, v);
    RootLink(tab, root, links, kind, lens, v, s');
    SymLength(lens, s);
    SymLength(lens, s');
    if lens[s'] <= |p| {
      PrefixShorter(SymBits(lens, s'), p, z);
      SameSymbol(lens, p, q, s, s');
    } else if lens[s] <= |p| {
      PrefixShorter(SymBits(lens, s), p, q);
      PrefixLonger(SymBits(lens, s), p, z);
    }
  }

  lemma SameSymbol(lens: seq<nat>, p: seq<Bit>, q: seq<Bit>, s: nat, s': nat)
    requires Lengths(lens) && NotOver(lens) && HasCode(lens, s) && HasCode(lens, s')
    requires SymBits(lens, s) <= p + q && SymBits(lens, s') <= p
    ensures s == s'
  {
    hide SymBits, Run;
    var z := Run(0, MAXBITS);
    PrefixLonger(SymBits(lens, s'), p, q);
    PrefixLonger(SymBits(lens, s), p + q, z);
    PrefixLonger(SymBits(lens, s'), p + q, z);
    PrefixFree(lens, s, s', (p + q) + z);
  }

  /** A root entry that is a link drops the root bits. */
  lemma RootLink(tab: seq<T.Entry>, root: nat, links: map<nat, T.Sub>, kind: T.Kind, lens: seq<nat>, v: seq<Bit>,
                 s: nat)
    requires TableOk(tab, root, links, kind, lens) && |v| >= MAXBITS && HasCode(lens, s) && SymBits(lens, s) <= v
    ensures Idx(v) % Pow2(root) < |tab|
    ensures var e := tab[Idx(v) % Pow2(root)]; (IsLink(e) ==> e.bits == root) && (lens[s] <= root ==> !IsLink(e))
  {
    hide Idx, Pow2, SymBits, Complete;
    var c, w := SymBits(lens, s), v[..MAXBITS];
    SymLength(lens, s);
    assert T.SymDone(tab, root, links, kind, lens, s);
    IdxSplit(v, root);
    assert c <= w && w[..root] == v[..root];
    if lens[s] <= root {
      assert tab[T.RootIdx(w, root)] == T.Plain(kind, s, lens[s]);
    } else {
      assert c[..root] == v[..root];
      assert T.LinkEntry(tab, root, T.RootIdx(c, root), links[T.RootIdx(c, root)]);
    }
  }

  /** Where a link leads: last.val + (BITS(last.bits + last.op) >> last.bits). */
  function SubIndex(last: T.Entry, hold: nat): nat {
    last.val + Shifted(hold % Pow2(last.bits + last.op), Pow2(last.bits))
  }

  function Shifted(x: nat, p: nat): nat
    requires p > 0
  {
    x / p
  }

  lemma LookSteps(tab: seq<T.Entry>, root: nat, hold: nat)
    requires hold % Pow2(root) < |tab| && T.Look(tab, root, hold).bits >= 1
    ensures var e := tab[hold % Pow2(root)];
      if IsLink(e) then
        var j := SubIndex(e, hold);
        j < |tab| && T.Look(tab, root, hold) == T.Found(tab[j].op, tab[j].val, e.bits + tab[j].bits)
      else T.Look(tab, root, hold) == T.Found(e.op, e.val, e.bits)
  {
    hide Pow2;
  }

  /** The decoder's next table entry, and how many bits it takes in all. */
  method LookUp(acc: Accumulator, tab: seq<T.Entry>, root: nat, ghost links: map<nat, T.Sub>, ghost kind: T.Kind,
                ghost lens: seq<nat>, ghost s: nat, ghost future: seq<Bit>, ghost more: seq<Bit>)
    returns (ok: bool, here: T.Found)
    requires acc.Valid() && acc.bits <= 24 && TableOk(tab, root, links, kind, lens) && HasCode(lens, s)
    requires acc.Ahead() + future == SymBits(lens, s) + more
    modifies acc
    ensures acc.Valid() && acc.bits <= 24 && |lens| <= T.MaxSymbols(kind)
    ensures ok ==> here == Meaning(kind, lens, s) && acc.Ahead() + future == more
    ensures !ok ==> acc.next == [] && |acc.held| < lens[s] && acc.Ahead() == old(acc.Ahead())
  {
    hide Idx, Pow2, SymBits, TableOk, Stream, T.Look, Meaning;
    here := T.Found(0, 0, 0);
    var entry;
    ok, entry := FirstEntry(acc, tab, root, links, kind, lens, s, future, more);
    if !ok {
      return;
    }
    var last := 0;
    if IsLink(entry) {
      last := entry.bits;
      ok, entry := SecondEntry(acc, tab, root, entry, links, kind, lens, s, future, more);
      if !ok {
        return;
      }
    }
    here := T.Found(entry.op, entry.val, last + entry.bits);
    SymLength(lens, s);
    MeaningBits(kind, lens, s);
    DropCode(acc, last, entry.bits, future, SymBits(lens, s), more);
  }

  lemma MeaningBits(kind: T.Kind, lens: seq<nat>, s: nat)
    requires |lens| <= T.MaxSymbols(kind) && s < |lens|
    ensures Meaning(kind, lens, s).bits == lens[s]
  {
  }

  /** DROPBITS for the link and for the entry. */
  method DropCode(acc: Accumulator, last: nat, bits: nat, ghost future: seq<Bit>, ghost c: seq<Bit>,
                  ghost more: seq<Bit>)
    requires acc.Valid() && last + bits == |c| <= acc.bits <= 24 && acc.Ahead() + future == c + more
    modifies acc
    ensures acc.Valid() && acc.bits <= 24 && acc.Ahead() + future == more
  {
    hide Idx, Stream;
    ghost var ahead := acc.Ahead();
    acc.Drop(last);
    acc.Drop(bits);
    assert acc.Ahead() == ahead[|c|..];
    assert (ahead + future)[|c|..] == ahead[|c|..] + future;
    assert (c + more)[|c|..] == more;
  }

  /** What is known of the next symbol once its entry in the root table, or its link, is there. */
  ghost predicate Looked(tab: seq<T.Entry>, root: nat, kind: T.Kind, lens: seq<nat>, held: seq<Bit>, s: nat, e: T.Entry)
  {
    && |lens| <= T.MaxSymbols(kind) && s < |lens| && Idx(held) % Pow2(root) < |tab| && e == tab[Idx(held) % Pow2(root)]
    && e.bits <= |held| && (if IsLink(e) then e.bits == root else Meaning(kind, lens, s) == T.Found(e.op, e.val, e.bits))
  }

  lemma CodeAhead(held: seq<Bit>, next: seq<Bit>, future: seq<Bit>, c: seq<Bit>, more: seq<Bit>)
    requires (held + next) + future == c + more
    ensures c <= held + (next + future)
  {
    Assoc(held, next, future);
  }

  lemma RootKept(held: seq<Bit>, held': seq<Bit>, root: nat)
    requires held <= held' && root <= |held|
    ensures Idx(held') % Pow2(root) == Idx(held) % Pow2(root)
  {
    hide Idx, Pow2;
    IdxSplit(held, root);
    IdxSplit(held', root);
    assert held'[..root] == held[..root];
  }

  lemma FirstLook(tab: seq<T.Entry>, root: nat, links: map<nat, T.Sub>, kind: T.Kind, lens: seq<nat>, held: seq<Bit>,
                  next: seq<Bit>, future: seq<Bit>, s: nat, more: seq<Bit>)
    requires TableOk(tab, root, links, kind, lens) && HasCode(lens, s)
    requires (held + next) + future == SymBits(lens, s) + more
    ensures Idx(held) % Pow2(root) < |tab|
    ensures var e := tab[Idx(held) % Pow2(root)];
      && e.bits <= MAXBITS
      && (e.bits <= |held| ==> Looked(tab, root, kind, lens, held, s, e))
      && (e.bits > |held| ==> |held| < lens[s])
      && (NoneLonger(lens, root) ==> !IsLink(e))
  {
    hide Idx, Pow2, SymBits, TableOk, T.Look, Meaning, SubIndex;
    CodeAhead(held, next, future, SymBits(lens, s), more);
    LookPartial(tab, root, links, kind, lens, held, next + future, s);
    FirstStep(tab, root, Idx(held));
  }

  lemma FirstStep(tab: seq<T.Entry>, root: nat, hold: nat)
    requires hold % Pow2(root) < |tab| && T.Look(tab, root, hold).bits >= 1
    ensures var e, f := tab[hold % Pow2(root)], T.Look(tab, root, hold);
      e.bits <= f.bits && (!IsLink(e) ==> f == T.Found(e.op, e.val, e.bits))
  {
    hide Pow2, T.Look, SubIndex;
    LookSteps(tab, root, hold);
  }

  method FirstEntry(acc: Accumulator, tab: seq<T.Entry>, root: nat, ghost links: map<nat, T.Sub>, ghost kind: T.Kind,
                    ghost lens: seq<nat>, ghost s: nat, ghost future: seq<Bit>, ghost more: seq<Bit>)
    returns (ok: bool, here: T.Entry)
    requires acc.Valid() && acc.bits <= 24 && TableOk(tab, root, links, kind, lens) && HasCode(lens, s)
    requires acc.Ahead() + future == SymBits(lens, s) + more
    modifies acc
    ensures acc.Valid() && acc.bits <= 24 && acc.Ahead() == old(acc.Ahead())
    ensures ok ==> Looked(tab, root, kind, lens, acc.held, s, here) && (NoneLonger(lens, root) ==> !IsLink(here))
    ensures !ok ==> acc.next == [] && |acc.held| < lens[s]
  {
    hide Idx, Pow2, SymBits, TableOk, Stream, Looked, NoneLonger;
    while true
      invariant acc.Valid() && acc.bits <= 24 && acc.Ahead() == old(acc.Ahead())
      decreases |acc.next|
    {
      FirstLook(tab, root, links, kind, lens, acc.held, Stream(acc.next), future, s, more);
      here := tab[acc.hold % Pow2(root)];
      if here.bits <= acc.bits {
        return true, here;
      }
      ok := acc.PullByte();
      if !ok {
        return;
      }
    }
  }

  lemma SecondLook(tab: seq<T.Entry>, root: nat, links: map<nat, T.Sub>, kind: T.Kind, lens: seq<nat>, held: seq<Bit>,
                   next: seq<Bit>, future: seq<Bit>, s: nat, more: seq<Bit>, last: T.Entry)
    requires TableOk(tab, root, links, kind, lens) && HasCode(lens, s)
    requires (held + next) + future == SymBits(lens, s) + more
    requires Idx(held) % Pow2(root) < |tab| && last == tab[Idx(held) % Pow2(root)] && IsLink(last)
    ensures var j := SubIndex(last, Idx(held));
      && j < |tab| && last.bits + tab[j].bits <= MAXBITS
      && (last.bits + tab[j].bits <= |held| ==>
            Meaning(kind, lens, s) == T.Found(tab[j].op, tab[j].val, last.bits + tab[j].bits))
      && (last.bits + tab[j].bits > |held| ==> |held| < lens[s])
  {
    hide Idx, Pow2, SymBits, TableOk, T.Look, Meaning, SubIndex;
    CodeAhead(held, next, future, SymBits(lens, s), more);
    LookPartial(tab, root, links, kind, lens, held, next + future, s);
    LookSteps(tab, root, Idx(held));
  }

  method SecondEntry(acc: Accumulator, tab: seq<T.Entry>, root: nat, last: T.Entry, ghost links: map<nat, T.Sub>,
                     ghost kind: T.Kind, ghost lens: seq<nat>, ghost s: nat, ghost future: seq<Bit>,
                     ghost more: seq<Bit>)
    returns (ok: bool, here: T.Entry)
    requires acc.Valid() && acc.bits <= 24 && TableOk(tab, root, links, kind, lens) && HasCode(lens, s)
    requires acc.Ahead() + future == SymBits(lens, s) + more
    requires Looked(tab, root, kind, lens, acc.held, s, last) && IsLink(last)
    modifies acc
    ensures acc.Valid() && acc.bits <= 24 && acc.Ahead() == old(acc.Ahead())
    ensures ok ==> Meaning(kind, lens, s) == T.Found(here.op, here.val, last.bits + here.bits)
    ensures ok ==> last.bits + here.bits <= acc.bits
    ensures !ok ==> acc.next == [] && |acc.held| < lens[s]
  {
    hide Idx, Pow2, SymBits, TableOk, Stream, Meaning, SubIndex;
    here := last;
    while true
      invariant acc.Valid() && acc.bits <= 24 && acc.Ahead() == old(acc.Ahead()) && acc.bits >= root
      invariant Idx(acc.held) % Pow2(root) == old(Idx(acc.held) % Pow2(root))
      decreases |acc.next|
    {
      SecondLook(tab, root, links, kind, lens, acc.held, Stream(acc.next), future, s, more, last);
      here := tab[SubIndex(last, acc.hold)];
      if last.bits + here.bits <= acc.bits {
        return true, here;
      }
      ghost var before := acc.held;
      ok := acc.PullByte();
      if !ok {
        return;
      }
      RootKept(before, acc.held, root);
    }
  }

  // ------------------------------------------------------------------
  // Receiving

  datatype Mode = LEN | LENEXT | DIST | DISTEXT | TYPE | BAD

  /** Where the operation of a literal or length symbol leads. */
  function AfterOp(op: nat): (m: Mode)
    ensures op == 0 ==> m == LEN
    ensures op == 96 ==> m == TYPE
    ensures 16 <= op < 32 ==> m == LENEXT
  {
    if op == 0 then LEN else if op / 32 % 2 == 1 then TYPE else if op / 64 % 2 == 1 then BAD else LENEXT
  }

  /** Extra bits, once they have all arrived. */
  method TakeExtra(acc: Accumulator, extra: nat, ghost s: Split, ghost future: seq<Bit>, ghost more: seq<Bit>)
    returns (ok: bool, v: nat)
    requires acc.Valid() && acc.bits <= 24 && extra == s.extra <= 13 && s.value < Pow2(s.extra)
    requires acc.Ahead() + future == ExtraBits(s) + more
    modifies acc
    ensures acc.Valid() && acc.bits <= 24
    ensures ok ==> v == s.value && acc.Ahead() + future == more
    ensures !ok ==> acc.next == [] && |acc.held| < extra && acc.Ahead() == old(acc.Ahead())
  {
    hide Idx, Pow2, LowBits, Stream;
    v := 0;
    if extra == 0 {
      assert [] + more == more;
      NoExtra(s);
      return true, 0;
    }
    ok := acc.Need(extra);
    if ok {
      ghost var ahead, c := acc.Ahead(), ExtraBits(s);
      assert (ahead + future)[..extra] == acc.held[..extra] && (c + more)[..extra] == c;
      LowBitsIdx(s.value, s.extra);
      v := acc.Bits(extra);
      acc.Drop(extra);
      assert (ahead + future)[extra..] == ahead[extra..] + future && (c + more)[extra..] == more;
    }
  }

  lemma NoExtra(s: Split)
    requires s.extra == 0 && s.value < Pow2(s.extra)
    ensures s.value == 0 && ExtraBits(s) == []
  {
  }

  /** The symbol a token starts with. */
  ghost function Symbol(st: Statics, t: Lz.Token): nat
    requires StaticsOk(st) && (t.Match? ==> Lz.MIN_MATCH <= t.length <= Lz.MAX_MATCH)
  {
    match t
    case Literal(b) => b as nat
    case Match(_, length) => LITERALS + 1 + LengthOf(st, length).code
  }

  /** What follows it. */
  ghost function AfterSymbol(st: Statics, tr: Trees, t: Lz.Token): seq<Bit>
    requires StaticsOk(st) && TreesOk(tr) && Codable(st, tr, t)
  {
    match t
    case Literal(_) => []
    case Match(_, length) => ExtraBits(LengthOf(st, length)) + DistBits(st, tr, t)
  }

  lemma TokenStarts(st: Statics, tr: Trees, t: Lz.Token)
    requires StaticsOk(st) && TreesOk(tr) && Codable(st, tr, t)
    ensures HasCode(tr.lit, Symbol(st, t))
    ensures TokenBits(st, tr, t) == SymBits(tr.lit, Symbol(st, t)) + AfterSymbol(st, tr, t)
  {
    hide SymBits, ExtraBits, DistBits, StaticsOk, TreesOk;
    if t.Literal? {
      assert SymBits(tr.lit, t.byte as nat) + [] == SymBits(tr.lit, t.byte as nat);
    }
  }

  class TokenReader {
    const acc: Accumulator
    const lencode: seq<T.Entry>
    const lenbits: nat
    const distcode: seq<T.Entry>
    const distbits: nat
    var mode: Mode
    var length: nat
    var offset: nat
    var extra: nat
    // the symbols handed on to be written out
    var out: seq<Lz.Token>
    // the block and how it is coded, what follows it, and the bits that have not arrived
    ghost const lenlinks: map<nat, T.Sub>
    ghost const distlinks: map<nat, T.Sub>
    ghost const st: Statics
    ghost const tr: Trees
    ghost const toks: seq<Lz.Token>
    ghost const tail: seq<Bit>
    ghost var future: seq<Bit>

    ghost predicate Set()
      ensures Set() ==> Ready(st, tr, toks)
    {
      && Ready(st, tr, toks) && TableOk(lencode, lenbits, lenlinks, T.LENS, tr.lit)
      && TableOk(distcode, distbits, distlinks, T.DISTS, tr.dist)
    }

    ghost predicate InMatch()
      reads this`out
      ensures InMatch() ==> Set() && |out| < |toks| && toks[|out|].Match? && Codable(st, tr, toks[|out|])
      ensures InMatch() ==>
        Lz.MIN_MATCH <= toks[|out|].length <= Lz.MAX_MATCH && 1 <= toks[|out|].distance <= FARTHEST
    {
      Set() && |out| < |toks| && toks[|out|].Match?
    }

    /** The bits of the block that are still to be read. */
    ghost function Left(): seq<Bit>
      requires Set() && |out| <= |toks|
      reads this`mode, this`out
    {
      match mode
      case LEN => From(st, tr, toks, |out|)
      case LENEXT => if InMatch() then AfterSymbol(st, tr, toks[|out|]) + From(st, tr, toks, |out| + 1) else []
      case DIST => if InMatch() then DistBits(st, tr, toks[|out|]) + From(st, tr, toks, |out| + 1) else []
      case DISTEXT =>
        if InMatch() then ExtraBits(DistOf(st, toks[|out|].distance)) + From(st, tr, toks, |out| + 1) else []
      case _ => []
    }

    /** Fields in use, mode by mode. */
    ghost predicate InMode()
      requires Set() && |out| <= |toks|
      reads this`mode, this`out, this`length, this`offset, this`extra
    {
      match mode
      case LEN => true
      case LENEXT =>
        InMatch() &&
        var l := LengthOf(st, toks[|out|].length);
        length == LengthBase(l) && extra == l.extra
      case DIST => InMatch() && length == toks[|out|].length
      case DISTEXT =>
        InMatch() && length == toks[|out|].length &&
        var d := DistOf(st, toks[|out|].distance);
        offset == DistBase(d) && extra == d.extra
      case TYPE => out == toks
      case BAD => false
    }

    ghost predicate Valid()
      reads this, acc
    {
      && Set() && acc.Valid() && acc.bits <= 24 && out <= toks && InMode()
      && acc.Ahead() + future == Left() + tail
    }

    /** More of the block is needed than has arrived. */
    ghost predicate Waiting()
      reads this, acc
    {
      acc.next == [] && |future| > |tail|
    }

    constructor (acc: Accumulator, lencode: seq<T.Entry>, lenbits: nat, distcode: seq<T.Entry>, distbits: nat,
                 ghost lenlinks: map<nat, T.Sub>, ghost distlinks: map<nat, T.Sub>, ghost st: Statics,
                 ghost tr: Trees, ghost toks: seq<Lz.Token>, ghost tail: seq<Bit>, ghost future: seq<Bit>)
      requires Ready(st, tr, toks) && TableOk(lencode, lenbits, lenlinks, T.LENS, tr.lit)
      requires TableOk(distcode, distbits, distlinks, T.DISTS, tr.dist)
      requires acc.Valid() && acc.bits <= 24 && acc.Ahead() + future == From(st, tr, toks, 0) + tail
      ensures Valid() && this.acc == acc && out == [] && mode == LEN && this.future == future
      ensures this.toks == toks && this.tail == tail
    {
      hide Ready, TableOk, From, Accumulator.Valid, Accumulator.Ahead;
      this.acc, this.lencode, this.lenbits, this.distcode, this.distbits := acc, lencode, lenbits, distcode, distbits;
      this.lenlinks, this.distlinks, this.st, this.tr, this.toks, this.tail := lenlinks, distlinks, st, tr, toks, tail;
      mode, length, offset, extra, out := LEN, 0, 0, 0, [];
      this.future := future;
    }

    /** The symbol at hand in mode LEN, and the bits that follow it in the block. */
    ghost function NextSymbol(): nat
      requires Set() && |out| <= |toks|
      reads this`out
    {
      if |out| == |toks| then END_BLOCK else
        assert Codable(st, tr, toks[|out|]);
        Symbol(st, toks[|out|])
    }

    ghost function Following(): seq<Bit>
      requires Set() && |out| <= |toks|
      reads this`out
    {
      if |out| == |toks| then [] else
        assert Codable(st, tr, toks[|out|]);
        AfterSymbol(st, tr, toks[|out|]) + From(st, tr, toks, |out| + 1)
    }

    lemma LeftStarts()
      requires Set() && |out| <= |toks| && mode == LEN
      ensures HasCode(tr.lit, NextSymbol()) && Left() + tail == SymBits(tr.lit, NextSymbol()) + (Following() + tail)
    {
      hide SymBits, StaticsOk, AfterSymbol, TokenBits, Symbol, TreesOk, TableOk;
      var c := SymBits(tr.lit, END_BLOCK);
      if |out| == |toks| {
        assert c + ([] + tail) == c + tail;
      } else {
        var t := toks[|out|];
        assert Codable(st, tr, t);
        TokenStarts(st, tr, t);
        Grouped(SymBits(tr.lit, Symbol(st, t)), AfterSymbol(st, tr, t), From(st, tr, toks, |out| + 1), tail);
      }
    }

    /** LEN: a literal, the end of the block, or the base of a length. */
    method ReadLen() returns (ok: bool)
      requires Valid() && mode == LEN
      modifies this`mode, this`length, this`extra, this`out, acc
      ensures Valid() && (!ok ==> Waiting() && mode == LEN && |out| == |old(out)|)
      ensures ok ==> mode in {LEN, LENEXT, TYPE} && |out| == |old(out)| + if mode == LEN then 1 else 0
    {
      hide SymBits, Stream, TableOk, Ready, Left, Meaning, NextSymbol, Following, Idx;
      LeftStarts();
      var here;
      ok, here := LookUp(acc, lencode, lenbits, lenlinks, T.LENS, tr.lit, NextSymbol(), future, Following() + tail);
      if ok {
        TakeSymbol(here);
      } else {
        SymLength(tr.lit, NextSymbol());
      }
    }

    method TakeSymbol(here: T.Found)
      requires Set() && acc.Valid() && acc.bits <= 24 && out <= toks && mode == LEN
      requires |tr.lit| <= T.MaxSymbols(T.LENS) && NextSymbol() < |tr.lit|
      requires here == Meaning(T.LENS, tr.lit, NextSymbol())
      requires acc.Ahead() + future == Following() + tail
      modifies this`mode, this`length, this`extra, this`out
      ensures Valid() && mode in {LEN, LENEXT, TYPE} && |out| == |old(out)| + if mode == LEN then 1 else 0
    {
      hide Set, Accumulator.Valid, Accumulator.Ahead, Following, Meaning;
      hide LengthBase, NextSymbol, Ready, StaticsOk, TreesOk;
      hide Valid, Codable, AfterOp, LengthSplit, DistSplit, Symbol, AfterSymbol;
      SymbolSays(here);
      var next := AfterOp(here.op);
      if next == LEN {
        TakeLiteral(here.val as bv8);
      } else if next == LENEXT {
        BeginMatch(here.val, here.op % 16);
      } else {
        EndBlock(next);
      }
    }

    method TakeLiteral(b: Lz.Byte)
      requires Set() && acc.Valid() && acc.bits <= 24 && out <= toks && mode == LEN && |out| < |toks|
      requires toks[|out|] == Lz.Literal(b) && acc.Ahead() + future == Following() + tail
      modifies this`out
      ensures Valid() && |out| == |old(out)| + 1
    {
      hide Set, Accumulator.Valid, Accumulator.Ahead, From;
      assert [] + From(st, tr, toks, |out| + 1) == From(st, tr, toks, |out| + 1);
      out := out + [Lz.Literal(b)];
    }

    method EndBlock(next: Mode)
      requires Set() && acc.Valid() && acc.bits <= 24 && out <= toks && mode == LEN && |out| == |toks|
      requires acc.Ahead() + future == Following() + tail && next == TYPE
      modifies this`mode
      ensures Valid() && mode == TYPE
    {
      hide Set, Accumulator.Valid, Accumulator.Ahead, From;
      mode := next;
    }

    method BeginMatch(base: nat, extraBits: nat)
      requires Set() && acc.Valid() && acc.bits <= 24 && out <= toks && mode == LEN && |out| < |toks|
      requires toks[|out|].Match? && Codable(st, tr, toks[|out|]) && acc.Ahead() + future == Following() + tail
      requires var l := LengthOf(st, toks[|out|].length); base == LengthBase(l) && extraBits == l.extra
      modifies this`mode, this`length, this`extra
      ensures Valid() && mode == LENEXT
    {
      hide Set, Accumulator.Valid, Accumulator.Ahead, From, LengthBase, AfterSymbol;
      length, extra := base, extraBits;
      mode := LENEXT;
    }

    /** What is to be read in mode LENEXT. */
    lemma AtLenExt()
      requires Set() && out <= toks && InMode() && mode == LENEXT
      ensures InMatch()
      ensures var t := toks[|out|]; var l := LengthOf(st, t.length);
        && length + l.value == t.length && extra == l.extra <= 5 && l.value < Pow2(l.extra)
        && Left() + tail == ExtraBits(l) + ((DistBits(st, tr, t) + From(st, tr, toks, |out| + 1)) + tail)
    {
      hide Set, StaticsOk, TreesOk, DistBits, From, Pow2, LengthBase, LengthSplit, ExtraBits;
      var t := toks[|out|];
      SplitAgain(LengthOf(st, t.length), t.length);
      Grouped(ExtraBits(LengthOf(st, t.length)), DistBits(st, tr, t), From(st, tr, toks, |out| + 1), tail);
    }

    /** LENEXT */
    method ReadLenExt() returns (ok: bool)
      requires Valid() && mode == LENEXT
      modifies this`mode, this`length, acc
      ensures Valid() && (if ok then mode == DIST else mode == LENEXT && Waiting())
    {
      hide Set, InMode, Left, Stream, DistBits, From, Idx, Pow2, LengthSplit, DistSplit, Codable, ExtraBits;
      AtLenExt();
      var v;
      ok, v := TakeExtra(acc, extra, LengthOf(st, toks[|out|].length), future,
                         (DistBits(st, tr, toks[|out|]) + From(st, tr, toks, |out| + 1)) + tail);
      if ok {
        SetLength(v);
      }
    }

    method SetLength(v: nat)
      requires InMatch() && acc.Valid() && acc.bits <= 24 && out <= toks && length + v == toks[|out|].length
      requires acc.Ahead() + future == (DistBits(st, tr, toks[|out|]) + From(st, tr, toks, |out| + 1)) + tail
      modifies this`mode, this`length
      ensures Valid() && mode == DIST
    {
      hide Set, Accumulator.Valid, Accumulator.Ahead, From, DistBits, Codable;
      length := length + v;
      mode := DIST;
    }

    /** What is to be read in mode DIST. */
    lemma AtDist()
      requires Set() && out <= toks && InMode() && mode == DIST
      ensures InMatch()
      ensures var t := toks[|out|]; var d := DistOf(st, t.distance);
        && length == t.length && HasCode(tr.dist, d.code) && DistSplit(d, t.distance - 1)
        && Left() + tail == SymBits(tr.dist, d.code) + ((ExtraBits(d) + From(st, tr, toks, |out| + 1)) + tail)
    {
      hide Set, StaticsOk, TreesOk, From, SymBits, ExtraBits, DistSplit;
      var d := DistOf(st, toks[|out|].distance);
      Grouped(SymBits(tr.dist, d.code), ExtraBits(d), From(st, tr, toks, |out| + 1), tail);
    }

    /** DIST: the base of a distance. */
    method ReadDist() returns (ok: bool)
      requires Valid() && mode == DIST
      modifies this`mode, this`offset, this`extra, acc
      ensures Valid() && (if ok then mode == DISTEXT else mode == DIST && Waiting())
    {
      hide Set, InMode, Left, Stream, From, Idx, SymBits, ExtraBits, Meaning, Codable, DistSplit, LengthSplit;
      hide Ready, StaticsOk, TreesOk, TableOk, Accumulator.Valid, DistBase;
      AtDist();
      ghost var d := DistOf(st, toks[|out|].distance);
      var here;
      SetTables();
      ok, here := LookUp(acc, distcode, distbits, distlinks, T.DISTS, tr.dist, d.code, future,
                         (ExtraBits(d) + From(st, tr, toks, |out| + 1)) + tail);
      if ok {
        DistanceSays(tr.dist, d, toks[|out|].distance - 1);
        BeginDistance(here);
      } else {
        SymLength(tr.dist, d.code);
      }
    }

    lemma SetTables()
      requires Set()
      ensures TableOk(lencode, lenbits, lenlinks, T.LENS, tr.lit)
      ensures TableOk(distcode, distbits, distlinks, T.DISTS, tr.dist)
    {
    }

    method BeginDistance(here: T.Found)
      requires InMatch() && acc.Valid() && acc.bits <= 24 && out <= toks && mode == DIST && length == toks[|out|].length
      requires var d := DistOf(st, toks[|out|].distance);
        && here.op == 16 + d.extra <= 29 && here.val == DistBase(d)
        && acc.Ahead() + future == (ExtraBits(d) + From(st, tr, toks, |out| + 1)) + tail
      modifies this`mode, this`offset, this`extra
      ensures Valid() && mode == DISTEXT
    {
      hide Set, Accumulator.Valid, Accumulator.Ahead, StaticsOk, TreesOk;
      hide From, ExtraBits, DistBase, LengthBase, LengthSplit, DistSplit;
      hide Codable, Ready, DistBits, AfterSymbol;
      mode := if here.op / 64 % 2 == 1 then BAD else DISTEXT;
      offset := here.val;
      extra := here.op % 16;
    }

    /** What is to be read in mode DISTEXT. */
    lemma AtDistExt()
      requires Set() && out <= toks && InMode() && mode == DISTEXT
      ensures InMatch()
      ensures var t := toks[|out|]; var d := DistOf(st, t.distance);
        && length == t.length && offset + d.value == t.distance && extra == d.extra <= 13 && d.value < Pow2(d.extra)
        && Left() + tail == ExtraBits(d) + (From(st, tr, toks, |out| + 1) + tail)
    {
      hide Set, StaticsOk, TreesOk, From, Pow2, DistBase, DistSplit, ExtraBits;
      var d := DistOf(st, toks[|out|].distance);
      DistanceAgain(d, toks[|out|].distance);
      Assoc(ExtraBits(d), From(st, tr, toks, |out| + 1), tail);
    }

    /** DISTEXT, and the match is handed on. */
    method ReadDistExt() returns (ok: bool)
      requires Valid() && mode == DISTEXT
      modifies this`mode, this`offset, this`out, acc
      ensures Valid() && (if ok then mode == LEN && |out| == |old(out)| + 1 else mode == DISTEXT && Waiting() && out == old(out))
    {
      hide Set, InMode, Left, Stream, From, Idx, Pow2, LengthSplit, DistSplit, Codable, ExtraBits;
      AtDistExt();
      var v;
      ok, v := TakeExtra(acc, extra, DistOf(st, toks[|out|].distance), future, From(st, tr, toks, |out| + 1) + tail);
      if ok {
        EndMatch(v);
      }
    }

    method EndMatch(v: nat)
      requires InMatch() && acc.Valid() && acc.bits <= 24 && out <= toks
      requires toks[|out|] == Lz.Match(offset + v, length)
      requires acc.Ahead() + future == From(st, tr, toks, |out| + 1) + tail
      modifies this`mode, this`offset, this`out
      ensures Valid() && mode == LEN && |out| == |old(out)| + 1
    {
      hide Set, Accumulator.Valid, Accumulator.Ahead, From, Codable;
      offset := offset + v;
      out := out + [Lz.Match(offset, length)];
      mode := LEN;
    }

    /** The caller's next piece of input. */
    method Supply(bytes: seq<Byte>)
      requires Valid() && Stream(bytes) <= future
      modifies this`future, acc`next
      ensures Valid() && old(future) == Stream(bytes) + future && mode == old(mode)
    {
      hide Set, InMode, Left, Stream;
      ghost var b := Stream(bytes);
      Assoc(acc.Ahead(), b, future[|b|..]);
      acc.Supply(bytes);
      future := future[|b|..];
    }

    /** inflate's loop over the modes: on until the block ends or the input runs out. */
    method Run()
      requires Valid()
      modifies this`mode, this`length, this`offset, this`extra, this`out, acc
      ensures Valid() && (mode == TYPE || Waiting())
    {
      hide Valid, Waiting;
      OutFits();
      while mode != TYPE
        invariant Valid() && mode != BAD && |out| <= |toks|
        decreases |toks| - |out|, Rank(mode)
      {
        var ok;
        if mode == LEN {
          ok := ReadLen();
        } else if mode == LENEXT {
          ok := ReadLenExt();
        } else if mode == DIST {
          ok := ReadDist();
        } else {
          ok := ReadDistExt();
        }
        OutFits();
        if !ok {
          return;
        }
      }
    }

    /** After the end of the block the reader stands where the block ends. */
    lemma Served(chunks: seq<seq<Byte>>, slack: seq<Bit>)
      requires Valid() && future == Stream(Concat(chunks)) + slack
      ensures acc.Valid() && acc.bits <= 24
      ensures mode == TYPE ==> (acc.Ahead() + Stream(Concat(chunks))) + slack == tail
    {
      hide Set, Stream, Concat, Accumulator.Ahead;
      Assoc(acc.Ahead(), Stream(Concat(chunks)), slack);
      assert [] + tail == tail;
    }

    lemma OutFits()
      requires Valid()
      ensures out <= toks && mode != BAD && (mode == TYPE ==> out == toks)
    {
    }

    lemma SymbolSays(here: T.Found)
      requires Set() && |out| <= |toks|
      requires |tr.lit| <= T.MaxSymbols(T.LENS) && NextSymbol() < |tr.lit|
      requires here == Meaning(T.LENS, tr.lit, NextSymbol())
      ensures |out| == |toks| ==> here.op == 96
      ensures |out| < |toks| && toks[|out|].Literal? ==> here.op == 0 && here.val == toks[|out|].byte as nat
      ensures |out| < |toks| ==> Codable(st, tr, toks[|out|])
      ensures |out| < |toks| && toks[|out|].Match? ==>
        var l := LengthOf(st, toks[|out|].length); here.op == 16 + l.extra <= 21 && here.val == LengthBase(l)
    {
      hide StaticsOk, TreesOk, TableOk, Meaning;
      LiteralOrLength(tr.lit, NextSymbol());
      if |out| < |toks| && toks[|out|].Match? {
        assert Codable(st, tr, toks[|out|]);
        ExtrasFit(LengthOf(st, toks[|out|].length).code, 0);
      }
    }
  }

  lemma Grouped(a: seq<Bit>, b: seq<Bit>, c: seq<Bit>, d: seq<Bit>)
    ensures ((a + b) + c) + d == a + ((b + c) + d)
  {
  }

  function Rank(m: Mode): nat {
    match m
    case LEN => 4
    case LENEXT => 3
    case DIST => 2
    case DISTEXT => 1
    case _ => 0
  }

  lemma SplitAgain(l: Split, length: nat)
    requires length >= Lz.MIN_MATCH && LengthSplit(l, length - Lz.MIN_MATCH)
    ensures LengthBase(l) + l.value == length
  {
  }

  lemma DistanceAgain(d: Split, distance: nat)
    requires distance >= 1 && DistSplit(d, distance - 1)
    ensures DistBase(d) + d.value == distance
  {
  }

  lemma DistanceSays(lens: seq<nat>, d: Split, dist: nat)
    requires |lens| <= T.MaxSymbols(T.DISTS) && d.code < |lens| && DistSplit(d, dist)
    ensures var f := Meaning(T.DISTS, lens, d.code); f.op == 16 + d.extra <= 29 && f.val == DistBase(d)
  {
  }

  function LengthBase(l: Split): nat
    requires l.code < LENGTH_CODES
  {
    T.LBASE[l.code]
  }

  function DistBase(d: Split): nat
    requires d.code < D_CODES
  {
    T.DBASE[d.code]
  }

  /** What the operation of a symbol says. */
  lemma LiteralOrLength(lens: seq<nat>, s: nat)
    requires |lens| <= T.MaxSymbols(T.LENS) && s < |lens|
    ensures var f := Meaning(T.LENS, lens, s);
      && (s < LITERALS ==> f.op == 0 && f.val == s) && (s == END_BLOCK ==> f.op == 96)
      && (s > END_BLOCK && s - LITERALS - 1 < LENGTH_CODES ==>
            f.op == T.LEXT[s - LITERALS - 1] && f.val == T.LBASE[s - LITERALS - 1])
  {
  }

  /**
   * Whatever pieces the bytes arrive in and whatever follows the block, the
   * decoder hands on the tokens of the block and nothing else; once the
   * block is there in full, all of them and its end, with not a bit of what
   * follows used up.
   */
  method Receive(input: Input, lencode: seq<T.Entry>, lenbits: nat, distcode: seq<T.Entry>, distbits: nat,
                 ghost lenlinks: map<nat, T.Sub>, ghost distlinks: map<nat, T.Sub>, ghost st: Statics,
                 ghost tr: Trees, ghost toks: seq<Lz.Token>, ghost tail: seq<Bit>)
    returns (got: seq<Lz.Token>, ended: bool)
    requires Ready(st, tr, toks) && TableOk(lencode, lenbits, lenlinks, T.LENS, tr.lit)
    requires TableOk(distcode, distbits, distlinks, T.DISTS, tr.dist)
    requires input.Valid() && input.Rest() <= From(st, tr, toks, 0) + tail
    modifies input, input.acc
    ensures got <= toks && input.Valid()
    ensures ended ==> got == toks && old(input.Rest()) == From(st, tr, toks, 0) + input.Rest()
    ensures |old(input.Rest())| >= |From(st, tr, toks, 0)| ==> ended
  {
    hide TokenReader.Valid, Ready, TableOk, From, Stream, Concat, Idx;
    ghost var all := From(st, tr, toks, 0) + tail;
    ghost var start, slack := input.Rest(), all[|input.Rest()|..];
    Assoc(input.acc.Ahead(), Stream(Concat(input.chunks)), slack);
    var r := new TokenReader(input.acc, lencode, lenbits, distcode, distbits, lenlinks, distlinks, st, tr, toks, tail,
                             Stream(Concat(input.chunks)) + slack);
    r.Run();
    while r.mode != TYPE && input.chunks != []
      invariant r.Valid() && fresh(r) && r.acc == input.acc && r.toks == toks && r.tail == tail
      invariant r.future == Stream(Concat(input.chunks)) + slack
      invariant r.mode != TYPE ==> r.Waiting()
      decreases |input.chunks|
    {
      var cs := input.chunks;
      NextPiece(cs, slack);
      r.Supply(cs[0]);
      input.chunks := cs[1..];
      CancelFront(Stream(cs[0]), r.future, Stream(Concat(input.chunks)) + slack);
      r.Run();
    }
    r.OutFits();
    r.Served(input.chunks, slack);
    got, ended := r.out, r.mode == TYPE;
    if ended {
      Remainder(start, slack, From(st, tr, toks, 0), input.Rest(), tail);
    } else {
      NoChunks();
      assert |start| + |slack| == |all|;
    }
  }

  lemma NoChunks()
    ensures Stream(Concat([])) == []
  {
  }

  lemma NextPiece(chunks: seq<seq<Byte>>, slack: seq<Bit>)
    requires chunks != []
    ensures Stream(Concat(chunks)) + slack == Stream(chunks[0]) + (Stream(Concat(chunks[1..])) + slack)
  {
    hide Stream, Concat;
    assert chunks == [chunks[0]] + chunks[1..];
    ConcatCons(chunks[0], chunks[1..]);
    StreamAppend(chunks[0], Concat(chunks[1..]));
    Assoc(Stream(chunks[0]), Stream(Concat(chunks[1..])), slack);
  }
}
