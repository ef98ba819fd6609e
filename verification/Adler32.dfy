/**
 * Adler-32 (section 2.2 of RFC 1950): two sums modulo 65521, computed with
 * the modulo put off for up to NMAX bytes, and combined for concatenations.
 * The build flag noDivide chooses the reductions by shifts and subtractions.
 */
module Adler32 {
  import opened Powers

  type Byte = x: int | 0 <= x < 256

  const BASE: nat := 65521
  const NMAX: nat := 5552
  const WORD: nat := 0x1_0000_0000

  datatype Sums = Sums(a: nat, b: nat)

  const START: Sums := Sums(1, 0)

  predicate Reduced(s: Sums) { s.a < BASE && s.b < BASE }

  /** Both sums fit 16 bits, as the two halves of any checksum word do. */
  predicate Halves(s: Sums) { s.a < 65536 && s.b < 65536 }

  /** The definition: both sums reduced at every byte. */
  function Ref(s: Sums, buf: seq<Byte>): (r: Sums)
    decreases |buf|
  {
    if buf == [] then s
    else
      var r := Ref(s, buf[..|buf| - 1]);
      var a := (r.a + buf[|buf| - 1]) % BASE;
      Sums(a, (r.b + a) % BASE)
  }

  /** The sums without any reduction. */
  function Raw(s: Sums, buf: seq<Byte>): (r: Sums)
    decreases |buf|
  {
    if buf == [] then s
    else
      var r := Raw(s, buf[..|buf| - 1]);
      Sums(r.a + buf[|buf| - 1], r.b + (r.a + buf[|buf| - 1]))
  }

  function Mod(s: Sums): (r: Sums)
    ensures Reduced(r)
  {
    Sums(s.a % BASE, s.b % BASE)
  }

  lemma ModAdd(x: int, y: int)
    ensures (x % BASE + y) % BASE == (x + y) % BASE
    ensures (y + x % BASE) % BASE == (x + y) % BASE
  {
  }

  /** Putting the reduction off to the end gives the same sums, from any start. */
  lemma {:induction false} RawMod(s: Sums, buf: seq<Byte>)
    ensures Mod(Raw(s, buf)) == Ref(Mod(s), buf)
    decreases |buf|
  {
    if buf != [] {
      var init, x := buf[..|buf| - 1], buf[|buf| - 1];
      RawMod(s, init);
      var r := Raw(s, init);
      ModAdd(r.a, x);
      ModAdd(r.a + x, r.b % BASE);
      ModAdd(r.b, r.a + x);
    }
  }

  lemma {:induction false} RefAppend(s: Sums, x: seq<Byte>, y: seq<Byte>)
    ensures Ref(s, x + y) == Ref(Ref(s, x), y)
    decreases |y|
  {
    if y == [] {
      assert x + y == x;
    } else {
      var n := |y| - 1;
      assert (x + y)[..|x| + n] == x + y[..n];
      RefAppend(s, x, y[..n]);
    }
  }

  lemma {:induction false} RefReduced(s: Sums, buf: seq<Byte>)
    requires Reduced(s)
    ensures Reduced(Ref(s, buf))
  {
    if buf != [] { RefReduced(s, buf[..|buf| - 1]); }
  }

  /** How large the sums can get before they are reduced. */
  lemma {:induction false} RawBound(s: Sums, buf: seq<Byte>, m: nat)
    requires s.a <= m && s.b <= m
    ensures var n := |buf|; var r := Raw(s, buf);
      r.a <= m + 255 * n && 2 * r.b <= 2 * ((n + 1) * m) + 255 * (n * (n + 1))
    decreases |buf|
  {
    if buf != [] {
      var k := |buf| - 1;
      RawBound(s, buf[..k], m);
      Triangle(k);
      MulSucc(k + 1, m);
    }
  }

  lemma Triangle(m: nat)
    ensures (m + 1) * (m + 2) == m * (m + 1) + 2 * (m + 1)
  {
  }

  /** NMAX bytes are safe in 32 bits, even from the largest 16-bit halves. */
  lemma NoOverflow(s: Sums, buf: seq<Byte>)
    requires Halves(s) && |buf| <= NMAX
    ensures Raw(s, buf).a < WORD && Raw(s, buf).b < WORD
  {
    RawBound(s, buf, 65535);
    var n := |buf|;
    MulMono(n, NMAX, n + 1);
    MulMono(n + 1, NMAX + 1, NMAX);
    assert n * (n + 1) <= NMAX * (NMAX + 1);
  }

  /** One byte more would not be, even from reduced sums. */
  lemma OneMoreOverflows()
    ensures exists s, buf: seq<Byte> :: Reduced(s) && |buf| == NMAX + 1 && Raw(s, buf).b >= WORD
  {
    var s, buf := Sums(BASE - 1, BASE - 1), seq(NMAX + 1, _ => 255);
    Largest(s, buf);
  }

  lemma {:induction false} Largest(s: Sums, buf: seq<Byte>)
    requires s == Sums(BASE - 1, BASE - 1) && forall i :: 0 <= i < |buf| ==> buf[i] == 255
    ensures var n := |buf|; var r := Raw(s, buf);
      r.a == BASE - 1 + 255 * n && 2 * r.b == 2 * (n + 1) * (BASE - 1) + 255 * (n * (n + 1))
    decreases |buf|
  {
    if buf != [] {
      var m := |buf| - 1;
      Largest(s, buf[..m]);
      Triangle(m);
    }
  }

  /** A short buffer keeps the first sum below twice BASE and the second within 28 bits. */
  lemma ShortBound(s: Sums, buf: seq<Byte>)
    requires Halves(s) && |buf| < 16
    ensures Raw(s, buf).a < 2 * BASE && Raw(s, buf).b < 0x1000_0000
  {
    RawBound(s, buf, 65535);
    var n := |buf|;
    MulMono(n, 15, n + 1);
    MulMono(n + 1, 16, 15);
  }

  // ------------------------------------------------------------------
  // The reductions without division: 65536 is 15, and 2^32 is 225, modulo BASE

  function Chop(a: nat): nat { a % 65536 + (a / 65536 * 16 - a / 65536) }

  lemma ModTimes(x: int, k: int)
    ensures (x + k * BASE) % BASE == x % BASE
  {
    var q, r := x / BASE, x % BASE;
    MulDist(q, k, BASE);
    DivModUnique(x + k * BASE, BASE, q + k, r);
  }

  lemma ChopMod(a: nat)
    ensures Chop(a) % BASE == a % BASE
  {
    ModTimes(Chop(a), a / 65536);
  }

  function Mod28(a: nat): nat {
    var c := Chop(a);
    if c >= BASE then c - BASE else c
  }

  function Mod32(a: nat): nat { Mod28(Chop(a)) }

  function Mod63(a: nat): nat {
    var t := a / WORD;
    var x := a % WORD + (t * 256 - t * 32 + t);
    Mod28(Chop(x))
  }

  lemma OneSubtraction(x: nat)
    requires x < 2 * BASE
    ensures (if x >= BASE then x - BASE else x) == x % BASE
  {
  }

  lemma Mod28Is(a: nat)
    requires a < 0x1000_0000
    ensures Mod28(a) == a % BASE
  {
    ChopMod(a);
    assert a / 65536 < 4096;
    assert Chop(a) < 2 * BASE;
    OneSubtraction(Chop(a));
  }

  /** CHOP twice and one subtraction reduce any 32-bit number. */
  lemma Mod32Is(a: nat)
    requires a < WORD
    ensures Mod32(a) == a % BASE
  {
    ChopMod(a);
    Mod28Is(Chop(a));
  }

  /** And one step more any length. */
  lemma Mod63Is(a: nat)
    requires a < 0x8000_0000_0000_0000
    ensures Mod63(a) == a % BASE
  {
    var t := a / WORD;
    var x := a % WORD + (t * 256 - t * 32 + t);
    assert WORD == 225 + 65551 * BASE;
    assert a == x + (t * 65551) * BASE;
    ModTimes(x, t * 65551);
    ChopMod(x);
    assert Chop(x) < 0x1000_0000;
    Mod28Is(Chop(x));
  }

  // The macros MOD28, MOD and MOD63 of the two builds.

  function Reduce28(noDivide: bool, a: nat): nat { if noDivide then Mod28(a) else a % BASE }

  function Reduce32(noDivide: bool, a: nat): nat { if noDivide then Mod32(a) else a % BASE }

  function Reduce63(noDivide: bool, a: nat): nat { if noDivide then Mod63(a) else a % BASE }

  /** Within its range each macro is the remainder in either build. */
  lemma ReduceIs(noDivide: bool, a: nat)
    ensures a < 0x1000_0000 ==> Reduce28(noDivide, a) == a % BASE
    ensures a < WORD ==> Reduce32(noDivide, a) == a % BASE
    ensures a < 0x8000_0000_0000_0000 ==> Reduce63(noDivide, a) == a % BASE
  {
    hide Mod28, Mod32, Mod63;
    if a < 0x1000_0000 { Mod28Is(a); }
    if a < WORD { Mod32Is(a); }
    if a < 0x8000_0000_0000_0000 { Mod63Is(a); }
  }

  /** Outside it the short macro is not: 2^28 would need a second subtraction. */
  lemma Mod28Fails()
    ensures exists a :: 0x1000_0000 <= a < WORD && Mod28(a) != a % BASE
  {
    var a := 0xffff_ffff;
    assert Chop(a) == 65535 + 15 * 65535;
    assert Mod28(a) != a % BASE;
  }

  // ------------------------------------------------------------------
  // adler32

  function Pack(s: Sums): nat { s.a + 65536 * s.b }

  function Unpack(adler: nat): (s: Sums)
    ensures Halves(s)
  {
    Sums(adler % 65536, adler / 65536 % 65536)
  }

  lemma UnpackPack(s: Sums)
    requires Halves(s)
    ensures Unpack(Pack(s)) == s && Pack(s) < WORD
  {
    DivModUnique(Pack(s), 65536, s.b, s.a);
  }

  lemma PackInjective(s: Sums, t: Sums)
    requires Halves(s) && Halves(t)
    ensures Pack(s) == Pack(t) <==> s == t
  {
    UnpackPack(s);
    UnpackPack(t);
  }

  /** Add bytes without reducing; every intermediate value fits 32 bits. */
  method AddAll(start: Sums, buf: seq<Byte>) returns (adler: nat, sum2: nat)
    requires Halves(start) && |buf| <= NMAX
    ensures Sums(adler, sum2) == Raw(start, buf) && adler < WORD && sum2 < WORD
  {
    adler, sum2 := start.a, start.b;
    for i := 0 to |buf|
      invariant Sums(adler, sum2) == Raw(start, buf[..i])
    {
      assert buf[..i + 1][..i] == buf[..i];
      adler := adler + buf[i];
      sum2 := sum2 + adler;
      NoOverflow(start, buf[..i + 1]);
      assert adler < WORD && sum2 < WORD;
    }
    assert buf[..|buf|] == buf;
    NoOverflow(start, buf);
  }

  datatype Buffer = Null | Bytes(bytes: seq<Byte>)

  /**
   * The condition under which any start value gives the checksum of the reduced start: only
   * the one-byte path, which subtracts BASE at most once from the second sum, can fail.
   */
  predicate Settles(s: Sums, buf: seq<Byte>) {
    |buf| == 1 ==> s.b + (s.a + buf[0]) % BASE < 2 * BASE
  }

  /** Reduced sums always meet it. */
  lemma ReducedSettles(s: Sums, buf: seq<Byte>)
    requires Reduced(s)
    ensures Mod(s) == s && Settles(s, buf)
  {
  }

  /** Any start value at all. */
  method Adler(noDivide: bool, start: nat, buf: Buffer) returns (r: nat)
    ensures r < WORD
    ensures buf.Null? ==> r == 1
    ensures buf.Bytes? ==> (r == Pack(Ref(Mod(Unpack(start)), buf.bytes)) <==> Settles(Unpack(start), buf.bytes))
  {
    hide Ref, Raw, Pack, Unpack;
    if buf.Null? {
      return 1;
    }
    var s := Unpack(start);
    RefReduced(Mod(s), buf.bytes);
    UnpackPack(Ref(Mod(s), buf.bytes));
    if |buf.bytes| == 1 {
      r := One(s, buf.bytes);
    } else if |buf.bytes| < 16 {
      r := Short(noDivide, s, buf.bytes);
    } else {
      r := Long(noDivide, s, buf.bytes);
    }
  }

  /** A single byte: subtraction replaces the modulo. */
  method One(s: Sums, buf: seq<Byte>) returns (r: nat)
    requires Halves(s) && |buf| == 1
    ensures r < WORD && (r == Pack(Ref(Mod(s), buf)) <==> Settles(s, buf))
  {
    hide Ref, Pack;
    var adler := s.a + buf[0];
    OneSubtraction(adler);
    if adler >= BASE {
      adler := adler - BASE;
    }
    var sum2 := s.b + adler;
    if sum2 >= BASE {
      sum2 := sum2 - BASE;
    }
    r := Joined(Sums(adler, sum2));
    UnpackPack(Sums(adler, sum2));
    RefOne(s, buf);
    PackInjective(Sums(adler, sum2), Ref(Mod(s), buf));
  }

  /** Both sums in one word. */
  method Joined(s: Sums) returns (r: nat)
    ensures r == Pack(s)
  {
    r := s.a + 65536 * s.b;
  }

  lemma RefOne(s: Sums, buf: seq<Byte>)
    requires |buf| == 1
    ensures var a := (s.a + buf[0]) % BASE; Ref(Mod(s), buf) == Sums(a, (s.b + a) % BASE)
  {
    assert buf[..0] == [];
    assert Ref(Mod(s), []) == Mod(s);
    ModAdd(s.a, buf[0]);
    ModAdd(s.b, (s.a + buf[0]) % BASE);
  }

  /** Fewer than sixteen bytes: one subtraction reduces the first sum, and MOD28 the second. */
  method Short(noDivide: bool, s: Sums, buf: seq<Byte>) returns (r: nat)
    requires Halves(s) && |buf| < 16
    ensures r == Pack(Ref(Mod(s), buf))
  {
    hide Ref, Raw, Pack, Reduce28;
    var adler, sum2 := AddAll(s, buf);
    ShortBound(s, buf);
    RawMod(s, buf);
    OneSubtraction(adler);
    ReduceIs(noDivide, sum2);
    if adler >= BASE {
      adler := adler - BASE;
    }
    sum2 := Reduce28(noDivide, sum2);
    r := Joined(Sums(adler, sum2));
  }

  /** Blocks of NMAX bytes, then the rest. */
  method Long(noDivide: bool, s: Sums, buf: seq<Byte>) returns (r: nat)
    requires Halves(s) && |buf| > 0
    ensures r == Pack(Ref(Mod(s), buf))
  {
    hide Ref, Raw, Pack;
    var sums, i := s, 0;
    NoBytes(Mod(s));
    while |buf| - i >= NMAX
      invariant 0 <= i <= |buf| && Halves(sums) && Mod(sums) == Ref(Mod(s), buf[..i]) && (i > 0 ==> Reduced(sums))
    {
      sums := Chunk(noDivide, s, sums, buf, i, NMAX);
      i := i + NMAX;
    }
    if i < |buf| {
      sums := Chunk(noDivide, s, sums, buf, i, |buf| - i);
    }
    assert buf[..|buf|] == buf;
    r := Joined(sums);
  }

  method Chunk(noDivide: bool, ghost s: Sums, sums: Sums, buf: seq<Byte>, i: nat, n: nat) returns (r: Sums)
    requires i + n <= |buf| && n <= NMAX && Halves(sums) && Mod(sums) == Ref(Mod(s), buf[..i])
    ensures Reduced(r) && Mod(r) == Ref(Mod(s), buf[..i + n])
  {
    hide Ref, Raw, Reduce32;
    var adler, sum2 := AddAll(sums, buf[i..i + n]);
    RawMod(sums, buf[i..i + n]);
    RefAppend(Mod(s), buf[..i], buf[i..i + n]);
    assert buf[..i] + buf[i..i + n] == buf[..i + n];
    ReduceIs(noDivide, adler);
    ReduceIs(noDivide, sum2);
    r := Sums(Reduce32(noDivide, adler), Reduce32(noDivide, sum2));
  }

  lemma NoBytes(s: Sums)
    ensures Ref(s, []) == s
  {
  }

  /** Halves 65520 and 65535 and one zero byte leave the second sum at 65534. */
  lemma UnreducedStart()
    ensures Halves(Sums(BASE - 1, 65535)) && !Settles(Sums(BASE - 1, 65535), [0])
  {
  }

  // ------------------------------------------------------------------
  // adler32_combine

  /** What the second part adds to sums that start at s rather than at the initial value. */
  lemma {:induction false} RawShift(s: Sums, buf: seq<Byte>)
    ensures Raw(s, buf).a + 1 == s.a + Raw(START, buf).a
    ensures Raw(s, buf).b + |buf| == s.b + Raw(START, buf).b + |buf| * s.a
    decreases |buf|
  {
    if buf != [] {
      var n := |buf| - 1;
      RawShift(s, buf[..n]);
      MulSucc(n, s.a);
    }
  }

  /** adler32_combine_ on the two sums, with its conditional subtractions. */
  function Combine(noDivide: bool, x: Sums, y: Sums, len: nat): (r: Sums)
    requires Reduced(x) && Reduced(y) && len < 0x8000_0000_0000_0000
  {
    ReduceIs(noDivide, len);
    var rem := Reduce63(noDivide, len);
    ProductFits(rem, x.a);
    var sum2 := Reduce32(noDivide, rem * x.a);
    var s1 := x.a + (y.a + BASE - 1);
    var s2 := sum2 + (x.b + y.b + (BASE - rem));
    var s1' := if s1 >= BASE then s1 - BASE else s1;
    var s1'' := if s1' >= BASE then s1' - BASE else s1';
    var s2' := if s2 >= 2 * BASE then s2 - 2 * BASE else s2;
    var s2'' := if s2' >= BASE then s2' - BASE else s2';
    Sums(s1'', s2'')
  }

  /** The product of two reduced numbers fits 32 bits. */
  lemma ProductFits(x: nat, y: nat)
    requires x < BASE && y < BASE
    ensures 0 <= x * y < WORD
  {
    MulMono(x, BASE, y);
    MulMono(y, BASE, BASE);
  }

  /** The subtractions suffice: the combined sums are reduced. */
  lemma CombineMod(noDivide: bool, x: Sums, y: Sums, len: nat)
    requires Reduced(x) && Reduced(y) && len < 0x8000_0000_0000_0000
    ensures Reduced(Combine(noDivide, x, y, len))
    ensures Combine(noDivide, x, y, len).a == (x.a + y.a + BASE - 1) % BASE
    ensures Combine(noDivide, x, y, len).b == (len % BASE * x.a + x.b + y.b + (BASE - len % BASE)) % BASE
  {
    hide Reduce32, Reduce63;
    var rem := len % BASE;
    ReduceIs(noDivide, len);
    ProductFits(rem, x.a);
    ReduceIs(noDivide, rem * x.a);
    var sum2, rest := rem * x.a % BASE, x.b + y.b + (BASE - rem);
    Subtracted(x.a + (y.a + BASE - 1));
    SubtractedTwice(sum2 + rest);
    ModAdd(rem * x.a, rest);
  }

  /** Two conditional subtractions reduce anything below three times BASE. */
  lemma Subtracted(s: nat)
    requires s < 3 * BASE
    ensures var t := if s >= BASE then s - BASE else s; (if t >= BASE then t - BASE else t) == s % BASE
  {
  }

  /** Subtracting twice BASE first, anything below four times it. */
  lemma SubtractedTwice(s: nat)
    requires s < 4 * BASE
    ensures var t := if s >= 2 * BASE then s - 2 * BASE else s; (if t >= BASE then t - BASE else t) == s % BASE
  {
  }

  lemma Congruent(x: int, y: int, k: int)
    requires x == y + k * BASE
    ensures x % BASE == y % BASE
  {
    ModTimes(y, k);
  }

  /** Combining with the sums r of the second part alone gives the sums v that continue from x. */
  lemma CombineStep(noDivide: bool, x: Sums, r: Sums, v: Sums, len: nat)
    requires Reduced(x) && len < 0x8000_0000_0000_0000
    requires v.a + 1 == x.a + r.a && v.b + len == x.b + r.b + len * x.a
    ensures Combine(noDivide, x, Mod(r), len) == Mod(v)
  {
    hide Combine;
    CombineMod(noDivide, x, Mod(r), len);
    FirstSum(x.a, r.a, v.a);
    SecondSum(x, r.b, v.b, len);
  }

  /** The checksum of a concatenation from those of its parts. */
  lemma CombineTheorem(noDivide: bool, s: seq<Byte>, t: seq<Byte>)
    requires |t| < 0x8000_0000_0000_0000
    ensures Reduced(Ref(START, s)) && Reduced(Ref(START, t))
    ensures Combine(noDivide, Ref(START, s), Ref(START, t), |t|) == Ref(START, s + t)
  {
    hide Ref, Raw, Combine;
    var x := Ref(START, s);
    RefReduced(START, s);
    RefReduced(START, t);
    RefAppend(START, s, t);
    RawMod(x, t);
    RawMod(START, t);
    RawShift(x, t);
    CombineStep(noDivide, x, Raw(START, t), Raw(x, t), |t|);
  }

  lemma FirstSum(xa: nat, ra: nat, va: nat)
    requires va + 1 == xa + ra
    ensures (xa + ra % BASE + BASE - 1) % BASE == va % BASE
  {
    var q := ra / BASE;
    Congruent(va, xa + ra % BASE + BASE - 1, q - 1);
  }

  lemma SecondSum(x: Sums, rb: nat, vb: nat, len: nat)
    requires vb + len == x.b + rb + len * x.a
    ensures (len % BASE * x.a + x.b + rb % BASE + (BASE - len % BASE)) % BASE == vb % BASE
  {
    var q, p, rem := rb / BASE, len / BASE, len % BASE;
    assert len * x.a == rem * x.a + (p * x.a) * BASE by {
      assert len == p * BASE + rem;
      MulDist(p * BASE, rem, x.a);
      MulAssoc(x.a, p, BASE);
    }
    MulDist(q + p * x.a, -p - 1, BASE);
    MulDist(q, p * x.a, BASE);
    Congruent(vb, rem * x.a + x.b + rb % BASE + (BASE - rem), q + p * x.a - p - 1);
  }

  /** adler32_combine_ on packed checksums, for every length its argument can hold. */
  method CombineChecksums(noDivide: bool, adler1: nat, adler2: nat, len2: int, ghost s: seq<Byte>, ghost t: seq<Byte>)
    returns (r: nat)
    requires len2 < 0x8000_0000_0000_0000
    requires len2 >= 0 ==> len2 == |t| && adler1 == Pack(Ref(START, s)) && adler2 == Pack(Ref(START, t))
    ensures len2 < 0 ==> r == 0xffff_ffff
    ensures len2 >= 0 ==> r == Pack(Ref(START, s + t))
  {
    if len2 < 0 {
      return 0xffff_ffff;
    }
    hide Ref, Combine;
    RefReduced(START, s);
    RefReduced(START, t);
    UnpackPack(Ref(START, s));
    UnpackPack(Ref(START, t));
    CombineTheorem(noDivide, s, t);
    var c := Combine(noDivide, Unpack(adler1), Unpack(adler2), len2);
    r := c.a + 65536 * c.b;
  }
}
