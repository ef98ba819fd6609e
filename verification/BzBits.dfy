/**
 * bzip2's bit streams: bsW collects bits at the top of a 32-bit word and
 * writes bytes out; GET_BITS shifts bytes in at the bottom and hands bits
 * out, and can stop and go on wherever the input breaks off.
 */
module BzBits {
  import opened Sequences
  import opened Powers
  import opened BitStrings

  type Byte = x: int | 0 <= x < 256

  lemma Pow2Values()
    ensures Pow2(8) == 256 && Pow2(24) == 0x100_0000 && Pow2(32) == 0x1_0000_0000
  {
    assert Pow2(10) == 1024;
    assert Pow2(20) == 0x10_0000;
    assert Pow2(30) == 0x4000_0000;
  }

  /** The bits of a byte, highest first. */
  function ByteBits(b: Byte): (r: seq<Bit>)
    ensures |r| == 8 && Msb(r) == b
  {
    Pow2Values();
    Code(b, 8)
  }

  function Bits(bytes: seq<Byte>): (r: seq<Bit>)
    ensures |r| == 8 * |bytes|
  {
    if bytes == [] then [] else Bits(bytes[..|bytes| - 1]) + ByteBits(bytes[|bytes| - 1])
  }

  lemma BitsSnoc(bytes: seq<Byte>, b: Byte)
    ensures Bits(bytes + [b]) == Bits(bytes) + ByteBits(b)
  {
    assert (bytes + [b])[..|bytes|] == bytes;
  }

  lemma BitsNone()
    ensures Bits([]) == []
  {
  }

  lemma AssocBits(a: seq<Bit>, b: seq<Bit>, c: seq<Bit>)
    ensures (a + b) + c == a + (b + c)
  {
  }

  lemma {:induction false} BitsCons(b: Byte, bytes: seq<Byte>)
    ensures Bits([b] + bytes) == ByteBits(b) + Bits(bytes)
  {
    hide Bits, ByteBits;
    if bytes == [] {
      BitsNone();
      BitsSnoc([], b);
      assert [b] + bytes == [] + [b];
      assert ByteBits(b) + [] == [] + ByteBits(b);
    } else {
      var n := |bytes| - 1;
      BitsCons(b, bytes[..n]);
      assert [b] + bytes == ([b] + bytes[..n]) + [bytes[n]];
      BitsSnoc([b] + bytes[..n], bytes[n]);
      assert bytes == bytes[..n] + [bytes[n]];
      BitsSnoc(bytes[..n], bytes[n]);
      AssocBits(ByteBits(b), Bits(bytes[..n]), ByteBits(bytes[n]));
    }
  }

  lemma {:induction false} BitsAppend(a: seq<Byte>, b: seq<Byte>)
    ensures Bits(a + b) == Bits(a) + Bits(b)
    decreases |b|
  {
    hide Bits, ByteBits;
    if b == [] {
      BitsNone();
      assert a + b == a;
      assert Bits(a) + [] == Bits(a);
    } else {
      var n := |b| - 1;
      BitsAppend(a, b[..n]);
      assert a + b == (a + b[..n]) + [b[n]];
      BitsSnoc(a + b[..n], b[n]);
      assert b == b[..n] + [b[n]];
      BitsSnoc(b[..n], b[n]);
      AssocBits(Bits(a), Bits(b[..n]), ByteBits(b[n]));
    }
  }

  /** Bytes can be told from their bits. */
  lemma {:induction false} BitsInjective(a: seq<Byte>, b: seq<Byte>)
    requires Bits(a) == Bits(b)
    ensures a == b
    decreases |a|
  {
    hide ByteBits;
    assert |a| == |b|;
    if a != [] {
      var n := |a| - 1;
      var x, y := Bits(a[..n]), Bits(b[..n]);
      assert x == Bits(a)[..8 * n] && y == Bits(b)[..8 * n];
      assert ByteBits(a[n]) == Bits(a)[8 * n..] && ByteBits(b[n]) == Bits(b)[8 * n..];
      BitsInjective(a[..n], b[..n]);
      assert a == a[..n] + [a[n]] && b == b[..n] + [b[n]];
    }
  }

  lemma BitsFront(bytes: seq<Byte>, a: seq<Byte>, rest: seq<Bit>)
    requires Bits(bytes) == Bits(a) + rest
    ensures a <= bytes && Bits(bytes[|a|..]) == rest
  {
    hide Bits;
    var n := |a|;
    assert |Bits(bytes)| == 8 * n + |rest|;
    assert bytes == bytes[..n] + bytes[n..];
    BitsAppend(bytes[..n], bytes[n..]);
    assert Bits(bytes)[..8 * n] == Bits(bytes[..n]) == Bits(a);
    assert Bits(bytes)[8 * n..] == Bits(bytes[n..]) == rest;
    BitsInjective(bytes[..n], a);
  }

  /** The number that bytes make, the first one highest. */
  lemma BitsValue(bytes: seq<Byte>, b: Byte)
    ensures Msb(Bits(bytes + [b])) == 256 * Msb(Bits(bytes)) + b
  {
    hide Bits, Msb, Pow2;
    Pow2Values();
    BitsSnoc(bytes, b);
    MsbAppend(Bits(bytes), ByteBits(b));
  }

  // ------------------------------------------------------------------
  // Writing

  /** The word holds p in its top bits and zeros below. */
  ghost predicate HoldsTop(buff: nat, p: seq<Bit>) {
    |p| <= 32 && buff == Msb(p) * Pow2(32 - |p|)
  }

  lemma TopByte(buff: nat, p: seq<Bit>)
    requires HoldsTop(buff, p) && |p| >= 8
    ensures buff / 0x100_0000 < 256 && p[..8] == ByteBits(buff / 0x100_0000)
    ensures HoldsTop(buff * 256 % 0x1_0000_0000, p[8..])
  {
    hide Pow2, Msb;
    Pow2Values();
    var h, r := p[..8], p[8..];
    var k := 32 - |p|;
    assert p == h + r;
    MsbAppend(h, r);
    MsbBound(h);
    MsbBound(r);
    Pow2Add(|r|, k);
    var low := Msb(r) * Pow2(k);
    MulMono(0, Msb(r), Pow2(k));
    MulMono(Msb(r) + 1, Pow2(|r|), Pow2(k));
    MulSucc(Msb(r), Pow2(k));
    Regroup(Msb(h), Pow2(|r|), Msb(r), Pow2(k));
    assert buff == Msb(h) * 0x100_0000 + low && 0 <= low < 0x100_0000;
    DivModUnique(buff, 0x100_0000, Msb(h), low);
    MsbInjective(h, ByteBits(Msb(h)));
    DivModUnique(buff * 256, 0x1_0000_0000, Msb(h), low * 256);
    Pow2Add(8, k);
    Regroup2(Msb(r), Pow2(k));
  }

  lemma Regroup(h: int, pr: int, r: int, pk: int)
    ensures (h * pr + r) * pk == h * (pr * pk) + r * pk
  {
    assert h * (pr * pk) == (h * pr) * pk;
  }

  lemma Regroup2(r: int, pk: int)
    ensures r * pk * 256 == r * (256 * pk)
  {
  }

  lemma TopAppend(buff: nat, p: seq<Bit>, c: seq<Bit>)
    requires HoldsTop(buff, p) && |p| + |c| <= 32
    ensures HoldsTop(buff + Msb(c) * Pow2(32 - |p| - |c|), p + c)
  {
    hide Pow2, Msb;
    var k := 32 - |p| - |c|;
    MsbAppend(p, c);
    Pow2Add(|c|, k);
    Regroup(Msb(p), Pow2(|c|), Msb(c), Pow2(k));
  }

  class BitWriter {
    var bsBuff: nat
    var bsLive: nat
    var zbits: seq<Byte>
    ghost var pending: seq<Bit>

    ghost predicate Valid()
      reads this
    {
      bsLive == |pending| && HoldsTop(bsBuff, pending)
    }

    /** Every bit written so far. */
    ghost function All(): seq<Bit>
      reads this
    {
      Bits(zbits) + pending
    }

    /** BZ2_bsInitWrite */
    constructor ()
      ensures Valid() && All() == [] && zbits == []
    {
      bsBuff, bsLive, zbits, pending := 0, 0, [], [];
    }

    /** bsNEEDW: write out whole bytes. */
    method Need()
      requires Valid()
      modifies this
      ensures Valid() && bsLive < 8 && All() == old(All())
    {
      hide HoldsTop, Bits;
      while bsLive >= 8
        invariant Valid() && All() == old(All())
        decreases bsLive
      {
        PutTop();
      }
    }

    method PutTop()
      requires Valid() && bsLive >= 8
      modifies this
      ensures Valid() && bsLive == old(bsLive) - 8 && All() == old(All())
    {
      hide HoldsTop, Bits;
      TopByte(bsBuff, pending);
      var b: Byte := bsBuff / 0x100_0000;
      BitsSnoc(zbits, b);
      assert Bits(zbits) + pending == (Bits(zbits) + pending[..8]) + pending[8..];
      zbits := zbits + [b];
      bsBuff := bsBuff * 256 % 0x1_0000_0000;
      bsLive := bsLive - 8;
      pending := pending[8..];
    }

    /** bsW: n bits of v; the new bits fall on zeros, so or-ing them in is adding. */
    method Write(n: nat, v: nat)
      requires Valid() && n <= 24 && v < Pow2(n)
      modifies this
      ensures Valid() && All() == old(All()) + Code(v, n)
    {
      hide HoldsTop, Bits, Code, Pow2;
      Need();
      TopAppend(bsBuff, pending, Code(v, n));
      assert (Bits(zbits) + pending) + Code(v, n) == Bits(zbits) + (pending + Code(v, n));
      bsBuff := bsBuff + v * Pow2(32 - bsLive - n);
      bsLive := bsLive + n;
      pending := pending + Code(v, n);
    }

    /** The bytes written so far are taken away, numZ = 0; bits that do not fill a byte stay. */
    method Collect() returns (bytes: seq<Byte>)
      requires Valid()
      modifies this`zbits
      ensures Valid() && old(All()) == Bits(bytes) + All()
    {
      hide HoldsTop, Bits;
      bytes := zbits;
      zbits := [];
      BitsNone();
      assert [] + pending == pending;
    }

    /** bsFinishWrite: the last byte is filled up with zeros. */
    method Finish() returns (ghost fill: nat)
      requires Valid()
      modifies this
      ensures fill < 8 && Bits(zbits) == old(All()) + Run(0, fill)
    {
      hide HoldsTop, Bits, Pow2, Run;
      ghost var all := All();
      fill := 0;
      Need();
      if bsLive > 0 {
        fill := 8 - bsLive;
        RunValues(fill);
        TopAppend(bsBuff, pending, Run(0, fill));
        assert (Bits(zbits) + pending) + Run(0, fill) == Bits(zbits) + (pending + Run(0, fill));
        pending := pending + Run(0, fill);
        bsLive := 8;
        PutTop();
        assert pending == [];
        assert Bits(zbits) + [] == Bits(zbits);
      } else {
        RunNone();
        assert pending == [];
        assert Bits(zbits) + [] == Bits(zbits);
        assert all + [] == all;
      }
    }
  }

  lemma RunNone()
    ensures Run(0, 0) == []
  {
  }

  // ------------------------------------------------------------------
  // Reading

  /** The low bits of the word are p; what is above them does not matter. */
  ghost predicate HoldsLow(buff: nat, p: seq<Bit>) {
    |p| <= 32 && buff % Pow2(|p|) == Msb(p)
  }

  lemma ModMod(x: nat, a: nat, b: nat)
    requires a > 0 && b > 0
    ensures x % (a * b) % a == x % a
  {
    var q, r := x / (a * b), x % (a * b);
    assert x == q * (a * b) + r;
    assert q * (a * b) == (q * b) * a;
    var r' := r % a;
    assert r == r / a * a + r';
    MulDist(q * b, r / a, a);
    DivModUnique(x, a, q * b + r / a, r');
  }

  /** A byte shifted in; the word wraps around at 32 bits. */
  lemma LowAppend(buff: nat, p: seq<Bit>, b: Byte)
    requires HoldsLow(buff, p) && |p| + 8 <= 32
    ensures HoldsLow((buff * 256 + b) % 0x1_0000_0000, p + ByteBits(b))
  {
    hide Pow2, Msb;
    Pow2Values();
    var n := |p| + 8;
    MsbAppend(p, ByteBits(b));
    Pow2Add(|p|, 8);
    Pow2Add(n, 32 - n);
    MsbBound(p);
    AppendMod(buff, Pow2(|p|), Msb(p), b, Pow2(32 - n));
  }

  lemma AppendMod(buff: nat, m: nat, x: nat, b: Byte, k: nat)
    requires m > 0 && k > 0 && buff % m == x
    ensures (buff * 256 + b) % (m * 256 * k) % (m * 256) == x * 256 + b
  {
    var q := buff / m;
    assert buff == q * m + x;
    Shifted(q, m, x, b);
    DivModUnique(buff * 256 + b, m * 256, q, x * 256 + b);
    ModMod(buff * 256 + b, m * 256, k);
  }

  lemma Shifted(q: int, m: int, x: int, b: int)
    ensures (q * m + x) * 256 + b == q * (m * 256) + (x * 256 + b)
  {
  }

  /** The n oldest of the bits, extracted by a shift and a mask. */
  lemma LowTake(buff: nat, p: seq<Bit>, n: nat)
    requires HoldsLow(buff, p) && n <= |p|
    ensures buff / Pow2(|p| - n) % Pow2(n) == Msb(p[..n]) && HoldsLow(buff, p[n..])
  {
    hide Pow2, Msb;
    var h, r := p[..n], p[n..];
    var a, c := Pow2(|r|), Pow2(n);
    assert p == h + r;
    MsbAppend(h, r);
    MsbBound(h);
    MsbBound(r);
    Pow2Add(|r|, n);
    var q := buff / (a * c);
    assert buff == q * (a * c) + buff % (a * c);
    assert buff % (a * c) == Msb(h) * a + Msb(r);
    Regroup3(q, a, c, Msb(h), Msb(r));
    DivModUnique(buff, a, q * c + Msb(h), Msb(r));
    DivModUnique(q * c + Msb(h), c, q, Msb(h));
  }

  lemma Regroup3(q: int, a: int, c: int, h: int, r: int)
    ensures q * (a * c) + (h * a + r) == (q * c + h) * a + r
  {
    assert q * (a * c) == (q * c) * a;
    MulDist(q * c, h, a);
  }

  class BitReader {
    var bsBuff: nat
    var bsLive: nat
    var nextIn: seq<Byte>
    ghost var pending: seq<Bit>

    ghost predicate Valid()
      reads this
    {
      bsLive == |pending| && HoldsLow(bsBuff, pending)
    }

    /** The bits at hand: those in the word, then the input. */
    ghost function Ahead(): seq<Bit>
      reads this
    {
      pending + Bits(nextIn)
    }

    constructor ()
      ensures Valid() && Ahead() == [] && nextIn == []
    {
      bsBuff, bsLive, nextIn, pending := 0, 0, [], [];
    }

    method Supply(bytes: seq<Byte>)
      requires Valid()
      modifies this`nextIn
      ensures Valid() && Ahead() == old(Ahead()) + Bits(bytes)
    {
      hide HoldsLow, Bits;
      BitsAppend(nextIn, bytes);
      assert pending + (Bits(nextIn) + Bits(bytes)) == (pending + Bits(nextIn)) + Bits(bytes);
      nextIn := nextIn + bytes;
    }

    method Refill()
      requires Valid() && nextIn != [] && bsLive <= 24
      modifies this
      ensures Valid() && Ahead() == old(Ahead()) && |nextIn| == |old(nextIn)| - 1 && bsLive == old(bsLive) + 8
    {
      hide HoldsLow, Bits, ByteBits;
      var b := nextIn[0];
      LowAppend(bsBuff, pending, b);
      BitsCons(b, nextIn[1..]);
      assert nextIn == [b] + nextIn[1..];
      assert pending + (ByteBits(b) + Bits(nextIn[1..])) == (pending + ByteBits(b)) + Bits(nextIn[1..]);
      bsBuff := (bsBuff * 256 + b) % 0x1_0000_0000;
      bsLive := bsLive + 8;
      nextIn := nextIn[1..];
      pending := pending + ByteBits(b);
    }

    /** GET_BITS: the next n bits, or false when the input runs out first. */
    method GetBits(n: nat) returns (ok: bool, v: nat)
      requires Valid() && n <= 25
      modifies this
      ensures Valid()
      ensures ok <==> n <= |old(Ahead())|
      ensures ok ==> v == Msb(old(Ahead())[..n]) && Ahead() == old(Ahead())[n..]
      ensures !ok ==> Ahead() == old(Ahead()) && nextIn == []
    {
      hide HoldsLow, Bits, Pow2, Msb;
      while bsLive < n
        invariant Valid() && Ahead() == old(Ahead())
        decreases |nextIn|
      {
        if nextIn == [] {
          BitsNone();
          return false, 0;
        }
        Refill();
      }
      LowTake(bsBuff, pending, n);
      assert Ahead()[..n] == pending[..n];
      assert Ahead()[n..] == pending[n..] + Bits(nextIn);
      v := bsBuff / Pow2(bsLive - n) % Pow2(n);
      bsLive := bsLive - n;
      pending := pending[n..];
      ok := true;
    }
  }

  // ------------------------------------------------------------------
  // Input that arrives in pieces

  lemma TakeFront(a: seq<Bit>, b: seq<Bit>, n: nat)
    ensures n <= |a| ==> (a + b)[..n] == a[..n] && (a + b)[n..] == a[n..] + b
  {
  }

  /**
   * A reader and the pieces its input arrives in.  Where a piece ends the
   * decoder returns to its caller and, called again, goes on at the same
   * place with the next one.
   */
  class Source {
    const reader: BitReader
    var chunks: seq<seq<Byte>>

    ghost predicate Valid()
      reads this, reader
    {
      reader.Valid()
    }

    /** All the bits still to come. */
    ghost function Rest(): seq<Bit>
      reads this, reader
    {
      reader.Ahead() + Bits(Concat(chunks))
    }

    constructor (chunks: seq<seq<Byte>>)
      ensures Valid() && fresh(reader) && Rest() == Bits(Concat(chunks))
    {
      reader := new BitReader();
      this.chunks := chunks;
      new;
      assert [] + Bits(Concat(chunks)) == Bits(Concat(chunks));
    }

    /** The next piece arrives. */
    method Arrive()
      requires Valid() && chunks != []
      modifies this, reader
      ensures Valid() && Rest() == old(Rest()) && |chunks| == |old(chunks)| - 1
      ensures reader.Ahead() == old(reader.Ahead()) + Bits(old(chunks)[0]) && chunks == old(chunks)[1..]
    {
      hide HoldsLow, Bits, Concat;
      var c, cs := chunks[0], chunks[1..];
      ConcatCons(c, cs);
      assert chunks == [c] + cs;
      BitsAppend(c, Concat(cs));
      AssocBits(reader.Ahead(), Bits(c), Bits(Concat(cs)));
      reader.Supply(c);
      chunks := cs;
    }

    /** GET_BITS, returning and being called again until the bits are there; false if they never are. */
    method Pull(n: nat) returns (ok: bool, v: nat)
      requires Valid() && n <= 25
      modifies this, reader
      ensures Valid()
      ensures ok <==> n <= |old(Rest())|
      ensures ok ==> v == Msb(old(Rest())[..n]) && Rest() == old(Rest())[n..]
      ensures !ok ==> Rest() == old(Rest())
    {
      hide HoldsLow, Bits, Msb, Concat;
      ghost var all := Rest();
      TakeFront(reader.Ahead(), Bits(Concat(chunks)), n);
      ok, v := reader.GetBits(n);
      while !ok && chunks != []
        invariant Valid() && (!ok ==> Rest() == all && |reader.Ahead()| < n)
        invariant ok ==> n <= |all| && v == Msb(all[..n]) && Rest() == all[n..]
        decreases |chunks|, !ok
      {
        Arrive();
        TakeFront(reader.Ahead(), Bits(Concat(chunks)), n);
        ok, v := reader.GetBits(n);
      }
      if !ok {
        NoMore();
      }
    }

    lemma NoMore()
      requires chunks == []
      ensures |Rest()| == |reader.Ahead()|
    {
    }

    /** The next n bits when the stream goes on with the n-bit number v. */
    method Get(n: nat, ghost v: nat, ghost more: seq<Bit>) returns (ok: bool, r: nat)
      requires Valid() && n <= 25 && v < Pow2(n) && Rest() == Code(v, n) + more
      modifies this, reader
      ensures Valid() && ok && r == v && Rest() == more
    {
      hide Bits, Msb, Code, Pow2, Concat;
      assert (Code(v, n) + more)[..n] == Code(v, n) && (Code(v, n) + more)[n..] == more;
      ok, r := Pull(n);
    }

    /** GET_BIT */
    method GetBit(ghost b: Bit, ghost more: seq<Bit>) returns (ok: bool, r: nat)
      requires Valid() && Rest() == [b] + more
      modifies this, reader
      ensures Valid() && ok && r == b && Rest() == more
    {
      hide Bits, Concat;
      OneBit();
      assert Code(b, 1) == [b];
      ok, r := Get(1, b, more);
    }
  }
}
