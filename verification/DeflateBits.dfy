/**
 * DEFLATE's bit streams, lowest bit first: send_bits (trees.c) collects
 * bits in a 16-bit buffer, inflate's accumulator takes bytes in above the
 * bits that are left and gives bits out from below.
 */
module DeflateBits {
  import opened Sequences
  import opened Powers
  import opened BitStrings

  type Byte = x: int | 0 <= x < 256

  const BUF_SIZE: nat := 16

  lemma Pow2Values()
    ensures Pow2(8) == 256 && Pow2(16) == 0x1_0000 && Pow2(32) == 0x1_0000_0000
  {
    assert Pow2(10) == 1024;
    assert Pow2(20) == 0x10_0000;
    assert Pow2(30) == 0x4000_0000;
  }

  /** The bits of a byte sequence. */
  function Stream(bytes: seq<Byte>): (r: seq<Bit>)
    ensures |r| == 8 * |bytes|
  {
    if bytes == [] then [] else Stream(bytes[..|bytes| - 1]) + LowBits(bytes[|bytes| - 1], 8)
  }

  lemma StreamSnoc(bytes: seq<Byte>, b: Byte)
    ensures Stream(bytes + [b]) == Stream(bytes) + LowBits(b, 8)
  {
    assert (bytes + [b])[..|bytes|] == bytes;
  }

  lemma {:induction false} StreamAppend(a: seq<Byte>, b: seq<Byte>)
    ensures Stream(a + b) == Stream(a) + Stream(b)
    decreases |b|
  {
    hide LowBits;
    if b == [] {
      assert a + b == a;
      assert Stream(a) + [] == Stream(a);
    } else {
      var n := |b| - 1;
      StreamAppend(a, b[..n]);
      assert a + b == (a + b[..n]) + [b[n]];
      StreamSnoc(a + b[..n], b[n]);
      Assoc(Stream(a), Stream(b[..n]), LowBits(b[n], 8));
    }
  }

  lemma Assoc(a: seq<Bit>, b: seq<Bit>, c: seq<Bit>)
    ensures (a + b) + c == a + (b + c)
  {
  }

  lemma StreamOne(b: Byte)
    ensures Stream([b]) == LowBits(b, 8)
  {
    assert [] + [b] == [b];
    StreamSnoc([], b);
    assert [] + LowBits(b, 8) == LowBits(b, 8);
  }

  // ------------------------------------------------------------------
  // Writing

  /** A 16-bit word as its two bytes. */
  lemma ShortBits(w: nat, s: seq<Bit>)
    requires |s| == BUF_SIZE && w == Idx(s)
    ensures w < 0x1_0000 && Stream([w % 256, w / 256]) == s
  {
    hide Idx, Pow2, LowBits, Stream;
    Pow2Values();
    IdxBound(s);
    IdxSplit(s, 8);
    var lo: Byte, hi: Byte := w % 256, w / 256;
    LowBitsIdx(lo, 8);
    LowBitsIdx(hi, 8);
    IdxInjective(LowBits(lo, 8), s[..8]);
    IdxInjective(LowBits(hi, 8), s[8..]);
    assert [lo] + [hi] == [lo, hi];
    StreamSnoc([lo], hi);
    StreamOne(lo);
    assert s == s[..8] + s[8..];
  }

  /** A value shifted up and cut off at 16 bits. */
  lemma ShiftCut(v: nat, n: nat)
    requires n <= BUF_SIZE
    ensures v * Pow2(n) % 0x1_0000 == v % Pow2(BUF_SIZE - n) * Pow2(n)
  {
    hide Pow2;
    Pow2Values();
    Pow2Add(BUF_SIZE - n, n);
    var m, p := Pow2(BUF_SIZE - n), Pow2(n);
    var q, r := v / m, v % m;
    assert v == q * m + r;
    MulDist(q * m, r, p);
    assert (q * m) * p == q * (m * p);
    MulMono(r + 1, m, p);
    MulSucc(r, p);
    MulMono(0, r, p);
    DivModUnique(v * p, 0x1_0000, q, r * p);
  }

  /** The bits that fill the buffer, and those that are left for the next one. */
  lemma SplitValue(held: seq<Bit>, v: nat, length: nat)
    requires |held| <= BUF_SIZE < |held| + length && length <= BUF_SIZE && v < Pow2(length)
    ensures var t := held + LowBits(v, length); var n := BUF_SIZE - |held|;
      && Idx(t[..BUF_SIZE]) == Idx(held) + v * Pow2(|held|) % 0x1_0000
      && Idx(t[BUF_SIZE..]) == v / Pow2(n)
  {
    hide Idx, Pow2, LowBits;
    var b, n := LowBits(v, length), BUF_SIZE - |held|;
    LowBitsIdx(v, length);
    IdxSplit(b, n);
    assert (held + b)[..BUF_SIZE] == held + b[..n] && (held + b)[BUF_SIZE..] == b[n..];
    IdxAppend(held, b[..n]);
    ShiftCut(v, |held|);
  }

  lemma AddValue(held: seq<Bit>, v: nat, length: nat)
    requires |held| + length <= BUF_SIZE && v < Pow2(length)
    ensures Idx(held + LowBits(v, length)) == Idx(held) + v * Pow2(|held|) % 0x1_0000
  {
    hide Idx, Pow2, LowBits;
    LowBitsIdx(v, length);
    IdxAppend(held, LowBits(v, length));
    ShiftCut(v, |held|);
    Pow2Mono(length, BUF_SIZE - |held|);
    DivModUnique(v, Pow2(BUF_SIZE - |held|), 0, v);
  }

  class BitBuffer {
    var biBuf: nat
    var biValid: nat
    var pending: seq<Byte>
    ghost var held: seq<Bit>

    ghost predicate Valid()
      reads this
    {
      biValid == |held| <= BUF_SIZE && biBuf == Idx(held)
    }

    /** Every bit sent so far. */
    ghost function All(): seq<Bit>
      reads this
    {
      Stream(pending) + held
    }

    constructor ()
      ensures Valid() && All() == [] && pending == []
    {
      biBuf, biValid, pending, held := 0, 0, [], [];
    }

    /** put_short */
    method PutShort(w: nat, ghost s: seq<Bit>)
      requires |s| == BUF_SIZE && w == Idx(s)
      modifies this`pending
      ensures Stream(pending) == Stream(old(pending)) + s
    {
      hide Idx, Stream;
      ShortBits(w, s);
      StreamAppend(pending, [w % 256, w / 256]);
      pending := pending + [w % 256, w / 256];
    }

    /** send_bits: the new bits fall on zeros, so or-ing them in is adding; a short drops what is over. */
    method SendBits(value: nat, length: nat)
      requires Valid() && length <= BUF_SIZE && value < Pow2(length)
      modifies this
      ensures Valid() && All() == old(All()) + LowBits(value, length)
    {
      hide Idx, Stream, Pow2, LowBits;
      ghost var t := held + LowBits(value, length);
      Assoc(Stream(pending), held, LowBits(value, length));
      if biValid + length > BUF_SIZE {
        SplitValue(held, value, length);
        biBuf := biBuf + value * Pow2(biValid) % 0x1_0000;
        PutShort(biBuf, t[..BUF_SIZE]);
        biBuf := value / Pow2(BUF_SIZE - biValid);
        biValid := biValid + length - BUF_SIZE;
        assert t == t[..BUF_SIZE] + t[BUF_SIZE..];
        Assoc(Stream(old(pending)), t[..BUF_SIZE], t[BUF_SIZE..]);
        held := t[BUF_SIZE..];
      } else {
        AddValue(held, value, length);
        biBuf := biBuf + value * Pow2(biValid) % 0x1_0000;
        biValid := biValid + length;
        held := t;
      }
    }

    /** bi_windup: zeros up to a byte boundary. */
    method Windup() returns (ghost fill: nat)
      requires Valid()
      modifies this
      ensures Valid() && fill < 8 && Stream(pending) == old(All()) + Run(0, fill) && held == []
    {
      hide Idx, Stream, LowBits, Run;
      fill := (8 - biValid % 8) % 8;
      ghost var s := held + Run(0, fill);
      RunValues(fill);
      IdxAppend(held, Run(0, fill));
      Assoc(Stream(pending), held, Run(0, fill));
      if biValid > 8 {
        PutShort(biBuf, s);
      } else if biValid > 0 {
        PutByte(s);
      } else {
        assert Run(0, fill) == [] && s == [];
        assert Stream(pending) + [] == Stream(pending);
      }
      biBuf, biValid, held := 0, 0, [];
      EmptyIdx();
    }

    method PutByte(ghost s: seq<Bit>)
      requires |s| == 8 && biBuf == Idx(s)
      modifies this`pending
      ensures Stream(pending) == Stream(old(pending)) + s
    {
      hide Idx, Stream, LowBits, Pow2;
      Pow2Values();
      IdxBound(s);
      var b: Byte := biBuf;
      LowBitsIdx(b, 8);
      IdxInjective(LowBits(b, 8), s);
      StreamSnoc(pending, b);
      pending := pending + [b];
    }
  }

  lemma EmptyIdx()
    ensures Idx([]) == 0
  {
  }

  // ------------------------------------------------------------------
  // Reading

  class Accumulator {
    var hold: nat
    var bits: nat
    var next: seq<Byte>
    ghost var held: seq<Bit>

    ghost predicate Valid()
      reads this
    {
      bits == |held| && hold == Idx(held)
    }

    /** The bits at hand: those in hold, then the input. */
    ghost function Ahead(): seq<Bit>
      reads this
    {
      held + Stream(next)
    }

    constructor ()
      ensures Valid() && Ahead() == [] && next == [] && bits == 0
    {
      hold, bits, next, held := 0, 0, [], [];
    }

    method Supply(bytes: seq<Byte>)
      requires Valid()
      modifies this`next
      ensures Valid() && Ahead() == old(Ahead()) + Stream(bytes) && next == old(next) + bytes
    {
      hide Idx, Stream;
      StreamAppend(next, bytes);
      Assoc(held, Stream(next), Stream(bytes));
      next := next + bytes;
    }

    /** PULLBYTE, or false when there is no input; hold keeps within 32 bits. */
    method PullByte() returns (ok: bool)
      requires Valid() && bits <= 24
      modifies this
      ensures Valid() && Ahead() == old(Ahead()) && (ok <==> old(next) != [])
      ensures ok ==> bits == old(bits) + 8 && |next| == |old(next)| - 1 && old(held) <= held
      ensures !ok ==> bits == old(bits) && next == [] && held == old(held)
      ensures hold < 0x1_0000_0000
    {
      hide Idx, Stream, LowBits, Pow2;
      Pow2Values();
      if next == [] {
        IdxBound(held);
        Pow2Mono(bits, 32);
        return false;
      }
      var b := next[0];
      LowBitsIdx(b, 8);
      IdxAppend(held, LowBits(b, 8));
      assert next == [b] + next[1..];
      StreamAppend([b], next[1..]);
      StreamOne(b);
      Assoc(held, LowBits(b, 8), Stream(next[1..]));
      hold := hold + b * Pow2(bits);
      bits := bits + 8;
      next := next[1..];
      held := held + LowBits(b, 8);
      IdxBound(held);
      Pow2Mono(bits, 32);
      ok := true;
    }

    /** NEEDBITS */
    method Need(n: nat) returns (ok: bool)
      requires Valid() && n <= 17 && bits <= 24
      modifies this
      ensures Valid() && Ahead() == old(Ahead()) && (ok ==> bits >= n)
      ensures bits <= 24 && bits >= old(bits) && old(held) <= held
      ensures !ok ==> next == [] && bits < n
    {
      hide Idx, Stream;
      while bits < n
        invariant Valid() && Ahead() == old(Ahead()) && bits <= 24 && bits >= old(bits) && old(held) <= held
        decreases |next|
      {
        var more := PullByte();
        if !more {
          return false;
        }
      }
      ok := true;
    }

    /** BITS(n) */
    method Bits(n: nat) returns (v: nat)
      requires Valid() && n <= bits
      ensures v == Idx(held[..n])
    {
      hide Idx, Pow2;
      IdxSplit(held, n);
      v := hold % Pow2(n);
    }

    /** DROPBITS */
    method Drop(n: nat)
      requires Valid() && n <= bits
      modifies this
      ensures Valid() && next == old(next) && bits == old(bits) - n && held == old(held[n..])
      ensures Ahead() == old(Ahead())[n..]
    {
      hide Idx, Pow2, Stream;
      IdxSplit(held, n);
      assert Ahead()[n..] == held[n..] + Stream(next);
      hold := hold / Pow2(n);
      bits := bits - n;
      held := held[n..];
    }
  }

  // ------------------------------------------------------------------
  // Input that arrives in pieces

  lemma TakeFront(a: seq<Bit>, b: seq<Bit>, n: nat)
    ensures n <= |a| ==> (a + b)[..n] == a[..n] && (a + b)[n..] == a[n..] + b
  {
  }

  /**
   * An accumulator and the pieces its input arrives in.  Where a piece ends
   * inflate returns to its caller and, called again, goes on in the same
   * mode with the next one.
   */
  class Input {
    const acc: Accumulator
    var chunks: seq<seq<Byte>>

    ghost predicate Valid()
      reads this, acc
    {
      acc.Valid() && acc.bits <= 24
    }

    /** All the bits still to come. */
    ghost function Rest(): seq<Bit>
      reads this, acc
    {
      acc.Ahead() + Stream(Concat(chunks))
    }

    constructor (chunks: seq<seq<Byte>>)
      ensures Valid() && fresh(acc) && Rest() == Stream(Concat(chunks))
    {
      acc := new Accumulator();
      this.chunks := chunks;
      new;
      assert [] + Stream(Concat(chunks)) == Stream(Concat(chunks));
    }

    /** The next piece arrives. */
    method Arrive()
      requires Valid() && chunks != []
      modifies this, acc`next
      ensures Valid() && Rest() == old(Rest()) && |chunks| == |old(chunks)| - 1
    {
      hide Idx, Stream, Concat;
      var c, cs := chunks[0], chunks[1..];
      ConcatCons(c, cs);
      assert chunks == [c] + cs;
      StreamAppend(c, Concat(cs));
      Assoc(acc.Ahead(), Stream(c), Stream(Concat(cs)));
      acc.Supply(c);
      chunks := cs;
    }

    lemma NoMore()
      requires chunks == [] && acc.next == []
      ensures Rest() == acc.held
    {
      assert acc.held + [] + [] == acc.held;
    }

    /** NEEDBITS, returning and being called again until the bits are there; false if they never are. */
    method Need(n: nat) returns (ok: bool)
      requires Valid() && n <= 17
      modifies this, acc
      ensures Valid() && Rest() == old(Rest()) && (if ok then acc.bits >= n else n > |Rest()|)
    {
      hide Idx, Stream, Concat;
      ok := acc.Need(n);
      while !ok && chunks != []
        invariant Valid() && Rest() == old(Rest()) && (if ok then acc.bits >= n else acc.next == [] && acc.bits < n)
        decreases |chunks|, !ok
      {
        Arrive();
        ok := acc.Need(n);
      }
      if !ok { NoMore(); }
    }

    /** NEEDBITS, BITS and DROPBITS when the stream goes on with the n-bit number v. */
    method Take(n: nat, ghost v: nat, ghost more: seq<Bit>) returns (ok: bool, r: nat)
      requires Valid() && n <= 17 && v < Pow2(n) && Rest() == LowBits(v, n) + more
      modifies this, acc
      ensures Valid() && ok && r == v && Rest() == more
    {
      hide Idx, Stream, Concat, LowBits, Pow2;
      r := 0;
      ok := Need(n);
      if ok {
        r := Front(n, v, more);
      }
    }

    /** BITS and DROPBITS. */
    method Front(n: nat, ghost v: nat, ghost more: seq<Bit>) returns (r: nat)
      requires Valid() && n <= acc.bits && v < Pow2(n) && Rest() == LowBits(v, n) + more
      modifies acc
      ensures Valid() && r == v && Rest() == more && acc.bits == old(acc.bits) - n
    {
      hide Idx, Stream, Concat, LowBits, Pow2;
      ghost var c := LowBits(v, n);
      LowBitsIdx(v, n);
      TakeFront(acc.held, Stream(acc.next) + Stream(Concat(chunks)), n);
      Assoc(acc.held, Stream(acc.next), Stream(Concat(chunks)));
      assert (c + more)[..n] == c;
      r := acc.Bits(n);
      Skip(n, c, more);
    }

    /** DROPBITS */
    method Skip(n: nat, ghost c: seq<Bit>, ghost more: seq<Bit>)
      requires Valid() && |c| == n <= acc.bits && Rest() == c + more
      modifies acc
      ensures Valid() && Rest() == more && acc.bits == old(acc.bits) - n
    {
      hide Idx, Stream, Concat;
      TakeFront(acc.Ahead(), Stream(Concat(chunks)), n);
      assert (c + more)[n..] == more;
      acc.Drop(n);
    }
  }
}
