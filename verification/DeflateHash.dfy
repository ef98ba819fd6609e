/**
 * The running hash of three bytes kept by deflate (UPDATE_HASH).  hash_bits
 * is memLevel + 7, so 8 to 16, and hash_shift is ceil(hash_bits / 3): after
 * three updates the oldest byte has been shifted out.
 */
module DeflateHash {
  import opened Lz77

  type Key = bv16

  predicate Bits(b: nat) { 8 <= b <= 16 }

  function HashMask(bits: nat): Key
    requires Bits(bits)
  {
    match bits
    case 8 => 0xff case 9 => 0x1ff case 10 => 0x3ff case 11 => 0x7ff case 12 => 0xfff
    case 13 => 0x1fff case 14 => 0x3fff case 15 => 0x7fff case _ => 0xffff
  }

  function HashSize(bits: nat): (r: nat)
    requires Bits(bits)
    ensures r >= 256
  {
    match bits
    case 8 => 256 case 9 => 512 case 10 => 1024 case 11 => 2048 case 12 => 4096
    case 13 => 8192 case 14 => 16384 case 15 => 32768 case _ => 65536
  }

  function Shifted(bits: nat, h: Key): Key
    requires Bits(bits)
  {
    if bits <= 9 then Shl3(h) else if bits <= 12 then Shl4(h) else if bits <= 15 then Shl5(h) else Shl6(h)
  }

  function Shl3(h: Key): Key { h << 3 }
  function Shl4(h: Key): Key { h << 4 }
  function Shl5(h: Key): Key { h << 5 }
  function Shl6(h: Key): Key { h << 6 }

  function Mix(m: Key, h: Key, c: Byte): Key { (h ^ (c as bv16)) & m }

  function Update(bits: nat, h: Key, c: Byte): Key
    requires Bits(bits)
  {
    Mix(HashMask(bits), Shifted(bits, h), c)
  }

  function Hash2(bits: nat, a: Byte, b: Byte): Key
    requires Bits(bits)
  {
    Update(bits, a as bv16, b)
  }

  function Hash3(bits: nat, a: Byte, b: Byte, c: Byte): Key
    requires Bits(bits)
  {
    Update(bits, Hash2(bits, a, b), c)
  }

  function Index(bits: nat, h: Key): (r: nat)
    requires Bits(bits)
  {
    (h & HashMask(bits)) as int
  }

  /** The running key is ready to take in the byte that follows a, b. */
  predicate Primed(bits: nat, h: Key, a: Byte, b: Byte)
    requires Bits(bits)
  {
    Update(bits, h, 0) == Hash3(bits, a, b, 0)
  }

  lemma IndexBoundLow(h: Key)
    ensures (h & 0xff) as int < 256
    ensures (h & 0x1ff) as int < 512
    ensures (h & 0x3ff) as int < 1024
  {
  }

  lemma IndexBoundMid(h: Key)
    ensures (h & 0x7ff) as int < 2048
    ensures (h & 0xfff) as int < 4096
    ensures (h & 0x1fff) as int < 8192
  {
  }

  lemma IndexBoundHigh(h: Key)
    ensures (h & 0x3fff) as int < 16384
    ensures (h & 0x7fff) as int < 32768
    ensures (h & 0xffff) as int < 65536
  {
  }

  lemma IndexBound(bits: nat, h: Key)
    requires Bits(bits)
    ensures Index(bits, h) < HashSize(bits)
  {
    if bits <= 10 {
      IndexBoundLow(h);
    } else if bits <= 13 {
      IndexBoundMid(h);
    } else {
      IndexBoundHigh(h);
    }
  }

  lemma MaskIdem(bits: nat, h: Key, c: Byte)
    requires Bits(bits)
    ensures Update(bits, h, c) & HashMask(bits) == Update(bits, h, c)
  {
  }

  lemma MixXor(m: Key, x: Key, y: Key, c: Byte)
    requires Mix(m, x, 0) == Mix(m, y, 0)
    ensures Mix(m, x, c) == Mix(m, y, c)
  {
  }

  lemma MixThird(m: Key, x: Key, c: Byte, d: Byte)
    requires m & 0xff == 0xff && Mix(m, x, c) == Mix(m, x, d)
    ensures c == d
  {
  }

  lemma PrimedStart(bits: nat, a: Byte, b: Byte)
    requires Bits(bits)
    ensures Primed(bits, Hash2(bits, a, b), a, b)
  {
  }

  lemma PrimedStep(bits: nat, h: Key, a: Byte, b: Byte, c: Byte)
    requires Bits(bits) && Primed(bits, h, a, b)
    ensures Update(bits, h, c) == Hash3(bits, a, b, c)
  {
    hide Mix, HashMask;
    MixXor(HashMask(bits), Shifted(bits, h), Shifted(bits, Hash2(bits, a, b)), c);
  }

  /** Shifting the byte a twice more pushes it out of the mask. */
  lemma Roll8(a: Byte, b: Byte, c: Byte)
    ensures Mix(0xff, Shl3(Mix(0xff, Shl3(Mix(0xff, Shl3(a as bv16), b)), c)), 0) ==
            Mix(0xff, Shl3(Mix(0xff, Shl3(b as bv16), c)), 0)
  {
  }

  lemma Roll9(a: Byte, b: Byte, c: Byte)
    ensures Mix(0x1ff, Shl3(Mix(0x1ff, Shl3(Mix(0x1ff, Shl3(a as bv16), b)), c)), 0) ==
            Mix(0x1ff, Shl3(Mix(0x1ff, Shl3(b as bv16), c)), 0)
  {
  }

  lemma Roll10(a: Byte, b: Byte, c: Byte)
    ensures Mix(0x3ff, Shl4(Mix(0x3ff, Shl4(Mix(0x3ff, Shl4(a as bv16), b)), c)), 0) ==
            Mix(0x3ff, Shl4(Mix(0x3ff, Shl4(b as bv16), c)), 0)
  {
  }

  lemma Roll11(a: Byte, b: Byte, c: Byte)
    ensures Mix(0x7ff, Shl4(Mix(0x7ff, Shl4(Mix(0x7ff, Shl4(a as bv16), b)), c)), 0) ==
            Mix(0x7ff, Shl4(Mix(0x7ff, Shl4(b as bv16), c)), 0)
  {
  }

  lemma Roll12(a: Byte, b: Byte, c: Byte)
    ensures Mix(0xfff, Shl4(Mix(0xfff, Shl4(Mix(0xfff, Shl4(a as bv16), b)), c)), 0) ==
            Mix(0xfff, Shl4(Mix(0xfff, Shl4(b as bv16), c)), 0)
  {
  }

  lemma Roll13(a: Byte, b: Byte, c: Byte)
    ensures Mix(0x1fff, Shl5(Mix(0x1fff, Shl5(Mix(0x1fff, Shl5(a as bv16), b)), c)), 0) ==
            Mix(0x1fff, Shl5(Mix(0x1fff, Shl5(b as bv16), c)), 0)
  {
  }

  lemma Roll14(a: Byte, b: Byte, c: Byte)
    ensures Mix(0x3fff, Shl5(Mix(0x3fff, Shl5(Mix(0x3fff, Shl5(a as bv16), b)), c)), 0) ==
            Mix(0x3fff, Shl5(Mix(0x3fff, Shl5(b as bv16), c)), 0)
  {
  }

  lemma Roll15(a: Byte, b: Byte, c: Byte)
    ensures Mix(0x7fff, Shl5(Mix(0x7fff, Shl5(Mix(0x7fff, Shl5(a as bv16), b)), c)), 0) ==
            Mix(0x7fff, Shl5(Mix(0x7fff, Shl5(b as bv16), c)), 0)
  {
  }

  lemma Roll16(a: Byte, b: Byte, c: Byte)
    ensures Mix(0xffff, Shl6(Mix(0xffff, Shl6(Mix(0xffff, Shl6(a as bv16), b)), c)), 0) ==
            Mix(0xffff, Shl6(Mix(0xffff, Shl6(b as bv16), c)), 0)
  {
  }

  /** Three updates shift the oldest byte out. */
  lemma PrimedNext(bits: nat, a: Byte, b: Byte, c: Byte)
    requires Bits(bits)
    ensures Primed(bits, Hash3(bits, a, b, c), b, c)
  {
    hide Mix, Shl3, Shl4, Shl5, Shl6;
    match bits
    case 8 => Roll8(a, b, c);
    case 9 => Roll9(a, b, c);
    case 10 => Roll10(a, b, c);
    case 11 => Roll11(a, b, c);
    case 12 => Roll12(a, b, c);
    case 13 => Roll13(a, b, c);
    case 14 => Roll14(a, b, c);
    case 15 => Roll15(a, b, c);
    case _ => Roll16(a, b, c);
  }

  /** With two equal leading bytes, equal keys force equal third bytes: hash_bits >= 8. */
  lemma ThirdByte(bits: nat, a: Byte, b: Byte, c: Byte, d: Byte)
    requires Bits(bits) && Hash3(bits, a, b, c) == Hash3(bits, a, b, d)
    ensures c == d
  {
    hide Mix;
    MixThird(HashMask(bits), Shifted(bits, Hash2(bits, a, b)), c, d);
  }
}
