/**
 * The CRC-32 of section 8 of RFC 1952.  A register of 32 bits is multiplied
 * by x modulo the polynomial once per bit of input; being linear over GF(2),
 * n such steps are a matrix, and that is how two checksums are combined.
 */
module Crc32 {
  type Word = bv32
  type Byte = bv8

  function Xor(a: Word, b: Word): Word { a ^ b }

  function Flip(a: Word): Word { Xor(a, 0xffff_ffff) }

  function Wide(b: Byte): Word { b as Word }

  /** One bit of zero input: multiply by x modulo the polynomial. */
  function Step(c: Word): Word {
    if Odd(c) then Xor(0xedb88320, Half(c)) else Half(c)
  }

  predicate Odd(c: Word) { c & 1 == 1 }
  function Half(c: Word): Word { c >> 1 }

  function Steps(c: Word, k: nat): Word
    decreases k
  {
    if k == 0 then c else Steps(Step(c), k - 1)
  }

  /** The definition: each byte is added to the low end of the register and eight bits are shifted out. */
  function Register(c: Word, s: seq<Byte>): Word
    decreases |s|
  {
    if s == [] then c else Register(Steps(Xor(c, Wide(s[0])), 8), s[1..])
  }

  function Crc(crc: Word, s: seq<Byte>): Word {
    Flip(Register(Flip(crc), s))
  }

  // ------------------------------------------------------------------
  // Addition

  lemma XorComm(a: Word, b: Word)
    ensures Xor(a, b) == Xor(b, a)
  {
  }

  lemma XorAssoc(a: Word, b: Word, c: Word)
    ensures Xor(Xor(a, b), c) == Xor(a, Xor(b, c))
  {
  }

  lemma XorSelf(a: Word)
    ensures Xor(a, a) == 0 && Xor(a, 0) == a && Xor(0, a) == a
  {
  }

  lemma XorSwap(a: Word, b: Word, c: Word)
    ensures Xor(Xor(a, b), c) == Xor(Xor(a, c), b)
  {
    hide Xor;
    XorAssoc(a, b, c);
    XorComm(b, c);
    XorAssoc(a, c, b);
  }

  // ------------------------------------------------------------------
  // Linearity

  lemma StepXor(a: Word, b: Word)
    ensures Step(Xor(a, b)) == Xor(Step(a), Step(b))
  {
    hide Odd, Half, Xor;
    OddXor(a, b);
    HalfXor(a, b);
    XorPair(0xedb88320, Half(a), Half(b));
  }

  lemma XorPair(p: Word, x: Word, y: Word)
    ensures Xor(Xor(p, x), Xor(p, y)) == Xor(x, y)
    ensures Xor(Xor(p, x), y) == Xor(p, Xor(x, y)) == Xor(x, Xor(p, y))
  {
    hide Xor;
    XorAssoc(p, x, y);
    XorAssoc(x, p, y);
    XorComm(p, x);
    XorAssoc(Xor(x, p), p, y);
    XorAssoc(x, p, p);
    XorSelf(p);
    XorSelf(x);
  }

  lemma OddXor(a: Word, b: Word)
    ensures Odd(Xor(a, b)) == (Odd(a) != Odd(b))
  {
    assert (a ^ b) & 1 == (a & 1) ^ (b & 1);
    assert (a & 1 == 0 || a & 1 == 1) && (b & 1 == 0 || b & 1 == 1);
  }

  lemma HalfXor(a: Word, b: Word)
    ensures Half(Xor(a, b)) == Xor(Half(a), Half(b))
  {
  }

  lemma {:induction false} StepsXor(a: Word, b: Word, k: nat)
    ensures Steps(Xor(a, b), k) == Xor(Steps(a, k), Steps(b, k))
    decreases k
  {
    hide Step, Xor;
    if k > 0 {
      StepXor(a, b);
      StepsXor(Step(a), Step(b), k - 1);
    }
  }

  lemma {:induction false} StepsAdd(c: Word, j: nat, k: nat)
    ensures Steps(c, j + k) == Steps(Steps(c, j), k)
    decreases j
  {
    hide Step;
    if j > 0 {
      StepsAdd(Step(c), j - 1, k);
    }
  }

  lemma {:induction false} StepsZero(k: nat)
    ensures Steps(0, k) == 0
    decreases k
  {
    if k > 0 {
      assert Step(0) == 0;
      StepsZero(k - 1);
    }
  }

  /** Whatever the register held before is carried along as zeros would carry it. */
  lemma {:induction false} RegisterXor(c: Word, d: Word, s: seq<Byte>)
    ensures Register(Xor(c, d), s) == Xor(Register(c, s), Steps(d, 8 * |s|))
    decreases |s|
  {
    hide Step, Xor, Wide;
    if s != [] {
      var b := Wide(s[0]);
      XorSwap(c, d, b);
      StepsXor(Xor(c, b), d, 8);
      RegisterXor(Steps(Xor(c, b), 8), Steps(d, 8), s[1..]);
      StepsAdd(d, 8, 8 * |s[1..]|);
    }
  }

  lemma {:induction false} RegisterAppend(c: Word, s: seq<Byte>, t: seq<Byte>)
    ensures Register(c, s + t) == Register(Register(c, s), t)
    decreases |s|
  {
    hide Steps, Xor, Wide;
    if s == [] {
      assert s + t == t;
    } else {
      assert (s + t)[1..] == s[1..] + t;
      RegisterAppend(Steps(Xor(c, Wide(s[0])), 8), s[1..], t);
    }
  }

  /** The identity behind crc32_combine. */
  lemma CombineTheorem(s: seq<Byte>, t: seq<Byte>)
    ensures Crc(0, s + t) == Xor(Steps(Crc(0, s), 8 * |t|), Crc(0, t))
  {
    hide Register, Steps, Xor;
    var ones: Word := Flip(0);
    var r := Register(ones, s);
    var carried := Steps(Flip(r), 8 * |t|);
    RegisterAppend(ones, s, t);
    FlipFlip(r);
    RegisterXor(ones, Flip(r), t);
    XorComm(Register(ones, t), carried);
    XorAssoc(carried, Register(ones, t), 0xffff_ffff);
  }

  lemma FlipFlip(r: Word)
    ensures Xor(Flip(0), Flip(r)) == r
  {
  }

  // ------------------------------------------------------------------
  // Bytes of the register

  function Low(c: Word): Byte { (c & 0xff) as Byte }
  function Shr8(c: Word): Word { c >> 8 }
  function Shl8(c: Word): Word { c << 8 }

  function Double(x: Word): Word { x << 1 }

  lemma StepDouble(x: Word)
    requires x <= 0x7fff_ffff
    ensures Step(Double(x)) == x
  {
  }

  /** Doubling eight times shifts by a byte, and nothing is lost from a short enough word. */
  lemma Doubles(x: Word)
    requires x <= 0xff_ffff
    ensures var a := Double(x); var b := Double(a); var c := Double(b); var d := Double(c);
      var e := Double(d); var f := Double(e); var g := Double(f);
      Double(g) == Shl8(x) && a <= 0x7fff_ffff && b <= 0x7fff_ffff && c <= 0x7fff_ffff
      && d <= 0x7fff_ffff && e <= 0x7fff_ffff && f <= 0x7fff_ffff && g <= 0x7fff_ffff
  {
  }

  lemma ZeroSteps8(x: Word)
    requires x <= 0xff_ffff
    ensures Steps(Shl8(x), 8) == x
  {
    hide Step, Double, Shl8;
    Doubles(x);
    var a := Double(x);
    var b := Double(a);
    var c := Double(b);
    var d := Double(c);
    var e := Double(d);
    var f := Double(e);
    var g := Double(f);
    StepDouble(g);
    StepDouble(f);
    StepDouble(e);
    StepDouble(d);
    StepDouble(c);
    StepDouble(b);
    StepDouble(a);
    StepDouble(x);
  }

  lemma SplitLow(c: Word)
    ensures c == Xor(Wide(Low(c)), Shl8(Shr8(c))) && Shr8(c) <= 0xff_ffff
  {
  }

  /** A byte at a time: only the low byte meets the polynomial. */
  lemma ByteStep(c: Word)
    ensures Steps(c, 8) == Xor(Steps(Wide(Low(c)), 8), Shr8(c))
  {
    hide Step, Steps, Xor, Wide, Low, Shr8, Shl8;
    SplitLow(c);
    StepsXor(Wide(Low(c)), Shl8(Shr8(c)), 8);
    ZeroSteps8(Shr8(c));
  }

  // ------------------------------------------------------------------
  // Four bytes at a time

  /** A word read from memory by a little-endian machine. */
  function LittleWord(b0: Byte, b1: Byte, b2: Byte, b3: Byte): Word {
    Xor(Xor(Xor(Wide(b0), Shl8(Wide(b1))), Shl8(Shl8(Wide(b2)))), Shl8(Shl8(Shl8(Wide(b3)))))
  }

  lemma WideSmall(b: Byte)
    ensures Wide(b) <= 0xff_ffff && Shl8(Wide(b)) <= 0xff_ffff && Shl8(Shl8(Wide(b))) <= 0xff_ffff
    ensures Low(Wide(b)) == b
  {
  }

  /** Zeros bring a byte down from any place in the word. */
  lemma PlacesDown(b: Byte)
    ensures Steps(Shl8(Wide(b)), 8) == Wide(b)
    ensures Steps(Shl8(Shl8(Wide(b))), 16) == Wide(b)
    ensures Steps(Shl8(Shl8(Shl8(Wide(b)))), 24) == Wide(b)
  {
    hide Step, Steps, Wide, Shl8;
    WideSmall(b);
    var x := Wide(b);
    var y := Shl8(x);
    var z := Shl8(y);
    ZeroSteps8(x);
    ZeroSteps8(y);
    ZeroSteps8(z);
    StepsAdd(z, 8, 8);
    StepsAdd(Shl8(z), 8, 16);
  }

  /** A byte added after k steps could have been added k places higher before them. */
  lemma AddEarlier(c: Word, k: nat, x: Word, b: Word)
    requires Steps(x, k) == b
    ensures Steps(Xor(Steps(c, k), b), 8) == Steps(Xor(c, x), k + 8)
  {
    hide Step, Steps, Xor;
    StepsXor(c, x, k);
    StepsAdd(Xor(c, x), k, 8);
  }

  lemma {:induction false} RegisterFour(c: Word, s: seq<Byte>)
    requires |s| == 4
    ensures Register(c, s) == Steps(Xor(c, LittleWord(s[0], s[1], s[2], s[3])), 32)
  {
    hide Step, Steps, Xor, Wide, Shl8;
    var x0, x1 := Wide(s[0]), Shl8(Wide(s[1]));
    var x2, x3 := Shl8(Shl8(Wide(s[2]))), Shl8(Shl8(Shl8(Wide(s[3]))));
    PlacesDown(s[1]);
    PlacesDown(s[2]);
    PlacesDown(s[3]);
    var c1 := Xor(c, x0);
    var c2 := Xor(c1, x1);
    var c3 := Xor(c2, x2);
    AddEarlier(c1, 8, x1, Wide(s[1]));
    AddEarlier(c2, 16, x2, Wide(s[2]));
    AddEarlier(c3, 24, x3, Wide(s[3]));
    assert s[1..][1..][1..] == [s[3]] && s[1..][1..][1..][1..] == [];
    assert Register(c, s) == Register(Steps(c1, 8), s[1..]);
    assert Register(Steps(c1, 8), s[1..]) == Register(Steps(c2, 16), s[1..][1..]);
    assert Register(Steps(c2, 16), s[1..][1..]) == Register(Steps(c3, 24), s[1..][1..][1..]);
    assert Register(Steps(c3, 24), s[1..][1..][1..]) == Register(Steps(Xor(c3, x3), 32), s[1..][1..][1..][1..]);
    XorAssoc(c, x0, x1);
    XorAssoc(c, Xor(x0, x1), x2);
    XorAssoc(c, Xor(Xor(x0, x1), x2), x3);
  }

  lemma SplitWord(c: Word)
    ensures c == LittleWord(Low(c), Low(Shr8(c)), Low(Shr8(Shr8(c))), Low(Shr8(Shr8(Shr8(c)))))
  {
  }

  /** DOLIT4: four table entries, each one byte carried past the ones that follow it. */
  lemma WordStep(c: Word)
    ensures Steps(c, 32) ==
      Xor(Xor(Xor(Steps(Wide(Low(c)), 32), Steps(Wide(Low(Shr8(c))), 24)),
              Steps(Wide(Low(Shr8(Shr8(c)))), 16)), Steps(Wide(Low(Shr8(Shr8(Shr8(c))))), 8))
  {
    hide Step, Steps, Xor, Wide, Low, Shl8, Shr8;
    SplitWord(c);
    var b0, b1, b2, b3 := Low(c), Low(Shr8(c)), Low(Shr8(Shr8(c))), Low(Shr8(Shr8(Shr8(c))));
    var x0, x1 := Wide(b0), Shl8(Wide(b1));
    var x2, x3 := Shl8(Shl8(Wide(b2))), Shl8(Shl8(Shl8(Wide(b3))));
    StepsXor(Xor(Xor(x0, x1), x2), x3, 32);
    StepsXor(Xor(x0, x1), x2, 32);
    StepsXor(x0, x1, 32);
    PlacesDown(b1);
    PlacesDown(b2);
    PlacesDown(b3);
    StepsAdd(x1, 8, 24);
    StepsAdd(x2, 16, 16);
    StepsAdd(x3, 24, 8);
  }

  // ------------------------------------------------------------------
  // What the checksum detects

  /** A checksum as gzip and zip store it, low byte first. */
  function Stored(crc: Word): (r: seq<Byte>)
    ensures |r| == 4
  {
    [Low(crc), Low(Shr8(crc)), Low(Shr8(Shr8(crc))), Low(Shr8(Shr8(Shr8(crc))))]
  }

  /** The checksum of any data with its own checksum behind it is one and the same number. */
  lemma Residue(crc: Word, s: seq<Byte>)
    ensures Crc(crc, s + Stored(Crc(crc, s))) == 0x2144_df1c
  {
    hide Steps, Xor, Low, Shr8, Register, LittleWord;
    var r := Register(Flip(crc), s);
    var t := Stored(Flip(r));
    RegisterAppend(Flip(crc), s, t);
    RegisterFour(r, t);
    SplitWord(Flip(r));
    XorAssoc(r, r, 0xffff_ffff);
    XorSelf(r);
    XorSelf(0xffff_ffff);
    OnesOut();
  }

  /** 32 steps from a register of ones, a byte at a time. */
  lemma OnesOut()
    ensures Steps(0xffff_ffff, 8) == 0x2dfd_1072 && Steps(0xffff_ffff, 32) == 0xdebb_20e3
    ensures Flip(0xdebb_20e3) == 0x2144_df1c && Flip(0x2dfd_1072) == 0xd202_ef8d
  {
    hide Steps, Step;
    OnesStep(0xffff_ffff);
    OnesStep(0x2dfd_1072);
    OnesStep(0xbe26_ed00);
    OnesStep(0x00be_26ed);
    StepsAdd(0xffff_ffff, 8, 24);
    StepsAdd(0x2dfd_1072, 8, 16);
    StepsAdd(0xbe26_ed00, 8, 8);
  }

  lemma OnesStep(c: Word)
    ensures c == 0xffff_ffff ==> Steps(c, 8) == 0x2dfd_1072
    ensures c == 0x2dfd_1072 ==> Steps(c, 8) == 0xbe26_ed00
    ensures c == 0xbe26_ed00 ==> Steps(c, 8) == 0x00be_26ed
    ensures c == 0x00be_26ed ==> Steps(c, 8) == 0xdebb_20e3
  {
    hide Steps;
    EightSteps(c);
  }

  lemma EightSteps(c: Word)
    ensures Steps(c, 8) == Step(Step(Step(Step(Step(Step(Step(Step(c))))))))
  {
    hide Step;
  }

  lemma StepNotZero(c: Word)
    requires c != 0
    ensures Step(c) != 0
  {
  }

  lemma {:induction false} StepsNotZero(c: Word, k: nat)
    requires c != 0
    ensures Steps(c, k) != 0
    decreases k
  {
    hide Step;
    if k > 0 {
      StepNotZero(c);
      StepsNotZero(Step(c), k - 1);
    }
  }

  /** Registers that differ go on differing whatever follows. */
  lemma RegisterApart(c: Word, d: Word, s: seq<Byte>)
    requires c != d
    ensures Register(c, s) != Register(d, s)
  {
    hide Steps, Xor, Register;
    var e := Xor(c, d);
    XorUndo(c, d);
    RegisterXor(d, e, s);
    StepsNotZero(e, 8 * |s|);
    XorMoves(Register(d, s), Steps(e, 8 * |s|));
  }

  lemma XorUndo(c: Word, d: Word)
    ensures Xor(d, Xor(c, d)) == c && (c != d ==> Xor(c, d) != 0)
  {
  }

  lemma XorMoves(a: Word, e: Word)
    requires e != 0
    ensures Xor(a, e) != a
  {
  }

  /** A zero byte put in front of any data, none included, does not go unseen. */
  lemma ZeroInFront(s: seq<Byte>)
    ensures Crc(0, [0] + s) != Crc(0, s) && Crc(0, [0]) == 0xd202_ef8d
  {
    hide Steps, Xor, Register;
    var ones := Flip(0);
    FlipFlip(0);
    RegisterAppend(ones, [0], s);
    RegisterByte(ones, 0);
    AddNothing(ones);
    OnesOut();
    RegisterApart(Register(ones, [0]), ones, s);
    FlipApart(Register(Register(ones, [0]), s), Register(ones, s));
  }

  lemma AddNothing(c: Word)
    ensures Xor(c, Wide(0)) == c && Flip(0) == 0xffff_ffff
  {
  }

  lemma FlipApart(a: Word, b: Word)
    requires a != b
    ensures Flip(a) != Flip(b)
  {
    assert a == Xor(Flip(a), 0xffff_ffff) && b == Xor(Flip(b), 0xffff_ffff);
  }

  /** Any change within four bytes in a row changes the checksum, whatever stands before and behind. */
  lemma BurstDetected(crc: Word, a: seq<Byte>, x: seq<Byte>, y: seq<Byte>, s: seq<Byte>)
    requires |x| == |y| == 4 && x != y
    ensures Crc(crc, a + x + s) != Crc(crc, a + y + s)
  {
    hide Steps, Xor, Register, LittleWord;
    var r := Register(Flip(crc), a);
    var v, w := LittleWord(x[0], x[1], x[2], x[3]), LittleWord(y[0], y[1], y[2], y[3]);
    RegisterAppend(Flip(crc), a, x);
    RegisterAppend(Flip(crc), a, y);
    RegisterAppend(Flip(crc), a + x, s);
    RegisterAppend(Flip(crc), a + y, s);
    RegisterFour(r, x);
    RegisterFour(r, y);
    WordsApart(x, y);
    XorApart(r, v, w);
    StepsApart(Xor(r, v), Xor(r, w), 32);
    RegisterApart(Register(r, x), Register(r, y), s);
    FlipApart(Register(Register(r, x), s), Register(Register(r, y), s));
  }

  lemma WordsApart(x: seq<Byte>, y: seq<Byte>)
    requires |x| == |y| == 4 && x != y
    ensures LittleWord(x[0], x[1], x[2], x[3]) != LittleWord(y[0], y[1], y[2], y[3])
  {
    hide Xor, Shl8, Wide, LittleWord;
    BytesBack(x[0], x[1], x[2], x[3]);
    BytesBack(y[0], y[1], y[2], y[3]);
    assert x == [x[0], x[1], x[2], x[3]] && y == [y[0], y[1], y[2], y[3]];
  }

  lemma BytesBack(b0: Byte, b1: Byte, b2: Byte, b3: Byte)
    ensures Stored(LittleWord(b0, b1, b2, b3)) == [b0, b1, b2, b3]
  {
  }

  lemma XorApart(r: Word, v: Word, w: Word)
    requires v != w
    ensures Xor(r, v) != Xor(r, w)
  {
  }

  lemma StepsApart(a: Word, b: Word, k: nat)
    requires a != b
    ensures Steps(a, k) != Steps(b, k)
  {
    hide Steps, Xor;
    var e := Xor(a, b);
    XorUndo(a, b);
    StepsXor(b, e, k);
    StepsNotZero(e, k);
    XorMoves(Steps(b, k), Steps(e, k));
  }

  // ------------------------------------------------------------------
  // The tables

  /** ZSWAP32 */
  function Swap(c: Word): Word {
    Xor(Xor(Fourth(c), Third(c)), Xor(Second(c), First(c)))
  }

  function Fourth(c: Word): Word { c >> 24 }
  function Third(c: Word): Word { (c >> 8) & 0xff00 }
  function Second(c: Word): Word { (c & 0xff00) << 8 }
  function First(c: Word): Word { (c & 0xff) << 24 }

  function Index(b: Byte): (r: nat) ensures r < 256 { b as int }
  function Value(n: nat): Byte requires n < 256 { n as Byte }

  lemma ValueIndex(b: Byte)
    ensures Value(Index(b)) == b
  {
  }

  /** What crc_table holds for byte n, followed by k zero bytes. */
  ghost predicate Entry(t: array2<Word>, k: nat, n: nat)
    reads t
    requires t.Length0 == 8 && t.Length1 == 256 && k < 4 && n < 256
  {
    && t[k, n] == Steps(Wide(Value(n)), 8 * (k + 1))
    && t[k + 4, n] == Swap(Steps(Wide(Value(n)), 8 * (k + 1)))
  }

  ghost predicate Tables(t: array2<Word>)
    reads t
  {
    && t.Length0 == 8 && t.Length1 == 256
    && forall k: nat, n: nat | k < 4 && n < 256 :: Entry(t, k, n)
  }

  lemma Lookup(t: array2<Word>, k: nat, b: Byte)
    requires t.Length0 == 8 && t.Length1 == 256 && k < 4 && Entry(t, k, Index(b))
    ensures t[k, Index(b)] == Steps(Wide(b), 8 * (k + 1))
    ensures t[k + 4, Index(b)] == Swap(Steps(Wide(b), 8 * (k + 1)))
  {
    hide Steps, Wide, Swap, Index, Value;
    ValueIndex(b);
  }

  /** Shift eight zero bits in, one at a time. */
  method ByteCrc(n: Byte) returns (c: Word)
    ensures c == Steps(Wide(n), 8)
  {
    hide Step, Wide;
    c := Wide(n);
    for k := 0 to 8
      invariant Steps(c, 8 - k) == Steps(Wide(n), 8)
    {
      c := Step(c);
    }
  }

  method StoreEntry(t: array2<Word>, k: nat, n: nat, c: Word)
    requires t.Length0 == 8 && t.Length1 == 256 && k < 4 && n < 256
    requires c == Steps(Wide(Value(n)), 8 * (k + 1))
    modifies t
    ensures Entry(t, k, n)
    ensures forall j: nat, m: nat | j < 4 && m < 256 && old(Entry(t, j, m)) :: Entry(t, j, m)
  {
    hide Steps, Wide, Swap, Value;
    t[k, n] := c;
    t[k + 4, n] := Swap(c);
  }

  /** make_crc_table */
  method MakeCrcTable() returns (t: array2<Word>)
    ensures Tables(t) && fresh(t)
  {
    hide Steps, Wide, Low, Shr8, Swap, Value, Index;
    t := new Word[8, 256];
    for n := 0 to 256
      invariant forall m: nat | m < n :: Entry(t, 0, m)
    {
      var c := ByteCrc(Value(n));
      StoreEntry(t, 0, n, c);
    }
    for n := 0 to 256
      invariant forall m: nat | m < 256 :: Entry(t, 0, m)
      invariant forall k: nat, m: nat | k < 4 && m < n :: Entry(t, k, m)
    {
      FollowedByZeros(t, n);
    }
  }

  /** The entries of byte n in the other tables. */
  method FollowedByZeros(t: array2<Word>, n: nat)
    requires t.Length0 == 8 && t.Length1 == 256 && n < 256
    requires forall m: nat | m < 256 :: Entry(t, 0, m)
    modifies t
    ensures forall k: nat | k < 4 :: Entry(t, k, n)
    ensures forall j: nat, m: nat | j < 4 && m < 256 && old(Entry(t, j, m)) :: Entry(t, j, m)
  {
    hide Steps, Wide, Low, Shr8, Swap, Value, Index;
    assert Entry(t, 0, n);
    var c := t[0, n];
    for k := 1 to 4
      invariant forall m: nat | m < 256 :: Entry(t, 0, m)
      invariant forall j: nat, m: nat | j < 4 && m < 256 && old(Entry(t, j, m)) :: Entry(t, j, m)
      invariant forall j: nat | j < k :: Entry(t, j, n)
      invariant c == Steps(Wide(Value(n)), 8 * k)
    {
      ByteStep(c);
      StepsAdd(Wide(Value(n)), 8 * k, 8);
      Lookup(t, 0, Low(c));
      c := Xor(t[0, Index(Low(c))], Shr8(c));
      StoreEntry(t, k, n, c);
    }
  }

  // ------------------------------------------------------------------
  // crc32, a byte at a time

  /** DO1 */
  method ByteUpdate(t: array2<Word>, c: Word, b: Byte) returns (c': Word)
    requires Tables(t)
    ensures c' == Register(c, [b])
  {
    hide Steps, Wide, Low, Shr8, Swap, Value, Index, Xor;
    var x := Xor(c, Wide(b));
    RegisterByte(c, b);
    ByteStep(x);
    ShiftedOut(c, b);
    assert Entry(t, 0, Index(Low(x)));
    Lookup(t, 0, Low(x));
    c' := Xor(t[0, Index(Low(x))], Shr8(c));
  }

  lemma RegisterByte(c: Word, b: Byte)
    ensures Register(c, [b]) == Steps(Xor(c, Wide(b)), 8)
  {
    hide Steps, Xor, Wide;
    assert [b][1..] == [];
  }

  lemma ShiftedOut(c: Word, b: Byte)
    ensures Shr8(Xor(c, Wide(b))) == Shr8(c)
  {
  }

  method Crc32Bytes(t: array2<Word>, crc: Word, buf: seq<Byte>) returns (r: Word)
    requires Tables(t)
    ensures r == Crc(crc, buf)
  {
    hide Steps, Wide, Xor;
    var c := Flip(crc);
    for i := 0 to |buf|
      invariant c == Register(Flip(crc), buf[..i])
    {
      RegisterAppend(Flip(crc), buf[..i], [buf[i]]);
      assert buf[..i + 1] == buf[..i] + [buf[i]];
      c := ByteUpdate(t, c, buf[i]);
    }
    assert buf[..|buf|] == buf;
    r := Flip(c);
  }

  // ------------------------------------------------------------------
  // crc32_little

  /** DOLIT4 */
  method LittleUpdate(t: array2<Word>, c: Word, s: seq<Byte>) returns (c': Word)
    requires Tables(t) && |s| == 4
    ensures c' == Register(c, s)
  {
    hide Steps, Wide, Low, Shr8, Shl8, Swap, Value, Index, Xor, Register;
    var x := Xor(c, LittleWord(s[0], s[1], s[2], s[3]));
    RegisterFour(c, s);
    WordStep(x);
    var b0, b1, b2, b3 := Low(x), Low(Shr8(x)), Low(Shr8(Shr8(x))), Low(Shr8(Shr8(Shr8(x))));
    assert Entry(t, 3, Index(b0)) && Entry(t, 2, Index(b1)) && Entry(t, 1, Index(b2)) && Entry(t, 0, Index(b3));
    Lookup(t, 3, b0);
    Lookup(t, 2, b1);
    Lookup(t, 1, b2);
    Lookup(t, 0, b3);
    c' := Xor(Xor(Xor(t[3, Index(b0)], t[2, Index(b1)]), t[1, Index(b2)]), t[0, Index(b3)]);
  }

  lemma RegisterPrefix(c: Word, buf: seq<Byte>, i: nat, n: nat)
    requires i + n <= |buf|
    ensures Register(c, buf[..i + n]) == Register(Register(c, buf[..i]), buf[i..i + n])
  {
    RegisterAppend(c, buf[..i], buf[i..i + n]);
    assert buf[..i + n] == buf[..i] + buf[i..i + n];
  }

  /** `odd` bytes lie before the first word boundary. */
  method Crc32Little(t: array2<Word>, crc: Word, buf: seq<Byte>, odd: nat) returns (r: Word)
    requires Tables(t)
    ensures r == Crc(crc, buf)
  {
    hide Steps, Wide, Xor;
    var c := Flip(crc);
    var i := 0;
    while i < |buf| && i < odd
      invariant i <= |buf| && c == Register(Flip(crc), buf[..i])
    {
      RegisterPrefix(Flip(crc), buf, i, 1);
      assert buf[i..i + 1] == [buf[i]];
      c := ByteUpdate(t, c, buf[i]);
      i := i + 1;
    }
    while |buf| - i >= 4
      invariant i <= |buf| && c == Register(Flip(crc), buf[..i])
    {
      RegisterPrefix(Flip(crc), buf, i, 4);
      c := LittleUpdate(t, c, buf[i..i + 4]);
      i := i + 4;
    }
    while i < |buf|
      invariant i <= |buf| && c == Register(Flip(crc), buf[..i])
    {
      RegisterPrefix(Flip(crc), buf, i, 1);
      assert buf[i..i + 1] == [buf[i]];
      c := ByteUpdate(t, c, buf[i]);
      i := i + 1;
    }
    assert buf[..|buf|] == buf;
    r := Flip(c);
  }

  // ------------------------------------------------------------------
  // crc32_big: the register is kept byte-reversed

  function Top(c: Word): Byte { (c >> 24) as Byte }

  lemma SwapByte(x: Word, u: Word, b: Byte)
    ensures Top(Swap(x)) ^ b == Low(Xor(x, Wide(b)))
    ensures Xor(Swap(u), Shl8(Swap(x))) == Swap(Xor(u, Shr8(x)))
  {
  }

  lemma FourthXor(x: Word, y: Word) ensures Fourth(Xor(x, y)) == Xor(Fourth(x), Fourth(y)) { }
  lemma ThirdXor(x: Word, y: Word) ensures Third(Xor(x, y)) == Xor(Third(x), Third(y)) { }
  lemma SecondXor(x: Word, y: Word) ensures Second(Xor(x, y)) == Xor(Second(x), Second(y)) { }
  lemma FirstXor(x: Word, y: Word) ensures First(Xor(x, y)) == Xor(First(x), First(y)) { }

  lemma XorFour(a: Word, b: Word, c: Word, d: Word)
    ensures Xor(Xor(a, b), Xor(c, d)) == Xor(Xor(a, c), Xor(b, d))
  {
    hide Xor;
    XorAssoc(a, b, Xor(c, d));
    XorAssoc(b, c, d);
    XorComm(b, c);
    XorAssoc(c, b, d);
    XorAssoc(a, c, Xor(b, d));
  }

  lemma SwapXor(x: Word, y: Word)
    ensures Swap(Xor(x, y)) == Xor(Swap(x), Swap(y))
  {
    hide Xor, First, Second, Third, Fourth;
    FourthXor(x, y);
    ThirdXor(x, y);
    SecondXor(x, y);
    FirstXor(x, y);
    XorFour(Fourth(x), Fourth(y), Third(x), Third(y));
    XorFour(Second(x), Second(y), First(x), First(y));
    XorFour(Xor(Fourth(x), Third(x)), Xor(Fourth(y), Third(y)), Xor(Second(x), First(x)), Xor(Second(y), First(y)));
  }

  lemma SwapSwap(x: Word)
    ensures Swap(Swap(x)) == x && Flip(Swap(x)) == Swap(Flip(x))
  {
  }

  lemma SwapBytes(x: Word)
    ensures Low(Swap(x)) == Low(Shr8(Shr8(Shr8(x)))) && Low(Shr8(Swap(x))) == Low(Shr8(Shr8(x)))
    ensures Low(Shr8(Shr8(Swap(x)))) == Low(Shr8(x)) && Low(Shr8(Shr8(Shr8(Swap(x))))) == Low(x)
  {
  }

  method BigByteUpdate(t: array2<Word>, c: Word, b: Byte, ghost x: Word) returns (c': Word)
    requires Tables(t) && c == Swap(x)
    ensures c' == Swap(Register(x, [b]))
  {
    hide Steps, Wide, Low, Top, Shr8, Shl8, Swap, Value, Index, Xor;
    var at := Top(c) ^ b;
    ghost var u := Steps(Wide(at), 8);
    SwapByte(x, u, b);
    RegisterByte(x, b);
    ByteStep(Xor(x, Wide(b)));
    ShiftedOut(x, b);
    assert Entry(t, 0, Index(at));
    Lookup(t, 0, at);
    c' := Xor(t[4, Index(at)], Shl8(c));
  }

  /** The same four bytes as read by a big-endian machine. */
  function BigWord(b0: Byte, b1: Byte, b2: Byte, b3: Byte): Word {
    Xor(Xor(Xor(Wide(b3), Shl8(Wide(b2))), Shl8(Shl8(Wide(b1)))), Shl8(Shl8(Shl8(Wide(b0)))))
  }

  lemma BigWordSwaps(b0: Byte, b1: Byte, b2: Byte, b3: Byte)
    ensures BigWord(b0, b1, b2, b3) == Swap(LittleWord(b0, b1, b2, b3))
  {
    hide Xor, Swap, Wide, Shl8;
    var x0, x1 := Wide(b0), Shl8(Wide(b1));
    var x2, x3 := Shl8(Shl8(Wide(b2))), Shl8(Shl8(Shl8(Wide(b3))));
    SwapXor(Xor(Xor(x0, x1), x2), x3);
    SwapXor(Xor(x0, x1), x2);
    SwapXor(x0, x1);
    SwapPlaced(b0);
    SwapPlaced(b1);
    SwapPlaced(b2);
    SwapPlaced(b3);
    XorReverse(Swap(x0), Swap(x1), Swap(x2), Swap(x3));
  }

  lemma SwapPlaced(b: Byte)
    ensures Swap(Wide(b)) == Shl8(Shl8(Shl8(Wide(b)))) && Swap(Shl8(Wide(b))) == Shl8(Shl8(Wide(b)))
    ensures Swap(Shl8(Shl8(Wide(b)))) == Shl8(Wide(b)) && Swap(Shl8(Shl8(Shl8(Wide(b))))) == Wide(b)
  {
  }

  lemma XorReverse(a: Word, b: Word, c: Word, d: Word)
    ensures Xor(Xor(Xor(a, b), c), d) == Xor(Xor(Xor(d, c), b), a)
  {
    hide Xor;
    XorComm(Xor(Xor(a, b), c), d);
    XorComm(Xor(a, b), c);
    XorAssoc(d, c, Xor(a, b));
    XorComm(a, b);
    XorAssoc(Xor(d, c), b, a);
  }

  /** DOBIG4 */
  method BigUpdate(t: array2<Word>, c: Word, s: seq<Byte>, ghost x: Word) returns (c': Word)
    requires Tables(t) && |s| == 4 && c == Swap(x)
    ensures c' == Swap(Register(x, s))
  {
    hide Steps, Wide, Low, Shr8, Shl8, Swap, Value, Index, Xor, Register, LittleWord, BigWord;
    ghost var y := Xor(x, LittleWord(s[0], s[1], s[2], s[3]));
    RegisterFour(x, s);
    WordStep(y);
    BigWordSwaps(s[0], s[1], s[2], s[3]);
    SwapXor(x, LittleWord(s[0], s[1], s[2], s[3]));
    var z := Xor(c, BigWord(s[0], s[1], s[2], s[3]));
    SwapBytes(y);
    var b0, b1, b2, b3 := Low(z), Low(Shr8(z)), Low(Shr8(Shr8(z))), Low(Shr8(Shr8(Shr8(z))));
    assert Entry(t, 0, Index(b0)) && Entry(t, 1, Index(b1)) && Entry(t, 2, Index(b2)) && Entry(t, 3, Index(b3));
    Lookup(t, 0, b0);
    Lookup(t, 1, b1);
    Lookup(t, 2, b2);
    Lookup(t, 3, b3);
    c' := Xor(Xor(Xor(t[4, Index(b0)], t[5, Index(b1)]), t[6, Index(b2)]), t[7, Index(b3)]);
    XorReverse(t[4, Index(b0)], t[5, Index(b1)], t[6, Index(b2)], t[7, Index(b3)]);
    ghost var w0, w1, w2, w3 := Steps(Wide(b3), 32), Steps(Wide(b2), 24), Steps(Wide(b1), 16), Steps(Wide(b0), 8);
    SwapXor(w0, w1);
    SwapXor(Xor(w0, w1), w2);
    SwapXor(Xor(Xor(w0, w1), w2), w3);
  }

  method Crc32Big(t: array2<Word>, crc: Word, buf: seq<Byte>, odd: nat) returns (r: Word)
    requires Tables(t)
    ensures r == Crc(crc, buf)
  {
    hide Steps, Wide, Xor, Swap;
    SwapSwap(crc);
    var c := Flip(Swap(crc));
    ghost var start := Flip(crc);
    var i := 0;
    while i < |buf| && i < odd
      invariant i <= |buf| && c == Swap(Register(start, buf[..i]))
    {
      RegisterPrefix(start, buf, i, 1);
      assert buf[i..i + 1] == [buf[i]];
      c := BigByteUpdate(t, c, buf[i], Register(start, buf[..i]));
      i := i + 1;
    }
    while |buf| - i >= 4
      invariant i <= |buf| && c == Swap(Register(start, buf[..i]))
    {
      RegisterPrefix(start, buf, i, 4);
      c := BigUpdate(t, c, buf[i..i + 4], Register(start, buf[..i]));
      i := i + 4;
    }
    while i < |buf|
      invariant i <= |buf| && c == Swap(Register(start, buf[..i]))
    {
      RegisterPrefix(start, buf, i, 1);
      assert buf[i..i + 1] == [buf[i]];
      c := BigByteUpdate(t, c, buf[i], Register(start, buf[..i]));
      i := i + 1;
    }
    assert buf[..|buf|] == buf;
    SwapSwap(Register(start, buf));
    SwapSwap(Flip(Register(start, buf)));
    r := Swap(Flip(c));
  }

  // ------------------------------------------------------------------
  // crc32_combine

  /** The vector with only bit n set. */
  function Unit(n: nat): Word
    decreases n
  {
    if n == 0 then 1 else Double(Unit(n - 1))
  }

  /** x moved up by n bits. */
  function Up(x: Word, n: nat): Word
    decreases n
  {
    if n == 0 then x else Up(Double(x), n - 1)
  }

  /** x moved down by n bits. */
  function Down(x: Word, n: nat): Word
    decreases n
  {
    if n == 0 then x else Down(Half(x), n - 1)
  }

  lemma {:induction false} UpUnit(j: nat, n: nat)
    ensures Up(Unit(j), n) == Unit(j + n)
    decreases n
  {
    hide Double;
    if n > 0 {
      UpUnit(j + 1, n - 1);
    }
  }

  lemma {:induction false} UpXor(a: Word, b: Word, n: nat)
    ensures Up(Xor(a, b), n) == Xor(Up(a, n), Up(b, n))
    decreases n
  {
    hide Double, Xor;
    if n > 0 {
      DoubleXor(a, b);
      UpXor(Double(a), Double(b), n - 1);
    }
  }

  lemma DoubleXor(a: Word, b: Word)
    ensures Double(Xor(a, b)) == Xor(Double(a), Double(b))
  {
  }

  lemma {:induction false} UpZero(n: nat)
    ensures Up(0, n) == 0
    decreases n
  {
    if n > 0 {
      assert Double(0) == 0;
      UpZero(n - 1);
    }
  }

  lemma SplitBit(v: Word)
    ensures v == if Odd(v) then Xor(1, Double(Half(v))) else Double(Half(v))
  {
  }

  lemma {:induction false} DownAdd(v: Word, j: nat, k: nat)
    ensures Down(v, j + k) == Down(Down(v, j), k)
    decreases j
  {
    hide Half;
    if j > 0 {
      DownAdd(Half(v), j - 1, k);
    }
  }

  lemma DownByte(v: Word)
    ensures Down(v, 8) == Shr8(v)
  {
    hide Half, Shr8;
    Halves(v);
  }

  lemma Halves(v: Word)
    ensures Half(Half(Half(Half(Half(Half(Half(Half(v)))))))) == Shr8(v)
  {
  }

  /** Nothing is left of a word after 32 halvings. */
  lemma DownAll(v: Word)
    ensures Down(v, 32) == 0
  {
    hide Half, Shr8, Down;
    DownByte(v);
    DownByte(Shr8(v));
    DownByte(Shr8(Shr8(v)));
    DownByte(Shr8(Shr8(Shr8(v))));
    DownAdd(v, 8, 24);
    DownAdd(Shr8(v), 8, 16);
    DownAdd(Shr8(Shr8(v)), 8, 8);
    ShrFour(v);
  }

  lemma ShrFour(v: Word)
    ensures Shr8(Shr8(Shr8(Shr8(v)))) == 0
  {
  }

  /** The columns of mat are the images of the unit vectors under k zero bits. */
  ghost predicate Operator(mat: seq<Word>, k: nat) {
    |mat| == 32 && forall n | 0 <= n < 32 :: mat[n] == Steps(Unit(n), k)
  }

  /** gf2_matrix_times: the sum of the columns picked by the vector is its image. */
  method MatrixTimes(mat: array<Word>, v: Word, ghost k: nat) returns (sum: Word)
    requires Operator(mat[..], k)
    ensures sum == Steps(v, k)
  {
    hide Steps, Step, Xor, Odd, Half, Double, Up, Down, Unit;
    sum := 0;
    var vec, i := v, 0;
    TimesStart(v, k);
    while vec != 0
      invariant 0 <= i <= 32 && Down(vec, 32 - i) == 0
      invariant Xor(sum, Steps(Up(vec, i), k)) == Steps(v, k)
      decreases 32 - i
    {
      TimesRoom(vec, i);
      TimesStep(vec, i, sum, k);
      if Odd(vec) {
        sum := Xor(sum, mat[i]);
      }
      vec := Half(vec);
      i := i + 1;
    }
    TimesEnd(sum, i, k);
  }

  lemma TimesStart(v: Word, k: nat)
    ensures Down(v, 32) == 0 && Xor(0, Steps(Up(v, 0), k)) == Steps(v, k)
  {
    hide Steps, Xor;
    DownAll(v);
    XorSelf(Steps(v, k));
  }

  lemma TimesRoom(vec: Word, i: nat)
    requires i <= 32 && vec != 0 && Down(vec, 32 - i) == 0
    ensures i < 32 && Down(Half(vec), 31 - i) == 0
  {
  }

  lemma TimesStep(vec: Word, i: nat, sum: Word, k: nat)
    ensures var rest := Steps(Up(Half(vec), i + 1), k);
      Xor(sum, Steps(Up(vec, i), k)) ==
      Xor(if Odd(vec) then Xor(sum, Steps(Unit(i), k)) else sum, rest)
  {
    hide Steps, Step, Xor, Odd, Half, Double;
    SplitBit(vec);
    if Odd(vec) {
      UpXor(1, Double(Half(vec)), i);
      UpUnit(0, i);
      StepsXor(Unit(i), Up(Double(Half(vec)), i), k);
      XorAssoc(sum, Steps(Unit(i), k), Steps(Up(Half(vec), i + 1), k));
    }
  }

  lemma TimesEnd(sum: Word, i: nat, k: nat)
    ensures Xor(sum, Steps(Up(0, i), k)) == sum
  {
    hide Steps, Xor;
    UpZero(i);
    StepsZero(k);
    XorSelf(sum);
  }

  /** gf2_matrix_square doubles the number of zero bits. */
  method MatrixSquare(square: array<Word>, mat: array<Word>, ghost k: nat)
    requires square.Length == 32 && square != mat && Operator(mat[..], k)
    modifies square
    ensures Operator(square[..], 2 * k)
  {
    hide Steps, Unit;
    for n := 0 to 32
      invariant forall j | 0 <= j < n :: square[j] == Steps(Unit(j), 2 * k)
    {
      StepsAdd(Unit(n), k, k);
      assert mat[..][n] == Steps(Unit(n), k);
      square[n] := MatrixTimes(mat, mat[n], k);
    }
  }

  lemma {:induction false} UnitStep(n: nat)
    requires 0 < n < 32
    ensures Step(Unit(n)) == Unit(n - 1)
  {
    hide Step;
    UnitSmall(n - 1);
    StepDouble(Unit(n - 1));
  }

  /** 2^30 halved k times. */
  function Halved(k: nat): (r: Word)
    ensures r <= 0x4000_0000
  {
    if k == 0 then 0x4000_0000 else Half(Halved(k - 1))
  }

  lemma {:induction false} UnitSmall(n: nat)
    requires n < 31
    ensures Unit(n) <= Halved(30 - n)
  {
    hide Double, Half;
    if n == 0 {
      HalvedEnd();
    } else {
      UnitSmall(n - 1);
      DoubleHalf(Unit(n - 1), Halved(30 - n));
    }
  }

  lemma HalvedEnd()
    ensures Halved(30) == 1
  {
    assert Halved(8) == 0x40_0000;
    assert Halved(16) == 0x4000;
    assert Halved(24) == 0x40;
  }

  lemma DoubleHalf(x: Word, z: Word)
    requires z <= 0x4000_0000 && x <= Half(z)
    ensures Double(x) <= z
  {
  }

  /** crc32_combine_: one bit of the length after another, the operator squared in between. */
  method Combine(crc1: Word, crc2: Word, len: int) returns (r: Word)
    ensures r == if len <= 0 then crc1 else Xor(Steps(crc1, 8 * len), crc2)
  {
    hide Steps, Step, Unit, Xor;
    if len <= 0 {
      return crc1;
    }
    var even, odd := new Word[32], new Word[32];
    OneBit(odd);
    MatrixSquare(even, odd, 1);
    MatrixSquare(odd, even, 2);
    var crc, len2 := crc1, len;
    ghost var k: nat := 4;
    while true
      invariant len2 > 0 && Operator(odd[..], k)
      invariant Steps(crc, len2 * (2 * k)) == Steps(crc1, 8 * len)
      decreases len2
    {
      MatrixSquare(even, odd, k);
      LengthBit(crc, len2, 2 * k);
      if len2 % 2 == 1 {
        crc := MatrixTimes(even, crc, 2 * k);
      }
      len2 := len2 / 2;
      if len2 == 0 {
        break;
      }
      MatrixSquare(odd, even, 2 * k);
      LengthBit(crc, len2, 4 * k);
      if len2 % 2 == 1 {
        crc := MatrixTimes(odd, crc, 4 * k);
      }
      len2 := len2 / 2;
      k := 4 * k;
      if len2 == 0 {
        break;
      }
    }
    r := Xor(crc, crc2);
  }

  /** The operator of one zero bit. */
  method OneBit(odd: array<Word>)
    requires odd.Length == 32
    modifies odd
    ensures Operator(odd[..], 1)
  {
    hide Step;
    odd[0] := 0xedb88320;
    assert Step(1) == 0xedb88320 by { StepOne(); }
    var row: Word := 1;
    for n := 1 to 32
      invariant row == Unit(n - 1)
      invariant forall j | 0 <= j < n :: odd[j] == Step(Unit(j))
    {
      UnitStep(n);
      odd[n] := row;
      row := Double(row);
    }
  }

  lemma StepOne()
    ensures Step(1) == 0xedb88320
  {
  }

  lemma LengthBit(c: Word, len: nat, unit: nat)
    requires len > 0
    ensures Steps(c, len * unit) ==
      Steps(if len % 2 == 1 then Steps(c, unit) else c, len / 2 * (2 * unit))
    ensures len / 2 == 0 ==> forall d: Word :: Steps(d, len / 2 * (2 * unit)) == d
  {
    hide Step;
    var q := len / 2;
    assert q * (2 * unit) == 2 * q * unit;
    if len % 2 == 1 {
      assert len * unit == unit + q * (2 * unit);
      StepsAdd(c, unit, q * (2 * unit));
    }
  }

  /** crc32_combine gives the checksum of the concatenation. */
  method CombineChecksums(t: array2<Word>, s1: seq<Byte>, s2: seq<Byte>) returns (r: Word)
    requires Tables(t)
    ensures r == Crc(0, s1 + s2)
  {
    hide Steps, Xor, Register;
    var crc1 := Crc32Bytes(t, 0, s1);
    var crc2 := Crc32Bytes(t, 0, s2);
    r := Combine(crc1, crc2, |s2|);
    CombineTheorem(s1, s2);
    if s2 == [] {
      assert s1 + s2 == s1;
    }
  }
}
