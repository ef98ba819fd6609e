/**
 Bit strings in order of transmission.  Idx reads one as the integer whose low bit came first
 (how DEFLATE indexes tables), Msb as the integer whose high bit came first (how canonical
 codes are numbered).
 */
module BitStrings {
  import opened Powers

  type Bit = b: int | 0 <= b <= 1

  function Idx(s: seq<Bit>): (r: nat) {
    if |s| == 0 then 0 else s[0] + 2 * Idx(s[1..])
  }

  function Msb(s: seq<Bit>): (r: nat) {
    if |s| == 0 then 0 else 2 * Msb(s[..|s| - 1]) + s[|s| - 1]
  }

  lemma {:induction false} IdxBound(s: seq<Bit>)
    ensures Idx(s) < Pow2(|s|)
  {
    if |s| > 0 { IdxBound(s[1..]); }
  }

  lemma {:induction false} IdxAppend(s: seq<Bit>, t: seq<Bit>)
    ensures Idx(s + t) == Idx(s) + Pow2(|s|) * Idx(t)
  {
    if |s| == 0 {
      assert s + t == t;
    } else {
      IdxAppend(s[1..], t);
      assert (s + t)[1..] == s[1..] + t;
      MulAssoc(2, Pow2(|s| - 1), Idx(t));
    }
  }

  /** Taking k bits is the remainder mod 2^k, dropping them the quotient. */
  lemma IdxSplit(s: seq<Bit>, k: nat)
    requires k <= |s|
    ensures Idx(s[..k]) == Idx(s) % Pow2(k) && Idx(s[k..]) == Idx(s) / Pow2(k)
  {
    assert s == s[..k] + s[k..];
    IdxAppend(s[..k], s[k..]);
    IdxBound(s[..k]);
    hide Idx, Pow2;
    assert Pow2(k) * Idx(s[k..]) == Idx(s[k..]) * Pow2(k);
    DivModUnique(Idx(s), Pow2(k), Idx(s[k..]), Idx(s[..k]));
  }

  lemma {:induction false} IdxInjective(s: seq<Bit>, t: seq<Bit>)
    requires |s| == |t| && Idx(s) == Idx(t)
    ensures s == t
  {
    if |s| > 0 {
      assert s[0] == t[0];
      IdxInjective(s[1..], t[1..]);
      assert s == [s[0]] + s[1..] && t == [t[0]] + t[1..];
    }
  }

  lemma {:induction false} MsbBound(s: seq<Bit>)
    ensures Msb(s) < Pow2(|s|)
  {
    if |s| > 0 { MsbBound(s[..|s| - 1]); }
  }

  lemma {:induction false} MsbAppend(s: seq<Bit>, t: seq<Bit>)
    ensures Msb(s + t) == Msb(s) * Pow2(|t|) + Msb(t)
  {
    if |t| == 0 {
      assert s + t == s;
    } else {
      var u := t[..|t| - 1];
      MsbAppend(s, u);
      assert (s + t)[..|s + t| - 1] == s + u;
      assert Msb(s) * Pow2(|t|) == 2 * (Msb(s) * Pow2(|u|));
    }
  }

  lemma {:induction false} MsbInjective(s: seq<Bit>, t: seq<Bit>)
    requires |s| == |t| && Msb(s) == Msb(t)
    ensures s == t
  {
    if |s| > 0 {
      var n := |s| - 1;
      assert s[n] == t[n];
      MsbInjective(s[..n], t[..n]);
      assert s == s[..n] + [s[n]] && t == t[..n] + [t[n]];
    }
  }

  /** n copies of bit b. */
  function Run(b: Bit, n: nat): (r: seq<Bit>)
    ensures |r| == n && forall i :: 0 <= i < n ==> r[i] == b
  {
    seq(n, i => b)
  }

  lemma {:induction false} RunValues(n: nat)
    ensures Msb(Run(0, n)) == 0 && Msb(Run(1, n)) == Pow2(n) - 1
    ensures Idx(Run(0, n)) == 0
  {
    if n > 0 {
      RunValues(n - 1);
      assert Run(0, n)[..n - 1] == Run(0, n - 1) && Run(1, n)[..n - 1] == Run(1, n - 1);
      assert Run(0, n)[1..] == Run(0, n - 1);
    }
  }

  /** The n-bit string with a given first-bit-high value. */
  function Code(v: nat, n: nat): (s: seq<Bit>)
    requires v < Pow2(n)
    ensures |s| == n && Msb(s) == v
  {
    if n == 0 then [] else
      var s := Code(v / 2, n - 1) + [v % 2];
      assert s[..n - 1] == Code(v / 2, n - 1);
      s
  }

  /** The successor of a code of the same length: last 0 to 1, the ones after it to 0. */
  function Successor(s: seq<Bit>, p: nat): (t: seq<Bit>)
    requires p < |s|
    ensures |t| == |s|
  {
    s[..p] + [1] + Run(0, |s| - p - 1)
  }

  lemma OneBit()
    ensures Msb([0]) == 0 && Msb([1]) == 1 && Idx([0]) == 0 && Idx([1]) == 1 && Pow2(1) == 2
  {
    assert Msb([]) == 0 && Idx([]) == 0 && Pow2(0) == 1;
  }

  lemma BitBetween(q: seq<Bit>, b: Bit, tail: seq<Bit>, a: nat, r: nat)
    requires a == Msb(q) * 2 + b && r == a * Pow2(|tail|) + Msb(tail)
    ensures Msb(q + [b] + tail) == r
  {
    hide Msb, Pow2;
    OneBit();
    MsbAppend(q, [b]);
    MsbAppend(q + [b], tail);
  }

  lemma SuccessorMsb(s: seq<Bit>, p: nat)
    requires p < |s| && s[p] == 0 && forall i :: p < i < |s| ==> s[i] == 1
    ensures Msb(Successor(s, p)) == Msb(s) + 1
  {
    hide Msb, Pow2;
    var q, n := s[..p], |s| - p - 1;
    assert s == q + [0] + Run(1, n);
    RunValues(n);
    Carried(q, n, Msb(q) * 2);
  }

  /** A carry runs through the ones at the end. */
  lemma Carried(q: seq<Bit>, n: nat, a: nat)
    requires a == Msb(q) * 2 && Msb(Run(0, n)) == 0 && Msb(Run(1, n)) == Pow2(n) - 1
    ensures Msb(q + [1] + Run(0, n)) == Msb(q + [0] + Run(1, n)) + 1
  {
    hide Msb, Pow2, Run;
    MulSucc(a, Pow2(n));
    var r := a * Pow2(n);
    BitBetween(q, 0, Run(1, n), a, r + (Pow2(n) - 1));
    BitBetween(q, 1, Run(0, n), a + 1, r + Pow2(n));
  }

  lemma SuccessorIdx(s: seq<Bit>, p: nat)
    requires p < |s|
    ensures Idx(Successor(s, p)) == Idx(s) % Pow2(p) + Pow2(p)
  {
    hide Idx, Pow2;
    OneBit();
    var q, n := s[..p], |s| - p - 1;
    IdxAppend(q, [1]);
    IdxAppend(q + [1], Run(0, n));
    RunValues(n);
    IdxSplit(s, p);
  }

  /** Bit p of the integer Idx(s). */
  lemma IdxBitAt(s: seq<Bit>, p: nat)
    requires p < |s|
    ensures Idx(s) / Pow2(p) % 2 == s[p]
  {
    hide Pow2, Idx;
    IdxSplit(s, p);
    LowBit(s[p..]);
  }

  lemma LowBit(s: seq<Bit>)
    requires s != []
    ensures Idx(s) % 2 == s[0]
  {
  }

  lemma AllOnes(s: seq<Bit>)
    requires forall i :: 0 <= i < |s| ==> s[i] == 1
    ensures Msb(s) == Pow2(|s|) - 1
  {
    assert s == Run(1, |s|);
    RunValues(|s|);
  }

  /** The n low bits of x, low bit first. */
  function LowBits(x: nat, n: nat): (s: seq<Bit>)
    ensures |s| == n
  {
    if n == 0 then [] else [x % 2] + LowBits(x / 2, n - 1)
  }

  lemma {:induction false} LowBitsIdx(x: nat, n: nat)
    requires x < Pow2(n)
    ensures Idx(LowBits(x, n)) == x
  {
    if n > 0 {
      LowBitsIdx(x / 2, n - 1);
      assert LowBits(x, n)[1..] == LowBits(x / 2, n - 1);
    }
  }
}
