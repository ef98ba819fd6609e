/**
 * The meaning of the symbols that deflate tallies and inflate replays: a
 * literal byte, or a copy of `length` bytes starting `distance` bytes back
 * in everything produced so far (section 3.2.3 of RFC 1951).  A copy may
 * overlap its own output, so it is defined one byte at a time.
 */
module Lz77 {
  type Byte = bv8

  const MIN_MATCH: nat := 3
  const MAX_MATCH: nat := 258

  datatype Token = Literal(byte: Byte) | Match(distance: nat, length: nat)

  predicate Fits(t: Token, before: nat) {
    t.Match? ==> 0 < t.distance <= before && MIN_MATCH <= t.length <= MAX_MATCH
  }

  function Copy(out: seq<Byte>, distance: nat, length: nat): (r: seq<Byte>)
    requires 0 < distance <= |out|
    ensures |r| == |out| + length
    ensures r[..|out|] == out
    decreases length
  {
    if length == 0 then out else Copy(out + [out[|out| - distance]], distance, length - 1)
  }

  function Apply(out: seq<Byte>, t: Token): (r: seq<Byte>)
    requires Fits(t, |out|)
  {
    match t
    case Literal(b) => out + [b]
    case Match(d, l) => Copy(out, d, l)
  }

  /** Every distance reaches back only into bytes already produced. */
  predicate Expandable(ts: seq<Token>)
    decreases |ts|, 0
  {
    ts == [] || (Expandable(ts[..|ts| - 1]) && Fits(ts[|ts| - 1], |Expand(ts[..|ts| - 1])|))
  }

  function Expand(ts: seq<Token>): (r: seq<Byte>)
    requires Expandable(ts)
    decreases |ts|, 1
  {
    if ts == [] then [] else Apply(Expand(ts[..|ts| - 1]), ts[|ts| - 1])
  }

  /** What every length and distance code yields. */
  predicate WellFormed(t: Token) {
    t.Match? ==> 0 < t.distance && MIN_MATCH <= t.length <= MAX_MATCH
  }

  /** No distance exceeds the window. */
  predicate Near(t: Token, window: nat) {
    t.Match? ==> t.distance <= window
  }

  lemma ExpandSnoc(ts: seq<Token>, t: Token)
    requires Expandable(ts) && Fits(t, |Expand(ts)|)
    ensures Expandable(ts + [t])
    ensures Expand(ts + [t]) == Apply(Expand(ts), t)
  {
    var ts' := ts + [t];
    assert ts'[..|ts'| - 1] == ts;
  }

  lemma {:induction false} ExpandPrefix(ts: seq<Token>, k: nat)
    requires Expandable(ts) && k <= |ts|
    ensures Expandable(ts[..k]) && Expand(ts[..k]) <= Expand(ts)
    decreases |ts|
  {
    if k < |ts| {
      var init := ts[..|ts| - 1];
      ExpandPrefix(init, k);
      assert init[..k] == ts[..k];
      assert Expand(init) <= Expand(ts);
    } else {
      assert ts[..k] == ts;
    }
  }

  /** Copying one byte is appending one byte; the order of steps does not matter. */
  lemma {:induction false} CopyAdd(out: seq<Byte>, d: nat, m: nat, n: nat)
    requires 0 < d <= |out|
    ensures Copy(out, d, m + n) == Copy(Copy(out, d, m), d, n)
    decreases m
  {
    hide Copy;
    if m > 0 {
      var next := out + [out[|out| - d]];
      CopyAdd(next, d, m - 1, n);
      CopyNext(out, d, m);
      CopyNext(out, d, m + n);
    } else {
      CopyNone(out, d);
    }
  }

  lemma CopyNext(out: seq<Byte>, d: nat, n: nat)
    requires 0 < d <= |out| && n > 0
    ensures Copy(out, d, n) == Copy(out + [out[|out| - d]], d, n - 1)
  {
  }

  lemma CopyNone(out: seq<Byte>, d: nat)
    requires 0 < d <= |out|
    ensures Copy(out, d, 0) == out
  {
  }

  /**
   * A text that repeats itself at distance d for n bytes after position pos
   * is what copying produces.
   */
  lemma {:induction false} CopyOfRepeat(text: seq<Byte>, pos: nat, d: nat, n: nat)
    requires 0 < d <= pos && pos + n <= |text|
    requires forall i :: pos <= i < pos + n ==> text[i] == text[i - d]
    ensures Copy(text[..pos], d, n) == text[..pos + n]
    decreases n
  {
    if n > 0 {
      assert text[..pos] + [text[pos - d]] == text[..pos + 1];
      CopyOfRepeat(text, pos + 1, d, n - 1);
    }
  }

  /** And conversely every copy repeats itself at its distance. */
  lemma {:induction false} CopyRepeats(out: seq<Byte>, d: nat, n: nat, i: nat)
    requires 0 < d <= |out| && |out| <= i < |out| + n
    ensures Copy(out, d, n)[i] == Copy(out, d, n)[i - d]
    decreases n
  {
    var next := out + [out[|out| - d]];
    var all := Copy(out, d, n);
    assert all == Copy(next, d, n - 1);
    if i == |out| {
      assert all[..|next|] == next;
      assert all[i] == next[i] && all[i - d] == all[..|next|][i - d];
    } else {
      CopyRepeats(next, d, n - 1, i);
    }
  }
}
