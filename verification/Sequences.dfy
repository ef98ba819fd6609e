/** Sequences of one value, and sequences put together. */
module Sequences {

  function Rep<T>(x: T, n: nat): (r: seq<T>)
    ensures |r| == n && forall i :: 0 <= i < n ==> r[i] == x
  {
    seq(n, _ => x)
  }

  function Upto(n: nat): (r: seq<nat>)
    ensures |r| == n && forall i :: 0 <= i < n ==> r[i] == i
  {
    seq(n, i => i)
  }

  function Total(s: seq<nat>): (n: nat) {
    if s == [] then 0 else Total(s[..|s| - 1]) + s[|s| - 1]
  }

  lemma TotalSnoc(s: seq<nat>, k: nat)
    requires k < |s|
    ensures Total(s[..k + 1]) == Total(s[..k]) + s[k]
  {
    assert s[..k + 1][..k] == s[..k];
  }

  lemma {:induction false} TotalMono(s: seq<nat>, k: nat)
    requires k <= |s|
    ensures Total(s[..k]) <= Total(s)
    decreases |s|
  {
    if k < |s| {
      var init := s[..|s| - 1];
      TotalMono(init, k);
      assert init[..k] == s[..k];
    } else {
      assert s[..k] == s;
    }
  }

  function Concat<T>(parts: seq<seq<T>>): seq<T> {
    if parts == [] then [] else Concat(parts[..|parts| - 1]) + parts[|parts| - 1]
  }

  lemma ConcatSnoc<T>(parts: seq<seq<T>>, part: seq<T>)
    ensures Concat(parts + [part]) == Concat(parts) + part
  {
    assert (parts + [part])[..|parts|] == parts;
  }

  lemma {:induction false} ConcatPrefix<T>(parts: seq<seq<T>>, k: nat)
    requires k <= |parts|
    ensures Concat(parts[..k]) <= Concat(parts)
    decreases |parts|
  {
    if k < |parts| {
      var init := parts[..|parts| - 1];
      ConcatPrefix(init, k);
      assert init[..k] == parts[..k];
    } else {
      assert parts[..k] == parts;
    }
  }

  lemma {:induction false} ConcatCons<T>(part: seq<T>, parts: seq<seq<T>>)
    ensures Concat([part] + parts) == part + Concat(parts)
  {
    if parts == [] {
      assert [part] + parts == [] + [part];
      ConcatSnoc([], part);
      assert Concat<T>([]) == [];
    } else {
      var n := |parts| - 1;
      ConcatCons(part, parts[..n]);
      ConcatSnoc([part] + parts[..n], parts[n]);
      assert [part] + parts == ([part] + parts[..n]) + [parts[n]];
    }
  }

  lemma {:induction false} PartIn<T>(parts: seq<seq<T>>, k: nat)
    requires k < |parts|
    ensures forall x :: x in parts[k] ==> x in Concat(parts)
    decreases |parts|
  {
    if k < |parts| - 1 { PartIn(parts[..|parts| - 1], k); }
  }

  /** A sequence cut into pieces of the sizes given, the rest being the last piece. */
  method Cut<T>(bytes: seq<T>, sizes: seq<nat>) returns (chunks: seq<seq<T>>)
    ensures Concat(chunks) == bytes && chunks != []
  {
    chunks := [];
    var p := 0;
    for i := 0 to |sizes|
      invariant 0 <= p <= |bytes| && Concat(chunks) == bytes[..p]
    {
      var q := if p + sizes[i] <= |bytes| then p + sizes[i] else |bytes|;
      ConcatSnoc(chunks, bytes[p..q]);
      assert bytes[..p] + bytes[p..q] == bytes[..q];
      chunks := chunks + [bytes[p..q]];
      p := q;
    }
    ConcatSnoc(chunks, bytes[p..]);
    assert bytes[..p] + bytes[p..] == bytes;
    chunks := chunks + [bytes[p..]];
  }

  /** The parts one behind the other. */
  method Join<T>(parts: seq<seq<T>>) returns (bytes: seq<T>)
    ensures bytes == Concat(parts)
  {
    bytes := [];
    assert Concat(parts[..0]) == [];
    for i := 0 to |parts|
      invariant bytes == Concat(parts[..i])
    {
      assert parts[..i + 1] == parts[..i] + [parts[i]];
      ConcatSnoc(parts[..i], parts[i]);
      bytes := bytes + parts[i];
    }
    assert parts[..|parts|] == parts;
  }

  lemma CancelFront<T>(a: seq<T>, b: seq<T>, c: seq<T>)
    requires a + b == a + c
    ensures b == c
  {
    assert b == (a + b)[|a|..] && c == (a + c)[|a|..];
  }

  /** What is left of start when msg has been read, slack being what start lacks. */
  lemma Remainder<T>(start: seq<T>, slack: seq<T>, msg: seq<T>, rest: seq<T>, tail: seq<T>)
    requires start + slack == msg + tail && rest + slack == tail
    ensures start == msg + rest
  {
    var n := |start|;
    assert start == (start + slack)[..n] && (msg + rest) + slack == msg + (rest + slack);
    assert msg + rest == ((msg + rest) + slack)[..n];
  }
}
