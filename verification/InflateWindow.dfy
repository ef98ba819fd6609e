/**
 * The history window of inflate: a ring of the last bytes written to the
 * caller's output buffers, filled by updatewindow when a call returns.
 */
module InflateWindow {
  import opened Lz77

  /**
   * The ring w holds the last min(|h|, |w|) bytes of h: the newest ones end
   * at next, and once it is full the older ones start there.
   */
  ghost predicate Ring(w: seq<Byte>, next: nat, have: nat, h: seq<Byte>)
    ensures Ring(w, next, have, h) ==> next <= have <= |h| && next <= have <= |w|
    ensures Ring(w, next, have, h) ==> have == if |h| < |w| then |h| else |w|
  {
    && next < |w| && next <= |h|
    && w[..next] == h[|h| - next..]
    && (if |h| < |w| then have == |h| == next
        else have == |w| && w[next..] == h[|h| - |w|..|h| - next])
  }

  /** The byte that lies d back from the end of h, for any d the ring can serve. */
  lemma RingByte(w: seq<Byte>, next: nat, have: nat, h: seq<Byte>, d: nat)
    requires Ring(w, next, have, h) && 0 < d <= have
    ensures d <= next ==> w[next - d] == h[|h| - d]
    ensures d > next ==> |w| + next - d < |w| && w[|w| + next - d] == h[|h| - d]
  {
    if d <= next {
      assert w[next - d] == w[..next][next - d] == h[|h| - next..][next - d];
    } else {
      assert w[|w| + next - d] == w[next..][|w| - d];
      assert h[|h| - d] == h[|h| - |w|..|h| - next][|w| - d];
    }
  }

  lemma RingEmpty(w: seq<Byte>)
    requires |w| > 0
    ensures Ring(w, 0, 0, [])
  {
  }

  /** What updatewindow leaves in the ring after new bytes, all of which or only the last fit. */
  lemma RingReplace(w: seq<Byte>, h: seq<Byte>, new': seq<Byte>)
    requires 0 < |w| <= |new'| && w == new'[|new'| - |w|..]
    ensures Ring(w, 0, |w|, h + new')
  {
    var all := h + new';
    assert all[|all| - |w|..|all|] == new'[|new'| - |w|..];
  }

  lemma RingExtend(w: seq<Byte>, next: nat, have: nat, h: seq<Byte>, new': seq<Byte>, w': seq<Byte>)
    requires Ring(w, next, have, h) && |w'| == |w| && next + |new'| <= |w|
    requires w' == w[..next] + new' + w[next + |new'|..]
    ensures var next' := next + |new'|;
      Ring(w', if next' == |w| then 0 else next', if have < |w| then have + |new'| else have, h + new')
  {
    var next' := next + |new'|;
    ExtendFront(w, next, h, new', w');
    if |h| + |new'| >= |w| {
      ExtendBack(w, next, have, h, new', w');
      if next' == |w| {
        assert w'[0..] == w'[..next'];
      }
    }
  }

  /** The newest bytes end where the ring now continues. */
  lemma ExtendFront(w: seq<Byte>, next: nat, h: seq<Byte>, new': seq<Byte>, w': seq<Byte>)
    requires next <= |h| && next + |new'| <= |w| && w[..next] == h[|h| - next..]
    requires w' == w[..next] + new' + w[next + |new'|..]
    ensures var all, next' := h + new', next + |new'|; w'[..next'] == all[|all| - next'..]
  {
    var all, next' := h + new', next + |new'|;
    assert w'[..next'] == w[..next] + new';
    assert all[|all| - next'..] == h[|h| - next..] + new';
  }

  /** What was not overwritten are the oldest bytes. */
  lemma ExtendBack(w: seq<Byte>, next: nat, have: nat, h: seq<Byte>, new': seq<Byte>, w': seq<Byte>)
    requires Ring(w, next, have, h) && next + |new'| <= |w| && |h| + |new'| >= |w|
    requires w' == w[..next] + new' + w[next + |new'|..]
    ensures var all, next' := h + new', next + |new'|; w'[next'..] == all[|all| - |w|..|all| - next']
  {
    var n, next' := |w|, next + |new'|;
    var all := h + new';
    assert w'[next'..] == w[next'..];
    if |h| >= n {
      assert w[next'..] == w[next..][|new'|..];
      assert all[|all| - n..|all| - next'] == h[|h| - n..|h| - next][|new'|..];
    }
  }

  lemma RingWrap(w: seq<Byte>, next: nat, have: nat, h: seq<Byte>, new': seq<Byte>, rest: nat, w': seq<Byte>)
    requires Ring(w, next, have, h) && |w'| == |w| && |new'| < |w|
    requires 0 < rest && next + |new'| == |w| + rest
    requires w' == new'[|new'| - rest..] + w[rest..next] + new'[..|new'| - rest]
    ensures Ring(w', rest, |w|, h + new')
  {
    var n, k := |w|, |new'| - rest;
    var all := h + new';
    assert w'[..rest] == new'[k..] == all[|all| - rest..];
    var kept := w[rest..next];
    assert kept == w[..next][rest..];
    assert kept == h[|h| - next..][rest..] == h[|h| - next + rest..];
    assert w'[rest..] == kept + new'[..k];
    assert all[|all| - n..|all| - rest] == h[|h| - next + rest..] + new'[..k];
  }
}
