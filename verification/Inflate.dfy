/**
 * The output side of inflate: literals and matches written to whatever
 * buffers the caller supplies, matches reaching back through the buffer and
 * the history window.
 */
module Inflate {
  import opened Sequences
  import opened Lz77
  import opened InflateWindow

  datatype Mode = LEN | LIT | MATCH | BAD

  /** Copying fewer bytes than the distance is appending what is already there. */
  lemma {:induction false} CopyKnown(t: seq<Byte>, d: nat, src: seq<Byte>)
    requires 0 < d <= |t| && |src| <= d
    requires forall k | 0 <= k < |src| :: src[k] == t[|t| - d + k]
    ensures Copy(t, d, |src|) == t + src
    decreases |src|
  {
    if src == [] {
      assert t + src == t;
    } else {
      var n := |src| - 1;
      CopyKnown(t, d, src[..n]);
      CopyAdd(t, d, n, 1);
      CopyOne(t + src[..n], d);
      assert (t + src[..n])[|t| + n - d] == t[|t| - d + n];
      assert t + src[..n] + [src[n]] == t + src;
    }
  }

  lemma CopyOne(t: seq<Byte>, d: nat)
    requires 0 < d <= |t|
    ensures Copy(t, d, 1) == t + [t[|t| - d]]
  {
    var next := t + [t[|t| - d]];
    assert Copy(next, d, 0) == next;
  }

  /** w[from..from + n] holds the bytes that a match of distance dist needs next. */
  ghost predicate Serves(w: seq<Byte>, from: nat, n: nat, h: seq<Byte>, put: nat, dist: nat) {
    && from + n <= |w| && put < dist <= |h| + put && n <= dist - put
    && w[from..from + n] == h[|h| - (dist - put)..|h| - (dist - put) + n]
  }

  lemma ServesUpper(w: seq<Byte>, next: nat, have: nat, h: seq<Byte>, put: nat, dist: nat)
    requires Ring(w, next, have, h) && put < dist <= put + have && next < dist - put
    ensures Serves(w, |w| + next - (dist - put), dist - put - next, h, put, dist)
  {
    var from, at, n := |w| + next - (dist - put), |h| - (dist - put), dist - put - next;
    var held, wanted := w[from..from + n], h[at..at + n];
    forall k | 0 <= k < n ensures held[k] == wanted[k] {
      RingByte(w, next, have, h, dist - put - k);
    }
  }

  lemma ServesLower(w: seq<Byte>, next: nat, have: nat, h: seq<Byte>, put: nat, dist: nat)
    requires Ring(w, next, have, h) && put < dist <= put + next
    ensures Serves(w, next - (dist - put), dist - put, h, put, dist)
  {
    var from, at, n := next - (dist - put), |h| - (dist - put), dist - put;
    var held, wanted := w[from..from + n], h[at..at + n];
    forall k | 0 <= k < n ensures held[k] == wanted[k] {
      RingByte(w, next, have, h, dist - put - k);
    }
  }

  lemma ServesCopy(w: seq<Byte>, from: nat, n: nat, h: seq<Byte>, buf: seq<Byte>, dist: nat)
    requires Serves(w, from, n, h, |buf|, dist)
    ensures h + (buf + w[from..from + n]) == Copy(h + buf, dist, n)
  {
    var t, src := h + buf, w[from..from + n];
    CopyKnown(t, dist, src);
    assert h + (buf + src) == t + src;
  }

  lemma ServesLess(w: seq<Byte>, from: nat, n: nat, h: seq<Byte>, put: nat, dist: nat, m: nat)
    requires Serves(w, from, n, h, put, dist) && m <= n
    ensures Serves(w, from, m, h, put, dist)
  {
    var at := |h| - (dist - put);
    assert w[from..from + m] == w[from..from + n][..m] == h[at..at + n][..m];
  }

  lemma ServesFits(w: seq<Byte>, from: nat, n: nat, h: seq<Byte>, put: nat, dist: nat)
    requires Serves(w, from, n, h, put, dist)
    ensures from + n <= |w| && put < dist <= |h| + put && n <= dist - put
  {
  }

  class State {
    const window: array<Byte>
    var wsize: nat
    var whave: nat
    var wnext: nat
    var mode: Mode
    var literal: Byte
    var length: nat
    var offset: nat
    // symbols decoded from the input but not yet acted on
    var input: seq<Token>
    // everything written by earlier calls, and every symbol taken from the input
    ghost var history: seq<Byte>
    ghost var taken: seq<Token>

    constructor (wbitsSize: nat)
      requires wbitsSize > 0
      ensures Valid([]) && history == [] && taken == [] && input == [] && mode == LEN
      ensures fresh(window) && window.Length == wbitsSize
    {
      window := new Byte[wbitsSize];
      wsize, whave, wnext := 0, 0, 0;
      mode, literal, length, offset, input := LEN, 0, 0, 0, [];
      history, taken := [], [];
    }

    /** The input supplies more symbols. */
    method Feed(symbols: seq<Token>)
      requires Valid(history) && forall s | s in symbols :: WellFormed(s)
      modifies this`input
      ensures Valid(history) && input == old(input) + symbols
    {
      hide Ring, Expand, Expandable;
      input := input + symbols;
    }

    /** While decoding, the window holds the end of what earlier calls wrote. */
    ghost predicate Kept()
      reads this, window
    {
      if wsize == 0 then whave == 0 && wnext == 0 && history == [] && window.Length > 0
      else wsize == window.Length && Ring(window[..], wnext, whave, history)
    }

    /** memcpy into the window */
    method Store(at: nat, bytes: seq<Byte>)
      requires at + |bytes| <= window.Length
      modifies window
      ensures window[..] == old(window[..at]) + bytes + old(window[at + |bytes|..])
    {
      for i := 0 to |bytes|
        invariant window[..] == old(window[..at]) + bytes[..i] + old(window[at + i..])
      {
        window[at + i] := bytes[i];
      }
    }

    /** The two memcpys when the new bytes run past the end of the window. */
    method StoreAround(bytes: seq<Byte>, dist: nat)
      requires dist <= |bytes| < window.Length && wnext + dist == window.Length && |bytes| - dist <= wnext
      modifies window
      ensures window[..] == bytes[dist..] + old(window[|bytes| - dist..wnext]) + bytes[..dist]
    {
      Store(wnext, bytes[..dist]);
      Store(0, bytes[dist..]);
    }

    /** The case of updatewindow in which the new bytes do not fill the whole window. */
    method StoreShort(bytes: seq<Byte>)
      requires wsize == window.Length && Ring(window[..], wnext, whave, history) && |bytes| < wsize
      modifies this`wnext, this`whave, window
      ensures Ring(window[..], wnext, whave, history + bytes)
    {
      hide Ring;
      ghost var w := window[..];
      var copy := |bytes|;
      var dist := wsize - wnext;
      if dist > copy {
        dist := copy;
      }
      copy := copy - dist;
      if copy > 0 {
        StoreAround(bytes, dist);
        RingWrap(w, wnext, whave, history, bytes, copy, window[..]);
        wnext, whave := copy, wsize;
      } else {
        Store(wnext, bytes);
        RingExtend(w, wnext, whave, history, bytes, window[..]);
        wnext := wnext + dist;
        if wnext == wsize {
          wnext := 0;
        }
        if whave < wsize {
          whave := whave + dist;
        }
      }
    }

    /** updatewindow, called with the bytes the current call has written */
    method UpdateWindow(bytes: seq<Byte>)
      requires Kept()
      modifies this`wsize, this`wnext, this`whave, this`history, window
      ensures Kept() && wsize > 0 && history == old(history) + bytes
    {
      hide Ring;
      if wsize == 0 {
        wsize, wnext, whave := window.Length, 0, 0;
        RingEmpty(window[..]);
      }
      var copy := |bytes|;
      if copy >= wsize {
        Store(0, bytes[copy - wsize..]);
        RingReplace(window[..], history, bytes);
        wnext, whave := 0, wsize;
      } else {
        StoreShort(bytes);
      }
      history := history + bytes;
    }

    /** Bytes n of a match taken from the window. */
    method FromWindow(out: array<Byte>, put: nat, from: nat, n: nat, ghost dist: nat)
      requires out != window && put + n <= out.Length
      requires Serves(window[..], from, n, history, put, dist)
      modifies out
      ensures history + out[..put + n] == Copy(history + old(out[..put]), dist, n)
    {
      ghost var buf := out[..put];
      for k := 0 to n
        invariant out[..put + k] == buf + window[from..from + k]
      {
        out[put + k] := window[from + k];
        assert out[..put + k + 1] == out[..put + k] + [window[from + k]];
      }
      ServesCopy(window[..], from, n, history, buf, dist);
    }

    /** Bytes n of a match taken from the output buffer itself. */
    method FromOutput(out: array<Byte>, put: nat, n: nat, dist: nat)
      requires put + n <= out.Length && 0 < dist <= put
      modifies out
      ensures history + out[..put + n] == Copy(history + old(out[..put]), dist, n)
    {
      hide Copy;
      ghost var t := history + out[..put];
      for k := 0 to n
        invariant history + out[..put + k] == Copy(t, dist, k)
      {
        out[put + k] := out[put + k - dist];
        CopyAdd(t, dist, k, 1);
        CopyOne(Copy(t, dist, k), dist);
        assert history + out[..put + k + 1] == history + out[..put + k] + [out[put + k - dist]];
      }
    }

    // ------------------------------------------------------------------
    // Matches

    /** A match may reach back into this buffer and the bytes the window still has. */
    predicate Reaches(put: nat, dist: nat)
      reads this
    {
      dist <= put + whave
    }

    /**
     * The MATCH state: copy as much as one contiguous source and the space
     * left allow, and come back for the rest.
     */
    method MatchStep(out: array<Byte>, put: nat) returns (put': nat)
      requires Kept() && mode == MATCH && length > 0 && offset > 0
      requires out != window && put < out.Length
      modifies this`mode, this`length, out
      ensures mode == BAD <==> !Reaches(put, offset)
      ensures mode == BAD ==> put' == put && out[..] == old(out[..])
      ensures mode != BAD ==> put < put' <= out.Length && length + put' == old(length) + put
      ensures mode != BAD ==> offset <= |history| + put
      ensures mode != BAD ==> history + out[..put'] == Copy(history + old(out[..put]), offset, put' - put)
      ensures mode != BAD ==> mode == if length == 0 then LEN else MATCH
    {
      hide Ring, Copy, Serves;
      var copy: nat := length;
      var left := out.Length - put;
      if offset > put {
        if offset - put > whave {
          mode := BAD;
          return put;
        }
        var from, avail := Locate(put);
        copy := if avail > length then length else avail;
        if copy > left {
          copy := left;
        }
        ServesLess(window[..], from, avail, history, put, offset, copy);
        FromWindow(out, put, from, copy, offset);
      } else {
        if copy > left {
          copy := left;
        }
        FromOutput(out, put, copy, offset);
      }
      length := length - copy;
      if length == 0 {
        mode := LEN;
      }
      put' := put + copy;
    }

    /** Where in the window a match starts, and how many bytes lie there in one piece. */
    method Locate(put: nat) returns (from: nat, avail: nat)
      requires Kept() && put < offset <= put + whave
      ensures avail > 0 && offset <= |history| + put
      ensures Serves(window[..], from, avail, history, put, offset)
    {
      hide Ring, Serves;
      avail := offset - put;
      if avail > wnext {
        ServesUpper(window[..], wnext, whave, history, put, offset);
        avail := avail - wnext;
        from := wsize - avail;
      } else {
        ServesLower(window[..], wnext, whave, history, put, offset);
        from := wnext - avail;
      }
    }

    /** The rest of a match in inflate_fast, once the distance lies within the output. */
    method FastRest(out: array<Byte>, put: nat, done: nat, len: nat, dist: nat, ghost t: seq<Byte>)
      requires put + done + len <= out.Length && 0 < dist <= put + done && dist <= |t|
      requires history + out[..put + done] == Copy(t, dist, done)
      modifies out
      ensures history + out[..put + done + len] == Copy(t, dist, done + len)
    {
      hide Copy;
      FromOutput(out, put + done, len, dist);
      CopyAdd(t, dist, done, len);
    }

    /** A contiguous part of the window, then the rest of the match from the output. */
    method FastContiguous(out: array<Byte>, put: nat, from: nat, op: nat, len: nat, dist: nat)
      requires Kept() && out != window && put + len <= out.Length && op == dist - put
      requires Serves(window[..], from, op, history, put, dist)
      modifies out
      ensures history + out[..put + len] == Copy(history + old(out[..put]), dist, len)
    {
      hide Ring, Copy, Serves;
      ghost var t := history + out[..put];
      ServesFits(window[..], from, op, history, put, dist);
      if op < len {
        FromWindow(out, put, from, op, dist);
        FastRest(out, put, op, len - op, dist, t);
      } else {
        ServesLess(window[..], from, op, history, put, dist, len);
        FromWindow(out, put, from, len, dist);
      }
    }

    /** The end of the window, its start, and then the output. */
    method FastWrapped(out: array<Byte>, put: nat, len: nat, dist: nat)
      requires Kept() && wsize > 0 && out != window && put + len <= out.Length
      requires put < dist && Reaches(put, dist) && 0 < wnext < dist - put
      modifies out
      ensures dist <= |history| + put
      ensures history + out[..put + len] == Copy(history + old(out[..put]), dist, len)
    {
      hide Ring, Copy, Serves;
      ghost var t := history + out[..put];
      var from := wsize + wnext - (dist - put);
      var op := dist - put - wnext;
      ServesUpper(window[..], wnext, whave, history, put, dist);
      if op < len {
        FromWindow(out, put, from, op, dist);
        var rest := len - op;
        ServesLower(window[..], wnext, whave, history, put + op, dist);
        FastContiguous(out, put + op, 0, wnext, rest, dist);
        CopyAdd(t, dist, op, rest);
      } else {
        ServesLess(window[..], from, op, history, put, dist, len);
        FromWindow(out, put, from, len, dist);
      }
    }

    /** inflate_fast's copy of one match into a buffer with room for all of it. */
    method FastMatch(out: array<Byte>, put: nat, len: nat, dist: nat)
      requires Kept() && out != window && put + len <= out.Length && dist > 0
      modifies this`mode, out
      ensures !Reaches(put, dist) ==> mode == BAD && out[..] == old(out[..])
      ensures Reaches(put, dist) ==> mode == old(mode) && dist <= |history| + put
      ensures Reaches(put, dist) ==> history + out[..put + len] == Copy(history + old(out[..put]), dist, len)
    {
      hide Ring, Copy, Serves;
      var op := put;
      if dist > op {
        op := dist - op;
        if op > whave {
          mode := BAD;
          return;
        }
        if wnext == 0 {
          ServesUpper(window[..], wnext, whave, history, put, dist);
          FastContiguous(out, put, wsize - op, op, len, dist);
        } else if wnext < op {
          FastWrapped(out, put, len, dist);
        } else {
          ServesLower(window[..], wnext, whave, history, put, dist);
          FastContiguous(out, put, wnext - op, op, len, dist);
        }
      } else {
        FromOutput(out, put, len, dist);
      }
    }

    // ------------------------------------------------------------------
    // The symbol loop

    /** Of the last symbol taken, length bytes are missing from what has been written. */
    ghost predicate Replaying(t: seq<Byte>)
      reads this
    {
      match mode
      case LEN => Replayed(t, taken)
      case LIT => taken != [] && Last(taken) == Literal(literal) && Replayed(t, Init(taken))
      case MATCH =>
        && taken != [] && Last(taken).Match? && Last(taken).distance == offset
        && 0 < length <= Last(taken).length
        && Underway(t, taken, Last(taken).length - length)
      case BAD =>
        && taken != [] && Last(taken).Match?
        && !(Expandable(taken) && Near(Last(taken), window.Length))
    }

    ghost predicate Valid(t: seq<Byte>)
      reads this, window
    {
      && Kept() && Replaying(t)
      && (forall s | s in input :: WellFormed(s))
    }

    /** Whatever the output buffer, a distance within the window and the text is served. */
    lemma OutOfReach(t: seq<Byte>, n: nat, put: nat)
      requires Kept() && |t| == |history| + put
      requires taken != [] && Last(taken).Match? && Underway(t, taken, n)
      requires !Reaches(put, Last(taken).distance)
      ensures !(Expandable(taken) && Near(Last(taken), window.Length))
    {
    }

    method Fetch(ghost t: seq<Byte>)
      requires Valid(t) && mode == LEN && input != []
      modifies this`mode, this`literal, this`length, this`offset, this`input, this`taken
      ensures Valid(t) && |input| == |old(input)| - 1
      ensures taken + input == old(taken + input)
    {
      hide Ring, Expand, Expandable;
      var symbol := input[0];
      taken := taken + [symbol];
      input := input[1..];
      assert Init(taken) == old(taken);
      match symbol
      case Literal(b) =>
        literal, mode := b, LIT;
      case Match(distance, len) =>
        offset, length, mode := distance, len, MATCH;
        UnderwayStart(t, taken);
    }

    method PutLiteral(out: array<Byte>, put: nat)
      requires out != window && put < out.Length
      requires Valid(history + out[..put]) && mode == LIT
      modifies this`mode, out
      ensures Valid(history + out[..put + 1]) && mode == LEN
    {
      hide Ring, Expand, Expandable;
      ghost var t := history + out[..put];
      out[put] := literal;
      mode := LEN;
      assert history + out[..put + 1] == t + [literal];
      ReplayedLiteral(t, taken);
    }

    method PutMatch(out: array<Byte>, put: nat) returns (put': nat)
      requires out != window && put < out.Length
      requires Valid(history + out[..put]) && mode == MATCH
      modifies this`mode, this`length, out
      ensures put <= put' <= out.Length && Valid(history + out[..put'])
      ensures mode != BAD ==> put < put'
    {
      hide Ring, Expand, Expandable, Copy;
      ghost var t := history + out[..put];
      ghost var n := Last(taken).length - length;
      if !Reaches(put, offset) {
        OutOfReach(t, n, put);
      }
      put' := MatchStep(out, put);
      if mode != BAD {
        UnderwayMore(t, taken, n, put' - put);
      }
    }

    /** inflate_fast on one symbol, with room for the longest match. */
    method FastStep(out: array<Byte>, put: nat) returns (put': nat)
      requires out != window && put + MAX_MATCH <= out.Length
      requires Valid(history + out[..put]) && mode == LEN && input != []
      modifies this`mode, this`input, this`taken, out
      ensures put <= put' <= out.Length && Valid(history + out[..put'])
      ensures |input| == |old(input)| - 1 && taken + input == old(taken + input)
    {
      hide Ring, Expand, Expandable, Copy;
      ghost var t := history + out[..put];
      var symbol := input[0];
      taken := taken + [symbol];
      input := input[1..];
      assert Init(taken) == old(taken);
      match symbol
      case Literal(b) =>
        out[put] := b;
        put' := put + 1;
        assert history + out[..put'] == t + [b];
        ReplayedLiteral(t, taken);
      case Match(dist, len) =>
        UnderwayStart(t, taken);
        if !Reaches(put, dist) {
          OutOfReach(t, 0, put);
        }
        FastMatch(out, put, len, dist);
        put' := if mode == BAD then put else put + len;
        if mode != BAD {
          UnderwayMore(t, taken, 0, len);
        }
    }

    /**
     * One call of inflate: act on symbols until the buffer is full, the
     * symbols run out or one is invalid, then save the end of the output.
     */
    method Call(out: array<Byte>) returns (put: nat)
      requires out != window && Valid(history)
      modifies this, window, out
      ensures put <= out.Length && taken + input == old(taken + input)
      ensures mode != BAD ==> history == old(history) + out[..put] && Valid(history)
      ensures mode == BAD ==> taken != [] && !(Expandable(taken) && Near(Last(taken), window.Length))
      ensures mode == BAD || put == out.Length || (mode == LEN && input == [])
    {
      hide Ring, Expand, Expandable, Copy;
      put := 0;
      assert history + out[..put] == history;
      while true
        invariant put <= out.Length && Valid(history + out[..put]) && history == old(history)
        invariant taken + input == old(taken + input)
        decreases |input|, out.Length - put
      {
        if mode == LEN {
          if input == [] {
            break;
          }
          var fast: bool := *;
          if fast && put + MAX_MATCH <= out.Length {
            put := FastStep(out, put);
          } else {
            Fetch(history + out[..put]);
          }
        } else if mode == BAD || put == out.Length {
          break;
        } else if mode == LIT {
          PutLiteral(out, put);
          put := put + 1;
        } else {
          put := PutMatch(out, put);
          if mode == BAD {
            break;
          }
        }
      }
      Leave(out, put);
    }

    /** inf_leave */
    method Leave(out: array<Byte>, put: nat)
      requires out != window && put <= out.Length && Valid(history + out[..put])
      modifies this`wsize, this`wnext, this`whave, this`history, window
      ensures mode != BAD ==> history == old(history) + out[..put] && Valid(history)
    {
      hide Ring, Expand, Expandable, Copy;
      if wsize > 0 || (put > 0 && mode != BAD) {
        UpdateWindow(out[..put]);
      } else if put == 0 {
        assert history + out[..put] == history;
      }
    }
  }

  function Last<T>(s: seq<T>): T requires s != [] { s[|s| - 1] }
  function Init<T>(s: seq<T>): seq<T> requires s != [] { s[..|s| - 1] }

  ghost predicate Replayed(t: seq<Byte>, ts: seq<Token>) {
    Expandable(ts) && Expand(ts) == t
  }

  /** The first n bytes of the last symbol, a match, have been written. */
  ghost predicate Underway(t: seq<Byte>, ts: seq<Token>, n: nat)
    requires ts != [] && Last(ts).Match?
  {
    && WellFormed(Last(ts)) && Expandable(Init(ts))
    && var before, d := Expand(Init(ts)), Last(ts).distance;
       if d <= |before| then t == Copy(before, d, n) else n == 0 && t == before
  }

  lemma UnderwayStart(t: seq<Byte>, ts: seq<Token>)
    requires ts != [] && Last(ts).Match? && WellFormed(Last(ts)) && Replayed(t, Init(ts))
    ensures Underway(t, ts, 0)
  {
  }

  lemma ReplayedLiteral(t: seq<Byte>, ts: seq<Token>)
    requires ts != [] && Last(ts).Literal? && Replayed(t, Init(ts))
    ensures Replayed(t + [Last(ts).byte], ts)
  {
    ExpandSnoc(Init(ts), Last(ts));
    assert Init(ts) + [Last(ts)] == ts;
  }

  lemma UnderwayMore(t: seq<Byte>, ts: seq<Token>, n: nat, k: nat)
    requires ts != [] && Last(ts).Match? && Underway(t, ts, n) && n + k <= Last(ts).length
    requires Last(ts).distance <= |t| && n < Last(ts).length
    ensures Underway(Copy(t, Last(ts).distance, k), ts, n + k)
    ensures n + k == Last(ts).length ==> Replayed(Copy(t, Last(ts).distance, k), ts)
  {
    hide Expand, Expandable, Copy;
    CopyAdd(Expand(Init(ts)), Last(ts).distance, n, k);
    if n + k == Last(ts).length {
      ExpandSnoc(Init(ts), Last(ts));
      assert Init(ts) + [Last(ts)] == ts;
    }
  }

  /** A call of inflate: the symbols its input yields and the room for its output. */
  datatype Request = Request(symbols: seq<Token>, room: nat)

  function Symbols(calls: seq<Request>): (r: seq<Token>) {
    if calls == [] then [] else Symbols(calls[..|calls| - 1]) + calls[|calls| - 1].symbols
  }

  /**
   * Every run of calls with any buffer sizes: each call writes until its
   * buffer is full or its symbols run out, the bytes written are those the
   * symbols stand for, and the only streams refused are those with a
   * distance beyond the text or the window.
   */
  method Replay(window: nat, calls: seq<Request>)
    returns (output: seq<Byte>, bad: bool, written: seq<nat>)
    requires window > 0
    requires forall i, s | 0 <= i < |calls| && s in calls[i].symbols :: WellFormed(s)
    ensures bad ==> !(Expandable(Symbols(calls)) && forall s | s in Symbols(calls) :: Near(s, window))
    ensures !bad ==> |written| == |calls| && |output| == Total(written)
    ensures !bad ==> forall i | 0 <= i < |calls| :: written[i] <= calls[i].room
    ensures !bad ==> forall i: nat | i < |calls| && written[i] < calls[i].room :: Caught(calls, written, i)
    ensures !bad && Expandable(Symbols(calls)) ==> output <= Expand(Symbols(calls))
    ensures !bad && calls != [] && Last(written) < Last(calls).room
            ==> Expandable(Symbols(calls)) && output == Expand(Symbols(calls))
  {
    hide State.Kept, State.Replaying, Expand, Expandable, Recorded, Total, Caught, Symbols, Near, WellFormed;
    var state := new State(window);
    output, bad, written := [], false, [];
    RecordedNone(calls);
    SymbolsNone(calls);
    while |written| < |calls|
      invariant |written| <= |calls|
      invariant fresh(state) && fresh(state.window) && state.window.Length == window
      invariant state.mode != BAD && state.Valid(state.history) && output == state.history
      invariant state.taken + state.input == Symbols(calls[..|written|])
      invariant Recorded(calls, written, |output|)
      invariant written != [] && Last(written) < calls[|written| - 1].room ==> state.mode == LEN && state.input == []
    {
      var call := calls[|written|];
      ghost var upTo := calls[..|written| + 1];
      SymbolsNext(calls, |written|);
      state.Feed(call.symbols);
      var out := new Byte[call.room];
      var n := state.Call(out);
      ghost var before := written;
      assert state.taken + state.input == Symbols(upTo);
      written := written + [n];
      if state.mode == BAD {
        bad := true;
        SymbolsPrefix(calls, |upTo|);
        Refused(state.taken, Symbols(calls), window);
        return;
      }
      output := output + out[..n];
      if n < call.room {
        ReplayEnd(state, output, Symbols(upTo));
      }
      RecordedNext(calls, before, |output| - n, n);
    }
    assert calls[..|written|] == calls;
    RecordedAll(calls, written, |output|);
    ReplayEnd(state, output, Symbols(calls));
  }

  /** Call i left room, so it had nothing more to write. */
  ghost predicate Caught(calls: seq<Request>, written: seq<nat>, i: nat)
    requires i < |written| <= |calls|
  {
    Expandable(Symbols(calls[..i + 1])) && Total(written[..i + 1]) == |Expand(Symbols(calls[..i + 1]))|
  }

  /** The calls so far wrote n bytes in all, each as much as it could. */
  ghost predicate Recorded(calls: seq<Request>, written: seq<nat>, n: nat) {
    && |written| <= |calls| && Total(written) == n
    && (forall i | 0 <= i < |written| :: written[i] <= calls[i].room)
    && (forall i: nat | i < |written| && written[i] < calls[i].room :: Caught(calls, written, i))
  }

  lemma SymbolsNone(calls: seq<Request>)
    ensures Symbols(calls[..0]) == []
  {
  }

  lemma SymbolsNext(calls: seq<Request>, k: nat)
    requires k < |calls|
    ensures Symbols(calls[..k + 1]) == Symbols(calls[..k]) + calls[k].symbols
  {
    assert calls[..k + 1][..k] == calls[..k];
  }

  lemma RecordedNone(calls: seq<Request>)
    ensures Recorded(calls, [], 0)
  {
  }

  lemma RecordedNext(calls: seq<Request>, written: seq<nat>, n: nat, k: nat)
    requires Recorded(calls, written, n) && |written| < |calls| && k <= calls[|written|].room
    requires k < calls[|written|].room ==>
      var all := Symbols(calls[..|written| + 1]); Expandable(all) && n + k == |Expand(all)|
    ensures Recorded(calls, written + [k], n + k)
  {
    hide Expand, Expandable, Symbols;
    var now := written + [k];
    assert now[..|written|] == written && now[..|now|] == now;
    forall i: nat | i < |now| && now[i] < calls[i].room ensures Caught(calls, now, i) {
      if i < |written| {
        assert Caught(calls, written, i);
        assert now[..i + 1] == written[..i + 1];
      }
    }
  }

  lemma RecordedAll(calls: seq<Request>, written: seq<nat>, n: nat)
    requires Recorded(calls, written, n) && |written| == |calls|
    ensures Total(written) == n && forall i | 0 <= i < |calls| :: written[i] <= calls[i].room
    ensures forall i: nat | i < |calls| && written[i] < calls[i].room :: Caught(calls, written, i)
  {
  }

  lemma ReplayEnd(state: State, output: seq<Byte>, all: seq<Token>)
    requires state.mode != BAD && state.Valid(output) && state.taken + state.input == all
    ensures Expandable(all) ==> output <= Expand(all)
    ensures state.mode == LEN && state.input == [] ==> Expandable(all) && output == Expand(all)
  {
    hide Expand, Expandable, State.Kept;
    var taken := state.taken;
    assert state.input == [] ==> taken == all;
    if Expandable(all) && state.mode == LEN {
      ExpandPrefix(all, |taken|);
      assert all[..|taken|] == taken;
    } else if Expandable(all) {
      ExpandPrefix(all, |taken| - 1);
      assert all[..|taken| - 1] == Init(taken);
      ExpandPrefix(all, |taken|);
      assert all[..|taken|] == taken;
      if state.mode == MATCH {
        UnderwayPrefix(output, taken, Last(taken).length - state.length);
      }
    }
  }

  lemma UnderwayPrefix(t: seq<Byte>, ts: seq<Token>, n: nat)
    requires ts != [] && Last(ts).Match? && Underway(t, ts, n) && n <= Last(ts).length && Expandable(ts)
    ensures t <= Expand(ts)
  {
    hide Copy;
    var before, d, rest := Expand(Init(ts)), Last(ts).distance, Last(ts).length - n;
    CopyAdd(before, d, n, rest);
    assert Copy(t, d, rest)[..|t|] == t;
  }

  /** A stream whose taken part ends in an invalid distance is itself invalid. */
  lemma Refused(taken: seq<Token>, all: seq<Token>, window: nat)
    requires taken != [] && taken <= all && !(Expandable(taken) && Near(Last(taken), window))
    ensures !(Expandable(all) && forall s | s in all :: Near(s, window))
  {
    hide Expand, Expandable;
    if Expandable(all) {
      ExpandPrefix(all, |taken|);
      assert all[..|taken|] == taken;
      assert Last(taken) in all;
    }
  }

  lemma {:induction false} SymbolsPrefix(calls: seq<Request>, k: nat)
    requires k <= |calls|
    ensures Symbols(calls[..k]) <= Symbols(calls)
    decreases |calls|
  {
    if k < |calls| {
      var init := calls[..|calls| - 1];
      SymbolsPrefix(init, k);
      assert init[..k] == calls[..k];
    } else {
      assert calls[..k] == calls;
    }
  }
}
