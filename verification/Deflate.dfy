/**
 * The LZ77 stage of deflate: a sliding window, the hash chains over it, and
 * the two strategies that turn input bytes into literals and matches.
 */
module Deflate {
  import opened Lz77
  import opened DeflateHash
  import opened HashChains
  import opened DeflateParse

  datatype Flush = NoFlush | PartialFlush | SyncFlush | FullFlush | Finish | Block

  datatype BlockState = NeedMore | BlockDone | FinishStarted | FinishDone

  /** The bytes held by the window are the last ones read. */
  ghost predicate InWindow(w: seq<Byte>, data: seq<Byte>, base: nat)
    ensures InWindow(w, data, base) ==> base <= |data| && |data| - base <= |w|
  {
    && base <= |data| && |data| - base <= |w|
    && forall i | 0 <= i < |data| - base :: w[i] == data[base + i]
  }

  lemma WindowByte(w: seq<Byte>, data: seq<Byte>, base: nat, i: nat)
    requires InWindow(w, data, base) && base + i < |data|
    ensures w[i] == data[base + i]
  {
  }

  /** The tallied symbols stand for exactly the first n bytes of data, and none reaches too far. */
  ghost predicate Emitted(ts: seq<Token>, data: seq<Byte>, n: nat, far: int) {
    && n <= |data| && Expandable(ts) && Expand(ts) == data[..n]
    && forall t | t in ts :: WellFormed(t) && (t.Match? ==> t.distance <= far)
  }

  lemma EmittedNone(far: int)
    ensures Emitted([], [], 0, far)
  {
  }

  lemma EmitLiteral(ts: seq<Token>, data: seq<Byte>, n: nat, far: int)
    requires Emitted(ts, data, n, far) && n < |data|
    ensures Emitted(ts + [Literal(data[n])], data, n + 1, far)
  {
    ExpandSnoc(ts, Literal(data[n]));
    assert data[..n] + [data[n]] == data[..n + 1];
  }

  lemma EmitMatch(ts: seq<Token>, data: seq<Byte>, n: nat, far: int, distance: nat, length: nat)
    requires Emitted(ts, data, n, far) && Repeats(data, n, distance, length)
    requires MIN_MATCH <= length <= MAX_MATCH && distance <= far
    ensures Emitted(ts + [Match(distance, length)], data, n + length, far)
  {
    ExpandSnoc(ts, Match(distance, length));
    CopyOfRepeat(data, n, distance, length);
  }

  lemma EmitRead(ts: seq<Token>, data: seq<Byte>, more: seq<Byte>, n: nat, far: int)
    requires Emitted(ts, data, n, far)
    ensures Emitted(ts, data + more, n, far)
  {
    assert (data + more)[..n] == data[..n];
  }

  /** The strings at m and s of the window agree on their first n bytes. */
  ghost predicate SameAt(w: seq<Byte>, s: nat, m: nat, n: nat) {
    m < s && s + n <= |w| && forall i | s <= i < s + n :: w[i] == w[i - (s - m)]
  }

  lemma SameStep(w: seq<Byte>, s: nat, m: nat, n: nat)
    requires SameAt(w, s, m, n) && s + n < |w| && w[m + n] == w[s + n]
    ensures SameAt(w, s, m, n + 1)
  {
  }

  lemma SameRepeats(w: seq<Byte>, data: seq<Byte>, base: nat, s: nat, m: nat, n: nat)
    requires InWindow(w, data, base) && base + s + n <= |data|
    requires exists n' :: n' >= n && SameAt(w, s, m, n')
    ensures Repeats(data, base + s, s - m, n)
  {
    forall i | base + s <= i < base + s + n
      ensures data[i] == data[i - (s - m)]
    {
      assert w[i - base] == w[i - base - (s - m)];
    }
  }

  lemma RepeatsSame(w: seq<Byte>, data: seq<Byte>, base: nat, s: nat, m: nat, n: nat)
    requires InWindow(w, data, base) && m < s && Repeats(data, base + s, s - m, n)
    ensures SameAt(w, s, m, n)
  {
    forall i | s <= i < s + n ensures w[i] == w[i - (s - m)] {
      assert data[base + i] == data[base + i - (s - m)];
    }
  }

  /** Places in the data of positions in the window. */
  ghost function Absolute(base: nat, w: seq<nat>): (r: seq<nat>)
    ensures |r| == |w| && forall i :: 0 <= i < |w| ==> r[i] == base + w[i]
  {
    seq(|w|, i requires 0 <= i < |w| => base + w[i])
  }

  /** The strings at m and s agree on at most n bytes, as far as a match may go. */
  ghost predicate NoLonger(w: seq<Byte>, s: nat, m: nat, n: nat) {
    n < MAX_MATCH ==> !SameAt(w, s, m, n + 1)
  }

  lemma Differs(w: seq<Byte>, s: nat, m: nat, n: nat)
    requires 2 <= n && s + n < |w| && m < s
    requires n == MAX_MATCH || w[m + n] != w[s + n] || w[m + n - 1] != w[s + n - 1] || w[m] != w[s] || w[m + 1] != w[s + 1]
    ensures NoLonger(w, s, m, n)
  {
    if SameAt(w, s, m, n + 1) {
      assert w[s + n] == w[s + n - (s - m)];
      assert w[s + n - 1] == w[s + n - 1 - (s - m)];
      assert w[s] == w[s - (s - m)];
      assert w[s + 1] == w[s + 1 - (s - m)];
    }
  }

  lemma Longer(w: seq<Byte>, s: nat, ms: seq<nat>, n: nat, n': nat)
    requires n <= n' && forall q | q in ms :: NoLonger(w, s, q, n)
    ensures forall q | q in ms :: NoLonger(w, s, q, n')
  {
  }

  /** Of the strings ms, all but those in rest match the current one for at most n bytes. */
  ghost predicate Settled(w: seq<Byte>, s: nat, ms: seq<nat>, rest: seq<nat>, n: nat) {
    forall q | q in ms :: q in rest || NoLonger(w, s, q, n)
  }

  lemma SettledStart(w: seq<Byte>, s: nat, ms: seq<nat>, n: nat)
    ensures Settled(w, s, ms, ms, n)
  {
  }

  lemma SettledStep(w: seq<Byte>, s: nat, ms: seq<nat>, q: nat, rest: seq<nat>, n: nat, n': nat)
    requires Settled(w, s, ms, [q] + rest, n) && n <= n' && NoLonger(w, s, q, n')
    ensures Settled(w, s, ms, rest, n')
  {
    hide SameAt, NoLonger;
    forall m | m in ms ensures m in rest || NoLonger(w, s, m, n') {
      if m !in [q] + rest {
        Longer(w, s, [m], n, n');
      }
    }
  }

  /** The byte that longest_match never compares. */
  lemma SameThird(c: Chain, w: seq<Byte>, cur: nat, s: nat)
    requires Shape(c) && InWindow(w, c.data, c.base) && cur < s && c.base + s + 2 < |c.data|
    requires Owns(c, cur, KeyAt(c.bits, c.data, c.base + s))
    requires w[cur] == w[s] && w[cur + 1] == w[s + 1]
    ensures w[cur + 2] == w[s + 2]
  {
    hide Slot, Hash3, HashSize;
    KeyIndex(c.bits, c.data, c.base + s);
    KeyIndex(c.bits, c.data, c.base + cur);
    var d, p, q := c.data, c.base + s, c.base + cur;
    EqualKeys(Hash3(c.bits, d[p], d[p + 1], d[p + 2]), Hash3(c.bits, d[q], d[q + 1], d[q + 2]));
    ThirdByte(c.bits, d[p], d[p + 1], d[p + 2], d[q + 2]);
  }

  lemma EqualKeys(h: Key, k: Key)
    requires h as nat == k as nat
    ensures h == k
  {
    assert (h as nat) as bv16 == h;
    assert (k as nat) as bv16 == k;
  }

  /** What the result of a call says about the input that is left. */
  ghost predicate Completes(flush: Flush, r: BlockState, full: bool, nextIn: seq<Byte>, lookahead: nat) {
    match r
    case NeedMore => full || (flush == NoFlush && nextIn == [] && lookahead < MIN_LOOKAHEAD)
    case BlockDone => !full && flush != NoFlush && flush != Finish && nextIn == [] && lookahead == 0
    case FinishStarted => full && flush == Finish && nextIn == [] && lookahead == 0
    case FinishDone => !full && flush == Finish && nextIn == [] && lookahead == 0
  }

  /** Of the times a..b-1 that output was offered, the last was refused if full, and no other. */
  ghost predicate Asked(refuse: nat -> bool, a: nat, b: nat, full: bool) {
    && a <= b && (full ==> a < b && refuse(b - 1))
    && forall q: nat | a <= q < b && !(full && q == b - 1) :: !refuse(q)
  }

  lemma AskedNone(refuse: nat -> bool, a: nat)
    ensures Asked(refuse, a, a, false)
  {
  }

  lemma AskedMore(refuse: nat -> bool, a: nat, b: nat, c: nat, full: bool)
    requires Asked(refuse, a, b, false) && Asked(refuse, b, c, full)
    ensures Asked(refuse, a, c, full)
  {
  }

  /** Reading on keeps every byte read before. */
  lemma ReadExtends(data: seq<Byte>, nextIn: seq<Byte>, data': seq<Byte>, nextIn': seq<Byte>)
    requires data + nextIn == data' + nextIn' && |data'| >= |data|
    ensures data' == data + data'[|data|..]
  {
    assert forall i | 0 <= i < |data| :: data[i] == (data + nextIn)[i] == data'[i];
  }

  class State {
    // fixed by deflateInit2_ and the level
    const bits: nat
    const wsize: nat
    const litBufsize: nat
    const filtered: bool
    const goodMatch: nat
    const maxLazy: nat
    const niceMatch: nat
    const maxChain: nat
    ghost const lazy: bool
    // whether the q-th block flushed leaves the output buffer full
    const refuse: nat -> bool
    // buffers
    const window: array<Byte>
    const prev: array<nat>
    const head: array<nat>
    // input not yet read (next_in, avail_in)
    var nextIn: seq<Byte>
    var strstart: nat
    var lookahead: nat
    var insert: nat
    var insH: Key
    var prevLength: nat
    var prevMatch: int
    var matchLength: nat
    var matchStart: int
    var matchAvailable: bool
    // d_buf and l_buf up to last_lit, and the symbols of the blocks already flushed
    var pending: seq<Token>
    var sent: seq<Token>
    // blocks flushed so far
    var asked: nat
    // every byte ever read, the position in it of window[0], and the owner of each slot of prev
    ghost var data: seq<Byte>
    ghost var base: nat
    ghost var owner: seq<int>
    // the places of the strings in the dictionary, and where the history begins
    ghost var known: set<nat>
    ghost var since: nat
    // what each symbol rests on, the search of the deferred byte, and where flushing calls ended
    ghost var log: seq<Choice>
    ghost var here: Search
    ghost var ends: set<nat>
    // where the history has begun
    ghost var begins: set<nat>

    /** deflateInit2_ and lm_init; window and prev are not initialised. */
    constructor (bits: nat, wsize: nat, litBufsize: nat, filtered: bool, level: Level, ghost lazy: bool,
                 refuse: nat -> bool)
      requires Bits(bits) && wsize >= 512 && litBufsize >= 2
      ensures LevelValid(lazy) && Cfg() == Config(bits, wsize, filtered, level, lazy)
      ensures log == [] && ends == {} && since == 0 && begins == {0}
      ensures data == [] && nextIn == [] && Tokens() == [] && !matchAvailable && lookahead == 0
      ensures this.litBufsize == litBufsize && this.wsize == wsize && this.refuse == refuse && asked == 0
      ensures fresh(window) && fresh(prev) && fresh(head)
    {
      hide Chains, InWindow, Primed, HashSize, Emitted, Parsed, AllAttentive, Restarted, Remembered, Searched;
      this.bits, this.wsize, this.litBufsize, this.filtered := bits, wsize, litBufsize, filtered;
      goodMatch, maxLazy, niceMatch, maxChain := level.good, level.lazy, level.nice, level.chain;
      window := new Byte[2 * wsize];
      prev := new nat[wsize];
      head := new nat[HashSize(bits)](_ => 0);
      nextIn, strstart, lookahead, insert, insH := [], 0, 0, 0, 0;
      prevLength, matchLength, prevMatch, matchStart := MIN_MATCH - 1, MIN_MATCH - 1, 0, 0;
      matchAvailable, pending, sent := false, [], [];
      this.refuse, asked := refuse, 0;
      data, base, owner := [], 0, seq(wsize, _ => -1);
      this.lazy, known, since, log, ends, begins := lazy, {}, 0, [], {}, {0};
      here := Search.Search(0, 0, {}, 0, 0, 0);
      new;
      ChainsEmpty(ViewAt(0));
      ParsedNone(Cfg(), data, known, since, ends);
      EmittedNone(MaxDist());
      NothingInWindow(window[..], data);
    }

    ghost predicate Sized()
      reads this`since, this`base, this`strstart, this`known
    {
      && Bits(bits) && wsize >= 512 && litBufsize >= 2
      && window.Length == 2 * wsize && prev.Length == wsize && head.Length == HashSize(bits)
      && prev != head && window as object != prev && window as object != head
      && since <= base && (base > since ==> strstart >= MaxDist()) && forall a :: a in known ==> a > since
    }

    ghost function Cfg(): Config {
      Config(bits, wsize, filtered, Level(goodMatch, maxLazy, niceMatch, maxChain), lazy)
    }

    /** The dictionary when every string before top has been entered or passed over. */
    ghost function ViewAt(top: nat): Chain
      reads this`data, this`base, this`owner, this`known, this`strstart, prev, head
    {
      Chain(bits, wsize, data, base, head[..], prev[..], owner, known, top, strstart)
    }

    ghost predicate Positions()
      reads this`insert, this`strstart, this`lookahead, this`base, this`data
    {
      && insert <= 2 && insert <= strstart && strstart + lookahead <= 2 * wsize
      && base + strstart + lookahead == |data|
    }

    ghost predicate Core()
      reads this`data, this`base, this`owner, this`known, this`strstart
      reads this`since, this`insert, this`lookahead, window, prev, head
      ensures Core() ==> Sized() && Positions()
    {
      && Sized() && Positions()
      && InWindow(window[..], data, base)
      && Chains(ViewAt(strstart - insert))
    }

    /** The running hash has taken in the two bytes at str. */
    ghost predicate PrimedAt(str: nat)
      reads this`base, this`data, this`insH
      requires Bits(bits)
    {
      base + str + 2 <= |data| && Primed(bits, insH, data[base + str], data[base + str + 1])
    }

    ghost predicate Ready()
      reads this`insert, this`lookahead, this`strstart, this`base, this`data, this`insH
      requires Bits(bits)
    {
      && (insert > 0 ==> lookahead + insert < MIN_MATCH)
      && (lookahead >= MIN_MATCH ==> PrimedAt(strstart))
    }

    function MaxDist(): int { wsize - MIN_LOOKAHEAD }

    ghost predicate Valid()
      reads this`data, this`base, this`owner, this`known, this`strstart
      reads this`since, this`insert, this`lookahead, this`insH, window, prev, head
    {
      Core() && Ready()
    }

    /** INSERT_STRING: enter the string at str and return the former head of its chain. */
    method InsertString(str: nat) returns (hashHead: nat)
      requires Sized() && Chains(ViewAt(str)) && InWindow(window[..], data, base)
      requires str <= strstart && str < 2 * wsize && base + str + 2 < |data| && PrimedAt(str)
      modifies this`insH, this`owner, this`known, prev, head
      ensures ViewAt(str + 1) == Inserted(old(ViewAt(str)))
      ensures Chains(ViewAt(str + 1))
      ensures PrimedAt(str + 1)
      ensures Sized() && old(known) <= known && (str > 0 ==> base + str in known)
      ensures Linked(ViewAt(str + 1), hashHead, KeyAt(bits, data, base + str), str)
      ensures Tops(ViewAt(str + 1), hashHead, KeyAt(bits, data, base + str), str)
    {
      hide Chains, InWindow, Linked, KeyAt, Slot, Primed, Update, Hash3, HashSize, Tops;
      ghost var c := ViewAt(str);
      ghost var key := KeyAt(bits, data, base + str);
      PrimedStep(bits, insH, data[base + str], data[base + str + 1], data[base + str + 2]);
      PrimedNext(bits, data[base + str], data[base + str + 1], data[base + str + 2]);
      ChainsInserted(c);
      WindowByte(window[..], data, base, str + 2);
      insH := Update(bits, insH, window[str + 2]);
      KeyIndex(bits, data, base + str);
      var h := insH as nat;
      HeadLinked(c, h);
      hashHead := head[h];
      LinkedInserted(c, hashHead, key, str);
      TopsInserted(c, hashHead, key, str);
      prev[Slot(wsize, str)] := hashHead;
      head[h] := str;
      owner := owner[Slot(wsize, str) := str];
      known := known + (if str > 0 then {base + str} else {});
    }

    method Store(at: nat, bytes: seq<Byte>)
      requires at + |bytes| <= window.Length
      modifies window
      ensures forall j | 0 <= j < at :: window[j] == old(window[j])
      ensures forall j | 0 <= j < |bytes| :: window[at + j] == bytes[j]
    {
      for i := 0 to |bytes|
        invariant forall j | 0 <= j < at :: window[j] == old(window[j])
        invariant forall j | 0 <= j < i :: window[at + j] == bytes[j]
      {
        window[at + i] := bytes[i];
      }
    }

    method MoveDown()
      requires window.Length == 2 * wsize
      modifies window
      ensures forall j | 0 <= j < wsize :: window[j] == old(window[wsize + j])
    {
      for i := 0 to wsize
        invariant forall j | 0 <= j < i :: window[j] == old(window[wsize + j])
        invariant forall j | wsize <= j < 2 * wsize :: window[j] == old(window[j])
      {
        window[i] := window[wsize + i];
      }
    }

    /** read_buf appended at the end of the data in the window. */
    method ReadBuf(size: nat)
      requires Core() && strstart + lookahead + size <= 2 * wsize
      modifies this`nextIn, this`lookahead, this`data, window
      ensures Core() && data + nextIn == old(data + nextIn) && |data| >= |old(data)|
      ensures size > 0 && old(nextIn) != [] ==> |nextIn| < |old(nextIn)|
    {
      hide Chains;
      var len := if |nextIn| > size then size else |nextIn|;
      var at := strstart + lookahead;
      ghost var c := ViewAt(strstart - insert);
      Store(at, nextIn[..len]);
      ChainsRead(c, nextIn[..len]);
      data := data + nextIn[..len];
      nextIn := nextIn[len..];
      lookahead := lookahead + len;
      assert ViewAt(strstart - insert) == c.(data := data);
    }

    method SlideTable(a: array<nat>)
      requires a as object != window
      modifies a
      ensures IsSlid(wsize, old(a[..]), a[..], true)
    {
      var n := a.Length;
      while n > 0
        invariant 0 <= n <= a.Length
        invariant forall i | 0 <= i < n :: a[i] == old(a[i])
        invariant forall i | n <= i < a.Length :: a[i] == Slid(wsize, old(a[i]))
      {
        n := n - 1;
        var m := a[n];
        a[n] := if m >= wsize then m - wsize else 0;
      }
    }

    /** Move the upper half of the window down to make room in the upper half. */
    method Slide()
      requires Core() && strstart >= wsize + MaxDist()
      modifies this`strstart, this`matchStart, this`base, this`owner, window, prev, head
      ensures Core() && strstart == old(strstart) - wsize && base == old(base) + wsize
      ensures matchStart == old(matchStart) - wsize
    {
      hide Chains;
      ghost var c := ViewAt(strstart - insert);
      MoveDown();
      matchStart := matchStart - wsize;
      strstart := strstart - wsize;
      SlideTable(head);
      SlideTable(prev);
      base := base + wsize;
      owner := seq(wsize, s requires 0 <= s < wsize && |c.owner| == wsize => c.owner[s] - wsize);
      ChainsSlide(c, ViewAt(strstart - insert));
    }

    /** The strings left over from the place on have been entered, up to those that are left over now. */
    ghost predicate CaughtUp(from: int)
      reads this`base, this`strstart, this`insert, this`since, this`known
    {
      forall a: nat :: from <= a < base + strstart - insert && a > since ==> a in known
    }

    /** Start the hash again at the first string not entered, and enter the ones left over. */
    method Rehash()
      requires Core() && lookahead + insert >= MIN_MATCH
      modifies this`insH, this`insert, this`owner, this`known, prev, head
      ensures Core() && Ready() && old(known) <= known && insert <= old(insert)
      ensures CaughtUp(old(base + strstart - insert))
    {
      hide Chains, InWindow, Primed, HashSize, CaughtUp;
      var str := strstart - insert;
      ghost var from := base + str;
      assert CaughtUp(from) by { CaughtUpHere(); }
      Prime(str);
      while insert > 0 && lookahead + insert >= MIN_MATCH
        invariant Core() && str == strstart - insert && PrimedAt(str) && old(known) <= known && insert <= old(insert)
        invariant CaughtUp(from) && from == old(base + strstart - insert)
      {
        EnterLeftOver(str, from);
        str := str + 1;
      }
    }

    /** The hash of the two bytes at str. */
    method Prime(str: nat)
      requires Core() && str == strstart - insert && lookahead + insert >= MIN_MATCH
      modifies this`insH
      ensures PrimedAt(str)
    {
      hide Chains, InWindow, Primed, Update, HashSize;
      insH := Update(bits, window[str] as bv16, window[str + 1]);
      WindowByte(window[..], data, base, str);
      WindowByte(window[..], data, base, str + 1);
      PrimedStart(bits, window[str], window[str + 1]);
    }

    lemma CaughtUpHere()
      ensures CaughtUp(base + strstart - insert)
    {
    }

    method EnterLeftOver(str: nat, ghost from: int)
      requires Core() && insert > 0 && str == strstart - insert
      requires CaughtUp(from) && PrimedAt(str) && lookahead + insert >= MIN_MATCH
      modifies this`insH, this`insert, this`owner, this`known, prev, head
      ensures Core() && insert == old(insert) - 1 && PrimedAt(str + 1) && old(known) <= known
      ensures CaughtUp(from)
    {
      hide Chains, InWindow, Primed, HashSize, KeyAt, Tops, Linked, Inserted;
      var _ := InsertString(str);
      insert := insert - 1;
    }

    /** One round of reading: take what fits and bring the hash up to date. */
    method Replenish(more: nat)
      requires Core() && more > 0 && strstart + lookahead + more <= 2 * wsize && nextIn != []
      modifies this`nextIn, this`lookahead, this`insert, this`insH
      modifies this`data, this`owner, this`known, window, prev, head
      ensures Valid() && data + nextIn == old(data + nextIn) && |data| >= |old(data)|
      ensures |nextIn| < |old(nextIn)| && old(known) <= known
      ensures CaughtUp(old(base + strstart - insert))
    {
      hide Chains, InWindow, Primed, HashSize;
      ReadBuf(more);
      if lookahead + insert >= MIN_MATCH {
        Rehash();
      }
    }

    /** fill_window */
    method FillWindow()
      requires Valid() && lookahead < MIN_LOOKAHEAD
      modifies this`nextIn, this`strstart, this`lookahead, this`insert, this`insH, this`matchStart
      modifies this`data, this`base, this`owner, this`known, window, prev, head
      ensures Valid() && strstart <= 2 * wsize - MIN_LOOKAHEAD
      ensures lookahead >= MIN_LOOKAHEAD || nextIn == []
      ensures data + nextIn == old(data + nextIn) && |data| >= |old(data)|
      ensures base + strstart == old(base + strstart)
      ensures base + matchStart == old(base + matchStart)
      ensures old(strstart) > 0 ==> strstart > 0
      ensures old(known) <= known
      ensures CaughtUp(old(base + strstart - insert))
    {
      hide Chains, InWindow, Primed, HashSize;
      while true
        invariant Valid() && lookahead < MIN_LOOKAHEAD
        invariant data + nextIn == old(data + nextIn) && |data| >= |old(data)|
        invariant base + strstart == old(base + strstart)
        invariant base + matchStart == old(base + matchStart)
        invariant old(strstart) > 0 ==> strstart > 0
        invariant old(known) <= known
        invariant CaughtUp(old(base + strstart - insert))
        decreases |nextIn|
      {
        var more := 2 * wsize - lookahead - strstart;
        if strstart >= wsize + MaxDist() {
          Slide();
          more := more + wsize;
        }
        if nextIn == [] {
          break;
        }
        assert more >= 2;
        Replenish(more);
        if lookahead >= MIN_LOOKAHEAD || nextIn == [] {
          break;
        }
      }
    }

    /** The match of matchStart with the current string covers len bytes of data. */
    ghost predicate Matched(len: nat)
      reads this`matchStart, this`strstart, this`base, this`known, this`data
    {
      && 0 < matchStart < strstart && strstart - matchStart <= MaxDist() && base + matchStart in known
      && len <= MAX_MATCH && Repeats(data, base + strstart, strstart - matchStart, len)
    }

    /** A string worth comparing: live, with the key of the current string. */
    ghost predicate Candidate(cur: nat)
      reads this`data, this`base, this`owner, this`known, this`strstart
      reads this`since, this`insert, this`lookahead, prev, head
      ensures Candidate(cur) ==> Sized() && Positions() && lookahead >= MIN_MATCH && 0 < cur < strstart
    {
      && Sized() && Positions() && lookahead >= MIN_MATCH
      && 0 < cur < strstart && strstart - cur <= MaxDist() && base + cur in known
      && Shape(ViewAt(strstart + 1))
      && Owns(ViewAt(strstart + 1), cur, KeyAt(bits, data, base + strstart))
    }

    lemma Third(cur: nat)
      requires Candidate(cur) && InWindow(window[..], data, base)
      requires window[cur] == window[strstart] && window[cur + 1] == window[strstart + 1]
      ensures window[cur + 2] == window[strstart + 2]
    {
      hide HashSize;
      SameThird(ViewAt(strstart + 1), window[..], cur, strstart);
    }

    /** Length of the common prefix of the strings at cur and strstart, the third byte unread. */
    method Compare(cur: nat) returns (len: nat)
      requires Candidate(cur) && InWindow(window[..], data, base)
      requires strstart <= 2 * wsize - MIN_LOOKAHEAD
      requires window[cur] == window[strstart] && window[cur + 1] == window[strstart + 1]
      ensures MIN_MATCH <= len <= MAX_MATCH
      ensures SameAt(window[..], strstart, cur, len)
      ensures NoLonger(window[..], strstart, cur, len)
    {
      hide InWindow, Owns, KeyAt, HashSize, Slot, Shape;
      Third(cur);
      len := 3;
      while len < MAX_MATCH && window[strstart + len] == window[cur + len]
        invariant 3 <= len <= MAX_MATCH
        invariant SameAt(window[..], strstart, cur, len)
      {
        SameStep(window[..], strstart, cur, len);
        len := len + 1;
      }
    }

    /** The part of a match found at cur that lies within the lookahead. */
    function Within(len: nat): nat
      reads this
    {
      if len <= lookahead then len else lookahead
    }

    /** Compare the string at cur if it can beat bestLen; record it when it does. */
    method Probe(cur: nat, bestLen: nat, scanEnd1: Byte, scanEnd: Byte) returns (len: nat)
      requires Candidate(cur) && InWindow(window[..], data, base)
      requires strstart <= 2 * wsize - MIN_LOOKAHEAD && 2 <= bestLen <= MAX_MATCH
      requires scanEnd1 == window[strstart + bestLen - 1] && scanEnd == window[strstart + bestLen]
      modifies this`matchStart
      ensures bestLen <= len <= MAX_MATCH
      ensures len == bestLen ==> matchStart == old(matchStart)
      ensures len > bestLen ==> Matched(Within(len))
      ensures Candidate(cur) && NoLonger(window[..], strstart, cur, len)
    {
      hide InWindow, Owns, KeyAt, HashSize, SameAt, NoLonger, Slot;
      len := bestLen;
      if window[cur + bestLen] == scanEnd && window[cur + bestLen - 1] == scanEnd1
         && window[cur] == window[strstart] && window[cur + 1] == window[strstart + 1]
      {
        var n := Compare(cur);
        if n > bestLen {
          matchStart := cur;
          len := n;
          SameRepeats(window[..], data, base, strstart, cur, Within(n));
        } else {
          Longer(window[..], strstart, [cur], n, bestLen);
        }
      } else {
        Differs(window[..], strstart, cur, bestLen);
      }
    }

    /** The next string of the chain, if it is still within reach. */
    method Next(cur: nat, limit: nat) returns (next: nat)
      requires Chains(ViewAt(strstart + 1)) && Candidate(cur)
      requires limit == if strstart > MaxDist() then strstart - MaxDist() else 0
      ensures next > limit ==> Candidate(next) && next < cur
      ensures cur < 2 * wsize && next == prev[Slot(wsize, cur)]
    {
      hide Chains, KeyAt, Owns, HashSize, Slot;
      Follow(ViewAt(strstart + 1), cur, KeyAt(bits, data, base + strstart));
      SlotOf(ViewAt(strstart + 1), cur, KeyAt(bits, data, base + strstart));
      next := prev[Slot(wsize, cur)];
      if next > limit {
        OwnsKnown(ViewAt(strstart + 1), next, KeyAt(bits, data, base + strstart));
      }
    }

    /** The string at q, whatever its distance, and up to k - 1 more of its chain beyond limit. */
    ghost function ChainFrom(links: seq<nat>, q: nat, limit: nat, k: nat): seq<nat>
      requires |links| == wsize && q < 2 * wsize && k > 0
    {
      [q] + Walk(links, wsize, links[Slot(wsize, q)], limit, k - 1)
    }

    /** The strings of the chain within reach and budget. */
    ghost function Reachable(hashHead: nat): seq<nat>
      reads this`strstart, this`prevLength, prev
      requires prev.Length == wsize && hashHead < 2 * wsize
    {
      ChainFrom(prev[..], hashHead,
                if strstart > MaxDist() then strstart - MaxDist() else 0,
                Budget(if prevLength >= goodMatch then maxChain / 4 else maxChain))
    }

    lemma SettledNext(w: seq<Byte>, ms: seq<nat>, links: seq<nat>, q: nat, limit: nat, k: nat, n: nat, n': nat)
      requires |links| == wsize && q < 2 * wsize && k > 0
      requires Settled(w, strstart, ms, ChainFrom(links, q, limit, k), n)
      requires n <= n' && NoLonger(w, strstart, q, n')
      ensures var next := links[Slot(wsize, q)];
        if next <= limit || k == 1 then Settled(w, strstart, ms, [], n')
        else next < 2 * wsize ==> Settled(w, strstart, ms, ChainFrom(links, next, limit, k - 1), n')
    {
      hide Settled, NoLonger, Slot;
      var next := links[Slot(wsize, q)];
      SettledStep(w, strstart, ms, q, Walk(links, wsize, next, limit, k - 1), n, n');
    }

    /** The loop of longest_match over the chain. */
    method WalkChain(hashHead: nat, limit: nat, chain: nat, niceLen: nat) returns (bestLen: nat)
      requires Sized() && Positions() && InWindow(window[..], data, base)
      requires Chains(ViewAt(strstart + 1)) && Candidate(hashHead)
      requires strstart <= 2 * wsize - MIN_LOOKAHEAD
      requires limit == if strstart > MaxDist() then strstart - MaxDist() else 0
      requires 2 <= prevLength <= MAX_MATCH
      modifies this`matchStart
      ensures prevLength <= bestLen <= MAX_MATCH
      ensures bestLen > prevLength ==> Matched(Within(bestLen))
      ensures bestLen >= niceLen
              || Settled(window[..], strstart, ChainFrom(prev[..], hashHead, limit, Budget(chain)), [], bestLen)
    {
      hide Chains, InWindow, Candidate, Matched, HashSize, NoLonger, ChainFrom, Settled, Slot;
      var chainLength := chain;
      bestLen := prevLength;
      var scanEnd1, scanEnd := window[strstart + bestLen - 1], window[strstart + bestLen];
      var cur: nat := hashHead;
      ghost var steps: nat := Budget(chain);
      ghost var w, links := window[..], prev[..];
      ghost var all := ChainFrom(links, hashHead, limit, steps);
      SettledStart(w, strstart, all, bestLen);
      while true
        invariant Candidate(cur)
        invariant prevLength <= bestLen <= MAX_MATCH
        invariant scanEnd1 == window[strstart + bestLen - 1] && scanEnd == window[strstart + bestLen]
        invariant steps > 0 && (chainLength == steps || (chainLength == 0 && steps == 0x1_0000_0000))
        invariant Settled(w, strstart, all, ChainFrom(links, cur, limit, steps), bestLen)
        invariant bestLen > prevLength ==> Matched(Within(bestLen))
        decreases cur
      {
        ghost var oldBest := bestLen;
        var n := Probe(cur, bestLen, scanEnd1, scanEnd);
        if n > bestLen {
          bestLen := n;
          if n >= niceLen {
            break;
          }
          scanEnd1, scanEnd := window[strstart + bestLen - 1], window[strstart + bestLen];
        }
        var next := Next(cur, limit);
        SettledNext(w, all, links, cur, limit, steps, oldBest, bestLen);
        steps := steps - 1;
        if next <= limit {
          break;
        }
        chainLength := if chainLength == 0 then 0xffff_ffff else chainLength - 1;
        if chainLength == 0 {
          break;
        }
        cur := next;
      }
    }

    /**
     * longest_match: unless a match is nice enough or takes up the whole
     * lookahead, no string of the chain within reach and budget is longer.
     */
    method LongestMatch(hashHead: nat) returns (len: nat)
      requires Entered() && Candidate(hashHead) && strstart <= 2 * wsize - MIN_LOOKAHEAD
      requires 2 <= prevLength <= MAX_MATCH
      modifies this`matchStart
      ensures 2 <= len <= lookahead && len <= MAX_MATCH
      ensures len > prevLength ==> Matched(len)
      ensures len >= niceMatch || len == lookahead
              || Settled(window[..], strstart, Reachable(hashHead), [], len)
    {
      hide Chains, InWindow, Candidate, Matched, HashSize, ChainFrom, Settled;
      var chainLength := if prevLength >= goodMatch then maxChain / 4 else maxChain;
      var niceLen := if niceMatch > lookahead then lookahead else niceMatch;
      var limit := if strstart > MaxDist() then strstart - MaxDist() else 0;
      var bestLen := WalkChain(hashHead, limit, chainLength, niceLen);
      return Within(bestLen);
    }

    // ------------------------------------------------------------------
    // Moving over the bytes of a literal or a match

    /** The current string has been entered, if it has three bytes. */
    ghost predicate Entered()
      reads this`data, this`base, this`owner, this`known, this`strstart
      reads this`since, this`insert, this`lookahead, this`insH, window, prev, head
    {
      && Sized() && Positions() && InWindow(window[..], data, base)
      && (insert > 0 ==> lookahead + insert < MIN_MATCH)
      && (if lookahead >= MIN_MATCH
          then Chains(ViewAt(strstart + 1)) && PrimedAt(strstart + 1)
          else Chains(ViewAt(strstart - insert)))
    }

    /** Enter the current string if it is long enough; NIL if it is not. */
    method Enter() returns (hashHead: nat)
      requires Valid() && lookahead > 0
      modifies this`insH, this`owner, this`known, prev, head
      ensures Entered() && old(known) <= known
      ensures hashHead != 0 && strstart - hashHead <= MaxDist() ==> Candidate(hashHead)
      ensures if lookahead < MIN_MATCH then hashHead == 0 else Newest(hashHead)
      ensures EnteredHere()
    {
      hide Chains, InWindow, KeyAt, Owns, Primed, HashSize, Tops;
      hashHead := 0;
      if lookahead >= MIN_MATCH {
        hashHead := InsertString(strstart);
        if hashHead != 0 && strstart - hashHead <= MaxDist() {
          OwnsKnown(ViewAt(strstart + 1), hashHead, KeyAt(bits, data, base + strstart));
        }
      }
    }

    /** The current string is known, if it has three bytes. */
    ghost predicate EnteredHere()
      reads this`lookahead, this`base, this`strstart, this`since, this`known
    {
      lookahead >= MIN_MATCH && base + strstart > since ==> base + strstart in known
    }

    /** No string of the current key has been entered later. */
    ghost predicate Newest(hashHead: nat)
      reads this`data, this`base, this`owner, this`known, this`strstart
      reads this`since, this`insert, this`lookahead, prev, head
    {
      && Sized() && Positions() && Shape(ViewAt(strstart + 1)) && base + strstart + 2 < |data|
      && Tops(ViewAt(strstart + 1), hashHead, KeyAt(bits, data, base + strstart), strstart)
    }

    lemma AtWindow(i: nat)
      requires Entered() && i < strstart + lookahead
      ensures i < window.Length && base + i < |data| && window[i] == data[base + i]
    {
      hide Chains, Primed, HashSize;
      WindowByte(window[..], data, base, i);
    }

    method PassByte()
      requires Entered() && lookahead > 0
      modifies this`strstart, this`lookahead
      ensures Valid() && strstart == old(strstart) + 1 && lookahead == old(lookahead) - 1
    {
      hide Chains, InWindow, Primed, HashSize;
      ghost var c := if lookahead >= MIN_MATCH then ViewAt(strstart + 1) else ViewAt(strstart - insert);
      strstart := strstart + 1;
      lookahead := lookahead - 1;
      ChainsAdvance(c, ViewAt(strstart - insert));
    }

    /** Inside a match: the string at strstart is entered or passed over, `left` bytes follow it. */
    ghost predicate Inside(left: nat)
      reads this`data, this`base, this`owner, this`known, this`strstart
      reads this`since, this`insert, this`lookahead, this`insH, window, prev, head
      ensures Inside(left) ==> base + strstart + 1 + left + lookahead == |data|
    {
      && Sized() && InWindow(window[..], data, base) && insert == 0
      && strstart + 1 + left + lookahead <= 2 * wsize
      && base + strstart + 1 + left + lookahead == |data|
      && Chains(ViewAt(strstart + 1))
      && (strstart + MIN_MATCH <= |data| - base ==> PrimedAt(strstart + 1))
    }

    method StepInside(left: nat, enter: bool)
      requires Inside(left) && left > 0
      requires enter ==> base + strstart + 3 < |data|
      requires !enter ==> base + strstart + 3 >= |data|
      modifies this`strstart, this`insH, this`owner, this`known, prev, head
      ensures Inside(left - 1) && strstart == old(strstart) + 1
      ensures old(known) <= known && (enter ==> base + strstart in known)
    {
      hide Chains, InWindow, Primed, HashSize, Linked, KeyAt, Inserted;
      ghost var c := ViewAt(strstart + 1);
      strstart := strstart + 1;
      if enter {
        ChainsAdvance(c, ViewAt(strstart));
        var _ := InsertString(strstart);
      } else {
        ChainsAdvance(c, ViewAt(strstart + 1));
      }
    }

    method LeaveMatch()
      requires Inside(0)
      modifies this`strstart
      ensures Valid() && strstart == old(strstart) + 1
    {
      hide Chains, InWindow, Primed, HashSize;
      ghost var c := ViewAt(strstart + 1);
      strstart := strstart + 1;
      ChainsAdvance(c, ViewAt(strstart));
    }

    /** Enter every string of a short match, the current one being entered already. */
    method EnterMatch()
      requires matchLength > 1 && Inside(matchLength - 1) && lookahead >= MIN_MATCH
      modifies this`strstart, this`matchLength, this`insH, this`owner, this`known, prev, head
      ensures Valid() && strstart == old(strstart) + old(matchLength) && matchLength == 0
      ensures old(known) <= known && forall p :: base + old(strstart) < p < base + strstart ==> p in known
    {
      hide Chains, InWindow, Primed, HashSize, Inside;
      ghost var end := strstart + matchLength;
      matchLength := matchLength - 1;
      while matchLength != 0
        invariant Inside(matchLength) && lookahead >= MIN_MATCH
        invariant strstart + matchLength + 1 == end && old(known) <= known
        invariant forall p :: base + old(strstart) < p <= base + strstart ==> p in known
        decreases matchLength
      {
        StepInside(matchLength, true);
        matchLength := matchLength - 1;
      }
      LeaveMatch();
    }

    /** deflate_fast's way past a match: enter its strings only if it is short. */
    method PassMatch()
      requires Entered() && MIN_MATCH <= matchLength <= lookahead
      requires matchLength <= MAX_MATCH && strstart <= 2 * wsize - MIN_LOOKAHEAD
      modifies this`strstart, this`lookahead, this`matchLength, this`insH, this`owner, this`known, prev, head
      ensures Valid() && strstart == old(strstart) + old(matchLength) && matchLength == 0 && old(known) <= known
      ensures old(matchLength <= maxLazy && lookahead >= matchLength + MIN_MATCH) ==>
        forall p :: base + old(strstart) < p < base + strstart ==> p in known
    {
      hide Chains, InWindow, Primed, HashSize, Update;
      lookahead := lookahead - matchLength;
      if matchLength <= maxLazy && lookahead >= MIN_MATCH {
        EnterMatch();
      } else {
        ghost var c := ViewAt(strstart + 1);
        strstart := strstart + matchLength;
        matchLength := 0;
        insH := Update(bits, window[strstart] as bv16, window[strstart + 1]);
        ChainsAdvance(c, ViewAt(strstart));
        if lookahead >= MIN_MATCH {
          WindowByte(window[..], data, base, strstart);
          WindowByte(window[..], data, base, strstart + 1);
          PrimedStart(bits, window[strstart], window[strstart + 1]);
        }
      }
    }

    /** deflate_slow's way past the previous match, whose first byte is already behind. */
    method PassPrevious()
      requires Entered() && MIN_MATCH <= prevLength <= lookahead + 1 && strstart > 0
      modifies this`strstart, this`lookahead, this`prevLength, this`matchAvailable
      modifies this`matchLength, this`insH, this`owner, this`known, prev, head
      ensures Valid() && strstart == old(strstart) + old(prevLength) - 1
      ensures matchLength == MIN_MATCH - 1 && !matchAvailable && old(known) <= known
      ensures forall p :: base + old(strstart) < p < base + strstart && p + MIN_MATCH <= |data| ==> p in known
    {
      hide Chains, InWindow, Primed, HashSize;
      var maxInsert := strstart + lookahead - MIN_MATCH;
      ghost var c := if lookahead >= MIN_MATCH then ViewAt(strstart + 1) else ViewAt(strstart);
      ChainsAdvance(c, ViewAt(strstart + 1));
      lookahead := lookahead - (prevLength - 1);
      prevLength := prevLength - 2;
      EnterPrevious(maxInsert);
      matchAvailable := false;
      matchLength := MIN_MATCH - 1;
    }

    /** Enter the strings of the previous match as far as they have three bytes. */
    method EnterPrevious(maxInsert: nat)
      requires Inside(prevLength) && maxInsert == |data| - base - MIN_MATCH
      modifies this`strstart, this`prevLength, this`insH, this`owner, this`known, prev, head
      ensures Valid() && strstart == old(strstart) + old(prevLength) + 1 && old(known) <= known
      ensures forall p :: base + old(strstart) < p < base + strstart && p + MIN_MATCH <= |data| ==> p in known
    {
      hide Chains, InWindow, Primed, HashSize;
      ghost var end := strstart + prevLength + 1;
      while prevLength != 0
        invariant Inside(prevLength)
        invariant strstart + prevLength + 1 == end && old(known) <= known
        invariant forall p :: base + old(strstart) < p <= base + strstart && p + MIN_MATCH <= |data| ==> p in known
        decreases prevLength
      {
        StepInside(prevLength, strstart + 1 <= maxInsert);
        prevLength := prevLength - 1;
      }
      LeaveMatch();
    }

    // ------------------------------------------------------------------
    // Symbols

    ghost function Tokens(): seq<Token>
      reads this`sent, this`pending
    {
      sent + pending
    }

    /** The symbols tallied so far stand for the first n bytes read, and are those their searches prescribe. */
    ghost predicate Tallied(n: nat)
      reads this`sent, this`pending, this`data, this`log, this`ends, this`begins, this`since
      ensures Tallied(n) ==> |log| == |Tokens()|
    {
      && Emitted(Tokens(), data, n, MaxDist()) && Parsed(Cfg(), data, log, Tokens(), n)
      && AllAttentive(Cfg(), log, ends) && Restarted(log, begins, since)
    }

    /** The dictionary has every string that it should by now. */
    ghost predicate Remembers()
      reads this`sent, this`pending, this`log, this`known, this`since
    {
      Remembered(Cfg(), log, Tokens(), known, since)
    }

    /** c is what the next symbol t, at place n, rests on. */
    ghost predicate Due(c: Choice, t: Token, n: nat)
      reads this
    {
      && |log| == |Tokens()| && Chosen(Cfg(), data, c, t) && c.here.at == n && c.since == since
      && c.here.prev == ToBetter(Cfg(), log, Tokens()) && Remembered(Cfg(), log, Tokens(), c.here.known, c.since)
      && Attentive(c.here, ends) && (lazy && c.here.length >= MIN_MATCH ==> Attentive(c.next, ends))
    }

    /** A symbol joins the others. */
    lemma TallyNext(c: Choice, t: Token, n: nat)
      requires Tallied(n) && Due(c, t, n)
      ensures Parsed(Cfg(), data, log + [c], Tokens() + [t], n + Width(t)) && AllAttentive(Cfg(), log + [c], ends)
      ensures Restarted(log + [c], begins, since)
    {
      hide Emitted, Chosen, Remembered, Attentive;
      RestartedNext(log, begins, since, c);
      ParsedNext(Cfg(), data, log, Tokens(), n, c, t);
      AttentiveNext(Cfg(), log, ends, c);
    }

    /** _tr_tally_lit */
    method TallyLiteral(c: Byte, ghost n: nat, ghost ch: Choice) returns (bflush: bool)
      requires Tallied(n) && n < |data| && c == data[n] && Due(ch, Literal(c), n)
      modifies this`pending, this`log
      ensures Tallied(n + 1) && |pending| == |old(pending)| + 1
      ensures log == old(log) + [ch] && Tokens() == old(Tokens()) + [Literal(c)]
      ensures bflush <==> |pending| == litBufsize - 1
    {
      hide Emitted, Parsed, AllAttentive, Due, Restarted;
      TallyNext(ch, Literal(c), n);
      log := log + [ch];
      EmitLiteral(Tokens(), data, n, MaxDist());
      assert sent + (pending + [Literal(c)]) == Tokens() + [Literal(c)];
      pending := pending + [Literal(c)];
      bflush := |pending| == litBufsize - 1;
    }

    /** _tr_tally_dist */
    method TallyMatch(distance: nat, length: nat, ghost n: nat, ghost ch: Choice) returns (bflush: bool)
      requires Tallied(n) && Repeats(data, n, distance, length) && MIN_MATCH <= length <= MAX_MATCH
      requires distance <= MaxDist() && Due(ch, Match(distance, length), n)
      modifies this`pending, this`log
      ensures Tallied(n + length) && |pending| == |old(pending)| + 1
      ensures log == old(log) + [ch] && Tokens() == old(Tokens()) + [Match(distance, length)]
      ensures bflush <==> |pending| == litBufsize - 1
    {
      hide Emitted, Parsed, AllAttentive, Due, Restarted;
      TallyNext(ch, Match(distance, length), n);
      log := log + [ch];
      EmitMatch(Tokens(), data, n, MaxDist(), distance, length);
      assert sent + (pending + [Match(distance, length)]) == Tokens() + [Match(distance, length)];
      pending := pending + [Match(distance, length)];
      bflush := |pending| == litBufsize - 1;
    }

    /** FLUSH_BLOCK_ONLY; whether the output buffer is then full is the environment's choice. */
    method FlushBlock() returns (full: bool)
      modifies this`pending, this`sent, this`asked
      ensures pending == [] && Tokens() == old(Tokens())
      ensures Asked(refuse, old(asked), asked, full)
    {
      sent := sent + pending;
      pending := [];
      full := refuse(asked);
      asked := asked + 1;
    }

    /** FLUSH_BLOCK when the symbol buffer is full. */
    method FlushFull(bflush: bool) returns (full: bool)
      requires bflush <==> |pending| == litBufsize - 1
      requires |pending| <= litBufsize - 1 && litBufsize >= 2
      modifies this`pending, this`sent, this`asked
      ensures |pending| <= litBufsize - 2 && Tokens() == old(Tokens())
      ensures old(SlowValid()) ==> SlowValid()
      ensures forall n: nat :: old(Tallied(n)) ==> Tallied(n)
      ensures old(Remembers()) ==> Remembers()
      ensures Asked(refuse, old(asked), asked, full)
    {
      hide Chains, InWindow, Primed, HashSize, Emitted, Repeats, Asked, Parsed, Remembered, AllAttentive, Restarted;
      hide Searched;
      AskedNone(refuse, asked);
      full := false;
      if bflush {
        full := FlushBlock();
      }
    }

    // ------------------------------------------------------------------
    // deflate_fast

    ghost predicate FastValid()
      reads this, window, prev, head
      ensures FastValid() ==> strstart + lookahead <= 2 * wsize
    {
      && Valid() && prevLength == MIN_MATCH - 1 && matchLength < MIN_MATCH && !matchAvailable && !lazy
      && Tallied(base + strstart) && Remembers()
    }

    /** The search at the current string, as far as it has come. */
    ghost function Current(): Search
      reads this`base, this`strstart, this`lookahead, this`known, this`prevLength, this`matchLength, this`matchStart
    {
      Search.Search(base + strstart, lookahead, known, prevLength,
                    if matchLength < MIN_MATCH then MIN_MATCH - 1 else matchLength, base + matchStart)
    }

    /** The lookahead is full, or this is where a flushing call's input ends. */
    ghost predicate Sighted()
      reads this`lookahead, this`data, this`ends
    {
      lookahead >= MIN_LOOKAHEAD || |data| in ends
    }

    /** A known string that agrees with the current one lies within the window. */
    lemma KnownInside(q: nat)
      requires Entered() && lookahead >= MIN_MATCH && q in known && q < base + strstart
      requires base + strstart - q < MaxDist() && Repeats(data, base + strstart, base + strstart - q, MIN_MATCH)
      ensures q > base && var c, p := ViewAt(strstart + 1), q - base;
        Owns(c, p, KeyAt(bits, data, base + strstart)) && p + wsize > strstart && p < 2 * wsize
    {
      hide InWindow, Primed, HashSize, Owns, Slot;
      KnownOwns(ViewAt(strstart + 1), q - base);
      KeyRepeats(bits, data, base + strstart, q);
    }

    /** Where the newest string of the key is out of reach, no string agrees on three bytes. */
    lemma NothingNear(hashHead: nat)
      requires Entered() && lookahead >= MIN_MATCH && Newest(hashHead)
      requires hashHead == 0 || strstart - hashHead > MaxDist()
      ensures Unbeaten(Cfg(), data, Current(), MIN_MATCH - 1)
    {
      hide Chains, InWindow, Primed, HashSize, Owns, Crowded, KeyAt, Entered, Newest;
      forall q: nat | q in known && q < base + strstart && base + strstart - q < MaxDist()
        ensures !Repeats(data, base + strstart, base + strstart - q, MIN_MATCH)
      {
        NotNear(hashHead, q);
      }
    }

    lemma NotNear(hashHead: nat, q: nat)
      requires Entered() && lookahead >= MIN_MATCH && Newest(hashHead)
      requires hashHead == 0 || strstart - hashHead > MaxDist()
      requires q in known && q < base + strstart && base + strstart - q < MaxDist()
      ensures !Repeats(data, base + strstart, base + strstart - q, MIN_MATCH)
    {
      hide Chains, InWindow, Primed, HashSize, Owns, KeyAt, Repeats, Newest;
      if Repeats(data, base + strstart, base + strstart - q, MIN_MATCH) {
        KnownInside(q);
        NewestAbove(hashHead, q - base);
      }
    }

    /** The chain leads to every known string of the key within reach, or through as many as are looked at. */
    lemma ReachFinds(hashHead: nat, p: nat)
      requires Entered() && lookahead >= MIN_MATCH && Newest(hashHead) && Candidate(hashHead)
      requires Owns(ViewAt(strstart + 1), p, KeyAt(bits, data, base + strstart))
      requires 0 < p < strstart && strstart - p < MaxDist()
      ensures var w := Reachable(hashHead);
        && Descends(ViewAt(strstart + 1), w, KeyAt(bits, data, base + strstart), strstart)
        && (forall x :: x in w ==> x > 0 && x + wsize > strstart)
        && (p in w || (|w| == Tries(Cfg(), Current()) && forall x :: x in w ==> x > p))
    {
      hide Chains, InWindow, Primed, HashSize, Owns, Slot, Tops, KeyAt, Newest, Descends, Linked, Walk;
      var limit := if strstart > MaxDist() then strstart - MaxDist() else 0;
      NewestAbove(hashHead, p);
      ChainFinds(ViewAt(strstart + 1), hashHead, KeyAt(bits, data, base + strstart), strstart, p, limit,
                 Tries(Cfg(), Current()));
    }

    lemma NewestAbove(hashHead: nat, p: nat)
      requires Newest(hashHead) && p < strstart < p + wsize
      requires Owns(ViewAt(strstart + 1), p, KeyAt(bits, data, base + strstart))
      ensures p <= hashHead
    {
      hide HashSize, Owns, KeyAt;
    }

    /** When the chain has been searched, no known string does better unless the search ended before it. */
    lemma SearchSettles(hashHead: nat, len: nat)
      requires Entered() && lookahead >= MIN_MATCH && Newest(hashHead) && Candidate(hashHead)
      requires 2 <= len < lookahead && Settled(window[..], strstart, Reachable(hashHead), [], len)
      ensures Unbeaten(Cfg(), data, Current(), len)
    {
      hide Chains, InWindow, Primed, HashSize, Owns, Crowded, KeyAt, Settled, Entered, Candidate, Newest;
      forall q: nat | len < MAX_MATCH && q in known && q < base + strstart && base + strstart - q < MaxDist()
        && Repeats(data, base + strstart, base + strstart - q, len + 1)
        ensures Crowded(Cfg(), data, Current(), q)
      {
        SearchSettlesAt(hashHead, len, q);
      }
    }

    lemma SearchSettlesAt(hashHead: nat, len: nat, q: nat)
      requires Entered() && lookahead >= MIN_MATCH && Newest(hashHead) && Candidate(hashHead)
      requires 2 <= len < lookahead && len < MAX_MATCH
      requires Settled(window[..], strstart, Reachable(hashHead), [], len)
      requires q in known && q < base + strstart && base + strstart - q < MaxDist()
      requires Repeats(data, base + strstart, base + strstart - q, len + 1)
      ensures Crowded(Cfg(), data, Current(), q)
    {
      hide Chains, Primed, HashSize, Owns, KeyAt, Slot, ChainFrom, Tops;
      KnownInside(q);
      var p: nat := q - base;
      var w := Reachable(hashHead);
      ReachFinds(hashHead, p);
      RepeatsSame(window[..], data, base, strstart, p, len + 1);
      assert p !in w;
      MetStrings(w);
      forall i | 0 <= i < |w| ensures Absolute(base, w)[i] > q {
        assert w[i] in w;
      }
    }

    /** Live strings of the key have been met in the data. */
    lemma MetStrings(w: seq<nat>)
      requires Entered() && lookahead >= MIN_MATCH
      requires Descends(ViewAt(strstart + 1), w, KeyAt(bits, data, base + strstart), strstart)
      requires forall x :: x in w ==> x > 0 && x + wsize > strstart
      ensures Met(Cfg(), data, Current(), Absolute(base, w))
    {
      hide Chains, InWindow, Primed, HashSize, Owns, KeyAt;
      forall i | 0 <= i < |w|
        ensures base + w[i] in known && SameKey(Cfg(), data, base + w[i], base + strstart)
      {
        assert w[i] in w;
        OwnsKnown(ViewAt(strstart + 1), w[i], KeyAt(bits, data, base + strstart));
      }
    }

    /** What longest_match has answered, told by the data. */
    lemma SearchFound(hashHead: nat, len: nat)
      requires Entered() && lookahead >= MIN_MATCH && Newest(hashHead) && Candidate(hashHead)
      requires 2 <= len <= lookahead && len <= MAX_MATCH && (len > prevLength ==> Matched(len))
      requires len >= niceMatch || len == lookahead || Settled(window[..], strstart, Reachable(hashHead), [], len)
      ensures Found(Cfg(), data, Current(), len)
    {
      hide Chains, InWindow, Primed, HashSize, Owns, KeyAt, Settled, Candidate, Newest, Unbeaten;
      if len < niceMatch && len < lookahead {
        SearchSettles(hashHead, len);
      }
    }

    /** No string is near enough to search. */
    lemma NoneFound(hashHead: nat)
      requires Entered() && lookahead >= MIN_MATCH && Newest(hashHead) && prevLength >= 2
      requires hashHead == 0 || strstart - hashHead > MaxDist()
      ensures Found(Cfg(), data, Current(), MIN_MATCH - 1)
    {
      hide Chains, InWindow, Primed, HashSize, Owns, KeyAt, Newest, Unbeaten;
      NothingNear(hashHead);
    }

    /** Enter the current string and look for a match. */
    method FastSearch()
      requires FastValid() && lookahead > 0 && strstart <= 2 * wsize - MIN_LOOKAHEAD
      modifies this`matchLength, this`matchStart, this`insH, this`owner, this`known, prev, head
      ensures Entered() && Tallied(base + strstart) && Remembers() && old(known) <= known
      ensures EnteredHere()
      ensures Searched(Cfg(), data, Current())
      ensures matchLength >= MIN_MATCH ==> matchLength <= lookahead && Matched(matchLength)
    {
      hide Chains, InWindow, Primed, HashSize, Repeats, Tallied, Remembered, Found, Settled, Entered, Core, Ready;
      hide Sized;
      hide Newest, Candidate, Unbeaten;
      var hashHead := Enter();
      RememberedMore(Cfg(), log, Tokens(), old(known), known, since);
      if hashHead != 0 && strstart - hashHead <= MaxDist() {
        matchLength := LongestMatch(hashHead);
        SearchFound(hashHead, matchLength);
      } else if lookahead >= MIN_MATCH {
        NoneFound(hashHead);
      }
    }

    method FastMatch() returns (bflush: bool)
      requires Entered() && Tallied(base + strstart) && prevLength == MIN_MATCH - 1 && !matchAvailable && !lazy
      requires MIN_MATCH <= matchLength <= lookahead && Matched(matchLength) && Remembers() && Sighted()
      requires strstart <= 2 * wsize - MIN_LOOKAHEAD && Searched(Cfg(), data, Current())
      requires EnteredHere()
      modifies this`strstart, this`lookahead, this`matchLength, this`pending, this`log
      modifies this`insH, this`owner, this`known, prev, head
      ensures FastValid() && strstart > old(strstart) && |pending| == |old(pending)| + 1
      ensures old(known) <= known
      ensures Tokens() == old(Tokens()) + [Match(old(strstart - matchStart), old(matchLength))]
      ensures bflush <==> |pending| == litBufsize - 1
    {
      hide Chains, InWindow, Primed, HashSize, Searched, Remembered, Repeats, Entered, Tallied, Valid, Sized;
      ghost var ch, t := Choice(Current(), Current(), since), Match(strstart - matchStart, matchLength);
      ghost var l, ts := log, Tokens();
      FastDue(ch, t);
      SearchedInside(Cfg(), data, Current());
      bflush := TallyMatch(strstart - matchStart, matchLength, base + strstart, ch);
      PassMatch();
      NowRemembers(l, ts, old(known), ch, t);
    }

    /** A symbol has been tallied and its strings entered. */
    lemma NowRemembers(l: seq<Choice>, ts: seq<Token>, before: set<nat>, ch: Choice, t: Token)
      requires Remembered(Cfg(), l, ts, before, since) && before <= known && ch.since == since
      requires log == l + [ch] && Tokens() == ts + [t]
      requires forall p: nat :: Entering(Cfg(), ch, t, p) ==> p in known
      ensures Remembers()
    {
      hide Remembered, Entering;
      RememberedMore(Cfg(), l, ts, before, known, since);
      RememberedNext(Cfg(), l, ts, known, since, ch, t);
    }

    /** The search just made is what the next symbol of deflate_fast rests on. */
    lemma FastDue(ch: Choice, t: Token)
      requires Entered() && Tallied(base + strstart) && Remembers() && Sighted() && !lazy
      requires prevLength == MIN_MATCH - 1 && Searched(Cfg(), data, Current()) && lookahead > 0
      requires matchLength >= MIN_MATCH ==> 0 <= matchStart < strstart
      requires ch == Choice(Current(), Current(), since)
      requires t == if matchLength >= MIN_MATCH then Match(strstart - matchStart, matchLength)
                    else Literal(data[base + strstart])
      ensures Due(ch, t, base + strstart)
    {
      hide Chains, InWindow, Primed, HashSize, Emitted, Searched, Remembered;
    }

    method FastLiteral() returns (bflush: bool)
      requires Entered() && Tallied(base + strstart) && prevLength == MIN_MATCH - 1 && !matchAvailable && !lazy
      requires matchLength < MIN_MATCH && lookahead > 0 && Remembers() && Sighted()
      requires Searched(Cfg(), data, Current())
      requires EnteredHere()
      modifies this`strstart, this`lookahead, this`pending, this`log
      ensures FastValid() && strstart > old(strstart) && |pending| == |old(pending)| + 1
      ensures Tokens() == old(Tokens()) + [Literal(data[old(base + strstart)])]
      ensures bflush <==> |pending| == litBufsize - 1
    {
      hide Chains, InWindow, Primed, HashSize, Tallied, Searched, Remembered, Entered, Valid, Sized;
      AtWindow(strstart);
      ghost var ch, t := Choice(Current(), Current(), since), Literal(window[strstart]);
      ghost var l, ts := log, Tokens();
      SearchedInside(Cfg(), data, Current());
      FastDue(ch, t);
      bflush := TallyLiteral(window[strstart], base + strstart, ch);
      PassByte();
      NowRemembers(l, ts, known, ch, t);
    }

    /**
     * One round of deflate_fast after the window has been filled: a match
     * if there is one, the longest that the search comes to, and a literal
     * only if there is none.
     */
    method FastStep() returns (bflush: bool, ghost s: Search)
      requires FastValid() && lookahead > 0 && strstart <= 2 * wsize - MIN_LOOKAHEAD && Sighted()
      modifies this`strstart, this`lookahead, this`matchLength, this`matchStart, this`pending, this`log
      modifies this`insH, this`owner, this`known, prev, head
      ensures FastValid() && strstart > old(strstart) && |pending| == |old(pending)| + 1
      ensures lookahead < old(lookahead)
      ensures bflush <==> |pending| == litBufsize - 1
      ensures Searched(Cfg(), data, s) && s.at == old(base + strstart) && s.ahead == old(lookahead)
      ensures old(known) <= s.known <= known && s.prev == MIN_MATCH - 1
      ensures s.length >= MIN_MATCH ==> s.start < s.at && Tokens() == old(Tokens()) + [Match(s.at - s.start, s.length)]
      ensures s.length < MIN_MATCH ==> Tokens() == old(Tokens()) + [Literal(data[s.at])]
    {
      hide Entered, Core, Tallied, Searched, Remembers, Repeats;
      FastSearch();
      s := Current();
      if matchLength >= MIN_MATCH {
        bflush := FastMatch();
      } else {
        bflush := FastLiteral();
      }
    }

    method FastFill()
      requires FastValid() && lookahead < MIN_LOOKAHEAD
      modifies this`nextIn, this`strstart, this`lookahead, this`insert, this`insH, this`matchStart
      modifies this`data, this`base, this`owner, this`known, window, prev, head
      ensures FastValid() && strstart <= 2 * wsize - MIN_LOOKAHEAD
      ensures lookahead >= MIN_LOOKAHEAD || nextIn == []
      ensures data + nextIn == old(data + nextIn)
      ensures |nextIn| + lookahead == old(|nextIn| + lookahead)
    {
      hide Chains, InWindow, Primed, HashSize, Emitted, Parsed, AllAttentive, Restarted, Remembered;
      ghost var d, n, at := data, nextIn, base + strstart;
      FillWindow();
      ReadExtends(d, n, data, nextIn);
      EmitRead(Tokens(), d, data[|d|..], at, MaxDist());
      ParsedRead(Cfg(), d, data[|d|..], log, Tokens(), at);
      RememberedMore(Cfg(), log, Tokens(), old(known), known, since);
      assert |d + n| == |data + nextIn|;
    }

    /** What both strategies do at the end of the input: two strings are left to enter. */
    method SetInsert()
      requires Valid() && lookahead == 0
      modifies this`insert
      ensures Valid() && insert == if strstart < 2 then strstart else 2
    {
      hide Chains, InWindow, HashSize;
      ghost var c := ViewAt(strstart - insert);
      insert := if strstart < MIN_MATCH - 1 then strstart else MIN_MATCH - 1;
      ChainsRetract(c, ViewAt(strstart - insert));
    }

    method FinishBlock(flush: Flush) returns (r: BlockState, ghost full: bool)
      requires flush != NoFlush
      modifies this`pending, this`sent, this`asked
      ensures pending == [] && sent == Tokens() == old(Tokens())
      ensures r == if flush == Finish then (if full then FinishStarted else FinishDone)
                   else if full then NeedMore else BlockDone
      ensures Asked(refuse, old(asked), asked, full)
    {
      if flush == Finish {
        var refused := FlushBlock();
        return if refused then FinishStarted else FinishDone, refused;
      }
      if |pending| > 0 {
        var refused := FlushBlock();
        if refused {
          return NeedMore, true;
        }
      }
      return BlockDone, false;
    }

    /** A step, and FLUSH_BLOCK when the symbol buffer is full. */
    method FastRound() returns (full: bool)
      requires FastValid() && lookahead > 0 && strstart <= 2 * wsize - MIN_LOOKAHEAD
      requires |pending| <= litBufsize - 2 && Sighted()
      modifies this`strstart, this`lookahead, this`matchLength, this`matchStart, this`pending, this`log
      modifies this`sent, this`asked, this`insH, this`owner, this`known, prev, head
      ensures FastValid() && strstart > old(strstart) && |pending| <= litBufsize - 2
      ensures lookahead < old(lookahead)
      ensures Asked(refuse, old(asked), asked, full)
    {
      hide Chains, InWindow, Primed, Emitted, HashSize, Asked, Parsed, AllAttentive, Restarted, Remembered, Searched;
      var bflush, _ := FastStep();
      full := FlushFull(bflush);
    }

    method FastEnd(flush: Flush) returns (r: BlockState, ghost full: bool)
      requires FastValid() && flush != NoFlush && nextIn == [] && lookahead == 0
      modifies this`insert, this`pending, this`sent, this`asked
      ensures FastValid() && pending == [] && Completes(flush, r, full, nextIn, lookahead)
      ensures Emitted(sent, data, |data|, MaxDist()) && Asked(refuse, old(asked), asked, full)
    {
      hide Chains, InWindow, Primed, Emitted, HashSize, Asked, Parsed, AllAttentive, Restarted, Remembered;
      SetInsert();
      r, full := FinishBlock(flush);
    }

    /** A flushing call has noted where its input ends. */
    ghost predicate Marked(flush: Flush)
      reads this`data, this`nextIn, this`ends
    {
      flush != NoFlush ==> |data| + |nextIn| in ends
    }

    /** deflate_fast */
    method Fast(flush: Flush) returns (r: BlockState, ghost full: bool)
      requires FastValid() && |pending| <= litBufsize - 2 && Marked(flush)
      modifies this, window, prev, head
      ensures FastValid() && |pending| <= litBufsize - 2
      ensures ends == old(ends) && since == old(since) && begins == old(begins)
      ensures data + nextIn == old(data + nextIn)
      ensures Completes(flush, r, full, nextIn, lookahead)
      ensures Asked(refuse, old(asked), asked, full)
      ensures !r.NeedMore? ==> Emitted(sent, data, |data|, MaxDist())
    {
      hide FastValid, Emitted, Asked;
      AskedNone(refuse, asked);
      while true
        invariant FastValid() && |pending| <= litBufsize - 2 && Marked(flush)
        invariant ends == old(ends) && since == old(since) && begins == old(begins)
        invariant data + nextIn == old(data + nextIn)
        invariant Asked(refuse, old(asked), asked, false)
        decreases |nextIn| + lookahead
      {
        if lookahead < MIN_LOOKAHEAD {
          FastFill();
          if lookahead < MIN_LOOKAHEAD && flush == NoFlush {
            return NeedMore, false;
          }
          if lookahead == 0 {
            break;
          }
        }
        ghost var before := asked;
        var refused := FastRound();
        AskedMore(refuse, old(asked), before, asked, refused);
        if refused {
          return NeedMore, true;
        }
      }
      ghost var before := asked;
      r, full := FastEnd(flush);
      AskedMore(refuse, old(asked), before, asked, full);
    }

    // ------------------------------------------------------------------
    // deflate_slow

    ghost function Deferred(): nat
      reads this
    {
      if matchAvailable then 1 else 0
    }

    /** A match found for the string before the current one, not yet tallied. */
    ghost predicate Lazy(start: int, length: nat)
      reads this`strstart, this`base, this`data
      requires strstart > 0
    {
      start < strstart - 1 && strstart - 1 - start <= MaxDist() && length <= MAX_MATCH
      && Repeats(data, base + strstart - 1, strstart - 1 - start, length)
    }

    /** here is the search for the deferred byte, which found len bytes at start. */
    ghost predicate Held(len: nat, start: int)
      reads this`here, this`strstart, this`base, this`data, this`known, this`ends, this`since
      reads this`log, this`sent, this`pending
    {
      && here.at == base + strstart - 1 && here.length == len
      && (len >= MIN_MATCH ==> len > here.prev && 0 <= here.start == base + start)
      && Searched(Cfg(), data, here) && here.known <= known && Attentive(here, ends) && since <= here.at
      && (here.ahead >= MIN_MATCH && here.at > since ==> here.at in here.known)
      && |log| == |Tokens()| && here.prev == ToBetter(Cfg(), log, Tokens())
      && Remembered(Cfg(), log, Tokens(), here.known, since)
    }

    ghost predicate SlowValid()
      reads this, window, prev, head
      ensures SlowValid() ==> strstart + lookahead <= 2 * wsize
    {
      && Valid() && 2 <= matchLength <= MAX_MATCH && lazy
      && (matchAvailable ==> strstart > 0)
      && (matchLength >= MIN_MATCH ==> matchAvailable && Lazy(matchStart, matchLength))
      && Tallied(base + strstart - Deferred()) && Remembers()
      && if matchAvailable then Held(matchLength, matchStart) else ToBetter(Cfg(), log, Tokens()) == MIN_MATCH - 1
    }

    method Remember(ghost hashHead: nat)
      requires Entered() && (if lookahead < MIN_MATCH then hashHead == 0 else Newest(hashHead))
      requires hashHead != 0 && strstart - hashHead <= MaxDist() ==> Candidate(hashHead)
      modifies this`matchLength, this`prevLength, this`prevMatch
      ensures Entered() && (if lookahead < MIN_MATCH then hashHead == 0 else Newest(hashHead))
      ensures hashHead != 0 && strstart - hashHead <= MaxDist() ==> Candidate(hashHead)
      ensures prevLength == old(matchLength) && prevMatch == old(matchStart)
      ensures matchLength == MIN_MATCH - 1
    {
      hide Chains, InWindow, Primed, HashSize, Owns, KeyAt, Tops;
      prevLength, prevMatch := matchLength, matchStart;
      matchLength := MIN_MATCH - 1;
    }

    /** Drop the match just found if it is short, or of three bytes and far away. */
    method DropShort()
      requires lazy && 0 < lookahead && base + strstart + lookahead <= |data| && !Skipped(Cfg(), Current())
      requires 2 <= matchLength && Found(Cfg(), data, Current(), matchLength)
      modifies this`matchLength
      ensures Searched(Cfg(), data, Current()) && (matchLength == old(matchLength) || matchLength == MIN_MATCH - 1)
    {
      hide Found, Searched;
      ghost var raw, s := matchLength, Current();
      if matchLength <= 5
         && (filtered || (matchLength == MIN_MATCH && strstart - matchStart > TOO_FAR))
      {
        matchLength := MIN_MATCH - 1;
      }
      FoundLength(Cfg(), data, s, raw, matchLength);
    }

    /** Look for a match better than the previous one; drop it if it is short and far. */
    method BetterMatch(hashHead: nat)
      requires Entered() && 2 <= prevLength <= MAX_MATCH && matchLength == MIN_MATCH - 1 && lazy && lookahead > 0
      requires strstart <= 2 * wsize - MIN_LOOKAHEAD
      requires if lookahead < MIN_MATCH then hashHead == 0 else Newest(hashHead)
      requires hashHead != 0 && strstart - hashHead <= MaxDist() ==> Candidate(hashHead)
      modifies this`matchLength, this`matchStart
      ensures Entered() && 2 <= matchLength <= MAX_MATCH && Searched(Cfg(), data, Current())
      ensures matchLength > prevLength ==> Matched(matchLength)
    {
      hide Chains, InWindow, Primed, HashSize, Owns, KeyAt, Repeats, Found, Candidate, Newest, Settled, Searched;
      hide Matched, Reachable;
      if hashHead != 0 && prevLength < maxLazy && strstart - hashHead <= MaxDist() {
        matchLength := LongestMatch(hashHead);
        SearchFound(hashHead, matchLength);
        DropShort();
      } else if lookahead >= MIN_MATCH && prevLength < maxLazy {
        NoneFound(hashHead);
        FoundLength(Cfg(), data, Current(), matchLength, matchLength);
      } else {
        SearchSkipped(Cfg(), data, Current());
      }
    }

    /** Enter the current string, remember the previous match and look for a better one. */
    method SlowSearch()
      requires SlowValid() && lookahead > 0 && strstart <= 2 * wsize - MIN_LOOKAHEAD
      modifies this`matchLength, this`matchStart, this`prevLength, this`prevMatch
      modifies this`insH, this`owner, this`known, prev, head
      ensures Entered() && Tallied(base + strstart - Deferred()) && Remembers() && old(known) <= known
      ensures EnteredHere()
      ensures prevLength == old(matchLength) && prevMatch == old(matchStart)
      ensures 2 <= matchLength <= MAX_MATCH && Searched(Cfg(), data, Current())
      ensures matchLength > prevLength ==> Matched(matchLength)
      ensures prevLength >= MIN_MATCH ==> matchAvailable && Lazy(prevMatch, prevLength)
      ensures if matchAvailable then Held(prevLength, prevMatch)
              else prevLength == MIN_MATCH - 1 == ToBetter(Cfg(), log, Tokens())
    {
      hide Chains, InWindow, Primed, HashSize, Entered, Candidate, Newest, Repeats, Tallied, Core, Ready, Sized;
      hide Remembered, Searched, Positions, Matched, Attentive, Parsed, AllAttentive, Restarted;
      var hashHead := Enter();
      RememberedMore(Cfg(), log, Tokens(), old(known), known, since);
      Remember(hashHead);
      BetterMatch(hashHead);
    }

    /** The current match is no better: tally the previous one. */
    method SlowMatch() returns (full: bool)
      requires Entered() && |pending| <= litBufsize - 2 && matchAvailable && strstart > 0 && lazy
      requires Tallied(base + strstart - 1) && prevLength >= MIN_MATCH && Lazy(prevMatch, prevLength)
      requires Remembers() && Held(prevLength, prevMatch) && lookahead > 0 && Sighted()
      requires 2 <= matchLength <= prevLength && Searched(Cfg(), data, Current())
      requires EnteredHere()
      modifies this`strstart, this`lookahead, this`prevLength, this`matchAvailable, this`pending, this`log
      modifies this`sent, this`asked, this`matchLength, this`insH, this`owner, this`known, prev, head
      ensures SlowValid() && strstart > old(strstart) && |pending| <= litBufsize - 2 && old(known) <= known
      ensures Tokens() == old(Tokens()) + [Match(old(strstart - 1 - prevMatch), old(prevLength))]
      ensures Asked(refuse, old(asked), asked, full)
    {
      hide SlowValid, Entered, Tallied, Lazy, Asked, Sized, Searched, Remembers, Held;
      var bflush := TallyPrevious();
      full := FlushFull(bflush);
    }

    /** What the symbol for the deferred byte rests on. */
    ghost function Both(): Choice
      reads this
    {
      Choice(here, Current(), since)
    }

    lemma DeferredDue(t: Token)
      requires Entered() && strstart > 0 && lookahead > 0 && lazy
      requires Held(prevLength, prevMatch) && Sighted() && 2 <= matchLength && Searched(Cfg(), data, Current())
      requires prevLength >= MIN_MATCH ==> prevMatch < strstart - 1
      requires t == if prevLength >= MIN_MATCH && matchLength <= prevLength
                    then Match(strstart - 1 - prevMatch, prevLength)
                    else Literal(data[base + strstart - 1])
      ensures Due(Both(), t, base + strstart - 1)
    {
      hide HashSize, Searched, Remembered, Chains, InWindow, Primed;
    }

    /** The symbol for the deferred byte has been passed, and the dictionary has what it should. */
    lemma DeferredPassed(ch: Choice, t: Token, l: seq<Choice>, ts: seq<Token>, before: set<nat>)
      requires Remembered(Cfg(), l, ts, before, since) && before <= known && ch.since == since && lazy
      requires log == l + [ch] && Tokens() == ts + [t]
      requires Searched(Cfg(), data, ch.here) && ch.here.known <= known
      requires ch.here.ahead >= MIN_MATCH && ch.here.at > since ==> ch.here.at in ch.here.known
      requires forall p :: ch.here.at < p < ch.here.at + Width(t) && p > since && p + MIN_MATCH <= |data| ==> p in known
      ensures Remembers()
    {
      hide Remembered;
      SearchedInside(Cfg(), data, ch.here);
      NowRemembers(l, ts, before, ch, t);
    }

    method TallyPrevious() returns (bflush: bool)
      requires Entered() && |pending| <= litBufsize - 2 && matchAvailable && strstart > 0 && lazy
      requires Tallied(base + strstart - 1) && prevLength >= MIN_MATCH && Lazy(prevMatch, prevLength)
      requires Remembers() && Held(prevLength, prevMatch) && lookahead > 0 && Sighted()
      requires 2 <= matchLength <= prevLength && Searched(Cfg(), data, Current())
      requires EnteredHere()
      modifies this`strstart, this`lookahead, this`prevLength, this`matchAvailable, this`pending, this`log
      modifies this`matchLength, this`insH, this`owner, this`known, prev, head
      ensures SlowValid() && strstart > old(strstart) && |pending| <= litBufsize - 1 && old(known) <= known
      ensures Tokens() == old(Tokens()) + [Match(old(strstart - 1 - prevMatch), old(prevLength))]
      ensures bflush <==> |pending| == litBufsize - 1
    {
      hide Chains, InWindow, Primed, HashSize, Remembered, Searched, Repeats, Entered, Tallied, Valid, Sized, Due;
      ghost var ch, t := Both(), Match(strstart - 1 - prevMatch, prevLength);
      ghost var l, ts := log, Tokens();
      LazyInside();
      DeferredDue(t);
      bflush := TallyMatch(strstart - 1 - prevMatch, prevLength, base + strstart - 1, ch);
      PassPrevious();
      DeferredPassed(ch, t, l, ts, old(known));
    }

    lemma LazyInside()
      requires Entered() && strstart > 0 && Lazy(prevMatch, prevLength)
      ensures prevLength <= lookahead + 1 && |data| == base + strstart + lookahead
    {
      hide Chains, InWindow, Primed, HashSize, Repeats;
      RepeatsInside(data, base + strstart - 1, strstart - 1 - prevMatch, prevLength);
    }

    /** Tally the byte before the current one alone; the current match may still be bettered. */
    method SlowLiteral() returns (full: bool)
      requires Entered() && lookahead > 0 && |pending| <= litBufsize - 2 && lazy
      requires matchAvailable && strstart > 0 && Tallied(base + strstart - 1)
      requires 2 <= matchLength <= MAX_MATCH && (matchLength >= MIN_MATCH ==> Matched(matchLength))
      requires prevLength < MIN_MATCH || matchLength > prevLength
      requires Remembers() && Held(prevLength, prevMatch) && Sighted() && Searched(Cfg(), data, Current())
      requires prevLength >= MIN_MATCH ==> prevMatch < strstart - 1
      requires EnteredHere()
      modifies this`strstart, this`lookahead, this`pending, this`log, this`here, this`sent, this`asked
      ensures SlowValid() && strstart == old(strstart) + 1 && |pending| <= litBufsize - 2
      ensures Tokens() == old(Tokens()) + [Literal(data[old(base + strstart - 1)])]
      ensures Asked(refuse, old(asked), asked, full)
    {
      hide Chains, InWindow, Primed, HashSize, Repeats, Asked, Tallied, Remembered, Searched, Entered, Valid, Sized;
      full := TallyBehind();
      Defer();
    }

    /** Tally the byte before the current one, and flush if that fills the symbol buffer. */
    method TallyBehind() returns (full: bool)
      requires Entered() && |pending| <= litBufsize - 2 && strstart > 0 && Tallied(base + strstart - 1) && lazy
      requires prevLength < MIN_MATCH || matchLength > prevLength
      requires 2 <= matchLength && lookahead > 0
      requires Remembers() && Held(prevLength, prevMatch) && Sighted() && Searched(Cfg(), data, Current())
      requires prevLength >= MIN_MATCH ==> prevMatch < strstart - 1
      modifies this`pending, this`log, this`sent, this`asked
      ensures Entered() && |pending| <= litBufsize - 2 && Tallied(base + strstart) && Remembers()
      ensures Tokens() == old(Tokens()) + [Literal(data[base + strstart - 1])] && |log| == |Tokens()|
      ensures ToBetter(Cfg(), log, Tokens()) == prevLength
      ensures Asked(refuse, old(asked), asked, full)
    {
      hide Chains, InWindow, Primed, HashSize, Asked, Tallied, Remembered, Searched, Entered, Valid, Sized, Due;
      hide SlowValid;
      AtWindow(strstart - 1);
      ghost var ch, t := Both(), Literal(window[strstart - 1]);
      ghost var l, ts := log, Tokens();
      DeferredDue(t);
      var bflush := TallyLiteral(window[strstart - 1], base + strstart - 1, ch);
      DeferredPassed(ch, t, l, ts, known);
      full := FlushFull(bflush);
    }

    /** Nothing to compare with: wait for the next step to decide. */
    method SlowDefer()
      requires Entered() && lookahead > 0 && lazy && prevLength == MIN_MATCH - 1
      requires !matchAvailable && Tallied(base + strstart) && Remembers() && Sighted()
      requires ToBetter(Cfg(), log, Tokens()) == MIN_MATCH - 1 && Searched(Cfg(), data, Current())
      requires 2 <= matchLength <= MAX_MATCH && (matchLength >= MIN_MATCH ==> Matched(matchLength))
      requires EnteredHere()
      modifies this`strstart, this`lookahead, this`matchAvailable, this`here
      ensures SlowValid() && strstart == old(strstart) + 1 && matchAvailable && here == old(Current())
    {
      hide Chains, InWindow, Primed, HashSize, Repeats, Tallied, Remembered, Searched, Entered, Valid, Sized;
      matchAvailable := true;
      Defer();
    }

    /** The byte at the current place is deferred: what its search has found may still be bettered. */
    method Defer()
      requires Entered() && lookahead > 0 && lazy && matchAvailable && Tallied(base + strstart) && Remembers()
      requires Sighted() && Searched(Cfg(), data, Current()) && EnteredHere() && |log| == |Tokens()|
      requires ToBetter(Cfg(), log, Tokens()) == prevLength
      requires 2 <= matchLength <= MAX_MATCH && (matchLength >= MIN_MATCH ==> Matched(matchLength))
      requires matchLength >= MIN_MATCH ==> matchLength > prevLength
      modifies this`strstart, this`lookahead, this`here
      ensures SlowValid() && strstart == old(strstart) + 1 && here == old(Current())
    {
      hide Chains, InWindow, Primed, HashSize, Repeats, Tallied, Remembered, Searched, Valid;
      here := Current();
      PassByte();
    }

    /**
     * One round of deflate_slow after the window has been filled: the match
     * found before is taken unless the one found now is longer, and a byte
     * stands alone if it has no match or gives way to a longer one.  `full`
     * asks for more room.
     */
    method SlowStep() returns (full: bool, ghost s: Search)
      requires SlowValid() && lookahead > 0 && strstart <= 2 * wsize - MIN_LOOKAHEAD
      requires |pending| <= litBufsize - 2 && Sighted()
      modifies this`strstart, this`lookahead, this`matchLength, this`matchStart, this`prevLength
      modifies this`prevMatch, this`matchAvailable, this`pending, this`log, this`here, this`sent, this`asked
      modifies this`insH, this`owner, this`known, prev, head
      ensures SlowValid() && strstart > old(strstart) && |pending| <= litBufsize - 2
      ensures lookahead < old(lookahead)
      ensures Asked(refuse, old(asked), asked, full)
      ensures Searched(Cfg(), data, s) && s.at == old(base + strstart) && s.ahead == old(lookahead)
      ensures old(known) <= s.known <= known && s.prev == old(matchLength)
      ensures var n, m := old(matchLength), old(strstart - 1 - matchStart);
        if n >= MIN_MATCH && s.length <= n then m >= 0 && Tokens() == old(Tokens()) + [Match(m, n)]
        else if old(matchAvailable) then Tokens() == old(Tokens()) + [Literal(data[old(base + strstart - 1)])]
        else Tokens() == old(Tokens()) && matchAvailable && here == s
    {
      hide Entered, Core, Tallied, Asked, Searched, Remembers, Held, Repeats, Parsed, Matched, Ready, Sized;
      AskedNone(refuse, asked);
      SlowSearch();
      s := Current();
      full := false;
      if prevLength >= MIN_MATCH && matchLength <= prevLength {
        full := SlowMatch();
      } else if matchAvailable {
        full := SlowLiteral();
      } else {
        SlowDefer();
      }
    }

    method SlowFill()
      requires SlowValid() && lookahead < MIN_LOOKAHEAD
      modifies this`nextIn, this`strstart, this`lookahead, this`insert, this`insH, this`matchStart
      modifies this`data, this`base, this`owner, this`known, window, prev, head
      ensures SlowValid() && strstart <= 2 * wsize - MIN_LOOKAHEAD
      ensures lookahead >= MIN_LOOKAHEAD || nextIn == []
      ensures data + nextIn == old(data + nextIn)
      ensures |nextIn| + lookahead == old(|nextIn| + lookahead)
    {
      hide Chains, InWindow, Primed, HashSize, Emitted, Repeats, Parsed, AllAttentive, Restarted, Remembered, Searched;
      hide Core, Ready, Attentive;
      ghost var d, n, at: nat := data, nextIn, base + strstart - Deferred();
      ghost var dist := strstart - 1 - matchStart;
      FillWindow();
      ReadExtends(d, n, data, nextIn);
      EmitRead(Tokens(), d, data[|d|..], at, MaxDist());
      ParsedRead(Cfg(), d, data[|d|..], log, Tokens(), at);
      RememberedMore(Cfg(), log, Tokens(), old(known), known, since);
      if matchAvailable {
        SearchedRead(Cfg(), d, data[|d|..], here);
      }
      if matchLength >= MIN_MATCH {
        RepeatsInside(d, at, dist, matchLength);
        RepeatsRead(d, data[|d|..], at, dist, matchLength);
      }
      assert |d + n| == |data + nextIn|;
    }

    /** The byte still deferred when the input ends. */
    method LastLiteral()
      requires SlowValid() && lookahead == 0 && matchAvailable
      modifies this`pending, this`log, this`matchAvailable
      ensures SlowValid() && !matchAvailable
    {
      hide Chains, InWindow, Primed, HashSize, Remembered, Searched, Tallied, Due;
      ghost var ch, t := Choice(here, here, since), Literal(data[base + strstart - 1]);
      ghost var l, ts := log, Tokens();
      WindowByte(window[..], data, base, strstart - 1);
      LastDue(ch, t);
      var _ := TallyLiteral(window[strstart - 1], base + strstart - 1, ch);
      DeferredPassed(ch, t, l, ts, known);
      matchAvailable := false;
    }

    lemma LastDue(ch: Choice, t: Token)
      requires SlowValid() && lookahead == 0 && matchAvailable
      requires ch == Choice(here, here, since) && t == Literal(data[base + strstart - 1])
      ensures Due(ch, t, base + strstart - 1) && matchLength < MIN_MATCH
    {
      hide Chains, InWindow, Primed, HashSize, Remembered, Searched, Emitted, Parsed, AllAttentive, Restarted;
    }

    method SlowEnd(flush: Flush) returns (r: BlockState, ghost full: bool)
      requires SlowValid() && flush != NoFlush && nextIn == [] && lookahead == 0
      modifies this`insert, this`pending, this`log, this`sent, this`asked, this`matchAvailable
      ensures SlowValid() && pending == [] && Completes(flush, r, full, nextIn, lookahead)
      ensures !matchAvailable && Emitted(sent, data, |data|, MaxDist()) && Asked(refuse, old(asked), asked, full)
    {
      hide Chains, InWindow, Primed, Emitted, HashSize, Repeats, Asked, Parsed, AllAttentive, Restarted, Remembered;
      hide Searched;
      hide Core, Ready, Attentive;
      if matchAvailable {
        LastLiteral();
      }
      SetInsert();
      r, full := FinishBlock(flush);
    }

    /** deflate_slow */
    method Slow(flush: Flush) returns (r: BlockState, ghost full: bool)
      requires SlowValid() && |pending| <= litBufsize - 2 && Marked(flush)
      modifies this, window, prev, head
      ensures SlowValid() && |pending| <= litBufsize - 2
      ensures ends == old(ends) && since == old(since) && begins == old(begins)
      ensures data + nextIn == old(data + nextIn)
      ensures Completes(flush, r, full, nextIn, lookahead)
      ensures Asked(refuse, old(asked), asked, full)
      ensures !r.NeedMore? ==> !matchAvailable && Emitted(sent, data, |data|, MaxDist())
    {
      hide SlowValid, Emitted, Asked, Searched, Tokens, Cfg, Attentive;
      AskedNone(refuse, asked);
      while true
        invariant SlowValid() && |pending| <= litBufsize - 2 && Marked(flush)
        invariant ends == old(ends) && since == old(since) && begins == old(begins)
        invariant data + nextIn == old(data + nextIn)
        invariant Asked(refuse, old(asked), asked, false)
        decreases |nextIn| + lookahead
      {
        if lookahead < MIN_LOOKAHEAD {
          SlowFill();
          if lookahead < MIN_LOOKAHEAD && flush == NoFlush {
            return NeedMore, false;
          }
          if lookahead == 0 {
            break;
          }
        }
        ghost var before := asked;
        var refused, _ := SlowStep();
        AskedMore(refuse, old(asked), before, asked, refused);
        if refused {
          return NeedMore, true;
        }
      }
      ghost var before := asked;
      r, full := SlowEnd(flush);
      AskedMore(refuse, old(asked), before, asked, full);
    }

    // ------------------------------------------------------------------
    // Between calls

    /** The caller supplies more input. */
    method Supply(input: seq<Byte>)
      modifies this`nextIn
      ensures nextIn == old(nextIn) + input
      ensures old(FastValid()) ==> FastValid()
      ensures old(SlowValid()) ==> SlowValid()
    {
      hide Chains, InWindow, Primed, HashSize, Emitted, Repeats, Parsed, AllAttentive, Restarted, Remembered, Searched;
      nextIn := nextIn + input;
    }

    /** Note where the input of a flushing call ends. */
    ghost method MarkEnd(flush: Flush)
      modifies this`ends
      ensures Marked(flush) && old(ends) <= ends
      ensures ends == if flush == NoFlush then old(ends) else old(ends) + {|data| + |nextIn|}
      ensures old(FastValid()) ==> FastValid()
      ensures old(SlowValid()) ==> SlowValid()
    {
      hide Chains, InWindow, Primed, HashSize, Emitted, Repeats, Parsed, AllAttentive, Restarted, Remembered, Searched;
      ghost var e := ends;
      if flush != NoFlush {
        ends := ends + {|data| + |nextIn|};
      }
      if AllAttentive(Cfg(), log, e) {
        AttentiveMore(Cfg(), log, e, ends);
      }
    }

    /** CLEAR_HASH and the reset after a full flush: the history is forgotten. */
    method Forget()
      requires Valid() && lookahead == 0
      modifies this`strstart, this`insert, this`base, this`owner, this`known, this`since, head
      ensures Valid() && strstart == 0 && base == |data| == since && known == {}
    {
      hide Chains, InWindow, Primed, HashSize;
      ClearHash();
      strstart, insert := 0, 0;
      base, since, known := |data|, |data|, {};
      owner := seq(wsize, _ => -1);
      assert InWindow(window[..], data, base) by { NothingInWindow(window[..], data); }
      ChainsEmpty(ViewAt(0));
    }

    method ClearHash()
      modifies head
      ensures forall k | 0 <= k < head.Length :: head[k] == 0
    {
      for k := 0 to head.Length
        invariant forall j | 0 <= j < k :: head[j] == 0
      {
        head[k] := 0;
      }
    }

    ghost predicate LevelValid(lazy: bool)
      reads this, window, prev, head
    {
      (if lazy then SlowValid() else FastValid()) && |pending| <= litBufsize - 2
    }

    /** How many of the bytes read the tallied symbols stand for. */
    ghost function Covered(): int
      reads this
    {
      base + strstart - Deferred()
    }

    /** One call of deflate at a level of the given kind, up to the block it ends. */
    method Call(lazy: bool, flush: Flush) returns (r: BlockState, ghost full: bool)
      requires LevelValid(lazy) && Marked(flush)
      modifies this, window, prev, head
      ensures LevelValid(lazy) && data + nextIn == old(data + nextIn) && ends == old(ends)
      ensures if flush == FullFlush && r.BlockDone? then since == |data| && begins == old(begins) + {|data|}
              else since == old(since) && begins == old(begins)
      ensures Completes(flush, r, full, nextIn, lookahead) && Asked(refuse, old(asked), asked, full)
      ensures !r.NeedMore? ==> Covered() == |data|
    {
      hide Core, Ready, Emitted, HashSize, Asked, Parsed, AllAttentive, Restarted, Remembered, Searched;
      if lazy {
        r, full := Slow(flush);
      } else {
        r, full := Fast(flush);
      }
      if r.BlockDone? && flush == FullFlush {
        ForgetAll(lazy);
      }
    }

    method ForgetAll(lazy: bool)
      requires LevelValid(lazy) && lookahead == 0 && !matchAvailable
      modifies this`strstart, this`insert, this`base, this`owner, this`known, this`since, this`begins, head
      ensures LevelValid(lazy) && strstart == 0 && base == |data| == since && begins == old(begins) + {|data|}
    {
      hide Chains, InWindow, Primed, HashSize, Emitted, Repeats, Parsed, AllAttentive, Restarted, Searched, Remembered;
      NothingSince(Cfg(), data, log, Tokens(), base + strstart);
      RestartedHere(Cfg(), data, log, Tokens(), begins, since);
      begins := begins + {|data|};
      Forget();
    }

    lemma EagerDefersNone(lazy: bool)
      requires LevelValid(lazy)
      ensures matchAvailable ==> lazy
    {
    }

    lemma LevelParsed(lazy: bool)
      requires LevelValid(lazy)
      ensures 0 <= Covered() && Parsed(Cfg(), data, log, Tokens(), Covered()) && AllAttentive(Cfg(), log, ends)
      ensures Restarted(log, begins, since)
    {
      hide Parsed, AllAttentive, Restarted, Emitted, Chains, InWindow, HashSize, Primed, Searched;
    }

    lemma LevelEmitted(lazy: bool)
      requires LevelValid(lazy)
      ensures 0 <= Covered() <= |data| && Emitted(Tokens(), data, Covered(), MaxDist())
      ensures |data| == base + strstart + lookahead
    {
    }
  }

  datatype Request = Request(input: seq<Byte>, flush: Flush)

  /** All the input handed over by a run of calls. */
  function Supplied(calls: seq<Request>): (r: seq<Byte>) {
    if calls == [] then [] else Supplied(calls[..|calls| - 1]) + calls[|calls| - 1].input
  }

  /**
   * What a call left: the blocks flushed by then, the bytes ahead in the
   * window and the bytes not yet read.
   */
  datatype Result = Result(state: BlockState, asked: nat, ahead: nat, unread: nat)

  /** The call's last block found the output buffer full. */
  predicate Refused(refuse: nat -> bool, before: nat, r: Result) {
    r.asked > before && refuse(r.asked - 1)
  }

  /**
   * Unless the output buffer was full, a call that flushes ends its block or
   * the stream with all input taken, and one that does not leaves less than
   * a full lookahead; a full buffer ends the call at once.
   */
  ghost predicate Answered(refuse: nat -> bool, before: nat, flush: Flush, r: Result) {
    && before <= r.asked && (forall q: nat | before <= q < r.asked - 1 :: !refuse(q))
    && (!Refused(refuse, before, r) ==>
      && r.unread == 0 && (if flush == NoFlush then r.ahead < MIN_LOOKAHEAD else r.ahead == 0)
      && r.state == (if flush == NoFlush then NeedMore else if flush == Finish then FinishDone else BlockDone))
    && (Refused(refuse, before, r) ==>
      r.state.NeedMore? || (r.state.FinishStarted? && flush == Finish && r.unread == r.ahead == 0))
  }

  /** The blocks flushed before call k. */
  function Before(results: seq<Result>, k: nat): nat
    requires k <= |results|
  {
    if k == 0 then 0 else results[k - 1].asked
  }

  ghost predicate AllAnswered(refuse: nat -> bool, calls: seq<Request>, results: seq<Result>) {
    && |results| <= |calls|
    && forall k: nat | k < |results| :: Answered(refuse, Before(results, k), calls[k].flush, results[k])
  }

  lemma AnsweredBy(refuse: nat -> bool, before: nat, flush: Flush, r: Result, full: bool, nextIn: seq<Byte>)
    requires Completes(flush, r.state, full, nextIn, r.ahead) && r.unread == |nextIn|
    requires Asked(refuse, before, r.asked, full)
    ensures Answered(refuse, before, flush, r)
  {
  }

  lemma AnsweredNext(refuse: nat -> bool, calls: seq<Request>, results: seq<Result>, r: Result)
    requires AllAnswered(refuse, calls, results) && |results| < |calls|
    requires Answered(refuse, Before(results, |results|), calls[|results|].flush, r)
    ensures AllAnswered(refuse, calls, results + [r])
  {
    hide Answered;
    var now := results + [r];
    forall k: nat | k < |now| ensures Answered(refuse, Before(now, k), calls[k].flush, now[k]) {
      assert Before(now, k) == Before(results, k);
    }
  }

  lemma SuppliedNone(calls: seq<Request>)
    ensures Supplied(calls[..0]) == []
  {
  }

  lemma SuppliedNext(calls: seq<Request>, k: nat)
    requires k < |calls|
    ensures Supplied(calls[..k + 1]) == Supplied(calls[..k]) + calls[k].input
  {
    assert calls[..k + 1][..k] == calls[..k];
  }

  /**
   * Every run of calls at a fixed level: the symbols tallied so far expand
   * to exactly the input supplied, less what is unread, what is still ahead
   * in the window and, for the lazy strategy, at most one deferred byte; to
   * all of it when the last call ended a block or the stream; and every call
   * goes as far as the output buffer lets it.  Every symbol is what the
   * search at its place prescribes, and the searches see all the input that
   * a full lookahead holds, or all there is up to the end of a flushing call.
   */
  method Run(bits: nat, wsize: nat, litBufsize: nat, filtered: bool, level: Level, lazy: bool,
             refuse: nat -> bool, calls: seq<Request>)
    returns (tokens: seq<Token>, deferred: nat, results: seq<Result>, ghost log: seq<Choice>, ghost ends: set<nat>,
            ghost begins: set<nat>, ghost since: nat)
    requires Bits(bits) && wsize >= 512 && litBufsize >= 2
    ensures |results| == |calls| && AllAnswered(refuse, calls, results) && deferred <= if lazy then 1 else 0
    ensures Expandable(tokens) && Expand(tokens) <= Supplied(calls)
    ensures forall t | t in tokens :: WellFormed(t) && Near(t, wsize - MIN_LOOKAHEAD)
    ensures calls != [] ==>
      |Expand(tokens)| + deferred + results[|calls| - 1].ahead + results[|calls| - 1].unread == |Supplied(calls)|
    ensures calls != [] && !results[|calls| - 1].state.NeedMore? ==> Expand(tokens) == Supplied(calls)
    ensures Parsed(Config(bits, wsize, filtered, level, lazy), Supplied(calls), log, tokens, |Expand(tokens)|)
    ensures AllAttentive(Config(bits, wsize, filtered, level, lazy), log, ends)
    ensures forall e :: e in ends ==> FlushedAt(calls, |calls|, e)
    ensures Restarted(log, begins, since)
    ensures forall e :: e in begins <==> e == 0 || ResetAt(calls, results, |calls|, e)
  {
    hide State.SlowValid, State.FastValid, HashSize, AllAnswered, Supplied, Emitted, Parsed, AllAttentive, Restarted;
    hide FlushedAt, ResetAt;
    var s := new State(bits, wsize, litBufsize, filtered, level, lazy, refuse);
    results := CallAll(s, lazy, calls);
    s.LevelEmitted(lazy);
    s.EagerDefersNone(lazy);
    ghost var n, text := s.Covered(), Supplied(calls);
    EmitRead(s.Tokens(), s.data, s.nextIn, n, s.MaxDist());
    assert s.data + s.nextIn == text;
    tokens := s.sent + s.pending;
    EmittedAll(tokens, text, n, s.MaxDist());
    s.LevelParsed(lazy);
    log, ends, begins, since := s.log, s.ends, s.begins, s.since;
    ParsedRead(s.Cfg(), s.data, s.nextIn, log, tokens, n);
    deferred := if s.matchAvailable then 1 else 0;
    assert |text| == |s.data| + |s.nextIn|;
  }

  /** The input of one of the first k calls, one that flushes, ended at e. */
  ghost predicate FlushedAt(calls: seq<Request>, k: nat, e: nat)
    requires k <= |calls|
  {
    exists j :: 0 <= j < k && calls[j].flush != NoFlush && e == |Supplied(calls[..j + 1])|
  }

  /** One of the first k calls, a full flush, was completed at e. */
  ghost predicate ResetAt(calls: seq<Request>, results: seq<Result>, k: nat, e: nat)
    requires k <= |calls| && k <= |results|
  {
    exists j :: 0 <= j < k && Resets(calls, j, results[j]) && e == |Supplied(calls[..j + 1])|
  }

  /** Call k completes a full flush. */
  predicate Resets(calls: seq<Request>, k: nat, r: Result)
    requires k < |calls|
  {
    calls[k].flush == FullFlush && r.state.BlockDone?
  }

  lemma ResetNext(calls: seq<Request>, results: seq<Result>, k: nat, r: Result, e: nat)
    requires k == |results| < |calls|
    ensures ResetAt(calls, results + [r], k + 1, e)
            <==> (ResetAt(calls, results, k, e) || (Resets(calls, k, r) && e == |Supplied(calls[..k + 1])|))
  {
    hide Supplied;
    var now := results + [r];
    if ResetAt(calls, results, k, e) {
      var j :| 0 <= j < k && Resets(calls, j, results[j]) && e == |Supplied(calls[..j + 1])|;
      assert now[j] == results[j];
    }
    assert now[k] == r;
  }

  lemma BeginsNext(calls: seq<Request>, results: seq<Result>, k: nat, r: Result, begins: set<nat>, begins': set<nat>)
    requires k == |results| < |calls| && forall e :: e in begins <==> e == 0 || ResetAt(calls, results, k, e)
    requires begins' == if Resets(calls, k, r) then begins + {|Supplied(calls[..k + 1])|} else begins
    ensures forall e :: e in begins' <==> e == 0 || ResetAt(calls, results + [r], k + 1, e)
  {
    hide Supplied, ResetAt;
    forall e: nat ensures e in begins' <==> e == 0 || ResetAt(calls, results + [r], k + 1, e) {
      ResetNext(calls, results, k, r, e);
    }
  }

  lemma BeginsNone(calls: seq<Request>)
    ensures forall e :: e in {0} <==> e == 0 || ResetAt(calls, [], 0, e)
  {
  }

  lemma FlushedNext(calls: seq<Request>, k: nat, e: nat)
    requires k < |calls|
    ensures FlushedAt(calls, k, e) ==> FlushedAt(calls, k + 1, e)
    ensures calls[k].flush != NoFlush && e == |Supplied(calls[..k + 1])| ==> FlushedAt(calls, k + 1, e)
  {
    hide Supplied;
  }

  lemma EndsNext(calls: seq<Request>, k: nat, ends: set<nat>, e: nat)
    requires k < |calls| && forall x :: x in ends ==> FlushedAt(calls, k, x)
    ensures forall x :: x in ends ==> FlushedAt(calls, k + 1, x)
    ensures calls[k].flush != NoFlush && e == |Supplied(calls[..k + 1])| ==> FlushedAt(calls, k + 1, e)
  {
    hide Supplied, FlushedAt;
    forall x | x in ends ensures FlushedAt(calls, k + 1, x) {
      FlushedNext(calls, k, x);
    }
    FlushedNext(calls, k, e);
  }

  /** The calls one after another. */
  method CallAll(s: State, lazy: bool, calls: seq<Request>) returns (results: seq<Result>)
    requires s.LevelValid(lazy) && s.asked == 0 && s.data == [] && s.nextIn == [] && s.ends == {}
    requires s.begins == {0}
    modifies s, s.window, s.prev, s.head
    ensures s.LevelValid(lazy) && s.data + s.nextIn == Supplied(calls)
    ensures |results| == |calls| && AllAnswered(s.refuse, calls, results)
    ensures results != [] ==>
      results[|results| - 1].ahead == s.lookahead && results[|results| - 1].unread == |s.nextIn|
    ensures results != [] && !results[|results| - 1].state.NeedMore? ==> s.nextIn == [] && s.Covered() == |s.data|
    ensures forall e :: e in s.ends ==> FlushedAt(calls, |calls|, e)
    ensures forall e :: e in s.begins <==> e == 0 || ResetAt(calls, results, |calls|, e)
  {
    hide State.SlowValid, State.FastValid, HashSize, Asked, Completes, Answered, AllAnswered, Supplied, FlushedAt;
    hide ResetAt;
    results := [];
    AnsweredNone(s.refuse, calls);
    SuppliedNone(calls);
    BeginsNone(calls);
    while |results| < |calls|
      invariant |results| <= |calls| && AllAnswered(s.refuse, calls, results)
      invariant s.asked == Before(results, |results|)
      invariant s.LevelValid(lazy) && s.data + s.nextIn == Supplied(calls[..|results|])
      invariant results != [] ==>
        results[|results| - 1].ahead == s.lookahead && results[|results| - 1].unread == |s.nextIn|
      invariant results != [] && !results[|results| - 1].state.NeedMore? ==>
        s.nextIn == [] && s.Covered() == |s.data|
      invariant forall e :: e in s.ends ==> FlushedAt(calls, |results|, e)
      invariant forall e :: e in s.begins <==> e == 0 || ResetAt(calls, results, |results|, e)
    {
      var call := calls[|results|];
      SuppliedNext(calls, |results|);
      s.Supply(call.input);
      EndsNext(calls, |results|, s.ends, |s.data| + |s.nextIn|);
      assert |s.data + s.nextIn| == |Supplied(calls[..|results| + 1])|;
      s.MarkEnd(call.flush);
      ghost var before, begins := s.asked, s.begins;
      var state;
      ghost var full;
      state, full := s.Call(lazy, call.flush);
      var r := Result(state, s.asked, s.lookahead, |s.nextIn|);
      AnsweredBy(s.refuse, before, call.flush, r, full, s.nextIn);
      CompletesAll(call.flush, state, full, s.nextIn, s.lookahead);
      AnsweredNext(s.refuse, calls, results, r);
      BeginsNext(calls, results, |results|, r, begins, s.begins);
      results := results + [r];
    }
    assert calls[..|results|] == calls;
  }

  lemma EmittedAll(ts: seq<Token>, data: seq<Byte>, n: int, far: int)
    requires n >= 0 && Emitted(ts, data, n, far)
    ensures Expandable(ts) && n <= |data| && Expand(ts) == data[..n]
    ensures forall t | t in ts :: WellFormed(t) && Near(t, if far >= 0 then far else 0)
  {
  }

  lemma AnsweredNone(refuse: nat -> bool, calls: seq<Request>)
    ensures AllAnswered(refuse, calls, [])
  {
  }

  lemma CompletesAll(flush: Flush, r: BlockState, full: bool, nextIn: seq<Byte>, lookahead: nat)
    requires Completes(flush, r, full, nextIn, lookahead)
    ensures !r.NeedMore? ==> nextIn == [] && lookahead == 0
  {
  }

  lemma NothingInWindow(w: seq<Byte>, data: seq<Byte>)
    ensures InWindow(w, data, |data|)
  {
  }

  lemma SlotOf(c: Chain, q: nat, key: nat)
    requires Shape(c) && Owns(c, q, key)
    ensures q < 2 * c.wsize && Slot(c.wsize, q) < c.wsize
  {
  }

  /** Strings that agree on three bytes have the same key. */
  lemma KeyRepeats(bits: nat, data: seq<Byte>, at: nat, q: nat)
    requires Bits(bits) && q < at && at + 2 < |data| && Repeats(data, at, at - q, MIN_MATCH)
    ensures KeyAt(bits, data, q) == KeyAt(bits, data, at)
  {
    assert data[at] == data[q] && data[at + 1] == data[q + 1] && data[at + 2] == data[q + 2];
  }

  lemma KeyIndex(bits: nat, data: seq<Byte>, p: nat)
    requires Bits(bits) && p + 2 < |data|
    ensures Hash3(bits, data[p], data[p + 1], data[p + 2]) as nat == KeyAt(bits, data, p)
  {
    MaskIdem(bits, Hash2(bits, data[p], data[p + 1]), data[p + 2]);
  }
}
