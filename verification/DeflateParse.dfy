/**
 * How deflate's symbols are chosen.  Every symbol rests on a search of the
 * strings entered so far: a match is taken when there is one, no known
 * string within reach agrees on more bytes unless the search had reason to
 * stop, and a literal is taken only when nothing better was found.
 */
module DeflateParse {
  import opened Lz77
  import opened DeflateHash
  import opened HashChains

  const MIN_LOOKAHEAD: nat := MAX_MATCH + MIN_MATCH + 1
  const TOO_FAR: nat := 4096

  /** A row of configuration_table. */
  datatype Level = Level(good: nat, lazy: nat, nice: nat, chain: nat)

  /** What deflateInit2_ fixes; lazy tells deflate_slow from deflate_fast. */
  datatype Config = Config(bits: nat, wsize: nat, filtered: bool, level: Level, lazy: bool)

  /** data repeats itself at the given distance for n bytes from pos on. */
  ghost predicate Repeats(data: seq<Byte>, pos: nat, distance: nat, n: nat) {
    && 0 < distance <= pos && pos + n <= |data|
    && forall i | pos <= i < pos + n :: data[i] == data[i - distance]
  }

  lemma RepeatsRead(data: seq<Byte>, more: seq<Byte>, pos: nat, d: nat, n: nat)
    requires pos + n <= |data|
    ensures Repeats(data + more, pos, d, n) <==> Repeats(data, pos, d, n)
  {
    var data' := data + more;
    if Repeats(data', pos, d, n) {
      forall i | pos <= i < pos + n ensures data[i] == data[i - d] {
        assert data'[i] == data'[i - d];
      }
    }
  }

  lemma RepeatsInside(data: seq<Byte>, pos: nat, d: nat, n: nat)
    requires Repeats(data, pos, d, n)
    ensures 0 < d <= pos && pos + n <= |data|
  {
  }

  /** MAX_DIST */
  function Reach(cfg: Config): int { cfg.wsize - MIN_LOOKAHEAD }

  /** How many strings a counter of chain lets longest_match look at; it wraps around at zero. */
  function Budget(chain: nat): nat {
    if chain == 0 then 0x1_0000_0000 else chain
  }

  // ------------------------------------------------------------------
  // A search

  /**
   * A search at a place in the data, with so many bytes ahead: the strings
   * known by then, the length to be bettered, and what was found.
   */
  datatype Search = Search(at: nat, ahead: nat, known: set<nat>, prev: nat, length: nat, start: int)

  /** How many strings are looked at. */
  function Tries(cfg: Config, s: Search): nat {
    Budget(if s.prev >= cfg.level.good then cfg.level.chain / 4 else cfg.level.chain)
  }

  ghost predicate SameKey(cfg: Config, data: seq<Byte>, p: nat, q: nat) {
    && Bits(cfg.bits) && p + 2 < |data| && q + 2 < |data|
    && KeyAt(cfg.bits, data, p) == KeyAt(cfg.bits, data, q)
  }

  /** Known strings with the hash of the current one, from later to earlier. */
  ghost predicate Met(cfg: Config, data: seq<Byte>, s: Search, w: seq<nat>) {
    && (forall i :: 0 <= i < |w| ==> w[i] < s.at && w[i] in s.known && SameKey(cfg, data, w[i], s.at))
    && forall i, j :: 0 <= i < j < |w| ==> w[i] > w[j]
  }

  /** So many of them come before the string at q that the search ends before it. */
  ghost predicate Crowded(cfg: Config, data: seq<Byte>, s: Search, q: nat) {
    exists w: seq<nat> :: |w| == Tries(cfg, s) && Met(cfg, data, s, w) && forall i :: 0 <= i < |w| ==> w[i] > q
  }

  /** No known string that the search gets to agrees on more than len bytes. */
  ghost predicate Unbeaten(cfg: Config, data: seq<Byte>, s: Search, len: nat) {
    len < MAX_MATCH ==> forall q: nat ::
      q in s.known && q < s.at && s.at - q < Reach(cfg) && Repeats(data, s.at, s.at - q, len + 1) ==>
        Crowded(cfg, data, s, q)
  }

  /** What longest_match answers. */
  ghost predicate Found(cfg: Config, data: seq<Byte>, s: Search, len: nat) {
    && 2 <= len <= MAX_MATCH && len <= s.ahead && (len > s.prev ==> MatchAt(cfg, data, s, len))
    && (len >= cfg.level.nice || len == s.ahead || Unbeaten(cfg, data, s, len))
  }

  ghost predicate MatchAt(cfg: Config, data: seq<Byte>, s: Search, len: nat) {
    && 0 <= s.start < s.at && s.start in s.known && s.at - s.start <= Reach(cfg)
    && Repeats(data, s.at, s.at - s.start, len)
  }

  /** deflate_slow drops a match that is short, or of three bytes and far away. */
  predicate Dropped(cfg: Config, s: Search, len: nat) {
    cfg.lazy && len <= 5 && (cfg.filtered || (len == MIN_MATCH && s.at - s.start > TOO_FAR))
  }

  /** What is left of the length that a search has found. */
  function Kept(cfg: Config, s: Search, len: nat): nat {
    if Dropped(cfg, s, len) then MIN_MATCH - 1 else len
  }

  /** No search is made near the end of the data, nor when the match before is long enough. */
  predicate Skipped(cfg: Config, s: Search) {
    s.ahead < MIN_MATCH || (cfg.lazy && s.prev >= cfg.level.lazy)
  }

  ghost predicate Searched(cfg: Config, data: seq<Byte>, s: Search) {
    && 0 < s.ahead && s.at + s.ahead <= |data|
    && if Skipped(cfg, s) then s.length == MIN_MATCH - 1
       else exists len: nat :: Found(cfg, data, s, len) && s.length == Kept(cfg, s, len)
  }

  /** Reading on does not change what a search has found. */
  lemma SearchedRead(cfg: Config, data: seq<Byte>, more: seq<Byte>, s: Search)
    requires Searched(cfg, data, s)
    ensures Searched(cfg, data + more, s)
  {
    if !Skipped(cfg, s) {
      var len: nat :| Found(cfg, data, s, len) && s.length == Kept(cfg, s, len);
      FoundRead(cfg, data, more, s, len);
    }
  }

  /** What a search answers does not depend on what becomes of it. */
  lemma FoundLength(cfg: Config, data: seq<Byte>, s: Search, len: nat, length: nat)
    requires Found(cfg, data, s, len) && 0 < s.ahead && s.at + s.ahead <= |data| && !Skipped(cfg, s)
    requires length == Kept(cfg, s, len)
    ensures Searched(cfg, data, s.(length := length))
  {
    hide Crowded;
    assert Unbeaten(cfg, data, s, len) ==> Unbeaten(cfg, data, s.(length := length), len) by {
      if Unbeaten(cfg, data, s, len) { UnbeatenLength(cfg, data, s, len, length); }
    }
    assert Found(cfg, data, s.(length := length), len);
  }

  lemma SearchSkipped(cfg: Config, data: seq<Byte>, s: Search)
    requires Skipped(cfg, s) && 0 < s.ahead && s.at + s.ahead <= |data| && s.length == MIN_MATCH - 1
    ensures Searched(cfg, data, s)
  {
  }

  lemma UnbeatenLength(cfg: Config, data: seq<Byte>, s: Search, len: nat, length: nat)
    requires Unbeaten(cfg, data, s, len)
    ensures Unbeaten(cfg, data, s.(length := length), len)
  {
    hide Crowded;
    forall q: nat | Crowded(cfg, data, s, q) ensures Crowded(cfg, data, s.(length := length), q) {
      CrowdedLength(cfg, data, s, q, length);
    }
  }

  lemma CrowdedLength(cfg: Config, data: seq<Byte>, s: Search, q: nat, length: nat)
    requires Crowded(cfg, data, s, q)
    ensures Crowded(cfg, data, s.(length := length), q)
  {
    hide KeyAt;
    var w: seq<nat> :| |w| == Tries(cfg, s) && Met(cfg, data, s, w) && forall i :: 0 <= i < |w| ==> w[i] > q;
    assert Met(cfg, data, s.(length := length), w);
  }

  lemma FoundRead(cfg: Config, data: seq<Byte>, more: seq<Byte>, s: Search, len: nat)
    requires Found(cfg, data, s, len) && s.at + s.ahead <= |data|
    ensures Found(cfg, data + more, s, len)
  {
    hide Crowded;
    var data' := data + more;
    if len > s.prev { RepeatsRead(data, more, s.at, s.at - s.start, len); }
    if len < s.ahead && Unbeaten(cfg, data, s, len) {
      forall q: nat | q in s.known && q < s.at && s.at - q < Reach(cfg) && Repeats(data', s.at, s.at - q, len + 1)
        ensures len < MAX_MATCH ==> Crowded(cfg, data', s, q)
      {
        RepeatsRead(data, more, s.at, s.at - q, len + 1);
        if len < MAX_MATCH { CrowdedRead(cfg, data, more, s, q); }
      }
    }
  }

  lemma CrowdedRead(cfg: Config, data: seq<Byte>, more: seq<Byte>, s: Search, q: nat)
    requires Crowded(cfg, data, s, q)
    ensures Crowded(cfg, data + more, s, q)
  {
    hide KeyAt;
    var w: seq<nat> :| |w| == Tries(cfg, s) && Met(cfg, data, s, w) && forall i :: 0 <= i < |w| ==> w[i] > q;
    forall i | 0 <= i < |w| ensures SameKey(cfg, data + more, w[i], s.at) {
      KeyRead(cfg.bits, data, more, w[i]);
      KeyRead(cfg.bits, data, more, s.at);
    }
    assert Met(cfg, data + more, s, w);
  }

  // ------------------------------------------------------------------
  // The symbols

  /**
   * What a symbol rests on: the search at its place, for deflate_slow the
   * one at the next place, and where the history begins.
   */
  datatype Choice = Choice(here: Search, next: Search, since: nat)

  /** deflate_slow gives up its match for a longer one at the next place. */
  predicate Bettered(cfg: Config, c: Choice) {
    cfg.lazy && c.next.length > c.here.length
  }

  ghost predicate Chosen(cfg: Config, data: seq<Byte>, c: Choice, t: Token) {
    && Searched(cfg, data, c.here) && c.since <= c.here.at && (forall p :: p in c.here.known ==> c.since < p)
    && (c.here.length >= MIN_MATCH ==> c.here.length > c.here.prev && 0 <= c.here.start < c.here.at)
    && (cfg.lazy && c.here.length >= MIN_MATCH ==>
      Searched(cfg, data, c.next) && c.next.at == c.here.at + 1 && c.next.prev == c.here.length)
    && t == if c.here.length >= MIN_MATCH && !Bettered(cfg, c) then Match(c.here.at - c.here.start, c.here.length)
            else Literal(data[c.here.at])
  }

  lemma ChosenRead(cfg: Config, data: seq<Byte>, more: seq<Byte>, c: Choice, t: Token)
    requires Chosen(cfg, data, c, t)
    ensures Chosen(cfg, data + more, c, t)
  {
    hide Searched;
    SearchedRead(cfg, data, more, c.here);
    if cfg.lazy && c.here.length >= MIN_MATCH { SearchedRead(cfg, data, more, c.next); }
    SearchedInside(cfg, data, c.here);
  }

  lemma SearchedInside(cfg: Config, data: seq<Byte>, s: Search)
    requires Searched(cfg, data, s)
    ensures 0 < s.ahead && s.at + s.ahead <= |data|
  {
  }

  function Width(t: Token): nat {
    match t
    case Literal(_) => 1
    case Match(_, length) => length
  }

  /** The strings that are known once the symbol has been passed. */
  predicate Entering(cfg: Config, c: Choice, t: Token, p: nat) {
    && c.here.at <= p < c.here.at + Width(t) && c.since < p
    && if cfg.lazy || p == c.here.at then p + MIN_MATCH <= c.here.at + c.here.ahead
       else Width(t) <= cfg.level.lazy && Width(t) + MIN_MATCH <= c.here.ahead
  }

  /** All of these, of the history since then. */
  ghost predicate Remembered(cfg: Config, log: seq<Choice>, ts: seq<Token>, known: set<nat>, since: nat) {
    && |log| == |ts| && (forall i :: 0 <= i < |log| ==> log[i].since <= since)
    && forall i, p: nat :: 0 <= i < |log| && log[i].since == since && Entering(cfg, log[i], ts[i], p) ==> p in known
  }

  lemma RememberedMore(cfg: Config, log: seq<Choice>, ts: seq<Token>, known: set<nat>, known': set<nat>, since: nat)
    requires Remembered(cfg, log, ts, known, since) && known <= known'
    ensures Remembered(cfg, log, ts, known', since)
  {
  }

  lemma RememberedNext(cfg: Config, log: seq<Choice>, ts: seq<Token>, known: set<nat>, since: nat, c: Choice, t: Token)
    requires Remembered(cfg, log, ts, known, since) && c.since <= since
    requires forall p: nat :: c.since == since && Entering(cfg, c, t, p) ==> p in known
    ensures Remembered(cfg, log + [c], ts + [t], known, since)
  {
  }

  /** A history that begins at the end of the data has no strings yet. */
  lemma NothingSince(cfg: Config, data: seq<Byte>, log: seq<Choice>, ts: seq<Token>, n: nat)
    requires Parsed(cfg, data, log, ts, n)
    ensures Remembered(cfg, log, ts, {}, |data|)
  {
    hide Searched, Remembered;
    forall i | 0 <= i < |log| ensures log[i].since < |data| {
      assert Follows(cfg, data, log, ts, i);
      SearchedInside(cfg, data, log[i].here);
    }
    OtherHistory(cfg, log, ts, |data|);
  }

  lemma OtherHistory(cfg: Config, log: seq<Choice>, ts: seq<Token>, since: nat)
    requires |log| == |ts| && forall i :: 0 <= i < |log| ==> log[i].since < since
    ensures Remembered(cfg, log, ts, {}, since)
  {
  }

  /** Where the symbols end, and the length that the next search has to better. */
  function End(log: seq<Choice>, ts: seq<Token>): nat
    requires |log| == |ts|
  {
    if log == [] then 0 else log[|log| - 1].here.at + Width(ts[|ts| - 1])
  }

  function ToBetter(cfg: Config, log: seq<Choice>, ts: seq<Token>): nat
    requires |log| == |ts|
  {
    if log != [] && cfg.lazy && ts[|ts| - 1].Literal? then log[|log| - 1].here.length else MIN_MATCH - 1
  }

  /** The i-th symbol follows from its search, and its search from the symbols before it. */
  ghost predicate Follows(cfg: Config, data: seq<Byte>, log: seq<Choice>, ts: seq<Token>, i: nat)
    requires i < |log| == |ts|
  {
    && Chosen(cfg, data, log[i], ts[i])
    && log[i].here.at == End(log[..i], ts[..i]) && log[i].here.prev == ToBetter(cfg, log[..i], ts[..i])
    && Remembered(cfg, log[..i], ts[..i], log[i].here.known, log[i].since)
  }

  /** The symbols are what the searches prescribe, from the beginning of the data to place n. */
  ghost predicate Parsed(cfg: Config, data: seq<Byte>, log: seq<Choice>, ts: seq<Token>, n: nat)
    ensures Parsed(cfg, data, log, ts, n) ==> |log| == |ts| && End(log, ts) == n
  {
    |log| == |ts| && End(log, ts) == n && forall i :: 0 <= i < |log| ==> Follows(cfg, data, log, ts, i)
  }

  lemma ParsedNext(cfg: Config, data: seq<Byte>, log: seq<Choice>, ts: seq<Token>, n: nat, c: Choice, t: Token)
    requires Parsed(cfg, data, log, ts, n) && Chosen(cfg, data, c, t)
    requires c.here.at == n && c.here.prev == ToBetter(cfg, log, ts)
    requires Remembered(cfg, log, ts, c.here.known, c.since)
    ensures Parsed(cfg, data, log + [c], ts + [t], n + Width(t))
  {
    hide Chosen, Remembered;
    var log', ts' := log + [c], ts + [t];
    forall i | 0 <= i < |log'| ensures Follows(cfg, data, log', ts', i) {
      if i < |log| {
        assert Follows(cfg, data, log, ts, i);
        assert log'[..i] == log[..i] && ts'[..i] == ts[..i];
      } else {
        assert log'[..i] == log && ts'[..i] == ts;
      }
    }
  }

  lemma ParsedRead(cfg: Config, data: seq<Byte>, more: seq<Byte>, log: seq<Choice>, ts: seq<Token>, n: nat)
    requires Parsed(cfg, data, log, ts, n)
    ensures Parsed(cfg, data + more, log, ts, n)
  {
    hide Chosen, Remembered;
    forall i | 0 <= i < |log| ensures Follows(cfg, data + more, log, ts, i) {
      assert Follows(cfg, data, log, ts, i);
      ChosenRead(cfg, data, more, log[i], ts[i]);
    }
  }

  lemma ParsedNone(cfg: Config, data: seq<Byte>, known: set<nat>, since: nat, ends: set<nat>)
    ensures Parsed(cfg, data, [], [], 0) && Remembered(cfg, [], [], known, since) && AllAttentive(cfg, [], ends)
    ensures Restarted([], {since}, since)
  {
  }

  // ------------------------------------------------------------------
  // How far a search sees

  /** There is a full lookahead, or the input ended there in a call that flushes. */
  ghost predicate Attentive(s: Search, ends: set<nat>) {
    s.ahead >= MIN_LOOKAHEAD || s.at + s.ahead in ends
  }

  ghost predicate AllAttentive(cfg: Config, log: seq<Choice>, ends: set<nat>) {
    forall i :: 0 <= i < |log| ==>
      Attentive(log[i].here, ends) && (cfg.lazy && log[i].here.length >= MIN_MATCH ==> Attentive(log[i].next, ends))
  }

  lemma AttentiveMore(cfg: Config, log: seq<Choice>, ends: set<nat>, ends': set<nat>)
    requires AllAttentive(cfg, log, ends) && ends <= ends'
    ensures AllAttentive(cfg, log, ends')
  {
  }

  lemma AttentiveNext(cfg: Config, log: seq<Choice>, ends: set<nat>, c: Choice)
    requires AllAttentive(cfg, log, ends) && Attentive(c.here, ends)
    requires cfg.lazy && c.here.length >= MIN_MATCH ==> Attentive(c.next, ends)
    ensures AllAttentive(cfg, log + [c], ends)
  {
  }

  // ------------------------------------------------------------------
  // Where the history begins

  /** Every symbol's history begins at the last of these places that is not behind it; the last of all is since. */
  ghost predicate Restarted(log: seq<Choice>, begins: set<nat>, since: nat) {
    && since in begins && (forall e :: e in begins ==> e <= since)
    && (forall i :: 0 <= i < |log| ==> log[i].since in begins)
    && forall i, e :: 0 <= i < |log| && e in begins && e <= log[i].here.at ==> e <= log[i].since
  }

  lemma RestartedNext(log: seq<Choice>, begins: set<nat>, since: nat, c: Choice)
    requires Restarted(log, begins, since) && c.since == since
    ensures Restarted(log + [c], begins, since)
  {
  }

  /** The history may begin anew where the symbols end. */
  lemma RestartedHere(cfg: Config, data: seq<Byte>, log: seq<Choice>, ts: seq<Token>, begins: set<nat>, since: nat)
    requires Parsed(cfg, data, log, ts, |data|) && Restarted(log, begins, since) && since <= |data|
    ensures Restarted(log, begins + {|data|}, |data|)
  {
    hide Searched, Remembered;
    forall i | 0 <= i < |log| ensures log[i].here.at < |data| {
      assert Follows(cfg, data, log, ts, i);
      SearchedInside(cfg, data, log[i].here);
    }
  }

  // ------------------------------------------------------------------
  // What this says of the symbols

  /** Reading may begin at such a place: no match behind it reaches back to what comes before. */
  lemma RestartPoint(cfg: Config, data: seq<Byte>, log: seq<Choice>, ts: seq<Token>, n: nat, begins: set<nat>,
                     since: nat, i: nat, e: nat)
    requires Parsed(cfg, data, log, ts, n) && Restarted(log, begins, since)
    requires i < |log| && ts[i].Match? && e in begins && e <= log[i].here.at
    ensures log[i].here.at - ts[i].distance > e
  {
    hide Crowded, Repeats, Remembered;
    assert Follows(cfg, data, log, ts, i);
  }

  /** The strings entered with one symbol are known to the search for every later one of the same history. */
  lemma KnownLater(cfg: Config, data: seq<Byte>, log: seq<Choice>, ts: seq<Token>, n: nat, i: nat, j: nat, p: nat)
    requires Parsed(cfg, data, log, ts, n) && j < i < |log|
    requires log[j].since == log[i].since && Entering(cfg, log[j], ts[j], p)
    ensures p in log[i].here.known
  {
    hide Chosen, Entering;
    assert Follows(cfg, data, log, ts, i);
    assert log[..i][j] == log[j] && ts[..i][j] == ts[j];
  }

  /** A known string within reach of the search for the i-th symbol agrees with it on so many bytes. */
  ghost predicate Rival(data: seq<Byte>, s: Search, far: int, q: nat, len: nat) {
    q in s.known && q < s.at && s.at - q < far && Repeats(data, s.at, s.at - q, len)
  }

  /** deflate_fast sends no literal where a known string agrees on three bytes, unless the search was too short. */
  lemma LiteralIsNew(cfg: Config, data: seq<Byte>, log: seq<Choice>, ts: seq<Token>, n: nat, i: nat, q: nat)
    requires Parsed(cfg, data, log, ts, n) && !cfg.lazy && i < |log| && cfg.level.nice >= MIN_MATCH
    requires ts[i].Literal? && log[i].here.ahead >= MIN_MATCH
    requires Rival(data, log[i].here, Reach(cfg), q, MIN_MATCH)
    ensures Crowded(cfg, data, log[i].here, q)
  {
    hide Crowded, Repeats;
    assert Follows(cfg, data, log, ts, i);
  }

  /** So a symbol of deflate_fast that repeats three bytes from where an earlier symbol began is a match. */
  lemma RepeatIsTaken(cfg: Config, data: seq<Byte>, log: seq<Choice>, ts: seq<Token>, n: nat, i: nat, j: nat)
    requires Parsed(cfg, data, log, ts, n) && !cfg.lazy && j < i < |log| && cfg.level.nice >= MIN_MATCH
    requires log[j].since == log[i].since < log[j].here.at < log[i].here.at < log[j].here.at + Reach(cfg)
    requires log[j].here.ahead >= MIN_MATCH && log[i].here.ahead >= MIN_MATCH
    requires Repeats(data, log[i].here.at, log[i].here.at - log[j].here.at, MIN_MATCH)
    ensures ts[i].Match? || Crowded(cfg, data, log[i].here, log[j].here.at)
  {
    hide Crowded, Repeats, Parsed;
    var p := log[j].here.at;
    FollowsAt(cfg, data, log, ts, n, j);
    KnownLater(cfg, data, log, ts, n, i, j, p);
    if ts[i].Literal? {
      LiteralIsNew(cfg, data, log, ts, n, i, p);
    }
  }

  lemma FollowsAt(cfg: Config, data: seq<Byte>, log: seq<Choice>, ts: seq<Token>, n: nat, i: nat)
    requires Parsed(cfg, data, log, ts, n) && i < |log|
    ensures Follows(cfg, data, log, ts, i)
  {
  }

  /** No known string agrees on more bytes than a match, of either strategy, unless the search could stop. */
  lemma MatchIsLongest(cfg: Config, data: seq<Byte>, log: seq<Choice>, ts: seq<Token>, n: nat, i: nat, q: nat)
    requires Parsed(cfg, data, log, ts, n) && i < |log| && ts[i].Match? && ts[i].length < MAX_MATCH
    requires Rival(data, log[i].here, Reach(cfg), q, ts[i].length + 1)
    ensures ts[i].length >= cfg.level.nice || ts[i].length == log[i].here.ahead || Crowded(cfg, data, log[i].here, q)
  {
    hide Crowded, Repeats;
    assert Follows(cfg, data, log, ts, i);
  }

  lemma RepeatsShorter(data: seq<Byte>, pos: nat, d: nat, n: nat, m: nat)
    requires Repeats(data, pos, d, n) && m <= n
    ensures Repeats(data, pos, d, m)
  {
  }

  /** deflate_slow takes a match only if no known string at the next place does better, as far as it looks there. */
  lemma NotBettered(cfg: Config, data: seq<Byte>, log: seq<Choice>, ts: seq<Token>, n: nat, i: nat, q: nat)
    requires Parsed(cfg, data, log, ts, n) && cfg.lazy && i < |log| && ts[i].Match? && ts[i].length < MAX_MATCH
    requires !Skipped(cfg, log[i].next) && (ts[i].length >= 5 || !cfg.filtered)
    requires Rival(data, log[i].next, Reach(cfg), q, ts[i].length + 1)
    ensures ts[i].length >= cfg.level.nice || ts[i].length >= log[i].next.ahead || Crowded(cfg, data, log[i].next, q)
  {
    hide Crowded, Repeats;
    assert Follows(cfg, data, log, ts, i);
    var s := log[i].next;
    var len: nat :| Found(cfg, data, s, len) && s.length == Kept(cfg, s, len);
    RepeatsShorter(data, s.at, s.at - q, ts[i].length + 1, len + 1);
  }
}
