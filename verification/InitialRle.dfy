/**
 * bzip2's initial run-length code: a run of four equal bytes is followed by
 * a byte saying how many more there are.
 */
module InitialRle {
  import opened Sequences
  import opened Rotations

  lemma RepAdd(c: Byte, m: nat, n: nat)
    ensures Rep(c, m + n) == Rep(c, m) + Rep(c, n)
  {
  }

  /** Length of the run a coded string starts with, at most 4. */
  function Lead(s: seq<Byte>): (k: nat)
    requires s != []
    ensures 1 <= k <= 4 && k <= |s|
    ensures forall i :: 0 <= i < k ==> s[i] == s[0]
    ensures k == 4 || k == |s| || s[k] != s[0]
  {
    if |s| == 1 || s[1] != s[0] then 1
    else if |s| == 2 || s[2] != s[0] then 2
    else if |s| == 3 || s[3] != s[0] then 3
    else 4
  }

  /** Every four equal bytes are followed by a count. */
  predicate Whole(s: seq<Byte>) {
    s == [] ||
    var k := Lead(s);
    if k < 4 then Whole(s[k..]) else |s| > 4 && Whole(s[5..])
  }

  function Unrle(s: seq<Byte>): seq<Byte>
    requires Whole(s)
  {
    if s == [] then []
    else
      var k := Lead(s);
      if k < 4 then Rep(s[0], k) + Unrle(s[k..]) else Rep(s[0], s[4] as nat + 4) + Unrle(s[5..])
  }

  /** add_pair_to_block: the code of one run. */
  function Pair(c: Byte, n: nat): seq<Byte>
    requires 1 <= n <= 259
  {
    if n < 4 then Rep(c, n) else [c, c, c, c, n - 4]
  }

  datatype Run = Run(c: Byte, n: nat)

  /** Runs of 1 to 255 bytes; only a run of 255 is followed by more of the same byte. */
  predicate Runs(rs: seq<Run>) {
    && (forall i :: 0 <= i < |rs| ==> 1 <= rs[i].n <= 255)
    && (forall i :: 0 < i < |rs| ==> Apart(rs[i - 1], rs[i]))
  }

  predicate Apart(a: Run, b: Run) { a.n == 255 || a.c != b.c }

  function Coded(rs: seq<Run>): seq<Byte>
    requires Runs(rs)
  {
    if rs == [] then [] else Pair(rs[0].c, rs[0].n) + Coded(rs[1..])
  }

  function Plain(rs: seq<Run>): seq<Byte> {
    if rs == [] then [] else Rep(rs[0].c, rs[0].n) + Plain(rs[1..])
  }

  lemma PairBytes(c: Byte, n: nat)
    requires 1 <= n <= 259
    ensures Pair(c, n) == if n == 1 then [c] else if n == 2 then [c, c] else if n == 3 then [c, c, c]
                          else [c, c, c, c, n - 4]
  {
    assert Rep(c, 1) == [c];
    assert Rep(c, 2) == [c, c];
    assert Rep(c, 3) == [c, c, c];
  }

  lemma PairFirst(c: Byte, n: nat)
    requires 1 <= n <= 255
    ensures Pair(c, n) != [] && Pair(c, n)[0] == c
  {
  }

  /** One run is decoded whatever follows, unless it is short and continued. */
  lemma UnrlePair(c: Byte, n: nat, rest: seq<Byte>)
    requires 1 <= n <= 255 && Whole(rest) && (n >= 4 || rest == [] || rest[0] != c)
    ensures Whole(Pair(c, n) + rest)
    ensures Unrle(Pair(c, n) + rest) == Rep(c, n) + Unrle(rest)
  {
    if n >= 4 {
      UnrleLong(c, n, rest);
    } else {
      UnrleShort(c, n, rest);
    }
  }

  lemma UnrleLong(c: Byte, n: nat, rest: seq<Byte>)
    requires 4 <= n <= 255 && Whole(rest)
    ensures Whole(Pair(c, n) + rest) && Unrle(Pair(c, n) + rest) == Rep(c, n) + Unrle(rest)
  {
    hide Rep;
    var s := Pair(c, n) + rest;
    assert s[..5] == [c, c, c, c, n - 4];
    assert s[5..] == rest;
    assert Lead(s) == 4;
  }

  lemma UnrleShort(c: Byte, n: nat, rest: seq<Byte>)
    requires 1 <= n <= 3 && Whole(rest) && (rest == [] || rest[0] != c)
    ensures Whole(Pair(c, n) + rest) && Unrle(Pair(c, n) + rest) == Rep(c, n) + Unrle(rest)
  {
    hide Whole, Unrle;
    var s := Pair(c, n) + rest;
    assert Rep(c, 1) == [c];
    assert Rep(c, 2) == [c, c];
    assert Rep(c, 3) == [c, c, c];
    assert s[n..] == rest;
    assert Lead(s) == n;
    ShortRun(s, n);
  }

  lemma ShortRun(s: seq<Byte>, n: nat)
    requires s != [] && Lead(s) == n < 4 && Whole(s[n..])
    ensures Whole(s) && Unrle(s) == Rep(s[0], n) + Unrle(s[n..])
  {
    hide Rep;
  }

  lemma {:induction false} UnrleCoded(rs: seq<Run>)
    requires Runs(rs)
    ensures Whole(Coded(rs)) && Unrle(Coded(rs)) == Plain(rs)
  {
    if rs != [] {
      var rest := rs[1..];
      RunsRest(rs);
      UnrleCoded(rest);
      if rest != [] {
        PairFirst(rest[0].c, rest[0].n);
      }
      UnrlePair(rs[0].c, rs[0].n, Coded(rest));
    }
  }

  lemma RunsRest(rs: seq<Run>)
    requires Runs(rs) && rs != []
    ensures Runs(rs[1..]) && (|rs| > 1 ==> Apart(rs[0], rs[1]))
  {
    var rest := rs[1..];
    forall i | 0 < i < |rest| ensures Apart(rest[i - 1], rest[i]) {
      assert rest[i] == rs[i + 1] && rest[i - 1] == rs[i + 1 - 1];
    }
  }

  lemma RunsSnoc(rs: seq<Run>, r: Run)
    requires Runs(rs) && 1 <= r.n <= 255 && (rs == [] || Apart(rs[|rs| - 1], r))
    ensures Runs(rs + [r])
  {
  }

  /** Adding one run at the end. */
  lemma {:induction false} CodedSnoc(rs: seq<Run>, r: Run)
    requires Runs(rs) && 1 <= r.n <= 255 && (rs == [] || Apart(rs[|rs| - 1], r))
    ensures Runs(rs + [r]) && Coded(rs + [r]) == Coded(rs) + Pair(r.c, r.n)
    ensures Plain(rs + [r]) == Plain(rs) + Rep(r.c, r.n)
  {
    hide Pair, Rep, Runs;
    RunsSnoc(rs, r);
    var all := rs + [r];
    if rs == [] {
      assert all[1..] == [];
      RunsRest(all);
      assert Coded(all) == Pair(r.c, r.n) + Coded([]);
    } else {
      RunsRest(rs);
      assert all[1..] == rs[1..] + [r];
      CodedSnoc(rs[1..], r);
    }
  }

  // ------------------------------------------------------------------
  // The code of a text

  /** How far the run goes that t starts with, k of its bytes being known. */
  function RunLen(t: seq<Byte>, k: nat): (r: nat)
    requires 1 <= k <= 255 && k <= |t| && forall i :: 0 <= i < k ==> t[i] == t[0]
    ensures k <= r <= 255 && r <= |t| && forall i :: 0 <= i < r ==> t[i] == t[0]
    ensures r == 255 || r == |t| || t[r] != t[0]
    decreases |t| - k
  {
    if k == 255 || k == |t| || t[k] != t[0] then k else RunLen(t, k + 1)
  }

  /** A text cut into the longest runs of at most 255 bytes. */
  function RunsOf(t: seq<Byte>): (rs: seq<Run>) {
    if t == [] then [] else
      var n := RunLen(t, 1);
      [Run(t[0], n)] + RunsOf(t[n..])
  }

  lemma {:induction false} RunsOfText(t: seq<Byte>)
    ensures Runs(RunsOf(t)) && Plain(RunsOf(t)) == t
    decreases |t|
  {
    hide Runs, Rep, Plain, RunsOf;
    if t == [] {
      NoRuns();
    } else {
      var n := RunLen(t, 1);
      var r, rest := Run(t[0], n), RunsOf(t[n..]);
      RunsOfText(t[n..]);
      RunsOfFirst(t);
      NoRuns();
      if n < |t| { RunsOfFirst(t[n..]); } else { assert t[n..] == []; }
      RunsCons(r, rest);
      PlainCons(r, rest);
      RepFront(t, n);
      assert t == t[..n] + t[n..];
    }
  }

  lemma RunsOfFirst(t: seq<Byte>)
    requires t != []
    ensures var n := RunLen(t, 1); RunsOf(t) == [Run(t[0], n)] + RunsOf(t[n..])
    ensures RunsOf(t) != [] && RunsOf(t)[0].c == t[0]
  {
  }

  lemma PlainCons(r: Run, rest: seq<Run>)
    ensures Plain([r] + rest) == Rep(r.c, r.n) + Plain(rest)
  {
    hide Rep;
    assert ([r] + rest)[1..] == rest;
  }

  lemma RepFront(t: seq<Byte>, n: nat)
    requires n <= |t| && forall i :: 0 <= i < n ==> t[i] == t[0]
    ensures n > 0 ==> t[..n] == Rep(t[0], n)
  {
  }

  lemma NoRuns()
    ensures Runs([]) && RunsOf([]) == [] && Plain([]) == []
  {
  }

  lemma NoCode()
    ensures Coded([]) == []
  {
  }

  lemma RunsCons(r: Run, rs: seq<Run>)
    requires Runs(rs) && 1 <= r.n <= 255 && (rs == [] || Apart(r, rs[0]))
    ensures Runs([r] + rs)
  {
    var all := [r] + rs;
    forall i | 0 < i < |all| ensures Apart(all[i - 1], all[i]) {
      assert all[i] == rs[i - 1];
      if i > 1 { assert all[i - 1] == rs[i - 1 - 1]; }
    }
  }

  /** There is only one way to cut a text into such runs. */
  lemma {:induction false} RunsUnique(rs: seq<Run>)
    requires Runs(rs)
    ensures RunsOf(Plain(rs)) == rs
  {
    hide Runs, Rep;
    if rs != [] {
      var r, rest := rs[0], rs[1..];
      var t := Plain(rs);
      FirstRun(rs);
      RunsRest(rs);
      RunsUnique(rest);
      if rest != [] { FirstRun(rest); }
      assert t == Rep(r.c, r.n) + Plain(rest);
      FrontRun(r.c, r.n, Plain(rest));
      assert t[r.n..] == Plain(rest);
      assert rs == [r] + rest;
    }
  }

  lemma FirstRun(rs: seq<Run>)
    requires Runs(rs) && rs != []
    ensures 1 <= rs[0].n <= 255 && Plain(rs) != [] && Plain(rs)[0] == rs[0].c
  {
  }

  lemma FrontRun(c: Byte, n: nat, rest: seq<Byte>)
    requires 1 <= n <= 255 && (n == 255 || rest == [] || rest[0] != c)
    ensures var t := Rep(c, n) + rest; t[0] == c && RunLen(t, 1) == n
  {
    var t := Rep(c, n) + rest;
    var r := RunLen(t, 1);
    assert forall i :: 0 <= i < n ==> t[i] == c;
    if n < |t| { assert t[n] == rest[0]; }
  }

  /** The run-length code that bzip2 prescribes for a text. */
  function Rle(t: seq<Byte>): seq<Byte> {
    RunsOfText(t);
    Coded(RunsOf(t))
  }

  /** It is read back as the text. */
  lemma RleRead(t: seq<Byte>)
    ensures Whole(Rle(t)) && Unrle(Rle(t)) == t
  {
    hide Runs, Coded, Whole, Unrle, RunsOf, Plain;
    RunsOfText(t);
    UnrleCoded(RunsOf(t));
  }

  /** Runs that go on from a to b without a break. */
  predicate Joins(a: seq<Run>, b: seq<Run>) {
    b != [] && (a == [] || Apart(a[|a| - 1], b[0]))
  }

  /** The code of runs is the code of their text. */
  lemma CodeOfText(a: seq<Run>)
    requires Runs(a)
    ensures Coded(a) == Rle(Plain(a)) && Whole(Coded(a)) && Unrle(Coded(a)) == Plain(a)
  {
    hide Runs, Coded, Plain, RunsOf, Whole, Unrle;
    RunsUnique(a);
    UnrleCoded(a);
  }

  /** Codes of runs that join are the code of both texts together. */
  lemma CodeOfBoth(a: seq<Run>, b: seq<Run>)
    requires Runs(a) && Runs(b) && Joins(a, b)
    ensures Coded(a) + Coded(b) == Rle(Plain(a) + Plain(b))
  {
    hide Runs, Coded, Plain, RunsOf, Apart;
    RunsJoined(a, b);
    RunsUnique(a + b);
  }

  lemma {:induction false} RunsJoined(a: seq<Run>, b: seq<Run>)
    requires Runs(a) && Runs(b) && Joins(a, b)
    ensures Runs(a + b) && Coded(a + b) == Coded(a) + Coded(b) && Plain(a + b) == Plain(a) + Plain(b)
    decreases |b|
  {
    hide Runs, Coded, Plain, Pair, Rep, Apart;
    var n := |b| - 1;
    if n == 0 {
      assert b == [b[0]];
      OneRun(b);
      CodedSnoc(a, b[0]);
    } else {
      FrontRuns(b);
      RunsJoined(a, b[..n]);
      assert (a + b[..n])[|a + b[..n]| - 1] == b[n - 1];
      CodedSnoc(b[..n], b[n]);
      CodedSnoc(a + b[..n], b[n]);
      assert b == b[..n] + [b[n]] && a + b == (a + b[..n]) + [b[n]];
    }
  }

  lemma OneRun(b: seq<Run>)
    requires Runs(b) && |b| == 1
    ensures 1 <= b[0].n <= 255 && Coded(b) == Pair(b[0].c, b[0].n) && Plain(b) == Rep(b[0].c, b[0].n)
  {
    hide Pair, Rep;
    assert b[1..] == [];
  }

  lemma FrontRuns(b: seq<Run>)
    requires Runs(b) && |b| >= 2
    ensures Runs(b[..|b| - 1]) && Apart(b[|b| - 2], b[|b| - 1]) && 1 <= b[|b| - 1].n <= 255
  {
    assert Apart(b[|b| - 1 - 1], b[|b| - 1]);
    assert forall i :: 0 <= i < |b| - 1 ==> b[..|b| - 1][i] == b[i];
  }
}
