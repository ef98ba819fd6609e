/**
 * The code lengths of a dynamic block (section 3.2.7 of RFC 1951): scan_tree
 * and send_tree write them with run lengths, inflate's CODELENS state reads
 * them back.
 */
module CodeLengths {
  import opened Sequences

  const REP_3_6: nat := 16
  const REPZ_3_10: nat := 17
  const REPZ_11_138: nat := 18
  const GUARD: nat := 0xffff

  /** A bit-length symbol and the value of its extra bits. */
  datatype Sym = Sym(val: nat, extra: nat)

  predicate Lengths(lens: seq<nat>) {
    forall i :: 0 <= i < |lens| ==> lens[i] <= 15
  }

  // ------------------------------------------------------------------
  // What is sent

  /** max_count and min_count for a run of cur after prev. */
  function MaxCount(cur: nat, prev: int): nat {
    if cur == 0 then 138 else if cur == prev then 6 else 7
  }

  function MinCount(cur: nat, prev: int): nat {
    if cur == 0 then 3 else if cur == prev then 3 else 4
  }

  function Plain(cur: nat, count: nat): (r: seq<Sym>)
    ensures |r| == count && forall i :: 0 <= i < count ==> r[i] == Sym(cur, 0)
  {
    seq(count, _ => Sym(cur, 0))
  }

  /** The symbols for count lengths cur, the last length before them being prev. */
  function RunCode(cur: nat, count: nat, prev: int): (r: seq<Sym>)
    requires 1 <= count <= MaxCount(cur, prev)
    ensures cur <= 15 ==> forall i :: 0 <= i < |r| ==> Sendable(r[i])
  {
    if count < MinCount(cur, prev) then Plain(cur, count)
    else if cur != 0 then
      if cur != prev then [Sym(cur, 0), Sym(REP_3_6, count - 1 - 3)] else [Sym(REP_3_6, count - 3)]
    else if count <= 10 then [Sym(REPZ_3_10, count - 3)]
    else [Sym(REPZ_11_138, count - 11)]
  }

  /** The extra bits have room for their value. */
  predicate Sendable(s: Sym) {
    && s.val <= 18 && (s.val < 16 ==> s.extra == 0)
    && (s.val == REP_3_6 ==> s.extra < 4) && (s.val == REPZ_3_10 ==> s.extra < 8)
    && (s.val == REPZ_11_138 ==> s.extra < 128)
  }

  function NextLen(lens: seq<nat>, n: nat): nat {
    if n < |lens| then lens[n] else GUARD
  }

  /** The symbols for the lengths from n on, count equal ones before n being held back. */
  function Emit(lens: seq<nat>, n: nat, count: nat, prev: int): (r: seq<Sym>)
    requires n <= |lens| && (n < |lens| ==> count < MaxCount(lens[n], prev))
    decreases |lens| - n
  {
    if n == |lens| then []
    else
      var cur, next, c := lens[n], NextLen(lens, n + 1), count + 1;
      if c < MaxCount(cur, prev) && cur == next then Emit(lens, n + 1, c, prev)
      else RunCode(cur, c, prev) + Emit(lens, n + 1, 0, cur)
  }

  // ------------------------------------------------------------------
  // What is received

  datatype Outcome = Read(lens: seq<nat>) | Bad

  /** One symbol of CODELENS, when no more than total lengths may come. */
  function Apply(o: Outcome, s: Sym, total: nat): Outcome {
    match o
    case Bad => Bad
    case Read(lens) =>
      if s.val < 16 then Read(lens + [s.val])
      else if s.val == 16 && lens == [] then Bad
      else
        var len := if s.val == 16 then lens[|lens| - 1] else 0;
        var copy := s.extra + if s.val == REPZ_11_138 then 11 else 3;
        if |lens| + copy > total then Bad else Read(lens + Rep(len, copy))
  }

  function ApplyAll(o: Outcome, syms: seq<Sym>, total: nat): Outcome
    decreases |syms|
  {
    if syms == [] then o else ApplyAll(Apply(o, syms[0], total), syms[1..], total)
  }

  lemma {:induction false} ApplyAppend(o: Outcome, a: seq<Sym>, b: seq<Sym>, total: nat)
    ensures ApplyAll(o, a + b, total) == ApplyAll(ApplyAll(o, a, total), b, total)
    decreases |a|
  {
    if a == [] {
      assert a + b == b;
    } else {
      assert (a + b)[1..] == a[1..] + b;
      ApplyAppend(Apply(o, a[0], total), a[1..], b, total);
    }
  }

  lemma {:induction false} ApplyPlain(lens: seq<nat>, cur: nat, count: nat, total: nat)
    requires cur <= 15
    ensures ApplyAll(Read(lens), Plain(cur, count), total) == Read(lens + Rep(cur, count))
    decreases count
  {
    if count == 0 {
      assert lens + Rep(cur, 0) == lens;
    } else {
      assert Plain(cur, count)[1..] == Plain(cur, count - 1);
      ApplyPlain(lens + [cur], cur, count - 1, total);
      assert (lens + [cur]) + Rep(cur, count - 1) == lens + Rep(cur, count);
    }
  }

  /** A run is read back as it was, given that the length before it is prev. */
  lemma ApplyRun(lens: seq<nat>, cur: nat, count: nat, prev: int, total: nat)
    requires cur <= 15 && 1 <= count <= MaxCount(cur, prev) && |lens| + count <= total
    requires cur == prev && cur != 0 ==> lens != [] && lens[|lens| - 1] == cur
    ensures ApplyAll(Read(lens), RunCode(cur, count, prev), total) == Read(lens + Rep(cur, count))
  {
    var syms := RunCode(cur, count, prev);
    if count < MinCount(cur, prev) {
      ApplyPlain(lens, cur, count, total);
    } else if cur != 0 && cur != prev {
      var one := lens + [cur];
      assert syms[1..] == [Sym(REP_3_6, count - 4)] && syms[1..][1..] == [];
      assert Apply(Read(lens), syms[0], total) == Read(one);
      assert one + Rep(cur, count - 1) == lens + Rep(cur, count);
      assert ApplyAll(Read(one), syms[1..], total) == ApplyAll(Read(one + Rep(cur, count - 1)), [], total);
    } else {
      assert syms[1..] == [];
      assert ApplyAll(Read(lens), syms, total) == ApplyAll(Read(lens + Rep(cur, count)), [], total);
    }
  }

  /** The lengths held back before n are all equal to the next one, and prev came before them. */
  predicate Holding(lens: seq<nat>, n: nat, count: nat, prev: int) {
    && count <= n <= |lens|
    && (count > 0 ==> n < |lens|)
    && (forall i :: n - count <= i < n && n < |lens| ==> lens[i] == lens[n])
    && prev == (if n - count == 0 then -1 else lens[n - count - 1])
    && (n < |lens| ==> count < MaxCount(lens[n], prev))
  }

  /** Whatever was read before, what is sent is what is read. */
  lemma {:induction false} EmitRead(lens: seq<nat>, n: nat, count: nat, prev: int, before: seq<nat>, total: nat)
    requires Lengths(lens) && Holding(lens, n, count, prev) && |before| + |lens| <= total
    ensures ApplyAll(Read(before + lens[..n - count]), Emit(lens, n, count, prev), total) == Read(before + lens)
    decreases |lens| - n
  {
    hide ApplyAll, RunCode, Rep;
    if n == |lens| {
      assert lens[..n] == lens;
      NothingMore(Read(before + lens), total);
    } else {
      var cur, next, c := lens[n], NextLen(lens, n + 1), count + 1;
      if c < MaxCount(cur, prev) && cur == next {
        EmitRead(lens, n + 1, c, prev, before, total);
      } else {
        var sofar := before + lens[..n - count];
        LastRead(lens, n, count, prev, before);
        ApplyRun(sofar, cur, c, prev, total);
        HeldRun(lens, n, count, prev, before);
        ApplyAppend(Read(sofar), RunCode(cur, c, prev), Emit(lens, n + 1, 0, cur), total);
        EmitRead(lens, n + 1, 0, cur, before, total);
      }
    }
  }

  lemma NothingMore(o: Outcome, total: nat)
    ensures ApplyAll(o, [], total) == o
  {
  }

  lemma LastRead(lens: seq<nat>, n: nat, count: nat, prev: int, before: seq<nat>)
    requires Holding(lens, n, count, prev)
    ensures prev >= 0 ==> n - count > 0 && (before + lens[..n - count])[|before| + n - count - 1] == prev
  {
  }

  lemma HeldRun(lens: seq<nat>, n: nat, count: nat, prev: int, before: seq<nat>)
    requires Holding(lens, n, count, prev) && n < |lens|
    ensures (before + lens[..n - count]) + Rep(lens[n], count + 1) == before + lens[..n + 1]
  {
    assert lens[n - count..n + 1] == Rep(lens[n], count + 1);
    assert lens[..n + 1] == lens[..n - count] + lens[n - count..n + 1];
  }

  lemma {:induction false} EmitSendable(lens: seq<nat>, n: nat, count: nat, prev: int)
    requires Lengths(lens) && n <= |lens| && (n < |lens| ==> count < MaxCount(lens[n], prev))
    ensures forall i :: 0 <= i < |Emit(lens, n, count, prev)| ==> Sendable(Emit(lens, n, count, prev)[i])
    decreases |lens| - n
  {
    hide RunCode, Sendable;
    if n < |lens| {
      var cur, next, c := lens[n], NextLen(lens, n + 1), count + 1;
      if c < MaxCount(cur, prev) && cur == next {
        EmitSendable(lens, n + 1, c, prev);
      } else {
        EmitSendable(lens, n + 1, 0, cur);
      }
    }
  }

  // ------------------------------------------------------------------
  // The programs

  /** send_tree */
  method SendTree(lens: seq<nat>) returns (syms: seq<Sym>)
    requires Lengths(lens) && lens != []
    ensures syms == Emit(lens, 0, 0, -1)
  {
    hide RunCode;
    syms := [];
    var prevlen, nextlen, count := -1, lens[0], 0;
    var maxCount, minCount := 7, 4;
    if nextlen == 0 {
      maxCount, minCount := 138, 3;
    }
    for n := 0 to |lens|
      invariant nextlen == NextLen(lens, n) && count <= n
      invariant n < |lens| ==>
        maxCount == MaxCount(nextlen, prevlen) && minCount == MinCount(nextlen, prevlen) && count < maxCount
      invariant syms + Emit(lens, n, count, prevlen) == Emit(lens, 0, 0, -1)
    {
      var curlen := nextlen;
      nextlen := if n + 1 < |lens| then lens[n + 1] else GUARD;
      count := count + 1;
      if count < maxCount && curlen == nextlen {
        continue;
      }
      var run := SendRun(curlen, count, prevlen, minCount);
      assert (syms + run) + Emit(lens, n + 1, 0, curlen) == syms + (run + Emit(lens, n + 1, 0, curlen));
      syms := syms + run;
      count, prevlen := 0, curlen;
      if nextlen == 0 {
        maxCount, minCount := 138, 3;
      } else if curlen == nextlen {
        maxCount, minCount := 6, 3;
      } else {
        maxCount, minCount := 7, 4;
      }
    }
    assert syms + [] == syms;
  }

  /** The branches of send_tree for one run. */
  method SendRun(curlen: nat, count: nat, prevlen: int, minCount: nat) returns (run: seq<Sym>)
    requires 1 <= count <= MaxCount(curlen, prevlen) && minCount == MinCount(curlen, prevlen)
    ensures run == RunCode(curlen, count, prevlen)
  {
    run := [];
    var left := count;
    if left < minCount {
      while left != 0
        invariant 0 <= left <= count && run == Plain(curlen, count - left)
      {
        run := run + [Sym(curlen, 0)];
        left := left - 1;
      }
    } else if curlen != 0 {
      if curlen != prevlen {
        run := [Sym(curlen, 0)];
        left := left - 1;
      }
      assert 3 <= left <= 6;
      run := run + [Sym(REP_3_6, left - 3)];
    } else if left <= 10 {
      run := [Sym(REPZ_3_10, left - 3)];
    } else {
      run := [Sym(REPZ_11_138, left - 11)];
    }
  }

  /** How often a symbol occurs. */
  function Times(syms: seq<Sym>, v: nat): nat {
    if syms == [] then 0 else (if syms[0].val == v then 1 else 0) + Times(syms[1..], v)
  }

  lemma {:induction false} TimesAppend(a: seq<Sym>, b: seq<Sym>, v: nat)
    ensures Times(a + b, v) == Times(a, v) + Times(b, v)
    decreases |a|
  {
    if a == [] {
      assert a + b == b;
    } else {
      assert (a + b)[1..] == a[1..] + b;
      TimesAppend(a[1..], b, v);
    }
  }

  lemma {:induction false} TimesPlain(cur: nat, count: nat, v: nat)
    ensures Times(Plain(cur, count), v) == if v == cur then count else 0
    decreases count
  {
    if count > 0 {
      assert Plain(cur, count)[1..] == Plain(cur, count - 1);
      TimesPlain(cur, count - 1, v);
    }
  }

  /** Frequencies grown by the symbols of a run. */
  ghost predicate Grown(freq: seq<nat>, freq': seq<nat>, syms: seq<Sym>) {
    |freq'| == |freq| && forall v: nat :: v < |freq| ==> freq'[v] == freq[v] + Times(syms, v)
  }

  lemma GrownAppend(f: seq<nat>, f1: seq<nat>, f2: seq<nat>, a: seq<Sym>, b: seq<Sym>)
    requires Grown(f, f1, a) && Grown(f1, f2, b)
    ensures Grown(f, f2, a + b)
  {
    forall v: nat | v < |f| ensures f2[v] == f[v] + Times(a + b, v) {
      TimesAppend(a, b, v);
    }
  }

  /** The branches of scan_tree for one run. */
  method ScanRun(freq: array<nat>, curlen: nat, count: nat, prevlen: int, minCount: nat)
    requires 1 <= count <= MaxCount(curlen, prevlen) && minCount == MinCount(curlen, prevlen)
    requires freq.Length >= 19 && curlen <= 15
    modifies freq
    ensures Grown(old(freq[..]), freq[..], RunCode(curlen, count, prevlen))
  {
    ghost var run := RunCode(curlen, count, prevlen);
    if count < minCount {
      freq[curlen] := freq[curlen] + count;
      forall v: nat | v < freq.Length ensures freq[v] == old(freq[v]) + Times(run, v) {
        TimesPlain(curlen, count, v);
      }
    } else {
      if curlen != 0 {
        if curlen != prevlen {
          freq[curlen] := freq[curlen] + 1;
        }
        freq[REP_3_6] := freq[REP_3_6] + 1;
      } else if count <= 10 {
        freq[REPZ_3_10] := freq[REPZ_3_10] + 1;
      } else {
        freq[REPZ_11_138] := freq[REPZ_11_138] + 1;
      }
      forall v: nat | v < freq.Length ensures freq[v] == old(freq[v]) + Times(run, v) {
        TimesFew(run, v);
      }
    }
  }

  lemma TimesFew(syms: seq<Sym>, v: nat)
    requires 1 <= |syms| <= 2
    ensures Times(syms, v) == (if syms[0].val == v then 1 else 0) + (if |syms| == 2 && syms[1].val == v then 1 else 0)
  {
    assert |syms| == 2 ==> syms[1..][1..] == [];
  }

  /** scan_tree counts exactly the symbols that send_tree sends. */
  method ScanTree(lens: seq<nat>, freq: array<nat>)
    requires Lengths(lens) && lens != [] && freq.Length >= 19
    modifies freq
    ensures Grown(old(freq[..]), freq[..], Emit(lens, 0, 0, -1))
  {
    hide RunCode, Grown;
    ghost var f0, done: seq<Sym> := freq[..], [];
    var prevlen, nextlen, count := -1, lens[0], 0;
    var maxCount, minCount := 7, 4;
    if nextlen == 0 {
      maxCount, minCount := 138, 3;
    }
    GrownNone(f0);
    for n := 0 to |lens|
      invariant nextlen == NextLen(lens, n) && count <= n
      invariant n < |lens| ==>
        maxCount == MaxCount(nextlen, prevlen) && minCount == MinCount(nextlen, prevlen) && count < maxCount
      invariant done + Emit(lens, n, count, prevlen) == Emit(lens, 0, 0, -1) && Grown(f0, freq[..], done)
    {
      var curlen := nextlen;
      nextlen := if n + 1 < |lens| then lens[n + 1] else GUARD;
      count := count + 1;
      if count < maxCount && curlen == nextlen {
        continue;
      }
      ghost var f1, run := freq[..], RunCode(curlen, count, prevlen);
      ScanRun(freq, curlen, count, prevlen, minCount);
      GrownAppend(f0, f1, freq[..], done, run);
      assert (done + run) + Emit(lens, n + 1, 0, curlen) == done + (run + Emit(lens, n + 1, 0, curlen));
      done := done + run;
      count, prevlen := 0, curlen;
      if nextlen == 0 {
        maxCount, minCount := 138, 3;
      } else if curlen == nextlen {
        maxCount, minCount := 6, 3;
      } else {
        maxCount, minCount := 7, 4;
      }
    }
    assert done + [] == done;
  }

  lemma GrownNone(f: seq<nat>)
    ensures Grown(f, f, [])
  {
  }

  /** What CODELENS does with one symbol. */
  method Put(s: Sym, total: nat, lens: array<nat>, have: nat) returns (bad: bool, have': nat)
    requires have < total <= lens.Length && s.val <= 18
    modifies lens
    ensures have' <= total
    ensures Apply(Read(old(lens[..have])), s, total) == if bad then Bad else Read(lens[..have'])
  {
    bad, have' := false, have;
    if s.val < 16 {
      lens[have] := s.val;
      have' := have + 1;
      assert lens[..have'] == old(lens[..have]) + [s.val];
    } else {
      var len, copy := 0, 0;
      if s.val == 16 {
        if have == 0 {
          return true, have;
        }
        len := lens[have - 1];
        copy := 3 + s.extra;
      } else if s.val == 17 {
        copy := 3 + s.extra;
      } else {
        copy := 11 + s.extra;
      }
      if have + copy > total {
        return true, have;
      }
      Fill(lens, have, len, copy);
      have' := have + copy;
    }
  }

  method Fill(lens: array<nat>, have: nat, len: nat, copy: nat)
    requires have + copy <= lens.Length
    modifies lens
    ensures lens[..have + copy] == old(lens[..have]) + Rep(len, copy)
  {
    for i := 0 to copy
      invariant lens[..have + i] == old(lens[..have]) + Rep(len, i)
    {
      lens[have + i] := len;
      assert lens[..have + i + 1] == lens[..have + i] + [len];
    }
  }

  lemma NoneApplied(total: nat)
    ensures ApplyAll(Read([]), [], total) == Read([])
  {
  }

  lemma OneApplied(syms: seq<Sym>, pos: nat, total: nat)
    requires pos < |syms|
    ensures ApplyAll(Read([]), syms[..pos + 1], total) == Apply(ApplyAll(Read([]), syms[..pos], total), syms[pos], total)
  {
    assert syms[..pos + 1] == syms[..pos] + [syms[pos]];
    ApplyAppend(Read([]), syms[..pos], [syms[pos]], total);
    assert [syms[pos]][1..] == [];
  }

  lemma {:induction false} ApplyGrows(lens: seq<nat>, syms: seq<Sym>, total: nat)
    requires ApplyAll(Read(lens), syms, total).Read?
    ensures |ApplyAll(Read(lens), syms, total).lens| >= |lens| + |syms|
    decreases |syms|
  {
    if syms != [] {
      var o := Apply(Read(lens), syms[0], total);
      if o.Bad? {
        StaysBad(syms[1..], total);
      } else {
        ApplyGrows(o.lens, syms[1..], total);
      }
    }
  }

  lemma {:induction false} StaysBad(syms: seq<Sym>, total: nat)
    ensures ApplyAll(Bad, syms, total) == Bad
    decreases |syms|
  {
    if syms != [] { StaysBad(syms[1..], total); }
  }

  lemma BothRead(lit: seq<nat>, dist: seq<nat>, a: seq<Sym>, b: seq<Sym>)
    requires Lengths(lit) && Lengths(dist) && a == Emit(lit, 0, 0, -1) && b == Emit(dist, 0, 0, -1)
    ensures ApplyAll(Read([]), a + b, |lit| + |dist|) == Read(lit + dist)
  {
    hide Emit, ApplyAll;
    var total := |lit| + |dist|;
    EmitRead(lit, 0, 0, -1, [], total);
    assert [] + lit[..0] == [] && [] + lit == lit;
    EmitRead(dist, 0, 0, -1, lit, total);
    assert lit + dist[..0] == lit;
    ApplyAppend(Read([]), a, b, total);
  }

  lemma Stopped(syms: seq<Sym>, pos: nat, total: nat, all: seq<nat>, got: seq<nat>, bad: bool)
    requires pos <= |syms| && ApplyAll(Read([]), syms, total) == Read(all) && |all| == total
    requires ApplyAll(Read([]), syms[..pos], total) == if bad then Bad else Read(got)
    requires bad || |got| == total || pos == |syms|
    ensures !bad && got == all && pos == |syms|
  {
    hide ApplyAll;
    assert syms == syms[..pos] + syms[pos..];
    ApplyAppend(Read([]), syms[..pos], syms[pos..], total);
    if bad {
      StaysBad(syms[pos..], total);
    } else {
      ApplyGrows(got, syms[pos..], total);
      assert syms[..|syms|] == syms;
    }
  }
}
