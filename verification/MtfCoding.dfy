/**
 * bzip2's second coding stage: move-to-front positions, with runs of zeros
 * written as numbers in bijective base two (digits RUNA = 1 and RUNB = 2,
 * lowest first) and an end-of-block symbol.
 */
module MtfCoding {
  import opened Sequences
  import opened MoveToFront

  const RUNA: nat := 0
  const RUNB: nat := 1

  // ------------------------------------------------------------------
  // Run lengths

  /** The digits of n, none for 0. */
  function Digits(n: nat): (r: seq<nat>)
    ensures n > 0 ==> r != []
    ensures forall i :: 0 <= i < |r| ==> r[i] == RUNA || r[i] == RUNB
  {
    if n == 0 then []
    else if n % 2 == 1 then [RUNA] + Digits((n - 1) / 2)
    else [RUNB] + Digits((n - 2) / 2)
  }

  lemma DigitsCons(d: nat, m: nat)
    requires d <= 1
    ensures Digits(d + 1 + 2 * m) == [d] + Digits(m)
  {
    var n := d + 1 + 2 * m;
    if d == 0 {
      assert n % 2 == 1 && (n - 1) / 2 == m;
    } else {
      assert n % 2 == 0 && (n - 2) / 2 == m;
    }
  }

  function Value(ds: seq<nat>): (r: nat) {
    if ds == [] then 0 else ds[0] + 1 + 2 * Value(ds[1..])
  }

  lemma ValueCons(d: nat, ds: seq<nat>)
    ensures Value([d] + ds) == d + 1 + 2 * Value(ds)
  {
    assert ([d] + ds)[1..] == ds;
  }

  lemma {:induction false} ValueDigits(n: nat)
    ensures Value(Digits(n)) == n
  {
    hide Value;
    if n == 0 {
      ValueNone();
    } else {
      var d := if n % 2 == 1 then RUNA else RUNB;
      var m: nat := (n - 1 - d) / 2;
      assert n == d + 1 + 2 * m;
      ValueDigits(m);
      ValueCons(d, Digits(m));
    }
  }

  lemma ValueNone()
    ensures Value([]) == 0
  {
  }

  /** Never more digits than the run is long. */
  lemma {:induction false} DigitsShort(n: nat)
    ensures |Digits(n)| <= n
  {
    if n > 0 {
      DigitsShort(if n % 2 == 1 then (n - 1) / 2 else (n - 2) / 2);
    }
  }

  // ------------------------------------------------------------------
  // Whole blocks

  predicate Distinct(list: seq<nat>) {
    forall i, j :: 0 <= i < j < |list| ==> list[i] != list[j]
  }

  function Find(list: seq<nat>, x: nat): (k: nat)
    requires x in list
    ensures k < |list| && list[k] == x
  {
    if list[0] == x then 0 else
      assert x in list[1..];
      1 + Find(list[1..], x)
  }

  /** The symbols for what is left of the block, pend zeros being held back. */
  function Encode(ls: seq<nat>, list: seq<nat>, pend: nat, eob: nat): (r: seq<nat>)
    requires list != [] && forall x :: x in ls ==> x in list
    decreases |ls|
  {
    if ls == [] then Digits(pend) + [eob]
    else if list[0] == ls[0] then Encode(ls[1..], list, pend + 1, eob)
    else
      var j := Find(list, ls[0]);
      FrontIn(list, j);
      Digits(pend) + [j + 1] + Encode(ls[1..], Front(list, j), 0, eob)
  }

  lemma FrontIn(list: seq<nat>, j: nat)
    requires j < |list|
    ensures forall x :: x in list <==> x in Front(list, j)
  {
    var f := Front(list, j);
    forall x | x in list ensures x in f {
      var i :| 0 <= i < |list| && list[i] == x;
      assert if i == j then f[0] == x else if i < j then f[i + 1] == x else f[i] == x;
    }
  }

  datatype Outcome = Block(ls: seq<nat>) | Unfinished | Invalid

  function Prefixed(s: seq<nat>, o: Outcome): Outcome {
    match o
    case Block(ls) => Block(s + ls)
    case _ => o
  }

  /** What the decoder makes of symbols: run is the value of the run digits just read, weight the next digit's. */
  function Decode(syms: seq<nat>, list: seq<nat>, run: nat, weight: nat, eob: nat): (o: Outcome)
    requires list != []
    decreases |syms|
  {
    if syms == [] then Unfinished
    else
      var s := syms[0];
      if s == RUNA || s == RUNB then Decode(syms[1..], list, run + (s + 1) * weight, 2 * weight, eob)
      else if s == eob then Block(Rep(list[0], run))
      else if s - 1 >= |list| then Invalid
      else Prefixed(Rep(list[0], run) + [list[s - 1]], Decode(syms[1..], Front(list, s - 1), 0, 1, eob))
  }

  /** Reading digits adds up their value. */
  lemma {:induction false} DecodeDigits(ds: seq<nat>, rest: seq<nat>, list: seq<nat>, run: nat, weight: nat, eob: nat)
    requires list != [] && forall i :: 0 <= i < |ds| ==> ds[i] == RUNA || ds[i] == RUNB
    requires rest == [] || rest[0] > RUNB
    ensures Decode(ds + rest, list, run, weight, eob) == Decode(rest, list, run + Value(ds) * weight, 1, eob)
    decreases |ds|
  {
    if ds == [] {
      assert ds + rest == rest;
      DecodeWeight(rest, list, run, weight, 1, eob);
    } else {
      var d := ds[0];
      assert (ds + rest)[1..] == ds[1..] + rest;
      DecodeDigits(ds[1..], rest, list, run + (d + 1) * weight, 2 * weight, eob);
      DigitValue(d, Value(ds[1..]), weight);
    }
  }

  lemma DigitValue(d: nat, v: nat, w: nat)
    ensures (d + 1) * w + v * (2 * w) == (d + 1 + 2 * v) * w
  {
  }

  /** Beyond run digits the weight does not matter. */
  lemma DecodeWeight(syms: seq<nat>, list: seq<nat>, run: nat, w: nat, w': nat, eob: nat)
    requires list != [] && (syms == [] || syms[0] > RUNB)
    ensures Decode(syms, list, run, w, eob) == Decode(syms, list, run, w', eob)
  {
  }

  lemma DecodeRun(n: nat, rest: seq<nat>, list: seq<nat>, eob: nat)
    requires list != [] && (rest == [] || rest[0] > RUNB)
    ensures Decode(Digits(n) + rest, list, 0, 1, eob) == Decode(rest, list, n, 1, eob)
  {
    hide Decode, Digits, Value;
    DecodeDigits(Digits(n), rest, list, 0, 1, eob);
    ValueDigits(n);
  }

  /** One symbol other than a run digit. */
  lemma DecodePosition(j: nat, rest: seq<nat>, list: seq<nat>, n: nat, eob: nat)
    requires 0 < j < |list| && eob == |list| + 1
    ensures Decode([j + 1] + rest, list, n, 1, eob) ==
      Prefixed(Rep(list[0], n) + [list[j]], Decode(rest, Front(list, j), 0, 1, eob))
  {
    assert ([j + 1] + rest)[1..] == rest;
  }

  lemma DecodeEnd(list: seq<nat>, n: nat, eob: nat)
    requires list != [] && eob == |list| + 1
    ensures Decode([eob], list, n, 1, eob) == Block(Rep(list[0], n))
  {
  }

  /** The decoder's symbol loop undoes the encoder's, runs included. */
  lemma {:induction false} RoundTrip(ls: seq<nat>, list: seq<nat>, pend: nat, eob: nat)
    requires list != [] && Distinct(list) && (forall x :: x in ls ==> x in list) && eob == |list| + 1
    ensures Decode(Encode(ls, list, pend, eob), list, 0, 1, eob) == Block(Rep(list[0], pend) + ls)
    decreases |ls|
  {
    hide Decode, Digits, Find, Rep, Front;
    if ls == [] {
      DecodeRun(pend, [eob], list, eob);
      DecodeEnd(list, pend, eob);
      assert Rep(list[0], pend) + ls == Rep(list[0], pend);
    } else if list[0] == ls[0] {
      RoundTrip(ls[1..], list, pend + 1, eob);
      assert Rep(list[0], pend + 1) + ls[1..] == Rep(list[0], pend) + ls;
    } else {
      var j := Find(list, ls[0]);
      FrontIn(list, j);
      FrontDistinct(list, j);
      var rest := Encode(ls[1..], Front(list, j), 0, eob);
      RoundTrip(ls[1..], Front(list, j), 0, eob);
      assert Digits(pend) + [j + 1] + rest == Digits(pend) + ([j + 1] + rest);
      DecodeRun(pend, [j + 1] + rest, list, eob);
      DecodePosition(j, rest, list, pend, eob);
      assert Rep(Front(list, j)[0], 0) + ls[1..] == ls[1..];
      assert Rep(list[0], pend) + [ls[0]] + ls[1..] == Rep(list[0], pend) + ls;
    }
  }

  lemma FrontDistinct(list: seq<nat>, j: nat)
    requires j < |list| && Distinct(list)
    ensures Distinct(Front(list, j))
  {
  }

  // ------------------------------------------------------------------
  // Facts about the decoder

  /** Entries beyond the alphabet are never reached. */
  lemma {:induction false} DecodeTail(syms: seq<nat>, list: seq<nat>, tail: seq<nat>, run: nat, weight: nat, eob: nat)
    requires list != [] && eob == |list| + 1 && Decode(syms, list, run, weight, eob) != Invalid
    ensures Decode(syms, list + tail, run, weight, eob) == Decode(syms, list, run, weight, eob)
    decreases |syms|
  {
    hide Rep, Front;
    assert (list + tail)[0] == list[0];
    if syms != [] {
      var s := syms[0];
      if s == RUNA || s == RUNB {
        DecodeTail(syms[1..], list, tail, run + (s + 1) * weight, 2 * weight, eob);
      } else if s != eob {
        var j := s - 1;
        FrontAppend(list, tail, j);
        DecodeTail(syms[1..], Front(list, j), tail, 0, 1, eob);
      }
    }
  }

  lemma FrontAppend(list: seq<nat>, tail: seq<nat>, j: nat)
    requires j < |list|
    ensures Front(list + tail, j) == Front(list, j) + tail && (list + tail)[j] == list[j]
  {
  }

  /** A run read so far is part of the block. */
  lemma {:induction false} DecodeLong(syms: seq<nat>, list: seq<nat>, run: nat, weight: nat, eob: nat)
    requires list != [] && Decode(syms, list, run, weight, eob).Block?
    ensures |Decode(syms, list, run, weight, eob).ls| >= run
    decreases |syms|
  {
    var s := syms[0];
    if s == RUNA || s == RUNB {
      DecodeLong(syms[1..], list, run + (s + 1) * weight, 2 * weight, eob);
    }
  }
}
