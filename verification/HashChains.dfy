/**
 * The dictionary of deflate: head[k] is the window position of the most
 * recent string with key k, prev[p & w_mask] the previous string with the
 * same key as the string at p.  0 is NIL.  prev is only as long as the
 * window, so a slot is reused every w_size positions and links into reused
 * slots are never removed; they are merely too old to be followed.
 *
 * The owner of a slot, which the program does not store, is the position
 * last inserted there.  A link is live while its target is less than w_size
 * behind `now`, the current string; the invariant is that a live target still
 * owns its slot and has the right key, and that no live string of that key
 * lies between a link and the string it leads to.  Strings are entered in
 * order: every one entered so far lies before `top`.  `known` are their
 * places in the data, but for a string at position 0, which no link can name.
 */
module HashChains {
  import opened Powers
  import opened Lz77
  import opened DeflateHash

  /** Positions in head, prev, owner, top and now are relative to the window's start at data[base]. */
  datatype Chain = Chain(
    bits: nat, wsize: nat, data: seq<Byte>, base: nat,
    head: seq<nat>, prev: seq<nat>, owner: seq<int>, known: set<nat>, top: nat, now: nat)

  ghost predicate Shape(c: Chain) {
    && Bits(c.bits) && c.wsize > 0
    && |c.head| == HashSize(c.bits) && |c.prev| == c.wsize && |c.owner| == c.wsize
    && c.base + c.top <= |c.data| && c.top <= c.now + 1 && c.now <= 2 * c.wsize
  }

  /** q & w_mask for a position in the window of 2 * w_size bytes. */
  function Slot(wsize: nat, q: nat): (r: nat)
    requires q < 2 * wsize
    ensures r == q % wsize
  {
    DivModUnique(q, wsize, if q < wsize then 0 else 1, if q < wsize then q else q - wsize);
    if q < wsize then q else q - wsize
  }

  function KeyAt(bits: nat, data: seq<Byte>, p: nat): (r: nat)
    requires Bits(bits) && p + 2 < |data|
    ensures r < HashSize(bits)
  {
    var h := Hash3(bits, data[p], data[p + 1], data[p + 2]);
    IndexBound(bits, h);
    Index(bits, h)
  }

  ghost predicate Owns(c: Chain, q: nat, key: nat)
    requires Shape(c)
  {
    && q < 2 * c.wsize && c.owner[Slot(c.wsize, q)] == q
    && c.base + q + 2 < |c.data| && KeyAt(c.bits, c.data, c.base + q) == key
  }

  ghost predicate Linked(c: Chain, q: nat, key: nat, below: int)
    requires Shape(c)
  {
    q == 0 || (q < below && (q + c.wsize > c.now ==> Owns(c, q, key)))
  }

  /** No live string of that key lies above q and below the given position. */
  ghost predicate Tops(c: Chain, q: nat, key: nat, below: int)
    requires Shape(c)
  {
    forall p: nat :: p < below && p + c.wsize > c.now && Owns(c, p, key) ==> p <= q
  }

  /** The live strings that have been entered are the known ones. */
  ghost predicate Recalls(c: Chain)
    requires Shape(c)
  {
    && (forall a :: a in c.known ==> a < c.base + c.top && a < c.base + 2 * c.wsize && a + 2 < |c.data|)
    && forall p: nat :: 0 < p < 2 * c.wsize && p < c.top && p + c.wsize > c.now ==> Recalled(c, p)
  }

  ghost predicate Recalled(c: Chain, p: nat)
    requires Shape(c) && p < 2 * c.wsize
  {
    c.base + p in c.known <==> c.owner[Slot(c.wsize, p)] == p
  }

  ghost predicate HeadOk(c: Chain, k: nat)
    requires Shape(c) && k < |c.head|
  {
    Linked(c, c.head[k], k, c.top) && Tops(c, c.head[k], k, c.top)
  }

  ghost predicate SlotOk(c: Chain, s: nat)
    requires Shape(c) && s < c.wsize
  {
    c.owner[s] >= 0 ==>
      var o: nat := c.owner[s];
      && o < c.top && o < 2 * c.wsize && Slot(c.wsize, o) == s
      && c.base + o + 2 < |c.data|
      && Linked(c, c.prev[s], KeyAt(c.bits, c.data, c.base + o), o)
      && Tops(c, c.prev[s], KeyAt(c.bits, c.data, c.base + o), o)
  }

  ghost predicate Chains(c: Chain)
    ensures Chains(c) ==> Shape(c)
  {
    && Shape(c)
    && (forall k: nat | k < |c.head| :: HeadOk(c, k))
    && (forall s: nat | s < c.wsize :: SlotOk(c, s))
    && Recalls(c)
  }

  /** A live string leads to strings of the same key that lie strictly before it. */
  lemma Follow(c: Chain, q: nat, key: nat)
    requires Chains(c) && Owns(c, q, key)
    ensures Linked(c, c.prev[Slot(c.wsize, q)], key, q) && Tops(c, c.prev[Slot(c.wsize, q)], key, q)
  {
    assert SlotOk(c, Slot(c.wsize, q));
  }

  lemma HeadLinked(c: Chain, k: nat)
    requires Chains(c) && k < |c.head|
    ensures Linked(c, c.head[k], k, c.top) && Tops(c, c.head[k], k, c.top)
  {
    assert HeadOk(c, k);
  }

  ghost function Inserted(c: Chain): (r: Chain)
    requires Shape(c) && c.top <= c.now && c.top < 2 * c.wsize && c.base + c.top + 2 < |c.data|
  {
    var p, key := c.top, KeyAt(c.bits, c.data, c.base + c.top);
    c.(head := c.head[key := p],
       prev := c.prev[Slot(c.wsize, p) := c.head[key]],
       owner := c.owner[Slot(c.wsize, p) := p],
       known := c.known + (if p > 0 then {c.base + p} else {}),
       top := p + 1)
  }

  /** Taking over a slot only disowns a string that is no longer live. */
  lemma OwnsInserted(c: Chain, q: nat, key: nat)
    requires Chains(c) && c.top <= c.now && c.top < 2 * c.wsize && c.base + c.top + 2 < |c.data|
    requires Owns(c, q, key) && q + c.wsize > c.now
    ensures Owns(Inserted(c), q, key)
  {
    assert SlotOk(c, Slot(c.wsize, q));
  }

  lemma LinkedInserted(c: Chain, q: nat, key: nat, below: int)
    requires Chains(c) && c.top <= c.now && c.top < 2 * c.wsize && c.base + c.top + 2 < |c.data|
    requires Linked(c, q, key, below)
    ensures Linked(Inserted(c), q, key, below)
  {
    if q > 0 && q + c.wsize > c.now {
      OwnsInserted(c, q, key);
    }
  }

  lemma LinkedNewest(c: Chain)
    requires Chains(c) && c.top <= c.now && c.top < 2 * c.wsize && c.base + c.top + 2 < |c.data|
    ensures Linked(Inserted(c), c.top, KeyAt(c.bits, c.data, c.base + c.top), c.top + 1)
  {
  }

  /** Every string that now owns a slot and lies below owned it before. */
  lemma OwnedBefore(c: Chain, p: nat, key: nat)
    requires Chains(c) && c.top <= c.now && c.top < 2 * c.wsize && c.base + c.top + 2 < |c.data|
    requires Owns(Inserted(c), p, key)
    ensures p != c.top ==> Owns(c, p, key)
    ensures p == c.top ==> key == KeyAt(c.bits, c.data, c.base + c.top)
  {
  }

  lemma TopsInserted(c: Chain, q: nat, key: nat, below: int)
    requires Chains(c) && c.top <= c.now && c.top < 2 * c.wsize && c.base + c.top + 2 < |c.data|
    requires Tops(c, q, key, below)
    ensures below <= c.top ==> Tops(Inserted(c), q, key, below)
    ensures below == c.top && key != KeyAt(c.bits, c.data, c.base + c.top) ==> Tops(Inserted(c), q, key, c.top + 1)
    ensures Tops(Inserted(c), c.top, KeyAt(c.bits, c.data, c.base + c.top), c.top + 1)
  {
    hide Owns, KeyAt, Slot;
    forall p: nat | Owns(Inserted(c), p, key) ensures p != c.top ==> Owns(c, p, key)
      ensures p == c.top ==> key == KeyAt(c.bits, c.data, c.base + c.top)
    {
      OwnedBefore(c, p, key);
    }
  }

  lemma RecallsInserted(c: Chain)
    requires Chains(c) && c.top <= c.now && c.top < 2 * c.wsize && c.base + c.top + 2 < |c.data|
    ensures Recalls(Inserted(c))
  {
    hide KeyAt;
    var c' := Inserted(c);
    var s := Slot(c.wsize, c.top);
    assert SlotOk(c, s);
    forall p: nat | 0 < p < 2 * c.wsize && p < c'.top && p + c.wsize > c'.now ensures Recalled(c', p) {
      if p < c.top {
        assert Recalled(c, p);
        SlotApart(c.wsize, p, c.top);
      }
    }
  }

  lemma SlotApart(wsize: nat, p: nat, q: nat)
    requires p < q < 2 * wsize && q < p + wsize
    ensures Slot(wsize, p) != Slot(wsize, q)
  {
  }

  lemma ChainsInserted(c: Chain)
    requires Chains(c) && c.top <= c.now && c.top < 2 * c.wsize && c.base + c.top + 2 < |c.data|
    ensures Chains(Inserted(c))
  {
    hide Linked, Owns, KeyAt, Slot, Tops, Recalls;
    var c' := Inserted(c);
    var p, key := c.top, KeyAt(c.bits, c.data, c.base + c.top);
    LinkedNewest(c);
    forall k: nat | k < |c'.head| ensures HeadOk(c', k) {
      assert HeadOk(c, k);
      LinkedInserted(c, c.head[k], k, c.top);
      LinkedBelow(c', c.head[k], k, c.top, p + 1);
      TopsInserted(c, c.head[k], k, c.top);
    }
    assert HeadOk(c, key);
    LinkedInserted(c, c.head[key], key, c.top);
    TopsInserted(c, c.head[key], key, c.top);
    RecallsInserted(c);
    forall s: nat | s < c.wsize ensures SlotOk(c', s) {
      assert SlotOk(c, s);
      if c.owner[s] >= 0 {
        LinkedInserted(c, c.prev[s], KeyAt(c.bits, c.data, c.base + c.owner[s]), c.owner[s]);
        TopsInserted(c, c.prev[s], KeyAt(c.bits, c.data, c.base + c.owner[s]), c.owner[s]);
      }
    }
  }

  lemma LinkedBelow(c: Chain, q: nat, key: nat, below: int, below': int)
    requires Shape(c) && Linked(c, q, key, below) && below <= below'
    ensures Linked(c, q, key, below')
  {
  }

  /** c' differs in top and now alone, and nothing has become live again. */
  predicate Moved(c: Chain, c': Chain) {
    c' == c.(top := c'.top, now := c'.now) && c.now <= c'.now
  }

  lemma LinksMoved(c: Chain, c': Chain, q: nat, key: nat, below: int)
    requires Chains(c) && Shape(c') && Moved(c, c')
    ensures Linked(c, q, key, below) ==> Linked(c', q, key, below)
    ensures Tops(c, q, key, below) ==> Tops(c', q, key, below)
    ensures Linked(c, q, key, c.top) && c.top <= c'.top ==> Linked(c', q, key, c'.top)
    ensures Tops(c, q, key, c.top) ==> Tops(c', q, key, c'.top)
  {
    hide KeyAt, Slot, Owns;
    forall p: nat, k: nat ensures Owns(c', p, k) <==> Owns(c, p, k) {
      OwnsMoved(c, c', p, k);
    }
    forall p: nat, k: nat | Owns(c, p, k) ensures p < c.top {
      OwnedBelow(c, p, k);
    }
  }

  lemma OwnsMoved(c: Chain, c': Chain, q: nat, key: nat)
    requires Shape(c) && Shape(c') && Moved(c, c')
    ensures Owns(c', q, key) <==> Owns(c, q, key)
  {
  }

  /** What owns a slot has been entered. */
  lemma OwnedBelow(c: Chain, q: nat, key: nat)
    requires Chains(c) && Owns(c, q, key)
    ensures q < c.top
  {
    assert SlotOk(c, Slot(c.wsize, q));
  }

  /** Moving on without entering strings: fewer links are live. */
  lemma ChainsAdvance(c: Chain, c': Chain)
    requires Chains(c) && c' == c.(top := c'.top, now := c'.now)
    requires c.top <= c'.top <= c'.now + 1 && c.now <= c'.now <= 2 * c.wsize
    requires c.base + c'.top <= |c.data|
    ensures Chains(c')
  {
    hide KeyAt, Linked, Tops;
    forall k: nat | k < |c'.head| ensures HeadOk(c', k) {
      assert HeadOk(c, k);
      LinksMoved(c, c', c.head[k], k, c.top);
    }
    forall s: nat | s < c.wsize ensures SlotOk(c', s) {
      assert SlotOk(c, s);
      if c.owner[s] >= 0 {
        LinksMoved(c, c', c.prev[s], KeyAt(c.bits, c.data, c.base + c.owner[s]), c.owner[s]);
      }
    }
    forall p: nat | 0 < p < 2 * c.wsize && p < c'.top && p + c.wsize > c'.now ensures Recalled(c', p) {
      if p < c.top { assert Recalled(c, p); } else { assert SlotOk(c, Slot(c.wsize, p)); }
    }
  }

  /** At the end of the data the last two positions cannot have been entered. */
  lemma ChainsRetract(c: Chain, c': Chain)
    requires Chains(c) && c' == c.(top := c'.top)
    requires c'.top <= c.now && c.base + c'.top + 2 >= |c.data| && c.now < c'.top + c.wsize
    requires c.base + c'.top <= |c.data|
    ensures Chains(c')
  {
    hide KeyAt, Linked, Tops;
    forall k: nat | k < |c'.head| ensures HeadOk(c', k) {
      assert HeadOk(c, k);
      LinksMoved(c, c', c.head[k], k, c.top);
      LinkedEarlier(c, c', c.head[k], k);
    }
    forall s: nat | s < c.wsize ensures SlotOk(c', s) {
      assert SlotOk(c, s);
      if c.owner[s] >= 0 {
        LinksMoved(c, c', c.prev[s], KeyAt(c.bits, c.data, c.base + c.owner[s]), c.owner[s]);
      }
    }
    RecallsRetract(c, c');
  }

  lemma LinkedEarlier(c: Chain, c': Chain, q: nat, key: nat)
    requires Chains(c) && Shape(c') && c' == c.(top := c'.top) && c.base + c'.top + 2 >= |c.data|
    requires c.now < c'.top + c.wsize && Linked(c, q, key, c.top)
    ensures Linked(c', q, key, c'.top)
  {
    hide KeyAt, Slot;
  }

  lemma RecallsRetract(c: Chain, c': Chain)
    requires Chains(c) && Shape(c') && c' == c.(top := c'.top) && c.base + c'.top + 2 >= |c.data|
    requires c'.top <= c.now
    ensures Recalls(c')
  {
    hide KeyAt;
    forall p: nat | 0 < p < 2 * c.wsize && p < c'.top && p + c.wsize > c'.now ensures Recalled(c', p) {
      if p < c.top { assert Recalled(c, p); } else { assert SlotOk(c, Slot(c.wsize, p)); }
    }
  }

  /** Reading more input changes no key. */
  lemma ChainsRead(c: Chain, more: seq<Byte>)
    requires Chains(c)
    ensures Chains(c.(data := c.data + more))
  {
    hide KeyAt, Linked, Tops, Slot;
    var c' := c.(data := c.data + more);
    forall k: nat | k < |c'.head| ensures HeadOk(c', k) {
      assert HeadOk(c, k);
      LinksRead(c, more, c.head[k], k, c.top);
    }
    forall s: nat | s < c.wsize ensures SlotOk(c', s) {
      assert SlotOk(c, s);
      if c.owner[s] >= 0 {
        KeyRead(c.bits, c.data, more, c.base + c.owner[s]);
        LinksRead(c, more, c.prev[s], KeyAt(c.bits, c.data, c.base + c.owner[s]), c.owner[s]);
      }
    }
    forall p: nat | 0 < p < 2 * c.wsize && p < c'.top && p + c.wsize > c'.now ensures Recalled(c', p) {
      assert Recalled(c, p);
    }
  }

  lemma LinksRead(c: Chain, more: seq<Byte>, q: nat, key: nat, below: int)
    requires Chains(c)
    ensures var c' := c.(data := c.data + more);
      (Linked(c, q, key, below) ==> Linked(c', q, key, below)) && (Tops(c, q, key, below) ==> Tops(c', q, key, below))
  {
    hide KeyAt, Slot, Owns;
    var c' := c.(data := c.data + more);
    forall p: nat, k: nat ensures Owns(c', p, k) <==> Owns(c, p, k) {
      OwnsRead(c, more, p, k);
    }
  }

  lemma OwnsRead(c: Chain, more: seq<Byte>, q: nat, key: nat)
    requires Chains(c)
    ensures Owns(c.(data := c.data + more), q, key) <==> Owns(c, q, key)
  {
    hide KeyAt;
    if q < 2 * c.wsize && c.owner[Slot(c.wsize, q)] == q {
      assert SlotOk(c, Slot(c.wsize, q));
      KeyRead(c.bits, c.data, more, c.base + q);
    }
  }

  lemma KeyRead(bits: nat, data: seq<Byte>, more: seq<Byte>, p: nat)
    requires Bits(bits) && p + 2 < |data|
    ensures KeyAt(bits, data + more, p) == KeyAt(bits, data, p)
  {
    var d := data + more;
    assert d[p] == data[p] && d[p + 1] == data[p + 1] && d[p + 2] == data[p + 2];
  }

  /** Where an entry of head or prev goes when the window slides. */
  function Slid(wsize: nat, m: nat): nat {
    if m >= wsize then m - wsize else 0
  }

  ghost predicate IsSlid(wsize: nat, old': seq<int>, new': seq<int>, clip: bool) {
    && |new'| == |old'|
    && forall i | 0 <= i < |old'| ::
         new'[i] == if clip && old'[i] < wsize then 0 else old'[i] - wsize
  }

  /** The upper half of the window moves down: positions fall by w_size, data stays. */
  ghost predicate MovedDown(c: Chain, c': Chain) {
    && c.top >= c.wsize && c.now >= c.wsize
    && c' == c.(base := c.base + c.wsize, top := c.top - c.wsize, now := c.now - c.wsize,
                head := c'.head, prev := c'.prev, owner := c'.owner)
    && IsSlid(c.wsize, c.head, c'.head, true) && IsSlid(c.wsize, c.prev, c'.prev, true)
    && IsSlid(c.wsize, c.owner, c'.owner, false)
  }

  lemma ChainsSlide(c: Chain, c': Chain)
    requires Chains(c) && MovedDown(c, c')
    ensures Chains(c')
  {
    hide KeyAt, Owns, Slot, Linked, Tops;
    assert Shape(c');
    forall k: nat | k < |c'.head| ensures HeadOk(c', k) {
      assert HeadOk(c, k);
      LinksSlide(c, c', c.head[k], k, c.top);
    }
    forall s: nat | s < c.wsize ensures SlotOk(c', s) {
      assert SlotOk(c, s);
      if c'.owner[s] >= 0 {
        var o: nat := c.owner[s];
        SlotSlide(c.wsize, o);
        assert c'.base + c'.owner[s] == c.base + o;
        LinksSlide(c, c', c.prev[s], KeyAt(c.bits, c.data, c.base + o), o);
      }
    }
    RecallsSlide(c, c');
  }

  lemma RecallsSlide(c: Chain, c': Chain)
    requires Chains(c) && Shape(c') && MovedDown(c, c')
    ensures Recalls(c')
  {
    hide KeyAt;
    forall p: nat | 0 < p < 2 * c.wsize && p < c'.top && p + c.wsize > c'.now ensures Recalled(c', p) {
      if p < c.wsize {
        assert Recalled(c, p + c.wsize);
        SlotSlide(c.wsize, p + c.wsize);
      } else {
        assert SlotOk(c, Slot(c.wsize, p));
      }
    }
  }

  lemma SlotSlide(wsize: nat, o: nat)
    requires wsize <= o < 2 * wsize
    ensures Slot(wsize, o - wsize) == Slot(wsize, o)
  {
  }

  lemma OwnsSlide(c: Chain, c': Chain, q: nat, key: nat)
    requires Chains(c) && Shape(c') && MovedDown(c, c')
    ensures Owns(c', q, key) ==> Owns(c, q + c.wsize, key)
    ensures q < c.wsize && Owns(c, q + c.wsize, key) ==> Owns(c', q, key)
  {
    hide KeyAt;
    assert c'.base + q == c.base + (q + c.wsize);
    if q < c.wsize {
      SlotSlide(c.wsize, q + c.wsize);
    } else if q < 2 * c.wsize {
      assert SlotOk(c, Slot(c.wsize, q));
    }
  }

  lemma LinksSlide(c: Chain, c': Chain, q: nat, key: nat, below: int)
    requires Chains(c) && Shape(c') && MovedDown(c, c')
    ensures Linked(c, q, key, below) ==> Linked(c', Slid(c.wsize, q), key, below - c.wsize)
    ensures Tops(c, q, key, below) ==> Tops(c', Slid(c.wsize, q), key, below - c.wsize)
  {
    hide Owns, Slot, KeyAt, IsSlid;
    if q > c.wsize && q + c.wsize > c.now && Linked(c, q, key, below) && q < 2 * c.wsize {
      OwnsSlide(c, c', q - c.wsize, key);
    }
    if Linked(c, q, key, below) && q + c.wsize > c.now { LiveInside(c, q, key); }
    if Tops(c, q, key, below) {
      forall p: nat | p < below - c.wsize && p + c.wsize > c'.now && Owns(c', p, key) ensures p <= Slid(c.wsize, q) {
        OwnsSlide(c, c', p, key);
        assert Owns(c, p + c.wsize, key);
      }
    }
  }

  lemma LiveInside(c: Chain, q: nat, key: nat)
    requires Shape(c)
    ensures Owns(c, q, key) ==> q < 2 * c.wsize
  {
  }

  /** An empty dictionary: whatever prev holds, nothing leads there. */
  lemma ChainsEmpty(c: Chain)
    requires Shape(c)
    requires forall k | 0 <= k < |c.head| :: c.head[k] == 0
    requires (forall s | 0 <= s < |c.owner| :: c.owner[s] < 0) && c.known == {}
    ensures Chains(c)
  {
  }

  /** The chain from q on: at most k strings, all beyond limit. */
  ghost function Walk(prev: seq<nat>, wsize: nat, q: nat, limit: nat, k: nat): seq<nat>
    requires |prev| == wsize
    decreases k
  {
    if k == 0 || q <= limit || q >= 2 * wsize then []
    else [q] + Walk(prev, wsize, prev[Slot(wsize, q)], limit, k - 1)
  }

  /** The strings on the way are live ones of that key, from the last to the first. */
  ghost predicate Descends(c: Chain, w: seq<nat>, key: nat, below: int)
    requires Shape(c)
  {
    && (forall i :: 0 <= i < |w| ==> w[i] < below && Owns(c, w[i], key))
    && forall i, j :: 0 <= i < j < |w| ==> w[i] > w[j]
  }

  lemma {:induction false} WalkDescends(c: Chain, q: nat, key: nat, below: int, limit: nat, k: nat)
    requires Chains(c) && limit + c.wsize >= c.now && Linked(c, q, key, below)
    ensures Descends(c, Walk(c.prev, c.wsize, q, limit, k), key, below)
    decreases k
  {
    hide KeyAt, Slot, Owns, Tops;
    if k > 0 && q > limit && q < 2 * c.wsize {
      var next := c.prev[Slot(c.wsize, q)];
      Follow(c, q, key);
      WalkDescends(c, next, key, q, limit, k - 1);
    }
  }

  /** A live string of that key is met, unless so many later ones are met before it that the walk ends. */
  lemma {:induction false} WalkFinds(c: Chain, q: nat, key: nat, below: int, p: nat, limit: nat, k: nat)
    requires Chains(c) && limit + c.wsize >= c.now && Linked(c, q, key, below) && Tops(c, q, key, below)
    requires limit < p < below && Owns(c, p, key)
    ensures var w := Walk(c.prev, c.wsize, q, limit, k);
      p in w || (|w| == k && forall x :: x in w ==> x > p)
    decreases k
  {
    hide KeyAt, Slot, Owns;
    LiveInside(c, q, key);
    if k > 0 && p < q {
      var next := c.prev[Slot(c.wsize, q)];
      Follow(c, q, key);
      WalkFinds(c, next, key, q, p, limit, k - 1);
    }
  }

  /** Known strings that are still live own their slots. */
  lemma KnownOwns(c: Chain, p: nat)
    requires Chains(c) && 0 < p < 2 * c.wsize && p + c.wsize > c.now && c.base + p in c.known
    ensures p < c.top && c.base + p + 2 < |c.data| && Owns(c, p, KeyAt(c.bits, c.data, c.base + p))
  {
    hide KeyAt;
    assert Recalled(c, p);
  }

  lemma OwnsKnown(c: Chain, p: nat, key: nat)
    requires Chains(c) && Owns(c, p, key) && 0 < p && p + c.wsize > c.now
    ensures c.base + p in c.known && c.base + p + 2 < |c.data| && KeyAt(c.bits, c.data, c.base + p) == key
  {
    hide KeyAt;
    OwnedBelow(c, p, key);
    assert Recalled(c, p);
  }

  lemma {:induction false} WalkBeyond(prev: seq<nat>, wsize: nat, q: nat, limit: nat, k: nat)
    requires |prev| == wsize
    ensures forall x :: x in Walk(prev, wsize, q, limit, k) ==> x > limit
    decreases k
  {
    hide Slot;
    if k > 0 && q > limit && q < 2 * wsize {
      WalkBeyond(prev, wsize, prev[Slot(wsize, q)], limit, k - 1);
    }
  }

  /** The same for a chain that is begun at q, whatever q's distance. */
  lemma ChainFinds(c: Chain, q: nat, key: nat, below: int, p: nat, limit: nat, k: nat)
    requires Chains(c) && limit + c.wsize >= c.now && 0 < q < below && q >= limit && q + c.wsize > c.now
    requires Owns(c, q, key) && limit < p <= q && Owns(c, p, key) && k > 0
    ensures q < 2 * c.wsize
    ensures var w := [q] + Walk(c.prev, c.wsize, c.prev[Slot(c.wsize, q)], limit, k - 1);
      && Descends(c, w, key, below) && (forall x :: x in w ==> x > 0 && x + c.wsize > c.now)
      && (p in w || (|w| == k && forall x :: x in w ==> x > p))
  {
    hide KeyAt, Slot, Owns, Tops, Chains, Walk, Linked;
    LiveInside(c, q, key);
    var next := c.prev[Slot(c.wsize, q)];
    Follow(c, q, key);
    WalkDescends(c, next, key, q, limit, k - 1);
    WalkBeyond(c.prev, c.wsize, next, limit, k - 1);
    if p < q {
      WalkFinds(c, next, key, q, p, limit, k - 1);
    }
  }
}
