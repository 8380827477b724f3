// LMDBMapReversed: the descending view of a map. Every comparison is
// negated, so each navigation method answers with its mirror on the wrapped
// map; its cursor walks the wrapped cursor backwards.

module Reversed {
  import opened Common
  import opened Store
  import opened ViewBounds
  import Api
  import Maps
  import Environment

  /** `compare(a, b)` of the reversed map: the wrapped map's compare, negated. */
  function RevCompare(a: Option<int>, b: Option<int>): (r: int)
    ensures r == 0 <==> a == b
    ensures r < 0 <==> Maps.Compare(b, a) < 0
    ensures r > 0 <==> Maps.Compare(b, a) > 0
  {
    -1 * Maps.Compare(a, b)
  }

  /** The reversed compare is an order: antisymmetric and transitive. */
  lemma RevCompareIsOrder(a: Option<int>, b: Option<int>, c: Option<int>)
    ensures RevCompare(a, b) == -RevCompare(b, a)
    ensures RevCompare(a, b) <= 0 && RevCompare(b, c) <= 0 ==> RevCompare(a, c) <= 0
  {
    Maps.CompareIsOrder(a, b, c);
    Maps.CompareIsOrder(c, b, a);
  }

  /** Key `a` comes at or after key `k` in the reversed order. */
  predicate RevAtLeast(a: int, k: int) {
    RevCompare(Some(a), Some(k)) >= 0
  }

  /** Key `a` comes strictly after key `k` in the reversed order. */
  predicate RevAfter(a: int, k: int) {
    RevCompare(Some(a), Some(k)) > 0
  }

  class MapReversed {
    /** The wrapped map, which `descendingMap()` hands back. */
    const base: Maps.MapImpl

    ghost predicate Valid()
      reads this, base
    {
      base.Valid()
    }

    constructor (m: Maps.MapImpl)
      requires m.Valid()
      ensures Valid() && base == m
    {
      base := m;
    }

    // Navigation, swapped pairwise. Each result is stated in the reversed
    // order: the entry closest to `k` at or after it (ceiling), strictly
    // after it (higher), and so on.

    /**
     * `ceilingEntry(k)` is the wrapped map's `floorEntry(k)`, as written: it
     * answers only when some key comes at or before `k` in the reversed order.
     */
    method CeilingEntry(k: int) returns (r: Option<Pair>)
      requires Valid()
      ensures !KeyAtLeast(base.db, k) ==> r.None?
      ensures KeyAtLeast(base.db, k) ==> (r.Some? <==> exists p :: p in base.db && RevAtLeast(p.key, k))
      ensures r.Some? ==> r.value in base.db && RevAtLeast(r.value.key, k) &&
                          forall p :: p in base.db && RevAtLeast(p.key, k) ==> RevAtLeast(p.key, r.value.key)
    {
      r := base.FloorEntry(k);
    }

    /**
     * `higherEntry(k)` is the wrapped map's `lowerEntry(k)`, as written: it
     * answers only when some key comes at or before `k` in the reversed order.
     */
    method HigherEntry(k: int) returns (r: Option<Pair>)
      requires Valid()
      ensures !KeyAtLeast(base.db, k) ==> r.None?
      ensures KeyAtLeast(base.db, k) ==> (r.Some? <==> exists p :: p in base.db && RevAfter(p.key, k))
      ensures r.Some? ==> r.value in base.db && RevAfter(r.value.key, k) &&
                          forall p :: p in base.db && RevAfter(p.key, k) ==> RevAtLeast(p.key, r.value.key)
    {
      r := base.LowerEntry(k);
    }

    /** `ceilingEntry(k)` on the wrapped map's corrected floor. */
    method CeilingEntryFixed(k: int) returns (r: Option<Pair>)
      requires Valid()
      ensures r.Some? <==> exists p :: p in base.db && RevAtLeast(p.key, k)
      ensures r.Some? ==> r.value in base.db && RevAtLeast(r.value.key, k) &&
                          forall p :: p in base.db && RevAtLeast(p.key, k) ==> RevAtLeast(p.key, r.value.key)
    {
      r := base.FloorEntryFixed(k);
    }

    /** `higherEntry(k)` on the wrapped map's corrected lower. */
    method HigherEntryFixed(k: int) returns (r: Option<Pair>)
      requires Valid()
      ensures r.Some? <==> exists p :: p in base.db && RevAfter(p.key, k)
      ensures r.Some? ==> r.value in base.db && RevAfter(r.value.key, k) &&
                          forall p :: p in base.db && RevAfter(p.key, k) ==> RevAtLeast(p.key, r.value.key)
    {
      r := base.LowerEntryFixed(k);
    }

    /** `floorEntry(k)` is the wrapped map's `ceilingEntry(k)`. */
    method FloorEntry(k: int) returns (r: Option<Pair>)
      requires Valid()
      ensures r.Some? <==> exists p :: p in base.db && RevAtLeast(k, p.key)
      ensures r.Some? ==> r.value in base.db && RevAtLeast(k, r.value.key) &&
                          forall p :: p in base.db && RevAtLeast(k, p.key) ==> RevAtLeast(r.value.key, p.key)
    {
      r := base.CeilingEntry(k);
    }

    /** `lowerEntry(k)` is the wrapped map's `higherEntry(k)`. */
    method LowerEntry(k: int) returns (r: Option<Pair>)
      requires Valid()
      ensures r.Some? <==> exists p :: p in base.db && RevAfter(k, p.key)
      ensures r.Some? ==> r.value in base.db && RevAfter(k, r.value.key) &&
                          forall p :: p in base.db && RevAfter(k, p.key) ==> RevAtLeast(r.value.key, p.key)
    {
      r := base.HigherEntry(k);
    }

    /** `firstEntry()` is the wrapped map's `lastEntry()`: first in the reversed order. */
    method FirstEntry() returns (r: Option<Pair>)
      requires Valid()
      ensures r.None? <==> |base.db| == 0
      ensures r.Some? ==> r.value in base.db && forall p :: p in base.db ==> RevAtLeast(p.key, r.value.key)
    {
      r := base.LastEntry();
    }

    /** `lastEntry()` is the wrapped map's `firstEntry()`: last in the reversed order. */
    method LastEntry() returns (r: Option<Pair>)
      requires Valid()
      ensures r.None? <==> |base.db| == 0
      ensures r.Some? ==> r.value in base.db && forall p :: p in base.db ==> RevAtLeast(r.value.key, p.key)
    {
      r := base.FirstEntry();
    }

    /** `pollFirstEntry()` is the wrapped map's `pollLastEntry()`. */
    method PollFirstEntry() returns (r: Option<Pair>)
      requires Valid()
      modifies base
      ensures Valid()
      ensures r.None? <==> old(base.db) == []
      ensures r.Some? ==> r.value == old(base.db)[|old(base.db)| - 1] && base.db == old(base.db)[..|old(base.db)| - 1]
      ensures r.None? ==> base.db == old(base.db)
    {
      r := base.PollLastEntry();
    }

    /** `pollLastEntry()` is the wrapped map's `pollFirstEntry()`. */
    method PollLastEntry() returns (r: Option<Pair>)
      requires Valid()
      modifies base
      ensures Valid()
      ensures r.None? <==> old(base.db) == []
      ensures r.Some? ==> r.value == old(base.db)[0] && base.db == old(base.db)[1..]
      ensures r.None? ==> base.db == old(base.db)
    {
      r := base.PollFirstEntry();
    }

    /** `prepend(k, v)`: a put before every key in the reversed order, the wrapped map's `append`. */
    method Prepend(k: int, v: int) returns (prepended: bool)
      requires Valid()
      modifies base
      ensures Valid()
      ensures prepended <==> forall p :: p in old(base.db) ==> RevAfter(p.key, k)
      ensures prepended ==> base.db == old(base.db) + [Pair(k, v)]
      ensures !prepended ==> base.db == old(base.db)
    {
      prepended := base.Append(k, v);
    }

    /** `append(k, v)`: a plain put that always answers true. */
    method Append(k: int, v: int) returns (appended: bool)
      requires Valid()
      modifies base
      ensures Valid() && appended
      ensures base.db == Store.Put(old(base.db), base.dup, k, v, Plain).value
    {
      base.PutNoPrev(k, v);
      appended := true;
    }
  }

  // Sub-maps of the reversed map: the wrapped map's view with the bounds
  // swapped, reversed again. The functions give the wrapped view's bounds.

  /** `subMap(f, fi, t, ti)`: the wrapped map's `subMap(t, ti, f, fi)`. */
  function SubMap(f: int, fi: bool, t: int, ti: bool): (r: Outcome<Bounds>)
    ensures r.Ok? <==> RevAfter(t, f)
    ensures r.Fail? ==> r.error == IllegalArgument
    ensures r.Ok? ==> forall k :: InView(r.value, k) <==>
                        (RevAfter(k, f) || (fi && k == f)) && (RevAfter(t, k) || (ti && k == t))
  {
    CheckBounds(Bounds(Some(t), ti, Some(f), fi))
  }

  /**
   * `subMap(f, t)`: the wrapped map's `subMap(t, false, f, true)`, which in
   * the reversed order keeps `f` and drops `t`, as a half-open range should.
   */
  function SubMapHalfOpen(f: int, t: int): (r: Outcome<Bounds>)
    ensures r == SubMap(f, true, t, false)
    ensures r.Ok? ==> forall k :: InView(r.value, k) <==> RevAtLeast(k, f) && RevAfter(t, k)
  {
    CheckBounds(Bounds(Some(t), false, Some(f), true))
  }

  /** `headMap(t, ti)`: the wrapped map's `tailMap(t, ti)`, the keys before `t` in the reversed order. */
  function HeadMap(t: int, ti: bool): (r: Bounds)
    ensures BoundsOk(r)
    ensures forall k :: InView(r, k) <==> RevAfter(t, k) || (ti && k == t)
  {
    Bounds(Some(t), ti, None, false)
  }

  /** `tailMap(f, fi)`: the wrapped map's `headMap(f, fi)`, the keys from `f` on in the reversed order. */
  function TailMap(f: int, fi: bool): (r: Bounds)
    ensures BoundsOk(r)
    ensures forall k :: InView(r, k) <==> RevAfter(k, f) || (fi && k == f)
  {
    Bounds(None, false, Some(f), fi)
  }

  /**
   * `headMap(t)`: the wrapped map's one-argument `tailMap(t)`, whose default
   * inclusivity (true) carries over, so `t` itself is kept.
   */
  function HeadMapDefault(t: int): (r: Bounds)
    ensures BoundsOk(r)
    ensures forall k :: InView(r, k) <==> RevAtLeast(t, k)
  {
    HeadMap(t, true)
  }

  /**
   * `tailMap(f)`: the wrapped map's one-argument `headMap(f)`, whose default
   * inclusivity (false) carries over, so `f` itself is dropped.
   */
  function TailMapDefault(f: int): (r: Bounds)
    ensures BoundsOk(r)
    ensures forall k :: InView(r, k) <==> RevAfter(k, f)
  {
    TailMap(f, false)
  }

  /** The reversed cursor: first/last, next/prev and their key forms swapped. */
  class ReversedCursor {
    const parent: Api.Cursor

    ghost predicate Valid()
      reads this, parent
    {
      parent.Valid() && parent.state == Api.OPEN
    }

    constructor (c: Api.Cursor)
      requires c.Valid() && c.state == Api.OPEN
      ensures Valid() && parent == c
    {
      parent := c;
    }

    /** `first()` is the parent's `last()`. */
    method First() returns (r: Option<Pair>)
      requires Valid()
      modifies parent
      ensures Valid() && parent.db == old(parent.db)
      ensures r == (if |parent.db| > 0 then Some(parent.db[|parent.db| - 1]) else None)
      ensures r.Some? ==> parent.pos == At(|parent.db| - 1)
    {
      var res := parent.Last();
      r := res.value;
    }

    /** `last()` is the parent's `first()`. */
    method Last() returns (r: Option<Pair>)
      requires Valid()
      modifies parent
      ensures Valid() && parent.db == old(parent.db)
      ensures r == (if |parent.db| > 0 then Some(parent.db[0]) else None)
      ensures r.Some? ==> parent.pos == At(0)
    {
      var res := parent.First();
      r := res.value;
    }

    /** `next()` is the parent's `prev()`. */
    method Next() returns (r: Option<Pair>)
      requires Valid()
      modifies parent
      ensures Valid() && parent.db == old(parent.db)
      ensures old(parent.pos).At? ==>
                var i := old(parent.pos).i;
                r == (if i > 0 then Some(parent.db[i - 1]) else None) && (i > 0 ==> parent.pos == At(i - 1))
    {
      var res := parent.Prev();
      r := res.value;
    }

    /** `prev()` is the parent's `next()`. */
    method Prev() returns (r: Option<Pair>)
      requires Valid()
      modifies parent
      ensures Valid() && parent.db == old(parent.db)
      ensures old(parent.pos).At? ==>
                var i := old(parent.pos).i;
                r == (if i + 1 < |parent.db| then Some(parent.db[i + 1]) else None) &&
                (i + 1 < |parent.db| ==> parent.pos == At(i + 1))
    {
      var res := parent.Next();
      r := res.value;
    }

    /**
     * Walking the reversed cursor as an iterator does (`first()`, then
     * `next()` until null) yields the parent's pairs in reverse.
     */
    method Walk() returns (items: seq<Pair>)
      requires Valid()
      modifies parent
      ensures Valid() && parent.db == old(parent.db)
      ensures items == Reverse(parent.db)
    {
      ghost var db := parent.db;
      var e := First();
      items := [];
      ghost var i := |db|;
      while e.Some?
        invariant Valid() && parent.db == db
        invariant 0 <= i <= |db|
        invariant e.Some? ==> i > 0 && parent.pos == At(i - 1) && e.value == db[i - 1]
        invariant e.None? ==> i == 0
        invariant items == Reverse(db[i..])
        decreases i
      {
        ReverseCons(db, i - 1);
        items := items + [e.value];
        e := Next();
        i := i - 1;
      }
    }
  }

  /** The sequence reversed. */
  function Reverse(s: seq<Pair>): (r: seq<Pair>)
    ensures |r| == |s|
    ensures forall j :: 0 <= j < |s| ==> r[j] == s[|s| - 1 - j]
  {
    if s == [] then [] else Reverse(s[1..]) + [s[0]]
  }

  /** Reversing a suffix one element longer appends that element. */
  lemma ReverseCons(s: seq<Pair>, i: nat)
    requires i < |s|
    ensures Reverse(s[i..]) == Reverse(s[i + 1..]) + [s[i]]
  {
    assert s[i..][1..] == s[i + 1..];
  }

  /** On the reversed map of {-1, 0, 1}, `higherKey(0)` is -1 and `lowerKey(0)` is 1. */
  method ReversedNavigationScenario() returns (higher: Option<Pair>, lower: Option<Pair>)
    ensures higher.Some? && higher.value.key == -1
    ensures lower.Some? && lower.value.key == 1
  {
    var e := new Environment.Env();
    var m := new Maps.MapImpl(e, false);
    m.PutNoPrev(-1, 0);
    m.PutNoPrev(0, 0);
    m.PutNoPrev(1, 0);
    assert Pair(-1, 0) in m.db && Pair(1, 0) in m.db;
    var r := new MapReversed(m);
    higher := r.HigherEntry(0);
    lower := r.LowerEntry(0);
  }

  /**
   * On the reversed map of {1}, `ceilingEntry(5)` answers null: the wrapped
   * map's floor starts from the ceiling of 5, and no key is at least 5.
   */
  method ReversedCeilingScenario() returns (asWritten: Option<Pair>, corrected: Option<Pair>)
    ensures asWritten == None && corrected == Some(Pair(1, 0))
  {
    var e := new Environment.Env();
    var m := new Maps.MapImpl(e, false);
    m.PutNoPrev(1, 0);
    assert m.db == [Pair(1, 0)];
    var r := new MapReversed(m);
    asWritten := r.CeilingEntry(5);
    corrected := r.CeilingEntryFixed(5);
  }
}
