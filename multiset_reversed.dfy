// LMDBMultiSetReversed: the descending view of one key's set of values.
// Every comparison is negated, so each navigation method answers with its
// mirror on the wrapped set, and each range is the wrapped set's range with
// the ends swapped, reversed again.

module MultiSetsReversed {
  import opened Common
  import opened ViewBounds
  import opened MultiSets
  import Reversed

  /** In the reversed order, `a` comes at or after `k` exactly when `a <= k`, and strictly after when `a < k`. */
  lemma RevIsDescending()
    ensures forall a, k :: Reversed.RevAtLeast(a, k) <==> a <= k
    ensures forall a, k :: Reversed.RevAfter(a, k) <==> a < k
  {
  }

  // What the navigation methods answer, stated in the reversed order.

  ghost predicate RevCeilingIn(s: set<int>, v: int, r: Option<int>) {
    (r.Some? <==> exists w :: w in s && Reversed.RevAtLeast(w, v)) &&
    (r.Some? ==> r.value in s && Reversed.RevAtLeast(r.value, v) &&
                 forall w :: w in s && Reversed.RevAtLeast(w, v) ==> Reversed.RevAtLeast(w, r.value))
  }

  ghost predicate RevHigherIn(s: set<int>, v: int, r: Option<int>) {
    (r.Some? <==> exists w :: w in s && Reversed.RevAfter(w, v)) &&
    (r.Some? ==> r.value in s && Reversed.RevAfter(r.value, v) &&
                 forall w :: w in s && Reversed.RevAfter(w, v) ==> Reversed.RevAtLeast(w, r.value))
  }

  ghost predicate RevFloorIn(s: set<int>, v: int, r: Option<int>) {
    (r.Some? <==> exists w :: w in s && Reversed.RevAtLeast(v, w)) &&
    (r.Some? ==> r.value in s && Reversed.RevAtLeast(v, r.value) &&
                 forall w :: w in s && Reversed.RevAtLeast(v, w) ==> Reversed.RevAtLeast(r.value, w))
  }

  ghost predicate RevLowerIn(s: set<int>, v: int, r: Option<int>) {
    (r.Some? <==> exists w :: w in s && Reversed.RevAfter(v, w)) &&
    (r.Some? ==> r.value in s && Reversed.RevAfter(v, r.value) &&
                 forall w :: w in s && Reversed.RevAfter(v, w) ==> Reversed.RevAtLeast(r.value, w))
  }

  /** `r` is the first value of `s` in the reversed order: its greatest. */
  ghost predicate RevFirstIn(s: set<int>, r: Option<int>) {
    (r.Some? <==> exists w :: w in s) &&
    (r.Some? ==> r.value in s && forall w :: w in s ==> Reversed.RevAtLeast(w, r.value))
  }

  /** `r` is the last value of `s` in the reversed order: its least. */
  ghost predicate RevLastIn(s: set<int>, r: Option<int>) {
    (r.Some? <==> exists w :: w in s) &&
    (r.Some? ==> r.value in s && forall w :: w in s ==> Reversed.RevAtLeast(r.value, w))
  }

  /** The reversed set; `descendingSet()` hands back `inner`. */
  class MultiSetReversed {
    const inner: MultiSetImpl

    ghost predicate Valid()
      reads this, inner, inner.base
    {
      inner.Valid()
    }

    constructor (s: MultiSetImpl)
      requires s.Valid()
      ensures Valid() && inner == s
    {
      inner := s;
    }

    // Navigation, swapped pairwise.

    /** `ceiling(v)` is the wrapped set's `floor(v)`. */
    method Ceiling(v: int) returns (r: Option<int>)
      requires Valid()
      ensures RevCeilingIn(inner.Contents(), v, r)
    {
      r := inner.Floor(v);
      RevIsDescending();
    }

    /** `higher(v)` is the wrapped set's `lower(v)`. */
    method Higher(v: int) returns (r: Option<int>)
      requires Valid()
      ensures RevHigherIn(inner.Contents(), v, r)
    {
      r := inner.Lower(v);
      RevIsDescending();
    }

    /** `floor(v)` is the wrapped set's `ceiling(v)`. */
    method Floor(v: int) returns (r: Option<int>)
      requires Valid()
      ensures RevFloorIn(inner.Contents(), v, r)
    {
      r := inner.Ceiling(v);
      RevIsDescending();
    }

    /** `lower(v)` is the wrapped set's `higher(v)`. */
    method Lower(v: int) returns (r: Option<int>)
      requires Valid()
      ensures RevLowerIn(inner.Contents(), v, r)
    {
      r := inner.Higher(v);
      RevIsDescending();
    }

    /** `first()` is the wrapped set's `last()`. */
    method First() returns (r: Option<int>)
      requires Valid()
      ensures RevFirstIn(inner.Contents(), r)
    {
      r := inner.Last();
      RevIsDescending();
    }

    /** `last()` is the wrapped set's `first()`. */
    method Last() returns (r: Option<int>)
      requires Valid()
      ensures RevLastIn(inner.Contents(), r)
    {
      r := inner.First();
      RevIsDescending();
    }

    /** `pollFirst()` is the wrapped set's `pollLast()`. */
    method PollFirst() returns (r: Option<int>)
      requires Valid()
      modifies inner.base
      ensures Valid()
      ensures RevFirstIn(old(inner.Contents()), r)
      ensures inner.Contents() == old(inner.Contents()) - (if r.Some? then {r.value} else {})
      ensures OthersKept(old(inner.base.db), inner.base.db, inner.key)
    {
      r := inner.PollLast();
      RevIsDescending();
    }

    /** `pollLast()` is the wrapped set's `pollFirst()`. */
    method PollLast() returns (r: Option<int>)
      requires Valid()
      modifies inner.base
      ensures Valid()
      ensures RevLastIn(old(inner.Contents()), r)
      ensures inner.Contents() == old(inner.Contents()) - (if r.Some? then {r.value} else {})
      ensures OthersKept(old(inner.base.db), inner.base.db, inner.key)
    {
      r := inner.PollFirst();
      RevIsDescending();
    }

    // The serialised-value forms used inside the library. Each calls its
    // sibling on this same object rather than on the wrapped set, so the
    // two call each other until the stack runs out; `depth` is the stack
    // left. The evidently intended forms are `Ceiling`, `Floor`, `Higher`
    // and `Lower` above.

    /** `ceiling(ByteBuffer)` as written: calls `floor(ByteBuffer)` on this set. */
    method CeilingBufAsWritten(v: int, depth: nat) returns (r: Outcome<Option<int>>)
      ensures r == Fail(StackOverflow)
      decreases depth
    {
      if depth == 0 {
        return Fail(StackOverflow);
      }
      r := FloorBufAsWritten(v, depth - 1);
    }

    /** `floor(ByteBuffer)` as written: calls `ceiling(ByteBuffer)` on this set. */
    method FloorBufAsWritten(v: int, depth: nat) returns (r: Outcome<Option<int>>)
      ensures r == Fail(StackOverflow)
      decreases depth
    {
      if depth == 0 {
        return Fail(StackOverflow);
      }
      r := CeilingBufAsWritten(v, depth - 1);
    }

    /** `higher(ByteBuffer)` as written: calls `lower(ByteBuffer)` on this set. */
    method HigherBufAsWritten(v: int, depth: nat) returns (r: Outcome<Option<int>>)
      ensures r == Fail(StackOverflow)
      decreases depth
    {
      if depth == 0 {
        return Fail(StackOverflow);
      }
      r := LowerBufAsWritten(v, depth - 1);
    }

    /** `lower(ByteBuffer)` as written: calls `higher(ByteBuffer)` on this set. */
    method LowerBufAsWritten(v: int, depth: nat) returns (r: Outcome<Option<int>>)
      ensures r == Fail(StackOverflow)
      decreases depth
    {
      if depth == 0 {
        return Fail(StackOverflow);
      }
      r := HigherBufAsWritten(v, depth - 1);
    }
  }

  // Ranges of the reversed set: a view of the wrapped set with the ends
  // swapped, handed back through `descendingSet()`, so iterating downwards.

  /** A set derived from the reversed set: the values its view admits, and whether it iterates downwards. */
  datatype Shape = Shape(b: Bounds, descending: bool)

  /** `r` is the first value of `s` that shape `sh` yields, in the shape's own order. */
  ghost predicate FirstOfShape(s: set<int>, sh: Shape, r: Option<int>) {
    if sh.descending then LastIn(s, sh.b, r) else FirstIn(s, sh.b, r)
  }

  /** `subSet(f, fi, t, ti)`: the wrapped set's `subSet(t, ti, f, fi).descendingSet()`. */
  function SubSet(f: int, fi: bool, t: int, ti: bool): (r: Shape)
    ensures r.descending
    ensures forall w :: InView(r.b, w) <==>
              (Reversed.RevAfter(w, f) || (fi && w == f)) && (Reversed.RevAfter(t, w) || (ti && w == t))
  {
    RevIsDescending();
    Shape(MultiSets.SubSet(t, ti, f, fi), true)
  }

  /** `subSet(f, t)`: the wrapped set's `subSet(t, false, f, true)`, keeping `f` and dropping `t`. */
  function SubSetHalfOpen(f: int, t: int): (r: Shape)
    ensures r == SubSet(f, true, t, false)
    ensures forall w :: InView(r.b, w) <==> Reversed.RevAtLeast(w, f) && Reversed.RevAfter(t, w)
  {
    RevIsDescending();
    Shape(MultiSets.SubSet(t, false, f, true), true)
  }

  /** `tailSet(f, inc)`: the wrapped set's `headSet(f, inc).descendingSet()`. */
  function TailSet(f: int, inc: bool): (r: Shape)
    ensures r.descending
    ensures forall w :: InView(r.b, w) <==> Reversed.RevAfter(w, f) || (inc && w == f)
  {
    RevIsDescending();
    Shape(MultiSets.HeadSet(f, inc), true)
  }

  /**
   * `tailSet(f)`: the wrapped set's one-argument `headSet(f)`, whose default
   * (exclusive) carries over, so `f` itself is dropped.
   */
  function TailSetDefault(f: int): (r: Shape)
    ensures r == TailSet(f, false)
    ensures forall w :: InView(r.b, w) <==> Reversed.RevAfter(w, f)
  {
    TailSet(f, false)
  }

  /**
   * `headSet(t, inc)` as written: the wrapped set's `tailSet(t, inc)`,
   * without `descendingSet()`. It admits the right values but iterates
   * upwards.
   */
  function HeadSetAsWritten(t: int, inc: bool): (r: Shape)
    ensures !r.descending
    ensures forall w :: InView(r.b, w) <==> Reversed.RevAfter(t, w) || (inc && w == t)
  {
    RevIsDescending();
    Shape(MultiSets.TailSet(t, inc), false)
  }

  /**
   * `headSet(t)` as written: the wrapped set's one-argument `tailSet(t)`,
   * whose default (inclusive) carries over, so `t` itself is kept.
   */
  function HeadSetDefaultAsWritten(t: int): (r: Shape)
    ensures r == HeadSetAsWritten(t, true)
    ensures forall w :: InView(r.b, w) <==> Reversed.RevAtLeast(t, w)
  {
    RevIsDescending();
    HeadSetAsWritten(t, true)
  }

  /** `headSet(t, inc)` corrected: the same values, iterated downwards like every other range here. */
  function HeadSetFixed(t: int, inc: bool): (r: Shape)
    ensures r.descending
    ensures r.b == HeadSetAsWritten(t, inc).b
    ensures forall w :: InView(r.b, w) <==> Reversed.RevAfter(t, w) || (inc && w == t)
  {
    RevIsDescending();
    Shape(MultiSets.TailSet(t, inc), true)
  }

  /**
   * Finding: over the set {3, 4}, whose reversed first value is 4, the
   * reversed `headSet(2)` admits both values yet starts at 3; the corrected
   * head set starts at 4.
   */
  lemma HeadSetNotReversed()
    ensures forall r :: RevFirstIn({3, 4}, r) ==> r == Some(4)
    ensures InView(HeadSetAsWritten(2, false).b, 3) && InView(HeadSetAsWritten(2, false).b, 4)
    ensures forall r :: FirstOfShape({3, 4}, HeadSetAsWritten(2, false), r) ==> r == Some(3)
    ensures forall r :: FirstOfShape({3, 4}, HeadSetFixed(2, false), r) ==> r == Some(4)
  {
    RevIsDescending();
    forall r | RevFirstIn({3, 4}, r) ensures r == Some(4) {
      assert 4 in {3, 4};
    }
    forall r | FirstOfShape({3, 4}, HeadSetAsWritten(2, false), r) ensures r == Some(3) {
      assert 3 in {3, 4} && InView(HeadSetAsWritten(2, false).b, 3);
    }
    forall r | FirstOfShape({3, 4}, HeadSetFixed(2, false), r) ensures r == Some(4) {
      assert 4 in {3, 4} && InView(HeadSetFixed(2, false).b, 4);
    }
  }
}
