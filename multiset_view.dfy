// LMDBMultiSetView: headSet, tailSet and subSet of a key's set. The view
// holds bounds on values and the set it narrows; the bounds follow the
// map view's rules (`withinRange`, `adjustValue`, the ceiling and floor
// modes), applied to values. Unlike the map view, the constructor does not
// check that the lower bound is below the upper one.

module MultiSetViews {
  import opened Common
  import opened Store
  import opened ViewBounds
  import opened MultiSets
  import Maps
  import Environment

  /** `handleNavigableValueResult`: a value the view does not admit becomes null. */
  function AdmitValue(b: Bounds, e: Option<int>): (r: Option<int>)
    ensures r.Some? <==> e.Some? && InView(b, e.value)
    ensures r.Some? ==> r == e
  {
    if e.Some? && WithinRange(b, e, true) then e else None
  }

  /** The longest prefix of `vs` whose values all pass `rangeCheck`. */
  function InRangePrefix(b: Bounds, vs: seq<int>): (n: nat)
    ensures n <= |vs|
    ensures forall j :: 0 <= j < n ==> InView(b, vs[j])
    ensures n < |vs| ==> !InView(b, vs[n])
  {
    if |vs| == 0 || !InView(b, vs[0]) then 0 else 1 + InRangePrefix(b, vs[1..])
  }

  /** A view of the set `inner`. */
  class MultiSetView {
    const inner: MultiSetImpl
    const b: Bounds

    ghost predicate Valid()
      reads this, inner, inner.base
    {
      inner.Valid()
    }

    /** `new LMDBMultiSetView(set, from, fi, to, ti)`: the bounds are taken as given. */
    constructor (s: MultiSetImpl, bounds: Bounds)
      requires s.Valid()
      ensures Valid() && inner == s && b == bounds
    {
      inner, b := s, bounds;
    }

    /** Reference: the values of the set that the view admits. */
    ghost function Contents(): set<int>
      reads this, inner, inner.base
    {
      ViewOf(inner.Contents(), b)
    }

    // Updates. Out-of-range values: `add` answers false, the others throw.

    /** `add(v)`: `withinRange(v) && set.add(v)`. */
    method Add(v: int) returns (added: bool)
      requires Valid()
      modifies inner.base
      ensures Valid()
      ensures added <==> InView(b, v) && v !in old(inner.Contents())
      ensures inner.Contents() == old(inner.Contents()) + (if InView(b, v) then {v} else {})
      ensures OthersKept(old(inner.base.db), inner.base.db, inner.key)
    {
      if WithinRange(b, Some(v), true) {
        added := inner.Add(v);
      } else {
        added := false;
      }
    }

    /**
     * `addAll(c)`: `rangeCheck` then `set.add` for each value, in one
     * transaction; the values added before an out-of-range one stay.
     */
    method AddAll(vs: seq<int>) returns (r: Outcome<bool>)
      requires Valid()
      modifies inner.base
      ensures Valid()
      ensures r.Ok? <==> forall v :: v in vs ==> InView(b, v)
      ensures r.Fail? ==> r.error == OutOfRange
      ensures r.Ok? ==> (r.value <==> exists v :: v in vs && v !in old(inner.Contents()))
      ensures inner.Contents() == old(inner.Contents()) + set v | v in vs[..InRangePrefix(b, vs)]
      ensures OthersKept(old(inner.base.db), inner.base.db, inner.key)
    {
      var modified := false;
      var i := 0;
      while i < |vs|
        invariant 0 <= i <= |vs| && Valid()
        invariant forall j :: 0 <= j < i ==> InView(b, vs[j])
        invariant modified <==> exists v :: v in vs[..i] && v !in old(inner.Contents())
        invariant inner.Contents() == old(inner.Contents()) + set v | v in vs[..i]
        invariant OthersKept(old(inner.base.db), inner.base.db, inner.key)
      {
        if !WithinRange(b, Some(vs[i]), true) {
          assert InRangePrefix(b, vs) == i;
          return Fail(OutOfRange);
        }
        var added := inner.Add(vs[i]);
        if added { modified := true; }
        assert vs[..i + 1] == vs[..i] + [vs[i]];
        i := i + 1;
      }
      assert vs[..i] == vs;
      assert InRangePrefix(b, vs) == i;
      r := Ok(modified);
    }

    /** `remove(v)`: `rangeCheck(v)`, then `set.remove(v)`. */
    method Remove(v: int) returns (r: Outcome<bool>)
      requires Valid()
      modifies inner.base
      ensures Valid()
      ensures !InView(b, v) ==> r == Fail(OutOfRange) && inner.base.db == old(inner.base.db)
      ensures InView(b, v) ==> r == Ok(v in old(inner.Contents()))
      ensures inner.Contents() == old(inner.Contents()) - (if InView(b, v) then {v} else {})
      ensures OthersKept(old(inner.base.db), inner.base.db, inner.key)
    {
      if !WithinRange(b, Some(v), true) {
        return Fail(OutOfRange);
      }
      var removed := inner.Remove(v);
      r := Ok(removed);
    }

    /** `removeAll(c)`: `rangeCheck` then `set.remove` for each value; earlier removals stay. */
    method RemoveAll(vs: seq<int>) returns (r: Outcome<bool>)
      requires Valid()
      modifies inner.base
      ensures Valid()
      ensures r.Ok? <==> forall v :: v in vs ==> InView(b, v)
      ensures r.Fail? ==> r.error == OutOfRange
      ensures r.Ok? ==> (r.value <==> exists v :: v in vs && v in old(inner.Contents()))
      ensures inner.Contents() == old(inner.Contents()) - set v | v in vs[..InRangePrefix(b, vs)]
      ensures OthersKept(old(inner.base.db), inner.base.db, inner.key)
    {
      var modified := false;
      var i := 0;
      while i < |vs|
        invariant 0 <= i <= |vs| && Valid()
        invariant forall j :: 0 <= j < i ==> InView(b, vs[j])
        invariant modified <==> exists v :: v in vs[..i] && v in old(inner.Contents())
        invariant inner.Contents() == old(inner.Contents()) - set v | v in vs[..i]
        invariant OthersKept(old(inner.base.db), inner.base.db, inner.key)
      {
        if !WithinRange(b, Some(vs[i]), true) {
          assert InRangePrefix(b, vs) == i;
          return Fail(OutOfRange);
        }
        var removed := inner.Remove(vs[i]);
        if removed { modified := true; }
        assert vs[..i + 1] == vs[..i] + [vs[i]];
        i := i + 1;
      }
      assert vs[..i] == vs;
      assert InRangePrefix(b, vs) == i;
      r := Ok(modified);
    }

    /** `clear()`: not supported on a view; nothing changes. */
    method Clear() returns (r: Outcome<()>)
      requires Valid()
      ensures r == Fail(Unsupported)
    {
      r := Fail(Unsupported);
    }

    /** `retainAll(c)`: not supported; nothing changes. */
    method RetainAll(vs: seq<int>) returns (r: Outcome<bool>)
      requires Valid()
      ensures r == Fail(Unsupported)
    {
      r := Fail(Unsupported);
    }

    // Queries. Out-of-range values are simply absent.

    /** `contains(v)`: `withinRange(v) && set.contains(v)`. */
    method Contains(v: int) returns (r: bool)
      requires Valid()
      ensures r <==> v in Contents()
    {
      if WithinRange(b, Some(v), true) {
        r := inner.Contains(v);
      } else {
        r := false;
      }
    }

    /** `containsAll(c)`: false at the first value out of range or absent. */
    method ContainsAll(vs: seq<int>) returns (r: bool)
      requires Valid()
      ensures r <==> forall v :: v in vs ==> v in Contents()
    {
      var i := 0;
      while i < |vs|
        invariant 0 <= i <= |vs|
        invariant forall j :: 0 <= j < i ==> vs[j] in Contents()
      {
        if !WithinRange(b, Some(vs[i]), true) {
          assert vs[i] in vs && vs[i] !in Contents();
          return false;
        }
        var c := inner.Contains(vs[i]);
        if !c {
          assert vs[i] in vs && vs[i] !in Contents();
          return false;
        }
        i := i + 1;
      }
      r := true;
    }

    // Navigation. Each clamps its argument with `adjustValue`, so each
    // answers for the clamped value; the `*Fixed` variants answer for the
    // value itself.

    /** `ceiling(v)` as written: the view's ceiling of the clamped value. */
    method Ceiling(v: int) returns (r: Option<int>)
      requires Valid()
      ensures CeilingIn(inner.Contents(), b, AdjustKey(b, Some(v)).value, r)
    {
      var a := AdjustKey(b, Some(v)).value;
      match CeilingModeOf(b, a)
      case NoCeiling =>
        r := None;
      case UseHigher =>
        var e := inner.Higher(a);
        CeilingAfterHigher(inner.Contents(), b, a, e);
        r := AdmitValue(b, e);
      case UseCeiling =>
        var e := inner.Ceiling(a);
        CeilingAfterCeiling(inner.Contents(), b, v, a, e);
        r := AdmitValue(b, e);
    }

    /** `higher(v)` as written: the view's higher value of the clamped value. */
    method Higher(v: int) returns (r: Option<int>)
      requires Valid()
      ensures HigherIn(inner.Contents(), b, AdjustKey(b, Some(v)).value, r)
    {
      var a := AdjustKey(b, Some(v)).value;
      var e := inner.Higher(a);
      HigherAfterHigher(inner.Contents(), b, v, a, e);
      r := AdmitValue(b, e);
    }

    /** `floor(v)` as written: the view's floor of the clamped value. */
    method Floor(v: int) returns (r: Option<int>)
      requires Valid()
      ensures FloorIn(inner.Contents(), b, AdjustKey(b, Some(v)).value, r)
    {
      var a := AdjustKey(b, Some(v)).value;
      match FloorModeOf(b, a)
      case NoFloor =>
        r := None;
      case UseLower =>
        var e := inner.Lower(a);
        FloorAfterLower(inner.Contents(), b, a, e);
        r := AdmitValue(b, e);
      case UseFloor =>
        var e := inner.Floor(a);
        FloorAfterFloor(inner.Contents(), b, v, a, e);
        r := AdmitValue(b, e);
    }

    /** `lower(v)` as written: the view's lower value of the clamped value. */
    method Lower(v: int) returns (r: Option<int>)
      requires Valid()
      ensures LowerIn(inner.Contents(), b, AdjustKey(b, Some(v)).value, r)
    {
      var a := AdjustKey(b, Some(v)).value;
      var e := inner.Lower(a);
      LowerAfterLower(inner.Contents(), b, v, a, e);
      r := AdmitValue(b, e);
    }

    /** `ceiling(v)` corrected: above the upper bound there is no ceiling. */
    method CeilingFixed(v: int) returns (r: Option<int>)
      requires Valid()
      ensures CeilingIn(inner.Contents(), b, v, r)
    {
      if b.to.Some? && v > b.to.value {
        return None;
      }
      r := Ceiling(v);
    }

    /** `higher(v)` corrected: below the lower bound the higher value is the ceiling. */
    method HigherFixed(v: int) returns (r: Option<int>)
      requires Valid()
      ensures HigherIn(inner.Contents(), b, v, r)
    {
      if b.from.Some? && v < b.from.value {
        r := Ceiling(v);
      } else {
        r := Higher(v);
      }
    }

    /** `floor(v)` corrected: below the lower bound there is no floor. */
    method FloorFixed(v: int) returns (r: Option<int>)
      requires Valid()
      ensures FloorIn(inner.Contents(), b, v, r)
    {
      if b.from.Some? && v < b.from.value {
        return None;
      }
      r := Floor(v);
    }

    /** `lower(v)` corrected: above the upper bound the lower value is the floor. */
    method LowerFixed(v: int) returns (r: Option<int>)
      requires Valid()
      ensures LowerIn(inner.Contents(), b, v, r)
    {
      if b.to.Some? && v > b.to.value {
        r := Floor(v);
      } else {
        r := Lower(v);
      }
    }

    // First and last.

    /** `first()` as written: with no lower bound the set's first value, unchecked. */
    method First() returns (r: Option<int>)
      requires Valid()
      ensures b.from.Some? ==> FirstIn(inner.Contents(), b, r)
      ensures b.from.None? ==> FirstIn(inner.Contents(), Unbounded, r)
    {
      if b.from.None? {
        r := inner.First();
        return;
      }
      var e;
      if b.fromInc {
        e := inner.Ceiling(b.from.value);
      } else {
        e := inner.Higher(b.from.value);
      }
      r := AdmitValue(b, e);
    }

    /** `first()` corrected: the least value the view admits. */
    method FirstFixed() returns (r: Option<int>)
      requires Valid()
      ensures FirstIn(inner.Contents(), b, r)
    {
      var e := First();
      r := AdmitValue(b, e);
    }

    /** `last()` as written: with no upper bound the set's last value, unchecked. */
    method Last() returns (r: Option<int>)
      requires Valid()
      ensures b.to.Some? ==> LastIn(inner.Contents(), b, r)
      ensures b.to.None? ==> LastIn(inner.Contents(), Unbounded, r)
    {
      if b.to.None? {
        r := inner.Last();
        return;
      }
      var e;
      if b.toInc {
        e := inner.Floor(b.to.value);
      } else {
        e := inner.Lower(b.to.value);
      }
      r := AdmitValue(b, e);
    }

    /** `last()` corrected: the greatest value the view admits. */
    method LastFixed() returns (r: Option<int>)
      requires Valid()
      ensures LastIn(inner.Contents(), b, r)
    {
      var e := Last();
      r := AdmitValue(b, e);
    }

    /** `pollFirst()` as written: with no lower bound the set's `pollFirst`, unchecked. */
    method PollFirst() returns (r: Option<int>)
      requires Valid()
      modifies inner.base
      ensures Valid()
      ensures b.from.Some? ==> FirstIn(old(inner.Contents()), b, r)
      ensures b.from.None? ==> FirstIn(old(inner.Contents()), Unbounded, r)
      ensures inner.Contents() == old(inner.Contents()) - (if r.Some? then {r.value} else {})
      ensures OthersKept(old(inner.base.db), inner.base.db, inner.key)
    {
      if b.from.None? {
        r := inner.PollFirst();
        return;
      }
      r := First();
      if r.Some? {
        var _ := Remove(r.value);
      }
    }

    /** `pollFirst()` corrected: removes the least value the view admits. */
    method PollFirstFixed() returns (r: Option<int>)
      requires Valid()
      modifies inner.base
      ensures Valid()
      ensures FirstIn(old(inner.Contents()), b, r)
      ensures inner.Contents() == old(inner.Contents()) - (if r.Some? then {r.value} else {})
      ensures OthersKept(old(inner.base.db), inner.base.db, inner.key)
    {
      r := FirstFixed();
      if r.Some? {
        var _ := inner.Remove(r.value);
      }
    }

    /** `pollLast()` as written: with no upper bound the set's `pollLast`, unchecked. */
    method PollLast() returns (r: Option<int>)
      requires Valid()
      modifies inner.base
      ensures Valid()
      ensures b.to.Some? ==> LastIn(old(inner.Contents()), b, r)
      ensures b.to.None? ==> LastIn(old(inner.Contents()), Unbounded, r)
      ensures inner.Contents() == old(inner.Contents()) - (if r.Some? then {r.value} else {})
      ensures OthersKept(old(inner.base.db), inner.base.db, inner.key)
    {
      if b.to.None? {
        r := inner.PollLast();
        return;
      }
      r := Last();
      if r.Some? {
        var _ := Remove(r.value);
      }
    }

    /** `pollLast()` corrected: removes the greatest value the view admits. */
    method PollLastFixed() returns (r: Option<int>)
      requires Valid()
      modifies inner.base
      ensures Valid()
      ensures LastIn(old(inner.Contents()), b, r)
      ensures inner.Contents() == old(inner.Contents()) - (if r.Some? then {r.value} else {})
      ensures OthersKept(old(inner.base.db), inner.base.db, inner.key)
    {
      r := LastFixed();
      if r.Some? {
        var _ := inner.Remove(r.value);
      }
    }

    // Counting walks the view's cursor adapter: its `first()` (the same
    // lookups as `first()` above), then `next()` — the key's next value,
    // dropped when out of range — until null.

    /** `isEmpty()` as written: the adapter's `first()` is null. */
    method IsEmpty() returns (r: bool)
      requires Valid()
      ensures r <==> Contents() == {} && !Overreaches(inner.Contents(), b)
    {
      var e := First();
      FirstAnswer(inner.Contents(), b, e);
      r := e.None?;
    }

    /** `isEmpty()` corrected: no value is in range. */
    method IsEmptyFixed() returns (r: bool)
      requires Valid()
      ensures r <==> Contents() == {}
    {
      var e := FirstFixed();
      NoneIffEmpty(inner.Contents(), b, e);
      r := e.None?;
    }

    /** `size()` as written: counts the walk in an `int`. */
    method Size() returns (n: int)
      requires Valid()
      ensures n == NarrowToInt(if Overreaches(inner.Contents(), b) then 1 else |Contents()|)
    {
      var e := First();
      FirstAnswer(inner.Contents(), b, e);
      n := CountFrom(e, Overreaches(inner.Contents(), b));
    }

    /** `size()` corrected: the walk starts at the first value in range. */
    method SizeFixed() returns (n: int)
      requires Valid()
      ensures n == NarrowToInt(|Contents()|)
    {
      var e := FirstFixed();
      n := CountFrom(e, false);
    }

    /**
     * The adapter's walk from `e0`, counted. `over` says that `e0` is the
     * unchecked first value of a set none of whose values is in range.
     */
    method CountFrom(e0: Option<int>, ghost over: bool) returns (n: int)
      requires Valid()
      requires over ==> b.from.None? && e0.Some? && e0.value in inner.Contents() && !InView(b, e0.value)
      requires !over ==> FirstIn(inner.Contents(), b, e0)
      ensures n == NarrowToInt(if over then 1 else |Contents()|)
    {
      ghost var s := inner.Contents();
      var e := e0;
      ghost var c: nat := 0;
      if !over {
        CountStart(s, b, e0);
      }
      n := 0;
      while e.Some?
        invariant inner.Valid() && inner.Contents() == s
        invariant n == NarrowToInt(c)
        invariant WalkInv(s, b, over, e, c)
        decreases WalkLeft(s, e)
      {
        IntCounterStep(c);
        n := NarrowToInt(n + 1);
        var x := inner.Higher(e.value);
        WalkStep(s, b, over, e, x, c);
        e := AdmitValue(b, x);
        c := c + 1;
      }
    }
  }

  /** The values of `s` a view with bounds `b` admits. */
  ghost function ViewOf(s: set<int>, b: Bounds): set<int> {
    set w | w in s && InView(b, w)
  }

  /**
   * No lower bound, and no value in range although the set is not empty:
   * the unchecked `first()` still yields the set's first value.
   */
  ghost predicate Overreaches(s: set<int>, b: Bounds) {
    b.from.None? && (exists w :: w in s) && ViewOf(s, b) == {}
  }

  /** The admitted values below `v`. */
  ghost function BelowIn(s: set<int>, b: Bounds, v: int): set<int> {
    set w | w in s && InView(b, w) && w < v
  }

  /** The values from `v` up. */
  ghost function AtLeast(s: set<int>, v: int): set<int> {
    set w | w in s && w >= v
  }

  /** A first value in range answers null exactly when nothing is in range. */
  lemma NoneIffEmpty(s: set<int>, b: Bounds, r: Option<int>)
    requires FirstIn(s, b, r) || LastIn(s, b, r)
    ensures r.None? <==> ViewOf(s, b) == {}
  {
    if r.Some? {
      assert r.value in ViewOf(s, b);
    }
  }

  /** What the view's `first()` as written yields, with or without a lower bound. */
  lemma FirstAnswer(s: set<int>, b: Bounds, r: Option<int>)
    requires b.from.Some? ==> FirstIn(s, b, r)
    requires b.from.None? ==> FirstIn(s, Unbounded, r)
    ensures Overreaches(s, b) ==> r.Some? && r.value in s && !InView(b, r.value)
    ensures !Overreaches(s, b) ==> FirstIn(s, b, r)
    ensures r.None? <==> ViewOf(s, b) == {} && !Overreaches(s, b)
  {
    if b.from.None? {
      if exists w :: w in s {
        var w0 :| w0 in s;
        assert InView(Unbounded, w0);
        if ViewOf(s, b) == {} {
          assert r.value !in ViewOf(s, b);
        } else {
          var w :| w in ViewOf(s, b);
          assert r.value <= w;
          assert InView(b, r.value);
        }
      } else {
        assert ViewOf(s, b) == {};
      }
    }
    if !Overreaches(s, b) {
      NoneIffEmpty(s, b, r);
    }
  }

  /** What the counting walk keeps: the count so far, and what ends it. */
  ghost predicate WalkInv(s: set<int>, b: Bounds, over: bool, e: Option<int>, c: nat) {
    (e.Some? ==> e.value in s) &&
    (e.Some? && over ==> b.from.None? && c == 0 && !InView(b, e.value)) &&
    (e.Some? && !over ==> InView(b, e.value) && c == |BelowIn(s, b, e.value)|) &&
    (e.None? ==> c == if over then 1 else |ViewOf(s, b)|)
  }

  /** What the walk has left: the values from the current one up. */
  ghost function WalkLeft(s: set<int>, e: Option<int>): nat {
    if e.Some? then |AtLeast(s, e.value)| else 0
  }

  /** The walk starts at the first value in range with nothing counted. */
  lemma CountStart(s: set<int>, b: Bounds, e: Option<int>)
    requires FirstIn(s, b, e)
    ensures WalkInv(s, b, false, e, 0)
  {
    if e.Some? {
      assert forall w :: w !in BelowIn(s, b, e.value);
    } else {
      NoneIffEmpty(s, b, e);
    }
  }

  /** One step of the walk: the next value, filtered, keeps `WalkInv` and shortens the walk. */
  lemma WalkStep(s: set<int>, b: Bounds, over: bool, e: Option<int>, x: Option<int>, c: nat)
    requires WalkInv(s, b, over, e, c) && e.Some?
    requires HigherIn(s, Unbounded, e.value, x)
    ensures WalkInv(s, b, over, AdmitValue(b, x), c + 1)
    ensures WalkLeft(s, AdmitValue(b, x)) < WalkLeft(s, e)
  {
    if over {
      StepPastOverreach(s, b, e.value, x);
    } else {
      StepInView(s, b, e.value, x);
    }
    AtLeastShrinks(s, e.value, x);
    assert e.value in AtLeast(s, e.value);
  }

  /** One step of the walk inside the range: `v` joins the values counted. */
  lemma StepInView(s: set<int>, b: Bounds, v: int, x: Option<int>)
    requires InView(b, v) && v in s
    requires HigherIn(s, Unbounded, v, x)
    ensures AdmitValue(b, x).Some? ==> BelowIn(s, b, AdmitValue(b, x).value) == BelowIn(s, b, v) + {v}
    ensures AdmitValue(b, x).None? ==> ViewOf(s, b) == BelowIn(s, b, v) + {v}
    ensures v !in BelowIn(s, b, v)
  {
    var e := AdmitValue(b, x);
    if e.Some? {
      forall w | w in BelowIn(s, b, e.value) ensures w in BelowIn(s, b, v) + {v} {
        assert InView(Unbounded, w);
      }
    } else {
      forall w | w in ViewOf(s, b) ensures w in BelowIn(s, b, v) + {v} {
        if w > v {
          assert InView(Unbounded, w);
          assert x.Some? && x.value <= w;
          ViewIsInterval(b, v, x.value, w);
        }
      }
    }
  }

  /** Past an out-of-range first value every later value is out of range too. */
  lemma StepPastOverreach(s: set<int>, b: Bounds, v: int, x: Option<int>)
    requires b.from.None? && !InView(b, v)
    requires HigherIn(s, Unbounded, v, x)
    ensures AdmitValue(b, x).None?
  {
  }

  /** The values from the next one up are fewer than those from `v` up. */
  lemma AtLeastShrinks(s: set<int>, v: int, x: Option<int>)
    requires v in s && HigherIn(s, Unbounded, v, x)
    ensures x.Some? ==> |AtLeast(s, x.value)| < |AtLeast(s, v)|
  {
    if x.Some? {
      var big := AtLeast(s, v);
      var small := AtLeast(s, x.value);
      assert small <= big - {v};
      SubsetCard(small, big - {v});
    }
  }

  lemma {:induction false} SubsetCard(a: set<int>, b: set<int>)
    requires a <= b
    ensures |a| <= |b|
  {
    assert b == a + (b - a);
  }

  // Ranges of a view. `subSet` re-checks the order of its arguments, clamps
  // them with `adjustValue` and ANDs each inclusivity with the view's own;
  // the new view's bounds are then taken as given.

  /** `subSet(from, fi, to, ti)` on a view with bounds `b`. */
  function SubSet(b: Bounds, from: Option<int>, fi: bool, to: Option<int>, ti: bool): (r: Outcome<Bounds>)
    ensures r.Fail? <==> from.Some? && to.Some? && from.value >= to.value
    ensures r.Fail? ==> r.error == IllegalArgument
    ensures r.Ok? && from.Some? && to.Some? && BoundsOk(b) ==> forall k :: InView(r.value, k) ==> InView(b, k)
  {
    if from.Some? && to.Some? && Maps.Compare(from, to) >= 0 then Fail(IllegalArgument)
    else
      var nb := Bounds(AdjustKey(b, from), fi && (from.None? || b.fromInc),
                       AdjustKey(b, to), ti && (to.None? || b.toInc));
      assert from.Some? && to.Some? && BoundsOk(b) ==> forall k :: InView(nb, k) ==> InView(b, k) by {
        if from.Some? && to.Some? && BoundsOk(b) {
          forall k | InView(nb, k) ensures InView(b, k) {
            SubMapStaysInside(b, from.value, fi, to.value, ti, k);
          }
        }
      }
      Ok(nb)
  }

  /** `headSet(to, ti)` on a view: `subSet(this.from, this.fromInclusive, to, ti)`. */
  function HeadSetOfView(b: Bounds, to: int, ti: bool): (r: Outcome<Bounds>)
    ensures r.Fail? <==> b.from.Some? && b.from.value >= to
    ensures r.Ok? ==> forall k :: InView(r.value, k) ==> k < to || (ti && k == to)
  {
    SubSet(b, b.from, b.fromInc, Some(to), ti)
  }

  /**
   * `tailSet(from, fi)` on a view as written: `subSet(from, fi, this.to,
   * this.toInclusive)`. With no upper bound, `adjustValue(null)` yields the
   * view's `from`, which becomes the new upper bound.
   */
  function TailSetOfView(b: Bounds, from: int, fi: bool): (r: Outcome<Bounds>)
    ensures r.Fail? <==> b.to.Some? && from >= b.to.value
    ensures b.to.None? ==> r.Ok? && r.value.to == b.from
  {
    SubSet(b, Some(from), fi, b.to, b.toInc)
  }

  /**
   * Finding: `tailSet(7)` of `tailSet(5)` admits nothing, although 8 is
   * above both; the corrected `tailSet` keeps the view's open upper side.
   */
  lemma TailOfTailSetEmpty()
    ensures TailSetOfView(Bounds(Some(5), true, None, false), 7, true) == Ok(Bounds(Some(7), true, Some(5), false))
    ensures forall k :: !InView(Bounds(Some(7), true, Some(5), false), k)
    ensures TailMapFixed(Bounds(Some(5), true, None, false), 7, true) == Ok(Bounds(Some(7), true, None, false))
    ensures InView(Bounds(Some(7), true, None, false), 8)
  {
  }

  /**
   * Finding: `headSet(5, true)` of `subSet(0, 10)` drops 5, because the
   * new upper bound inherits the view's exclusive `to`.
   */
  lemma HeadSetDropsInteriorInclusive()
    ensures HeadSetOfView(Bounds(Some(0), true, Some(10), false), 5, true) == Ok(Bounds(Some(0), true, Some(5), false))
    ensures InView(Bounds(Some(0), true, Some(10), false), 5) && !InView(Bounds(Some(0), true, Some(5), false), 5)
    ensures SubMapFixed(Bounds(Some(0), true, Some(10), false), Some(0), true, Some(5), true) == Ok(Bounds(Some(0), true, Some(5), true))
  {
  }

  // Facts about what navigation through the set answers once filtered.

  /** The values a view admits form an interval. */
  lemma ViewIsInterval(b: Bounds, x: int, y: int, z: int)
    requires InView(b, x) && InView(b, z) && x <= y <= z
    ensures InView(b, y)
  {
  }

  /** `ceiling` through the set's `higher` when an excluded `from` is the clamped value. */
  lemma CeilingAfterHigher(s: set<int>, b: Bounds, a: int, e: Option<int>)
    requires CeilingModeOf(b, a) == UseHigher
    requires HigherIn(s, Unbounded, a, e)
    ensures CeilingIn(s, b, a, AdmitValue(b, e))
  {
    if e.Some? && !InView(b, e.value) {
      forall w | w in s && w >= a ensures !InView(b, w) {
      }
    }
  }

  /** `ceiling` through the set's `ceiling` at the clamped value. */
  lemma CeilingAfterCeiling(s: set<int>, b: Bounds, v: int, a: int, e: Option<int>)
    requires a == AdjustKey(b, Some(v)).value
    requires CeilingModeOf(b, a) == UseCeiling
    requires CeilingIn(s, Unbounded, a, e)
    ensures CeilingIn(s, b, a, AdmitValue(b, e))
  {
    if e.Some? && !InView(b, e.value) {
      forall w | w in s && w >= a ensures !InView(b, w) {
      }
    }
  }

  /** `higher` through the set's `higher` at the clamped value. */
  lemma HigherAfterHigher(s: set<int>, b: Bounds, v: int, a: int, e: Option<int>)
    requires a == AdjustKey(b, Some(v)).value
    requires HigherIn(s, Unbounded, a, e)
    ensures HigherIn(s, b, a, AdmitValue(b, e))
  {
    if e.Some? && !InView(b, e.value) {
      forall w | w in s && w > a ensures !InView(b, w) {
      }
    }
  }

  /** `floor` through the set's `lower` when an excluded `to` is the clamped value. */
  lemma FloorAfterLower(s: set<int>, b: Bounds, a: int, e: Option<int>)
    requires FloorModeOf(b, a) == UseLower
    requires LowerIn(s, Unbounded, a, e)
    ensures FloorIn(s, b, a, AdmitValue(b, e))
  {
    if e.Some? && !InView(b, e.value) {
      forall w | w in s && w <= a ensures !InView(b, w) {
      }
    }
  }

  /** `floor` through the set's `floor` at the clamped value. */
  lemma FloorAfterFloor(s: set<int>, b: Bounds, v: int, a: int, e: Option<int>)
    requires a == AdjustKey(b, Some(v)).value
    requires FloorModeOf(b, a) == UseFloor
    requires FloorIn(s, Unbounded, a, e)
    ensures FloorIn(s, b, a, AdmitValue(b, e))
  {
    if e.Some? && !InView(b, e.value) {
      forall w | w in s && w <= a ensures !InView(b, w) {
      }
    }
  }

  /** `lower` through the set's `lower` at the clamped value. */
  lemma LowerAfterLower(s: set<int>, b: Bounds, v: int, a: int, e: Option<int>)
    requires a == AdjustKey(b, Some(v)).value
    requires LowerIn(s, Unbounded, a, e)
    ensures LowerIn(s, b, a, AdmitValue(b, e))
  {
    if e.Some? && !InView(b, e.value) {
      forall w | w in s && w < a ensures !InView(b, w) {
      }
    }
  }

  // Scenarios: one small set each, showing where a view member as written
  // and its corrected form part.

  /** The set of key 0 in a fresh duplicate map, holding the one value `v`. */
  method SetOfOne(v: int) returns (s: MultiSetImpl)
    ensures s.Valid() && s.Contents() == {v}
  {
    var e := new Environment.Env();
    var m := new Maps.MapImpl(e, true);
    s := new MultiSetImpl(m, 0);
    assert s.Contents() == {};
    var _ := s.Add(v);
  }

  /**
   * Over the set {20} the head set (.., 10) is empty, yet its first value
   * is 20, it counts one value and `isEmpty()` answers false.
   */
  method HeadSetOverreachScenario() returns (first: Option<int>, firstFixed: Option<int>, size: int, sizeFixed: int, empty: bool, emptyFixed: bool)
    ensures first == Some(20) && firstFixed == None
    ensures size == 1 && sizeFixed == 0
    ensures !empty && emptyFixed
  {
    var s := SetOfOne(20);
    var v := new MultiSetView(s, Bounds(None, false, Some(10), false));
    assert v.Contents() == {};
    first := v.First();
    firstFixed := v.FirstFixed();
    size := v.Size();
    sizeFixed := v.SizeFixed();
    empty := v.IsEmpty();
    emptyFixed := v.IsEmptyFixed();
  }

  /** Over the set {10} the head set (.., 10] answers `ceiling(15)` with 10: 15 is clamped to 10 first. */
  method CeilingAboveViewScenario() returns (asWritten: Option<int>, corrected: Option<int>)
    ensures asWritten == Some(10) && corrected == None
  {
    var s := SetOfOne(10);
    var v := new MultiSetView(s, Bounds(None, false, Some(10), true));
    asWritten := v.Ceiling(15);
    corrected := v.CeilingFixed(15);
  }

  /** Over the set {5} the view [5, 10] answers `higher(3)` with null: 3 is clamped up to 5 first. */
  method HigherBelowViewScenario() returns (asWritten: Option<int>, corrected: Option<int>)
    ensures asWritten == None && corrected == Some(5)
  {
    var s := SetOfOne(5);
    var v := new MultiSetView(s, Bounds(Some(5), true, Some(10), true));
    asWritten := v.Higher(3);
    corrected := v.HigherFixed(3);
  }

  /** Over the set {5} the view [5, 10] answers `floor(3)` with 5: 3 is clamped up to 5 first. */
  method FloorBelowViewScenario() returns (asWritten: Option<int>, corrected: Option<int>)
    ensures asWritten == Some(5) && corrected == None
  {
    var s := SetOfOne(5);
    var v := new MultiSetView(s, Bounds(Some(5), true, Some(10), true));
    asWritten := v.Floor(3);
    corrected := v.FloorFixed(3);
  }

  /** Over the set {10} the view [5, 10] answers `lower(15)` with null: 15 is clamped down to 10 first. */
  method LowerAboveViewScenario() returns (asWritten: Option<int>, corrected: Option<int>)
    ensures asWritten == None && corrected == Some(10)
  {
    var s := SetOfOne(10);
    var v := new MultiSetView(s, Bounds(Some(5), true, Some(10), true));
    asWritten := v.Lower(15);
    corrected := v.LowerFixed(15);
  }
}
