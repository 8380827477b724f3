// LMDBMultiSetImpl: the values stored under one key of a duplicate
// database, seen as a navigable set. The set keeps no data of its own:
// every operation goes to the map with the set's key, and the reads that
// need a position open a cursor and move it to the key first.

module MultiSets {
  import opened Common
  import opened Store
  import opened ViewBounds
  import Maps

  /** The values stored under `k`: the contents of the key's set. */
  ghost function Values(db: seq<Pair>, k: int): (s: set<int>)
    ensures forall v :: v in s <==> Pair(k, v) in db
  {
    var s := set p | p in db && p.key == k :: p.val;
    assert forall v :: Pair(k, v) in db ==> v in s by {
      forall v | Pair(k, v) in db ensures v in s {
        var p := Pair(k, v);
        assert p in db && p.key == k;
      }
    }
    s
  }

  /** Bounds that admit every value. */
  const Unbounded := Bounds(None, false, None, false)

  /** Nothing stored under another key changed. */
  ghost predicate OthersKept(before: seq<Pair>, after: seq<Pair>, k: int) {
    forall q: Pair :: q.key != k ==> (q in after <==> q in before)
  }

  // What the navigation methods answer, over the values `s` that the bounds
  // `b` admit. `Unbounded` states the plain set's answers.

  /** `r` is the least admitted value at least `v` (null when none). */
  ghost predicate CeilingIn(s: set<int>, b: Bounds, v: int, r: Option<int>) {
    (r.Some? <==> exists w :: w in s && w >= v && InView(b, w)) &&
    (r.Some? ==> r.value in s && r.value >= v && InView(b, r.value) &&
                 forall w :: w in s && w >= v && InView(b, w) ==> r.value <= w)
  }

  /** `r` is the least admitted value above `v` (null when none). */
  ghost predicate HigherIn(s: set<int>, b: Bounds, v: int, r: Option<int>) {
    (r.Some? <==> exists w :: w in s && w > v && InView(b, w)) &&
    (r.Some? ==> r.value in s && r.value > v && InView(b, r.value) &&
                 forall w :: w in s && w > v && InView(b, w) ==> r.value <= w)
  }

  /** `r` is the greatest admitted value at most `v` (null when none). */
  ghost predicate FloorIn(s: set<int>, b: Bounds, v: int, r: Option<int>) {
    (r.Some? <==> exists w :: w in s && w <= v && InView(b, w)) &&
    (r.Some? ==> r.value in s && r.value <= v && InView(b, r.value) &&
                 forall w :: w in s && w <= v && InView(b, w) ==> w <= r.value)
  }

  /** `r` is the greatest admitted value below `v` (null when none). */
  ghost predicate LowerIn(s: set<int>, b: Bounds, v: int, r: Option<int>) {
    (r.Some? <==> exists w :: w in s && w < v && InView(b, w)) &&
    (r.Some? ==> r.value in s && r.value < v && InView(b, r.value) &&
                 forall w :: w in s && w < v && InView(b, w) ==> w <= r.value)
  }

  /** `r` is the least admitted value (null when none is admitted). */
  ghost predicate FirstIn(s: set<int>, b: Bounds, r: Option<int>) {
    (r.Some? <==> exists w :: w in s && InView(b, w)) &&
    (r.Some? ==> r.value in s && InView(b, r.value) && forall w :: w in s && InView(b, w) ==> r.value <= w)
  }

  /** `r` is the greatest admitted value (null when none is admitted). */
  ghost predicate LastIn(s: set<int>, b: Bounds, r: Option<int>) {
    (r.Some? <==> exists w :: w in s && InView(b, w)) &&
    (r.Some? ==> r.value in s && InView(b, r.value) && forall w :: w in s && InView(b, w) ==> w <= r.value)
  }

  /** The set of one key of a duplicate map. */
  class MultiSetImpl {
    const base: Maps.MapImpl
    const key: int

    ghost predicate Valid()
      reads this, base
    {
      base.Valid() && base.dup
    }

    /** `new LMDBMultiSetImpl(map, key)`. */
    constructor (m: Maps.MapImpl, k: int)
      requires m.Valid() && m.dup
      ensures Valid() && base == m && key == k
    {
      base, key := m, k;
    }

    /** The set's contents. */
    ghost function Contents(): set<int>
      reads this, base
    {
      Values(base.db, key)
    }

    // Updates. Each goes to the map with this key and touches no other key.

    /** `add(v)`: the map's `add(key, v)`; false, with nothing changed, when `v` is present. */
    method Add(v: int) returns (added: bool)
      requires Valid()
      modifies base
      ensures Valid()
      ensures added <==> v !in old(Contents())
      ensures Contents() == old(Contents()) + {v}
      ensures OthersKept(old(base.db), base.db, key)
    {
      added := base.Add(key, v);
    }

    /** `addAll(c)`: adds each value; true when at least one was new. */
    method AddAll(vs: seq<int>) returns (modified: bool)
      requires Valid()
      modifies base
      ensures Valid()
      ensures modified <==> exists v :: v in vs && v !in old(Contents())
      ensures Contents() == old(Contents()) + set v | v in vs
      ensures OthersKept(old(base.db), base.db, key)
    {
      modified := false;
      var i := 0;
      while i < |vs|
        invariant 0 <= i <= |vs| && Valid()
        invariant modified <==> exists v :: v in vs[..i] && v !in old(Contents())
        invariant Contents() == old(Contents()) + set v | v in vs[..i]
        invariant OthersKept(old(base.db), base.db, key)
      {
        var added := Add(vs[i]);
        if added { modified := true; }
        assert vs[..i + 1] == vs[..i] + [vs[i]];
        i := i + 1;
      }
      assert vs[..i] == vs;
    }

    /** `remove(v)`: the map's `remove(key, v)`; true when `v` was present. */
    method Remove(v: int) returns (removed: bool)
      requires Valid()
      modifies base
      ensures Valid()
      ensures removed <==> v in old(Contents())
      ensures Contents() == old(Contents()) - {v}
      ensures OthersKept(old(base.db), base.db, key)
    {
      removed := base.RemovePair(key, v);
    }

    /** `removeAll(c)`: removes each value; true when at least one was present. */
    method RemoveAll(vs: seq<int>) returns (modified: bool)
      requires Valid()
      modifies base
      ensures Valid()
      ensures modified <==> exists v :: v in vs && v in old(Contents())
      ensures Contents() == old(Contents()) - set v | v in vs
      ensures OthersKept(old(base.db), base.db, key)
    {
      modified := false;
      var i := 0;
      while i < |vs|
        invariant 0 <= i <= |vs| && Valid()
        invariant modified <==> exists v :: v in vs[..i] && v in old(Contents())
        invariant Contents() == old(Contents()) - set v | v in vs[..i]
        invariant OthersKept(old(base.db), base.db, key)
      {
        var removed := Remove(vs[i]);
        if removed { modified := true; }
        assert vs[..i + 1] == vs[..i] + [vs[i]];
        i := i + 1;
      }
      assert vs[..i] == vs;
    }

    /** `clear()`: the map's `removeNoPrev(key)`; every value of this key goes, no other key's. */
    method Clear()
      requires Valid()
      modifies base
      ensures Valid() && Contents() == {}
      ensures OthersKept(old(base.db), base.db, key)
    {
      var _ := base.RemoveNoPrev(key);
    }

    /** `retainAll(c)`: not supported; nothing changes. */
    method RetainAll(vs: seq<int>) returns (r: Outcome<bool>)
      requires Valid()
      ensures r == Fail(Unsupported)
    {
      r := Fail(Unsupported);
    }

    // Queries.

    /** `contains(v)`: the map's `contains(key, v)`. */
    method Contains(v: int) returns (r: bool)
      requires Valid()
      ensures r <==> v in Contents()
    {
      r := base.Contains(key, v);
    }

    /** `containsAll(c)`: false at the first value not present. */
    method ContainsAll(vs: seq<int>) returns (r: bool)
      requires Valid()
      ensures r <==> forall v :: v in vs ==> v in Contents()
    {
      var i := 0;
      while i < |vs|
        invariant 0 <= i <= |vs|
        invariant forall j :: 0 <= j < i ==> vs[j] in Contents()
      {
        var c := Contains(vs[i]);
        if !c { return false; }
        i := i + 1;
      }
      r := true;
    }

    /** `first()`: move a cursor to the key, then MDB_FIRST_DUP; null when the key is absent. */
    method First() returns (r: Option<int>)
      requires Valid()
      ensures FirstIn(Contents(), Unbounded, r)
    {
      var c := base.OpenCursor();
      var found := c.MoveTo(key);
      if found.value {
        var f := c.FirstDup();
        LeastOfKey(c.db, key);
        r := Some(f.value.value.val);
      } else {
        r := None;
      }
    }

    /** `last()`: move a cursor to the key, then MDB_LAST_DUP; null when the key is absent. */
    method Last() returns (r: Option<int>)
      requires Valid()
      ensures LastIn(Contents(), Unbounded, r)
    {
      var c := base.OpenCursor();
      var found := c.MoveTo(key);
      if found.value {
        GreatestOfKey(c.db, key);
        assert PosKey(c.db, c.pos) == key;
        var f := c.LastDup();
        r := Some(f.value.value.val);
      } else {
        r := None;
      }
    }

    /** `isEmpty()`: `first()` is null. */
    method IsEmpty() returns (r: bool)
      requires Valid()
      ensures r <==> Contents() == {}
    {
      var f := First();
      r := f.None?;
    }

    /**
     * `size()`: 0 when the key is absent, else `mdb_cursor_count` on it;
     * a count above `Integer.MAX_VALUE` throws.
     */
    method Size() returns (r: Outcome<int>)
      requires Valid()
      ensures r == if |Contents()| > INT_MAX then Fail(Runtime) else Ok(|Contents()|)
    {
      var c := base.OpenCursor();
      var found := c.MoveTo(key);
      ValuesCount(c.db, key);
      if !found.value {
        return Ok(0);
      }
      HasKeyRun(c.db, key);
      var n := c.DupCount();
      if n.value > INT_MAX {
        return Fail(Runtime);
      }
      r := Ok(n.value);
    }

    /** `pollFirst()`: the least value, deleted at the cursor; null when the key is absent. */
    method PollFirst() returns (r: Option<int>)
      requires Valid()
      modifies base
      ensures Valid()
      ensures FirstIn(old(Contents()), Unbounded, r)
      ensures Contents() == old(Contents()) - (if r.Some? then {r.value} else {})
      ensures OthersKept(old(base.db), base.db, key)
    {
      var c := base.OpenCursor();
      var found := c.MoveTo(key);
      if found.value {
        var f := c.FirstDup();
        LeastOfKey(c.db, key);
        r := Some(f.value.value.val);
        var _ := c.Delete();
        base.db := c.db;
      } else {
        r := None;
      }
    }

    /** `pollLast()`: the greatest value, deleted at the cursor; null when the key is absent. */
    method PollLast() returns (r: Option<int>)
      requires Valid()
      modifies base
      ensures Valid()
      ensures LastIn(old(Contents()), Unbounded, r)
      ensures Contents() == old(Contents()) - (if r.Some? then {r.value} else {})
      ensures OthersKept(old(base.db), base.db, key)
    {
      var c := base.OpenCursor();
      var found := c.MoveTo(key);
      if found.value {
        GreatestOfKey(c.db, key);
        assert PosKey(c.db, c.pos) == key;
        var f := c.LastDup();
        r := Some(f.value.value.val);
        var _ := c.Delete();
        base.db := c.db;
      } else {
        r := None;
      }
    }

    // Navigation: the map's duplicate navigation on this key.

    /** `ceiling(v)`: the map's `dupCeiling(key, v)`. */
    method Ceiling(v: int) returns (r: Option<int>)
      requires Valid()
      ensures CeilingIn(Contents(), Unbounded, v, r)
    {
      r := base.DupCeiling(key, v);
    }

    /** `higher(v)`: the map's `dupHigher(key, v)`. */
    method Higher(v: int) returns (r: Option<int>)
      requires Valid()
      ensures HigherIn(Contents(), Unbounded, v, r)
    {
      r := base.DupHigher(key, v);
    }

    /** `floor(v)`: the map's `dupFloor(key, v)`. */
    method Floor(v: int) returns (r: Option<int>)
      requires Valid()
      ensures FloorIn(Contents(), Unbounded, v, r)
    {
      r := base.DupFloor(key, v);
    }

    /** `lower(v)`: the map's `dupLower(key, v)`. */
    method Lower(v: int) returns (r: Option<int>)
      requires Valid()
      ensures LowerIn(Contents(), Unbounded, v, r)
    {
      r := base.DupLower(key, v);
    }
  }

  // Ranges of the plain set. None of them checks that `from` is below `to`.

  /** `subSet(from, fi, to, ti)` on the set: the view's bounds, unchecked. */
  function SubSet(from: int, fi: bool, to: int, ti: bool): (b: Bounds)
    ensures forall v :: InView(b, v) <==> (from < v || (fi && v == from)) && (v < to || (ti && v == to))
  {
    Bounds(Some(from), fi, Some(to), ti)
  }

  /** `headSet(to, ti)`: everything below `to`; `headSet(to)` excludes `to`. */
  function HeadSet(to: int, ti: bool): (b: Bounds)
    ensures forall v :: InView(b, v) <==> v < to || (ti && v == to)
  {
    Bounds(None, false, Some(to), ti)
  }

  /** `tailSet(from, fi)`: everything above `from`; `tailSet(from)` includes `from`. */
  function TailSet(from: int, fi: bool): (b: Bounds)
    ensures forall v :: InView(b, v) <==> from < v || (fi && v == from)
  {
    Bounds(Some(from), fi, None, false)
  }

  // Facts about the run of one key.

  /** The first pair of a present key holds its least value. */
  lemma LeastOfKey(db: seq<Pair>, k: int)
    requires Sorted(db) && HasKey(db, k)
    ensures KeyLowerBound(db, k) < |db| && db[KeyLowerBound(db, k)].key == k
    ensures forall w :: Pair(k, w) in db ==> db[KeyLowerBound(db, k)].val <= w
  {
    HasKeyRun(db, k);
    var i := KeyLowerBound(db, k);
    forall w | Pair(k, w) in db ensures db[i].val <= w {
      var j :| 0 <= j < |db| && db[j] == Pair(k, w);
      assert i <= j;
      if i < j { assert Lt(db[i], db[j]); }
    }
  }

  /** The last pair of a present key holds its greatest value. */
  lemma GreatestOfKey(db: seq<Pair>, k: int)
    requires Sorted(db) && HasKey(db, k)
    ensures 0 < KeyUpperBound(db, k) <= |db| && db[KeyUpperBound(db, k) - 1].key == k
    ensures forall w :: Pair(k, w) in db ==> w <= db[KeyUpperBound(db, k) - 1].val
  {
    HasKeyRun(db, k);
    var hi := KeyUpperBound(db, k);
    forall w | Pair(k, w) in db ensures w <= db[hi - 1].val {
      var j :| 0 <= j < |db| && db[j] == Pair(k, w);
      assert j < hi;
      assert j == hi - 1 || Lt(db[j], db[hi - 1]);
    }
  }

  /** `mdb_cursor_count` on a key is the number of its values. */
  lemma ValuesCount(db: seq<Pair>, k: int)
    requires Sorted(db)
    ensures |Values(db, k)| == DupCount(db, k)
  {
    var lo, n := KeyLowerBound(db, k), DupCount(db, k);
    if n > 0 {
      assert db[lo].key == k;
    }
    RunValues(db, k, lo, n);
    assert Values(db, k) == RunSet(db, lo, n) by {
      forall v | v in Values(db, k) ensures v in RunSet(db, lo, n) {
        var j :| 0 <= j < |db| && db[j] == Pair(k, v);
      }
    }
  }

  /** A run of `n` pairs of one key holds `n` distinct values. */
  lemma {:induction false} RunValues(db: seq<Pair>, k: int, lo: nat, n: nat)
    requires Sorted(db) && lo + n <= |db|
    requires forall j :: lo <= j < lo + n ==> db[j].key == k
    ensures |RunSet(db, lo, n)| == n
  {
    if n > 0 {
      RunValues(db, k, lo, n - 1);
      var last := db[lo + n - 1].val;
      var init := RunSet(db, lo, n - 1);
      forall v | v in init ensures v < last {
        var j :| lo <= j < lo + n - 1 && db[j].val == v;
        assert Lt(db[j], db[lo + n - 1]);
      }
      forall v | v in RunSet(db, lo, n) ensures v in init + {last} {
        var j :| lo <= j < lo + n && db[j].val == v;
        if j < lo + n - 1 { assert v in init; }
      }
      assert RunSet(db, lo, n) == init + {last};
    }
  }

  /** The values of the pairs at `lo`, ..., `lo + n - 1`. */
  ghost function RunSet(db: seq<Pair>, lo: nat, n: nat): set<int>
    requires lo + n <= |db|
  {
    set j | lo <= j < lo + n :: db[j].val
  }
}
