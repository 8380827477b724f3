// LMDBMapView and its cursor: a bounded window on an LMDBMapImpl. The
// view's bounds and their arithmetic live in ViewBounds; this module holds
// the two classes.

module MapViews {
  import opened Common
  import opened Store
  import opened ViewBounds
  import Api
  import Maps
  import Environment

  /**
   * LMDBMapView.CursorImpl: the map's cursor, with every result whose key
   * lies outside the view replaced by null. The map-level cursor wrapper is
   * folded in: `parent` is the database cursor itself.
   */
  class ViewCursor {
    const parent: Api.Cursor
    const b: Bounds

    ghost predicate Valid()
      reads this, parent
    {
      parent.Valid() && parent.state == Api.OPEN && BoundsOk(b)
    }

    constructor (c: Api.Cursor, bounds: Bounds)
      requires c.Valid() && c.state == Api.OPEN && BoundsOk(bounds)
      ensures Valid() && parent == c && b == bounds
    {
      parent, b := c, bounds;
    }

    /**
     * `first()` as written: with no lower bound the parent's first pair,
     * unchecked; otherwise the ceiling (or higher) of the bound if in view.
     */
    method First() returns (r: Option<Pair>)
      requires Valid()
      modifies parent
      ensures Valid() && parent.db == old(parent.db)
      ensures r == (if Lo(parent.db, b) < ScanEnd(parent.db, b) then Some(parent.db[Lo(parent.db, b)]) else None)
      ensures r.Some? ==> parent.pos == At(Lo(parent.db, b))
    {
      if b.from.None? {
        var res := parent.First();
        return res.value;
      }
      var res;
      if b.fromInc {
        res := parent.Ceiling(Api.Bytes(b.from.value));
      } else {
        res := parent.Higher(Api.Bytes(b.from.value));
      }
      r := Admit(b, res.value);
      LoBelowHi(parent.db, b);
    }

    /** `first()` corrected: the first pair is checked against the upper bound too. */
    method FirstFixed() returns (r: Option<Pair>)
      requires Valid()
      modifies parent
      ensures Valid() && parent.db == old(parent.db)
      ensures r == (if |Entries(parent.db, b)| > 0 then Some(Entries(parent.db, b)[0]) else None)
      ensures r.Some? ==> parent.pos == At(Lo(parent.db, b))
    {
      var res := First();
      r := Admit(b, res);
    }

    /** `firstKey()` as written: the key of `first()`. */
    method FirstKey() returns (r: Option<int>)
      requires Valid()
      modifies parent
      ensures Valid() && parent.db == old(parent.db)
      ensures r == (if Lo(parent.db, b) < ScanEnd(parent.db, b) then Some(parent.db[Lo(parent.db, b)].key) else None)
      ensures r.Some? ==> parent.pos == At(Lo(parent.db, b))
    {
      var e := First();
      r := if e.Some? then Some(e.value.key) else None;
    }

    /** `firstKey()` corrected. */
    method FirstKeyFixed() returns (r: Option<int>)
      requires Valid()
      modifies parent
      ensures Valid() && parent.db == old(parent.db)
      ensures r == (if |Entries(parent.db, b)| > 0 then Some(Entries(parent.db, b)[0].key) else None)
      ensures r.Some? ==> parent.pos == At(Lo(parent.db, b))
    {
      var e := FirstFixed();
      r := if e.Some? then Some(e.value.key) else None;
    }

    /** `next()`: MDB_NEXT, dropped when it leaves the view. */
    method Next() returns (r: Option<Pair>)
      requires Valid()
      modifies parent
      ensures Valid() && parent.db == old(parent.db)
      ensures old(parent.pos).Unset? ==> r == Admit(b, if |parent.db| > 0 then Some(parent.db[0]) else None)
      ensures !old(parent.pos).Unset? ==>
                var j := if old(parent.pos).At? then old(parent.pos).i + 1 else old(parent.pos).i;
                r == Admit(b, if j < |parent.db| then Some(parent.db[j]) else None) &&
                (j < |parent.db| ==> parent.pos == At(j))
    {
      var res := parent.Next();
      r := Admit(b, res.value);
    }

    /** `nextKey()`: MDB_NEXT_NODUP, dropped when it leaves the view. */
    method NextKey() returns (r: Option<int>)
      requires Valid()
      modifies parent
      ensures Valid() && parent.db == old(parent.db)
      ensures !old(parent.pos).Unset? ==>
                var j := KeyUpperBound(parent.db, PosKey(parent.db, old(parent.pos)));
                r == (if j < |parent.db| && InView(b, parent.db[j].key) then Some(parent.db[j].key) else None) &&
                (j < |parent.db| ==> parent.pos == At(j))
    {
      var res := parent.NextNoDup();
      var e := Admit(b, res.value);
      r := if e.Some? then Some(e.value.key) else None;
    }

    /** `prev()`: MDB_PREV, dropped when it leaves the view. */
    method Prev() returns (r: Option<Pair>)
      requires Valid()
      modifies parent
      ensures Valid() && parent.db == old(parent.db)
      ensures !old(parent.pos).Unset? ==>
                var j := old(parent.pos).i;
                r == Admit(b, if j > 0 then Some(parent.db[j - 1]) else None) &&
                (j > 0 ==> parent.pos == At(j - 1))
    {
      var res := parent.Prev();
      r := Admit(b, res.value);
    }

    /** `prevKey()`: MDB_PREV_NODUP, dropped when it leaves the view. */
    method PrevKey() returns (r: Option<int>)
      requires Valid()
      modifies parent
      ensures Valid() && parent.db == old(parent.db)
      ensures !old(parent.pos).Unset? ==>
                var j := KeyLowerBound(parent.db, PosKey(parent.db, old(parent.pos)));
                r == (if j > 0 && InView(b, parent.db[j - 1].key) then Some(parent.db[j - 1].key) else None) &&
                (j > 0 ==> parent.pos == At(j - 1))
    {
      var res := parent.PrevNoDup();
      var e := Admit(b, res.value);
      r := if e.Some? then Some(e.value.key) else None;
    }

    /**
     * The parent's floor (or lower) of the upper bound, as the cursor writes
     * them: a pair of the last key below the view's upper index, but null
     * when there is none or when no stored key is at least the bound.
     */
    method TowardTo() returns (e: Option<Pair>)
      requires Valid() && b.to.Some?
      modifies parent
      ensures Valid() && parent.db == old(parent.db)
      ensures e.None? <==> Hi(parent.db, b) == 0 || !KeyAtLeast(parent.db, b.to.value)
      ensures e.Some? ==> Hi(parent.db, b) > 0 && e.value.key == parent.db[Hi(parent.db, b) - 1].key
      ensures e.Some? ==> parent.pos.At? && parent.db[parent.pos.i] == e.value
    {
      var res;
      if b.toInc {
        res := parent.Floor(Api.Bytes(b.to.value));
      } else {
        res := parent.Lower(Api.Bytes(b.to.value));
      }
      e := res.value;
      TowardToEntryAsWritten(parent.db, b);
    }

    /** `TowardTo` on the corrected cursor floor and lower: null exactly when no pair clears the bound. */
    method TowardToFixed() returns (e: Option<Pair>)
      requires Valid() && b.to.Some?
      modifies parent
      ensures Valid() && parent.db == old(parent.db)
      ensures e.None? <==> Hi(parent.db, b) == 0
      ensures e.Some? ==> Hi(parent.db, b) > 0 && e.value.key == parent.db[Hi(parent.db, b) - 1].key
      ensures e.Some? ==> parent.pos.At? && parent.db[parent.pos.i] == e.value
    {
      var res;
      if b.toInc {
        res := parent.FloorFixed(Api.Bytes(b.to.value));
      } else {
        res := parent.LowerFixed(Api.Bytes(b.to.value));
      }
      e := res.value;
      TowardToEntry(parent.db, b);
    }

    /**
     * `last()` as written: with no upper bound the parent's last pair,
     * unchecked. Otherwise the floor (or lower) of the bound if in view, null
     * when no stored key is at least the bound; on a duplicate database the
     * pair is rebuilt from the key and `lastDupValue()`, which dereferences a
     * null entry whenever the floor (or lower) is null.
     */
    method Last() returns (r: Outcome<Option<Pair>>)
      requires Valid()
      modifies parent
      ensures Valid() && parent.db == old(parent.db)
      ensures b.to.None? ==> r == Ok(if |parent.db| > 0 then Some(parent.db[|parent.db| - 1]) else None)
      ensures b.to.Some? && parent.dup && (Hi(parent.db, b) == 0 || !KeyAtLeast(parent.db, b.to.value)) ==>
                r == Fail(NullPointer)
      ensures b.to.Some? && !(parent.dup && (Hi(parent.db, b) == 0 || !KeyAtLeast(parent.db, b.to.value))) ==>
                r == Ok(if Lo(parent.db, b) < Hi(parent.db, b) && KeyAtLeast(parent.db, b.to.value)
                        then Some(parent.db[Hi(parent.db, b) - 1]) else None)
      ensures r.Ok? && r.value.Some? ==> Hi(parent.db, b) > 0 && parent.pos == At(Hi(parent.db, b) - 1)
    {
      if b.to.None? {
        var res := parent.Last();
        return Ok(res.value);
      }
      r := LastBelowTo();
    }

    /** `last()` as written on a view with an upper bound. */
    method LastBelowTo() returns (r: Outcome<Option<Pair>>)
      requires Valid() && b.to.Some?
      modifies parent
      ensures Valid() && parent.db == old(parent.db)
      ensures parent.dup && (Hi(parent.db, b) == 0 || !KeyAtLeast(parent.db, b.to.value)) ==> r == Fail(NullPointer)
      ensures !(parent.dup && (Hi(parent.db, b) == 0 || !KeyAtLeast(parent.db, b.to.value))) ==>
                r == Ok(if Lo(parent.db, b) < Hi(parent.db, b) && KeyAtLeast(parent.db, b.to.value)
                        then Some(parent.db[Hi(parent.db, b) - 1]) else None)
      ensures r.Ok? && r.value.Some? ==> Hi(parent.db, b) > 0 && parent.pos == At(Hi(parent.db, b) - 1)
    {
      var e := TowardTo();
      if e.Some? && !WithinRange(b, Some(e.value.key), true) {
        return Ok(None);
      }
      ghost var db, hi := parent.db, Hi(parent.db, b);
      if !parent.dup {
        if e.Some? {
          assert e.value == db[parent.pos.i];
          assert parent.pos.i == hi - 1;
        }
        return Ok(e);
      }
      if e.None? {
        return Fail(NullPointer);
      }
      var p := LastDupOfKey(e.value);
      r := Ok(Some(p));
    }

    /** On a duplicate database `last()` rebuilds the pair from the key found and `lastDupValue()`. */
    method LastDupOfKey(e: Pair) returns (r: Pair)
      requires Valid() && parent.dup && Hi(parent.db, b) > 0
      requires parent.pos.At? && parent.db[parent.pos.i] == e && e.key == parent.db[Hi(parent.db, b) - 1].key
      modifies parent
      ensures Valid() && parent.db == old(parent.db)
      ensures r == parent.db[Hi(parent.db, b) - 1] && parent.pos == At(Hi(parent.db, b) - 1)
    {
      LastRunEndsAtHi(parent.db, b);
      var v := parent.LastDup();
      r := Pair(e.key, v.value.value.val);
    }

    /** `last()` corrected: every result is checked, and a missing entry is null on any database. */
    method LastFixed() returns (r: Option<Pair>)
      requires Valid()
      modifies parent
      ensures Valid() && parent.db == old(parent.db)
      ensures r == (if |Entries(parent.db, b)| > 0 then Some(Entries(parent.db, b)[|Entries(parent.db, b)| - 1]) else None)
      ensures r.Some? ==> Hi(parent.db, b) > 0 && parent.pos == At(Hi(parent.db, b) - 1)
    {
      ghost var db := parent.db;
      var res: Option<Pair>;
      if b.to.None? {
        var last := Last();
        res := last.value;
      } else {
        res := LastCheckedBelowTo();
      }
      LastEntryAtHi(db, b, res);
      r := Admit(b, res);
    }

    /** The fixed `last()` under an upper bound: no null dereference when nothing clears it. */
    method LastCheckedBelowTo() returns (r: Option<Pair>)
      requires Valid() && b.to.Some?
      modifies parent
      ensures Valid() && parent.db == old(parent.db)
      ensures r == (if Lo(parent.db, b) < Hi(parent.db, b) then Some(parent.db[Hi(parent.db, b) - 1]) else None)
      ensures r.Some? ==> Hi(parent.db, b) > 0 && parent.pos == At(Hi(parent.db, b) - 1)
    {
      var e := TowardToFixed();
      if e.None? || !WithinRange(b, Some(e.value.key), true) {
        return None;
      }
      ghost var db, hi := parent.db, Hi(parent.db, b);
      if !parent.dup {
        assert e.value == db[parent.pos.i];
        assert parent.pos.i == hi - 1;
        return e;
      }
      var p := LastDupOfKey(e.value);
      r := Some(p);
    }

    /**
     * `lastKey()` as written: unchecked with no upper bound, like `first()`
     * with no lower one; under an upper bound null also when no stored key is
     * at least the bound, since the cursor's floor and lower start there.
     */
    method LastKey() returns (r: Option<int>)
      requires Valid()
      modifies parent
      ensures Valid() && parent.db == old(parent.db)
      ensures b.to.None? ==> r == (if |parent.db| > 0 then Some(parent.db[|parent.db| - 1].key) else None)
      ensures b.to.Some? ==> r == (if Lo(parent.db, b) < Hi(parent.db, b) && KeyAtLeast(parent.db, b.to.value)
                                   then Some(parent.db[Hi(parent.db, b) - 1].key) else None)
      ensures r.Some? ==> parent.pos.At? && parent.db[parent.pos.i].key == r.value
    {
      if b.to.None? {
        var res := parent.Last();
        return if res.value.Some? then Some(res.value.value.key) else None;
      }
      var e := TowardTo();
      var k := Admit(b, e);
      r := if k.Some? then Some(k.value.key) else None;
    }

    /** `lastKey()` corrected: every answer is checked, on the corrected cursor floor and lower. */
    method LastKeyFixed() returns (r: Option<int>)
      requires Valid()
      modifies parent
      ensures Valid() && parent.db == old(parent.db)
      ensures r == (if Lo(parent.db, b) < Hi(parent.db, b) then Some(parent.db[Hi(parent.db, b) - 1].key) else None)
      ensures r.Some? ==> parent.pos.At? && parent.db[parent.pos.i].key == r.value
    {
      var e;
      if b.to.None? {
        var res := parent.Last();
        e := res.value;
      } else {
        e := TowardToFixed();
      }
      var k := Admit(b, e);
      r := if k.Some? then Some(k.value.key) else None;
    }

    /** `moveTo(key)`: MDB_SET, refused outside the view. */
    method MoveTo(k: int) returns (r: bool)
      requires Valid()
      modifies parent
      ensures Valid() && parent.db == old(parent.db)
      ensures r <==> InView(b, k) && HasKey(parent.db, k)
      ensures r ==> parent.pos == At(KeyLowerBound(parent.db, k))
    {
      if !WithinRange(b, Some(k), true) { return false; }
      var res := parent.MoveTo(k);
      r := res.value;
    }
  }

  /**
   * LMDBMapView: the part of the map `base` inside `b`. Reads filter the map's
   * answers; writes outside the bounds fail with LMDBOutOfRangeException
   * and leave the map as it was.
   */
  class MapView {
    const base: Maps.MapImpl
    const b: Bounds

    ghost predicate Valid()
      reads this, base
    {
      base.Valid() && BoundsOk(b)
    }

    /** `new LMDBMapView(...)` once `CheckBounds` has accepted the bounds. */
    constructor (m: Maps.MapImpl, bounds: Bounds)
      requires m.Valid() && BoundsOk(bounds)
      ensures Valid() && base == m && b == bounds
    {
      base, b := m, bounds;
    }

    // Navigation. Each clamps its argument with `adjustKey`, so each answers
    // for the clamped key; the `*Fixed` variants answer for the key itself.

    /** `ceilingEntry(k)` as written: the view's ceiling of the clamped key. */
    method CeilingEntry(k: int) returns (r: Option<Pair>)
      requires Valid()
      ensures IsCeiling(base.db, b, AdjustKey(b, Some(k)).value, r)
    {
      var a := AdjustKey(b, Some(k)).value;
      match CeilingModeOf(b, a)
      case NoCeiling =>
        r := None;
      case UseHigher =>
        var e := base.HigherEntry(a);
        r := Admit(b, e);
      case UseCeiling =>
        var e := base.CeilingEntry(a);
        r := Admit(b, e);
    }

    /** `higherEntry(k)` as written: the view's higher entry of the clamped key. */
    method HigherEntry(k: int) returns (r: Option<Pair>)
      requires Valid()
      ensures IsHigher(base.db, b, AdjustKey(b, Some(k)).value, r)
    {
      var e := base.HigherEntry(AdjustKey(b, Some(k)).value);
      r := Admit(b, e);
    }

    /**
     * `floorEntry(k)` as written: the view's floor of the clamped key, on the
     * map's floor, so null when no stored key is at least the clamped key.
     */
    method FloorEntry(k: int) returns (r: Option<Pair>)
      requires Valid()
      ensures KeyAtLeast(base.db, AdjustKey(b, Some(k)).value) ==> IsFloor(base.db, b, AdjustKey(b, Some(k)).value, r)
      ensures !KeyAtLeast(base.db, AdjustKey(b, Some(k)).value) ==> r.None?
    {
      var a := AdjustKey(b, Some(k)).value;
      match FloorModeOf(b, a)
      case NoFloor =>
        r := None;
      case UseLower =>
        var e := base.LowerEntry(a);
        if KeyAtLeast(base.db, a) {
          LowerAtExcludedTo(base.db, b, a, e);
        }
        r := Admit(b, e);
      case UseFloor =>
        var e := base.FloorEntry(a);
        if KeyAtLeast(base.db, a) {
          FloorInView(base.db, b, a, e);
        }
        r := Admit(b, e);
    }

    /**
     * `lowerEntry(k)` as written: the view's lower entry of the clamped key,
     * on the map's lower, so null when no stored key is at least the clamped key.
     */
    method LowerEntry(k: int) returns (r: Option<Pair>)
      requires Valid()
      ensures KeyAtLeast(base.db, AdjustKey(b, Some(k)).value) ==> IsLower(base.db, b, AdjustKey(b, Some(k)).value, r)
      ensures !KeyAtLeast(base.db, AdjustKey(b, Some(k)).value) ==> r.None?
    {
      var e := base.LowerEntry(AdjustKey(b, Some(k)).value);
      r := Admit(b, e);
    }

    /** The view's floor of the clamped key, on the map's corrected floor. */
    method ClampedFloor(k: int) returns (r: Option<Pair>)
      requires Valid()
      ensures IsFloor(base.db, b, AdjustKey(b, Some(k)).value, r)
    {
      var a := AdjustKey(b, Some(k)).value;
      match FloorModeOf(b, a)
      case NoFloor =>
        r := None;
      case UseLower =>
        var e := base.LowerEntryFixed(a);
        LowerAtExcludedTo(base.db, b, a, e);
        r := Admit(b, e);
      case UseFloor =>
        var e := base.FloorEntryFixed(a);
        FloorInView(base.db, b, a, e);
        r := Admit(b, e);
    }

    /** The view's lower entry of the clamped key, on the map's corrected lower. */
    method ClampedLower(k: int) returns (r: Option<Pair>)
      requires Valid()
      ensures IsLower(base.db, b, AdjustKey(b, Some(k)).value, r)
    {
      var e := base.LowerEntryFixed(AdjustKey(b, Some(k)).value);
      r := Admit(b, e);
    }

    /** `ceilingEntry(k)` corrected: above the upper bound there is no ceiling. */
    method CeilingEntryFixed(k: int) returns (r: Option<Pair>)
      requires Valid()
      ensures IsCeiling(base.db, b, k, r)
    {
      if b.to.Some? && k > b.to.value {
        return None;
      }
      r := CeilingEntry(k);
    }

    /** `higherEntry(k)` corrected: below the lower bound the higher entry is the ceiling. */
    method HigherEntryFixed(k: int) returns (r: Option<Pair>)
      requires Valid()
      ensures IsHigher(base.db, b, k, r)
    {
      if b.from.Some? && k < b.from.value {
        r := CeilingEntry(k);
      } else {
        r := HigherEntry(k);
      }
    }

    /**
     * `floorEntry(k)` corrected: below the lower bound there is no floor, and
     * the map's floor is the corrected one.
     */
    method FloorEntryFixed(k: int) returns (r: Option<Pair>)
      requires Valid()
      ensures IsFloor(base.db, b, k, r)
    {
      if b.from.Some? && k < b.from.value {
        return None;
      }
      r := ClampedFloor(k);
    }

    /**
     * `lowerEntry(k)` corrected: above the upper bound the lower entry is the
     * floor, and the map's floor and lower are the corrected ones.
     */
    method LowerEntryFixed(k: int) returns (r: Option<Pair>)
      requires Valid()
      ensures IsLower(base.db, b, k, r)
    {
      if b.to.Some? && k > b.to.value {
        r := ClampedFloor(k);
      } else {
        r := ClampedLower(k);
      }
    }

    // First and last.

    /** `firstEntry()` as written: with no lower bound the map's first pair, unchecked. */
    method FirstEntry() returns (r: Option<Pair>)
      requires Valid()
      ensures b.from.Some? ==> IsFirst(base.db, b, r)
      ensures b.from.None? ==> (r.None? <==> |base.db| == 0) &&
                               (r.Some? ==> r.value in base.db && forall p :: p in base.db ==> p == r.value || Lt(r.value, p))
    {
      if b.from.None? {
        r := base.FirstEntry();
        return;
      }
      var e;
      if b.fromInc {
        e := base.CeilingEntry(b.from.value);
      } else {
        e := base.HigherEntry(b.from.value);
      }
      FirstInView(base.db, b, e);
      r := Admit(b, e);
    }

    /** `firstEntry()` corrected: the map's first pair is checked too. */
    method FirstEntryFixed() returns (r: Option<Pair>)
      requires Valid()
      ensures IsFirst(base.db, b, r)
    {
      r := FirstEntry();
      if b.from.None? {
        FirstInView(base.db, b, r);
        r := Admit(b, r);
      }
    }

    /**
     * `lastEntry()` as written: with no upper bound the map's last pair,
     * unchecked; under one, null also when no stored key is at least the
     * bound, since the map's floor and lower start from its ceiling.
     */
    method LastEntry() returns (r: Option<Pair>)
      requires Valid()
      ensures b.to.Some? && KeyAtLeast(base.db, b.to.value) ==> IsLast(base.db, b, r)
      ensures b.to.Some? && !KeyAtLeast(base.db, b.to.value) ==> r.None?
      ensures b.to.None? ==> (r.None? <==> |base.db| == 0) &&
                             (r.Some? ==> r.value in base.db && forall p :: p in base.db ==> p == r.value || Lt(p, r.value))
    {
      if b.to.None? {
        r := base.LastEntry();
        return;
      }
      var e;
      if b.toInc {
        e := base.FloorEntry(b.to.value);
      } else {
        e := base.LowerEntry(b.to.value);
      }
      if KeyAtLeast(base.db, b.to.value) {
        LastInView(base.db, b, e);
      }
      r := Admit(b, e);
    }

    /** `lastEntry()` corrected: the map's last pair is checked too, and the map's floor and lower are corrected. */
    method LastEntryFixed() returns (r: Option<Pair>)
      requires Valid()
      ensures IsLast(base.db, b, r)
    {
      var e;
      if b.to.None? {
        e := base.LastEntry();
      } else if b.toInc {
        e := base.FloorEntryFixed(b.to.value);
      } else {
        e := base.LowerEntryFixed(b.to.value);
      }
      LastInView(base.db, b, e);
      r := Admit(b, e);
    }

    // Queries, each refused outside the bounds.

    /** `get(k)`. */
    function Get(k: int): (r: Option<int>)
      reads this, base
      requires Valid()
      ensures r.Some? <==> InView(b, k) && HasKey(base.db, k)
      ensures r.Some? ==> Pair(k, r.value) in base.db
    {
      if !WithinRange(b, Some(k), true) then None else base.Get(k)
    }

    /** `containsKey(k)`. */
    function ContainsKey(k: int): (r: bool)
      reads this, base
      ensures r <==> InView(b, k) && exists p :: p in base.db && p.key == k
    {
      WithinRange(b, Some(k), true) && base.ContainsKey(k)
    }

    /** `contains(k, v)`. */
    method Contains(k: int, v: int) returns (r: bool)
      requires Valid()
      ensures r <==> InView(b, k) && Pair(k, v) in base.db
    {
      if !WithinRange(b, Some(k), true) { return false; }
      r := base.Contains(k, v);
    }

    /** `dupCeiling(k, v)`. */
    method DupCeiling(k: int, v: int) returns (r: Option<int>)
      requires Valid()
      ensures r.Some? <==> InView(b, k) && exists w :: Pair(k, w) in base.db && w >= v
      ensures r.Some? ==> Pair(k, r.value) in base.db && r.value >= v &&
                          forall w :: Pair(k, w) in base.db && w >= v ==> r.value <= w
    {
      if !WithinRange(b, Some(k), true) { return None; }
      r := base.DupCeiling(k, v);
    }

    /** `dupHigher(k, v)`. */
    method DupHigher(k: int, v: int) returns (r: Option<int>)
      requires Valid()
      ensures r.Some? <==> InView(b, k) && exists w :: Pair(k, w) in base.db && w > v
      ensures r.Some? ==> Pair(k, r.value) in base.db && r.value > v &&
                          forall w :: Pair(k, w) in base.db && w > v ==> r.value <= w
    {
      if !WithinRange(b, Some(k), true) { return None; }
      r := base.DupHigher(k, v);
    }

    /** `dupFloor(k, v)`. */
    method DupFloor(k: int, v: int) returns (r: Option<int>)
      requires Valid()
      ensures r.Some? <==> InView(b, k) && exists w :: Pair(k, w) in base.db && w <= v
      ensures r.Some? ==> Pair(k, r.value) in base.db && r.value <= v &&
                          forall w :: Pair(k, w) in base.db && w <= v ==> w <= r.value
    {
      if !WithinRange(b, Some(k), true) { return None; }
      r := base.DupFloor(k, v);
    }

    /** `dupLower(k, v)`. */
    method DupLower(k: int, v: int) returns (r: Option<int>)
      requires Valid()
      ensures r.Some? <==> InView(b, k) && exists w :: Pair(k, w) in base.db && w < v
      ensures r.Some? ==> Pair(k, r.value) in base.db && r.value < v &&
                          forall w :: Pair(k, w) in base.db && w < v ==> w <= r.value
    {
      if !WithinRange(b, Some(k), true) { return None; }
      r := base.DupLower(k, v);
    }

    // Writes. `rangeCheck` throws LMDBOutOfRangeException for a key outside
    // the bounds before the map is touched.

    /** `put(k, v)`. */
    method Put(k: int, v: int) returns (r: Outcome<Option<int>>)
      requires Valid()
      modifies base
      ensures Valid()
      ensures !InView(b, k) ==> r == Fail(OutOfRange) && base.db == old(base.db)
      ensures InView(b, k) ==> r == Ok(old(base.Get(k))) && base.db == Store.Put(old(base.db), base.dup, k, v, Plain).value
    {
      if !WithinRange(b, Some(k), true) { return Fail(OutOfRange); }
      var prev := base.Put(k, v);
      r := Ok(prev);
    }

    /** `putNoPrev(k, v)`. */
    method PutNoPrev(k: int, v: int) returns (r: Outcome<()>)
      requires Valid()
      modifies base
      ensures Valid()
      ensures !InView(b, k) ==> r == Fail(OutOfRange) && base.db == old(base.db)
      ensures InView(b, k) ==> r.Ok? && base.db == Store.Put(old(base.db), base.dup, k, v, Plain).value
    {
      if !WithinRange(b, Some(k), true) { return Fail(OutOfRange); }
      base.PutNoPrev(k, v);
      r := Ok(());
    }

    /** `putIfAbsent(k, v)`. */
    method PutIfAbsent(k: int, v: int) returns (r: Outcome<Option<int>>)
      requires Valid()
      modifies base
      ensures Valid()
      ensures !InView(b, k) ==> r == Fail(OutOfRange) && base.db == old(base.db)
      ensures InView(b, k) ==> r == Ok(old(base.Get(k)))
      ensures InView(b, k) && r.value.Some? ==> base.db == old(base.db)
      ensures InView(b, k) && r.value.None? ==> base.db == Store.Put(old(base.db), base.dup, k, v, Plain).value
    {
      if !WithinRange(b, Some(k), true) { return Fail(OutOfRange); }
      var prev := base.PutIfAbsent(k, v);
      r := Ok(prev);
    }

    /** `add(k, v)`: a put that refuses an existing key (or pair, on a duplicate database). */
    method Add(k: int, v: int) returns (r: Outcome<bool>)
      requires Valid()
      modifies base
      ensures Valid()
      ensures !InView(b, k) ==> r == Fail(OutOfRange) && base.db == old(base.db)
      ensures InView(b, k) && base.dup ==> r == Ok(Pair(k, v) !in old(base.db))
      ensures InView(b, k) && !base.dup ==> r == Ok(!HasKey(old(base.db), k))
      ensures r == Ok(true) ==> base.db == Store.Put(old(base.db), base.dup, k, v, if base.dup then NoDupData else NoOverwrite).value
      ensures r != Ok(true) ==> base.db == old(base.db)
    {
      if !WithinRange(b, Some(k), true) { return Fail(OutOfRange); }
      var added := base.Add(k, v);
      r := Ok(added);
    }

    /** `append(k, v)`: a put only past every stored key. */
    method Append(k: int, v: int) returns (r: Outcome<bool>)
      requires Valid()
      modifies base
      ensures Valid()
      ensures !InView(b, k) ==> r == Fail(OutOfRange) && base.db == old(base.db)
      ensures InView(b, k) ==> r == Ok(forall p :: p in old(base.db) ==> p.key < k)
      ensures r == Ok(true) ==> base.db == old(base.db) + [Pair(k, v)]
      ensures r != Ok(true) ==> base.db == old(base.db)
    {
      if !WithinRange(b, Some(k), true) { return Fail(OutOfRange); }
      var appended := base.Append(k, v);
      r := Ok(appended);
    }

    /** `prepend(k, v)` as written: in range, the map's `prepend`, a plain put answering true. */
    method Prepend(k: int, v: int) returns (r: Outcome<bool>)
      requires Valid()
      modifies base
      ensures Valid()
      ensures !InView(b, k) ==> r == Fail(OutOfRange) && base.db == old(base.db)
      ensures InView(b, k) ==> r == Ok(true) && base.db == Store.Put(old(base.db), base.dup, k, v, Plain).value
    {
      if !WithinRange(b, Some(k), true) { return Fail(OutOfRange); }
      var prepended := base.Prepend(k, v);
      r := Ok(prepended);
    }

    /**
     * `prepend(k, v)` on the map's corrected `prepend`: in range, a plain put
     * answering whether `k` was below every stored key, and then stored first.
     */
    method PrependFixed(k: int, v: int) returns (r: Outcome<bool>)
      requires Valid()
      modifies base
      ensures Valid()
      ensures !InView(b, k) ==> r == Fail(OutOfRange) && base.db == old(base.db)
      ensures InView(b, k) ==> r == Ok(forall p :: p in old(base.db) ==> k < p.key) &&
                               base.db == Store.Put(old(base.db), base.dup, k, v, Plain).value
      ensures r == Ok(true) ==> base.db == [Pair(k, v)] + old(base.db)
    {
      if !WithinRange(b, Some(k), true) { return Fail(OutOfRange); }
      var prepended := base.PrependFixed(k, v);
      r := Ok(prepended);
    }

    /** `remove(k)`: every value of `k` goes; the result is its first value. */
    method Remove(k: int) returns (r: Outcome<Option<int>>)
      requires Valid()
      modifies base
      ensures Valid()
      ensures !InView(b, k) ==> r == Fail(OutOfRange) && base.db == old(base.db)
      ensures InView(b, k) ==> r == Ok(old(base.Get(k))) && base.db == RemoveKey(old(base.db), k)
    {
      if !WithinRange(b, Some(k), true) { return Fail(OutOfRange); }
      var prev := base.Remove(k);
      r := Ok(prev);
    }

    /** `removeNoPrev(k)`. */
    method RemoveNoPrev(k: int) returns (r: Outcome<bool>)
      requires Valid()
      modifies base
      ensures Valid()
      ensures !InView(b, k) ==> r == Fail(OutOfRange) && base.db == old(base.db)
      ensures InView(b, k) ==> r == Ok(HasKey(old(base.db), k)) && base.db == RemoveKey(old(base.db), k)
    {
      if !WithinRange(b, Some(k), true) { return Fail(OutOfRange); }
      var removed := base.RemoveNoPrev(k);
      r := Ok(removed);
    }

    /** `remove(k, v)` (public): one pair goes; out of range it throws. */
    method RemovePair(k: int, v: int) returns (r: Outcome<bool>)
      requires Valid()
      modifies base
      ensures Valid()
      ensures !InView(b, k) ==> r == Fail(OutOfRange) && base.db == old(base.db)
      ensures InView(b, k) ==> r == Ok(Pair(k, v) in old(base.db))
      ensures forall q :: q in base.db <==> q in old(base.db) && (r != Ok(true) || q != Pair(k, v))
    {
      if !WithinRange(b, Some(k), true) { return Fail(OutOfRange); }
      var removed := base.RemovePair(k, v);
      r := Ok(removed);
    }

    /** `remove(k, buf, v)` (internal, used by the collections): out of range it answers false. */
    method RemovePairQuiet(k: int, v: int) returns (removed: bool)
      requires Valid()
      modifies base
      ensures Valid()
      ensures removed <==> InView(b, k) && Pair(k, v) in old(base.db)
      ensures forall q :: q in base.db <==> q in old(base.db) && (!removed || q != Pair(k, v))
    {
      if !WithinRange(b, Some(k), true) { return false; }
      removed := base.RemovePair(k, v);
    }

    /** `replace(k, v)`: a put only over an existing key. */
    method Replace(k: int, v: int) returns (r: Outcome<Option<int>>)
      requires Valid()
      modifies base
      ensures Valid()
      ensures !InView(b, k) ==> r == Fail(OutOfRange) && base.db == old(base.db)
      ensures InView(b, k) ==> r == Ok(old(base.Get(k)))
      ensures InView(b, k) && r.value.None? ==> base.db == old(base.db)
      ensures InView(b, k) && r.value.Some? ==> base.db == Store.Put(old(base.db), base.dup, k, v, Plain).value
    {
      if !WithinRange(b, Some(k), true) { return Fail(OutOfRange); }
      var prev := base.Replace(k, v);
      r := Ok(prev);
    }

    /** `replace(k, expected, v)`: a put only over the expected value. */
    method ReplaceIf(k: int, expected: int, v: int) returns (r: Outcome<bool>)
      requires Valid()
      modifies base
      ensures Valid()
      ensures !InView(b, k) ==> r == Fail(OutOfRange) && base.db == old(base.db)
      ensures InView(b, k) ==> r == Ok(old(base.Get(k)) == Some(expected))
      ensures r == Ok(true) ==> base.db == Store.Put(old(base.db), base.dup, k, v, Plain).value
      ensures r != Ok(true) ==> base.db == old(base.db)
    {
      if !WithinRange(b, Some(k), true) { return Fail(OutOfRange); }
      var replaced := base.ReplaceIf(k, expected, v);
      r := Ok(replaced);
    }

    /** `clear()`: not supported on a view. */
    method Clear() returns (r: Outcome<()>)
      requires Valid()
      ensures r == Fail(Unsupported)
    {
      r := Fail(Unsupported);
    }

    /**
     * `putAll(m)`: a range-checked put per entry, in order, in one
     * transaction. The first entry outside the bounds throws; the puts before
     * it stay, because closing the transaction commits it.
     */
    method PutAll(entries: seq<Pair>) returns (r: Outcome<()>)
      requires Valid()
      modifies base
      ensures Valid()
      ensures r.Ok? <==> forall j :: 0 <= j < |entries| ==> InView(b, entries[j].key)
      ensures r.Fail? ==> r.error == OutOfRange
      ensures base.db == Maps.PutEach(old(base.db), base.dup, entries[..InViewPrefix(b, entries)])
    {
      ghost var db0 := base.db;
      var i := 0;
      while i < |entries|
        invariant 0 <= i <= |entries| && base.Valid() && Wf(db0, base.dup)
        invariant base.db == Maps.PutEach(db0, base.dup, entries[..i])
        invariant forall j :: 0 <= j < i ==> InView(b, entries[j].key)
      {
        if !WithinRange(b, Some(entries[i].key), true) {
          InViewPrefixIs(b, entries, i);
          return Fail(OutOfRange);
        }
        PutEntry(db0, entries, i);
        i := i + 1;
      }
      InViewPrefixIs(b, entries, i);
      r := Ok(());
    }

    /** One step of `putAll`: the put of entry `i`, as one more step of `PutEach`. */
    method PutEntry(ghost db0: seq<Pair>, entries: seq<Pair>, i: nat)
      requires base.Valid() && Wf(db0, base.dup) && i < |entries|
      requires base.db == Maps.PutEach(db0, base.dup, entries[..i])
      requires forall j :: 0 <= j < i ==> InView(b, entries[j].key)
      requires InView(b, entries[i].key)
      modifies base
      ensures base.Valid() && base.db == Maps.PutEach(db0, base.dup, entries[..i + 1])
      ensures forall j :: 0 <= j < i + 1 ==> InView(b, entries[j].key)
    {
      Maps.PutEachPrefix(db0, base.dup, entries, i);
      base.PutNoPrev(entries[i].key, entries[i].val);
    }

    // Polls: a first or last entry found, then removed.

    /**
     * `pollFirstEntry()` as written: with no lower bound the map's poll,
     * unchecked (it removes one pair); otherwise `firstEntry()` and then
     * `remove(key)`, which removes every value of that key.
     */
    method PollFirstEntry() returns (r: Option<Pair>)
      requires Valid()
      modifies base
      ensures Valid()
      ensures b.from.None? ==> (r.None? <==> old(base.db) == []) &&
                               (r.Some? ==> r.value == old(base.db)[0] && base.db == old(base.db)[1..]) &&
                               (r.None? ==> base.db == old(base.db))
      ensures b.from.Some? ==> IsFirst(old(base.db), b, r) &&
                               base.db == if r.Some? then RemoveKey(old(base.db), r.value.key) else old(base.db)
    {
      if b.from.None? {
        r := base.PollFirstEntry();
        return;
      }
      r := FirstEntry();
      if r.Some? {
        var _ := Remove(r.value.key);
      }
    }

    /** `pollFirstEntry()` corrected: the first pair is taken only from inside the view. */
    method PollFirstEntryFixed() returns (r: Option<Pair>)
      requires Valid()
      modifies base
      ensures Valid()
      ensures IsFirst(old(base.db), b, r)
      ensures r.None? ==> base.db == old(base.db)
      ensures r.Some? ==> r.value !in base.db
      ensures forall p: Pair :: !InView(b, p.key) ==> (p in base.db <==> p in old(base.db))
    {
      if b.from.Some? {
        r := PollFirstEntry();
        return;
      }
      var e := FirstEntryFixed();
      if e.None? {
        return None;
      }
      HeadIsFirst(base.db, b);
      r := base.PollFirstEntry();
    }

    /**
     * `pollLastEntry()` as written: with no upper bound the map's poll,
     * unchecked; otherwise `lastEntry()` and then `remove(key)`.
     */
    method PollLastEntry() returns (r: Option<Pair>)
      requires Valid()
      modifies base
      ensures Valid()
      ensures b.to.None? ==> (r.None? <==> old(base.db) == []) &&
                             (r.Some? ==> r.value == old(base.db)[|old(base.db)| - 1] && base.db == old(base.db)[..|old(base.db)| - 1]) &&
                             (r.None? ==> base.db == old(base.db))
      ensures b.to.Some? && KeyAtLeast(old(base.db), b.to.value) ==> IsLast(old(base.db), b, r)
      ensures b.to.Some? && !KeyAtLeast(old(base.db), b.to.value) ==> r.None?
      ensures b.to.Some? ==> base.db == if r.Some? then RemoveKey(old(base.db), r.value.key) else old(base.db)
    {
      if b.to.None? {
        r := base.PollLastEntry();
        return;
      }
      r := LastEntry();
      if r.Some? {
        var _ := Remove(r.value.key);
      }
    }

    /** `pollLastEntry()` corrected: the last pair is taken only from inside the view. */
    method PollLastEntryFixed() returns (r: Option<Pair>)
      requires Valid()
      modifies base
      ensures Valid()
      ensures IsLast(old(base.db), b, r)
      ensures r.None? ==> base.db == old(base.db)
      ensures r.Some? ==> r.value !in base.db
      ensures forall p: Pair :: !InView(b, p.key) ==> (p in base.db <==> p in old(base.db))
    {
      if b.to.Some? {
        r := LastEntryFixed();
        if r.Some? {
          var _ := Remove(r.value.key);
        }
        return;
      }
      var e := LastEntryFixed();
      if e.None? {
        return None;
      }
      TailIsLast(base.db, b);
      r := base.PollLastEntry();
    }

    // Counting. Each count walks a fresh view cursor, as the view's iterators
    // do: `first()` once, then `next()` until it answers null, counting in a
    // Java `int`.

    /** The pairs counted from `first`, the answer of a `first()` at the view's lowest index. */
    method DrainPairs(vc: ViewCursor, first: Option<Pair>, ghost over: bool) returns (n: int)
      requires Valid() && vc.Valid() && vc.b == b && vc.parent.db == base.db
      requires over ==> Overreach(base.db, b)
      requires first == (if Lo(base.db, b) < (if over then 1 else Hi(base.db, b)) then Some(base.db[Lo(base.db, b)]) else None)
      requires first.Some? ==> vc.parent.pos == At(Lo(base.db, b))
      modifies vc.parent
      ensures n == NarrowToInt(if over then 1 else |Entries(base.db, b)|)
    {
      ghost var db := base.db;
      ghost var lo := Lo(db, b);
      ghost var end := if over then 1 else Hi(db, b);
      LoBelowHi(db, b);
      ghost var i := lo;
      var e := first;
      n := 0;
      while e.Some?
        invariant vc.Valid() && vc.parent.db == db
        invariant lo <= i <= end
        invariant e.Some? ==> i < end && vc.parent.pos == At(i)
        invariant e.None? ==> i == end
        invariant n == NarrowToInt(i - lo)
        decreases end - i
      {
        IntCounterStep(i - lo);
        n := NarrowToInt(n + 1);
        ScanStops(db, b, over, i + 1);
        e := vc.Next();
        i := i + 1;
      }
    }

    /** The keys counted from `first`, the answer of a `firstKey()` at the view's lowest index. */
    method DrainKeys(vc: ViewCursor, first: Option<int>, ghost over: bool) returns (n: int)
      requires Valid() && vc.Valid() && vc.b == b && vc.parent.db == base.db
      requires over ==> Overreach(base.db, b)
      requires first == (if Lo(base.db, b) < (if over then 1 else Hi(base.db, b)) then Some(base.db[Lo(base.db, b)].key) else None)
      requires first.Some? ==> vc.parent.pos == At(Lo(base.db, b))
      modifies vc.parent
      ensures n == NarrowToInt(if over then 1 else |Keys(Entries(base.db, b))|)
    {
      ghost var db := base.db;
      KeyWalkStart(db, b, over);
      ghost var u := Lo(db, b);
      ghost var c := 0;
      var k := first;
      n := 0;
      while k.Some?
        invariant vc.Valid() && vc.parent.db == db
        invariant KeyWalk(db, b, over, u, c, k.Some?)
        invariant k.Some? ==> vc.parent.pos == At(u)
        invariant n == NarrowToInt(c)
        decreases |db| - u
      {
        IntCounterStep(c);
        n := NarrowToInt(n + 1);
        c := c + 1;
        k, u := StepKey(vc, u, over, c - 1);
      }
      KeyWalkEnd(db, b, over, u, c);
    }

    /** One `nextKey()` of the count: from the run at `u` to the next run. */
    method StepKey(vc: ViewCursor, ghost u: nat, ghost over: bool, ghost c: nat) returns (k: Option<int>, ghost e: nat)
      requires vc.Valid() && vc.b == b
      requires KeyWalk(vc.parent.db, b, over, u, c, true) && vc.parent.pos == At(u)
      modifies vc.parent
      ensures vc.Valid() && vc.parent.db == old(vc.parent.db)
      ensures u < e && KeyWalk(vc.parent.db, b, over, e, c + 1, k.Some?)
      ensures k.Some? ==> vc.parent.pos == At(e)
    {
      KeyWalkStep(vc.parent.db, b, over, u, c);
      e := KeyUpperBound(vc.parent.db, vc.parent.db[u].key);
      k := vc.NextKey();
    }

    /** The pairs of `first` and after, searched for value `v`. */
    method FindValue(vc: ViewCursor, first: Option<Pair>, ghost over: bool, v: int) returns (found: bool)
      requires Valid() && vc.Valid() && vc.b == b && vc.parent.db == base.db
      requires over ==> Overreach(base.db, b)
      requires first == (if Lo(base.db, b) < (if over then 1 else Hi(base.db, b)) then Some(base.db[Lo(base.db, b)]) else None)
      requires first.Some? ==> vc.parent.pos == At(Lo(base.db, b))
      modifies vc.parent
      ensures found <==> exists j :: Lo(base.db, b) <= j < (if over then 1 else Hi(base.db, b)) && base.db[j].val == v
    {
      ghost var db := base.db;
      ghost var lo := Lo(db, b);
      ghost var end := if over then 1 else Hi(db, b);
      LoBelowHi(db, b);
      ghost var i := lo;
      var e := first;
      while e.Some?
        invariant vc.Valid() && vc.parent.db == db
        invariant lo <= i <= end
        invariant e.Some? ==> i < end && vc.parent.pos == At(i) && e.value == db[i]
        invariant e.None? ==> i == end
        invariant forall j :: lo <= j < i ==> db[j].val != v
        decreases end - i
      {
        if e.value.val == v {
          return true;
        }
        ScanStops(db, b, over, i + 1);
        e := vc.Next();
        i := i + 1;
      }
      found := false;
    }

    /** A view cursor at its unset position over a fresh read cursor on the map. */
    method OpenViewCursor() returns (vc: ViewCursor)
      requires Valid()
      ensures fresh(vc) && fresh(vc.parent)
      ensures vc.Valid() && vc.b == b && vc.parent.db == base.db && vc.parent.pos == Unset
    {
      var c := base.OpenCursor();
      vc := new ViewCursor(c, b);
    }

    /**
     * `keyCount()` as written: the keys of the key iterator. With no lower
     * bound the walk starts at the store's first key whether or not the view
     * admits it.
     */
    method KeyCount() returns (n: int)
      requires Valid()
      ensures n == NarrowToInt(if Overreach(base.db, b) then 1 else |Keys(Entries(base.db, b))|)
    {
      var vc := OpenViewCursor();
      var k := vc.FirstKey();
      n := DrainKeys(vc, k, Overreach(base.db, b));
    }

    /** `keyCount()` corrected: the iterator starts from the view's first key. */
    method KeyCountFixed() returns (n: int)
      requires Valid()
      ensures n == NarrowToInt(|Keys(Entries(base.db, b))|)
    {
      var vc := OpenViewCursor();
      var k := vc.FirstKeyFixed();
      n := DrainKeys(vc, k, false);
    }

    /** `valueCount()` as written: the pairs of the value iterator, with the same overreach. */
    method ValueCount() returns (n: int)
      requires Valid()
      ensures n == NarrowToInt(if Overreach(base.db, b) then 1 else |Entries(base.db, b)|)
    {
      var vc := OpenViewCursor();
      var e := vc.First();
      n := DrainPairs(vc, e, Overreach(base.db, b));
    }

    /** `valueCount()` corrected. */
    method ValueCountFixed() returns (n: int)
      requires Valid()
      ensures n == NarrowToInt(|Entries(base.db, b)|)
    {
      var vc := OpenViewCursor();
      var e := vc.FirstFixed();
      n := DrainPairs(vc, e, false);
    }

    /** `size()`: the value count (already an `int`). */
    method Size() returns (n: int)
      requires Valid()
      ensures n == NarrowToInt(if Overreach(base.db, b) then 1 else |Entries(base.db, b)|)
    {
      n := ValueCount();
    }

    /**
     * `isEmpty()` as written: it answers whether the key iterator has a
     * first key, which is the opposite of emptiness.
     */
    method IsEmpty() returns (r: bool)
      requires Valid()
      ensures r <==> |Entries(base.db, b)| > 0 || Overreach(base.db, b)
    {
      var vc := OpenViewCursor();
      var k := vc.FirstKey();
      r := k.Some?;
    }

    /** `isEmpty()` corrected: no first key in the view. */
    method IsEmptyFixed() returns (r: bool)
      requires Valid()
      ensures r <==> |Entries(base.db, b)| == 0
      ensures r <==> forall p :: p in base.db ==> !InView(b, p.key)
    {
      var vc := OpenViewCursor();
      var k := vc.FirstKeyFixed();
      r := k.None?;
      if !r {
        assert Entries(base.db, b)[0] in Entries(base.db, b);
      }
    }

    /** `containsValue(v)` as written: a search of the entry iterator, with the same overreach. */
    method ContainsValue(v: int) returns (r: bool)
      requires Valid()
      ensures r <==> (exists p :: p in Entries(base.db, b) && p.val == v) ||
                     (Overreach(base.db, b) && base.db[0].val == v)
    {
      var vc := OpenViewCursor();
      var e := vc.First();
      r := FindValue(vc, e, Overreach(base.db, b), v);
      EntriesByIndex(base.db, b);
    }

    /** `containsValue(v)` corrected. */
    method ContainsValueFixed(v: int) returns (r: bool)
      requires Valid()
      ensures r <==> exists p :: p in Entries(base.db, b) && p.val == v
    {
      var vc := OpenViewCursor();
      var e := vc.FirstFixed();
      r := FindValue(vc, e, false, v);
      EntriesByIndex(base.db, b);
    }
  }

  // Scenarios: one small store each, showing where a view member as written
  // and its corrected form part.

  /** A sorted store whose only member is `p` is `[p]`. */
  lemma SingletonStore(db: seq<Pair>, p: Pair)
    requires Sorted(db) && forall q :: q in db <==> q == p
    ensures db == [p]
  {
    assert p in db;
    assert db[0] in db;
    assert |db| > 1 ==> db[1] in db && Lt(db[0], db[1]);
  }

  /** A map holding the one pair `(k, 0)`. */
  method MapOfOne(dup: bool, k: int) returns (m: Maps.MapImpl)
    ensures fresh(m) && m.Valid() && m.dup == dup && m.db == [Pair(k, 0)]
  {
    var e := new Environment.Env();
    m := new Maps.MapImpl(e, dup);
    m.PutNoPrev(k, 0);
    SingletonStore(m.db, Pair(k, 0));
  }

  /**
   * Over the map {5} the view [5, 10] answers `higherEntry(3)` with null:
   * the key 3 is first clamped up to 5, and nothing lies above 5.
   */
  method HigherBelowViewScenario() returns (asWritten: Option<Pair>, corrected: Option<Pair>)
    ensures asWritten == None && corrected == Some(Pair(5, 0))
  {
    var m := MapOfOne(false, 5);
    var v := new MapView(m, Bounds(Some(5), true, Some(10), true));
    asWritten := v.HigherEntry(3);
    corrected := v.HigherEntryFixed(3);
    assert Pair(5, 0) in m.db;
  }

  /**
   * Over the map {10} the view (.., 10] answers `ceilingEntry(15)` with the
   * pair of 10: the key 15 is first clamped down to 10.
   */
  method CeilingAboveViewScenario() returns (asWritten: Option<Pair>, corrected: Option<Pair>)
    ensures asWritten == Some(Pair(10, 0)) && corrected == None
  {
    var m := MapOfOne(false, 10);
    var v := new MapView(m, Bounds(None, false, Some(10), true));
    asWritten := v.CeilingEntry(15);
    corrected := v.CeilingEntryFixed(15);
    assert Pair(10, 0) in m.db;
  }

  /** Over the map {5} the view [5, 10] holds a pair, and `isEmpty()` says so by answering true. */
  method IsEmptyScenario() returns (asWritten: bool, corrected: bool)
    ensures asWritten && !corrected
  {
    var m := MapOfOne(false, 5);
    var v := new MapView(m, Bounds(Some(5), true, Some(10), true));
    assert Pair(5, 0) in Entries(m.db, v.b);
    asWritten := v.IsEmpty();
    corrected := v.IsEmptyFixed();
  }

  /**
   * Over the map {20} the head view (.., 10) is empty, yet its first entry is
   * the pair of 20 and it counts one key.
   */
  method HeadViewOverreachScenario() returns (first: Option<Pair>, firstFixed: Option<Pair>, keys: int, keysFixed: int)
    ensures first == Some(Pair(20, 0)) && firstFixed == None
    ensures keys == 1 && keysFixed == 0
  {
    var m := MapOfOne(false, 20);
    var v := new MapView(m, Bounds(None, false, Some(10), false));
    first := v.FirstEntry();
    firstFixed := v.FirstEntryFixed();
    keys := v.KeyCount();
    keysFixed := v.KeyCountFixed();
  }

  /**
   * Over the duplicate map {20} the view cursor of the head view (.., 10)
   * throws from `last()`: the parent's floor of 10 is null and its value is
   * read anyway.
   */
  method LastOnDupScenario() returns (asWritten: Outcome<Option<Pair>>, corrected: Option<Pair>)
    ensures asWritten == Fail(NullPointer) && corrected == None
  {
    var m := MapOfOne(true, 20);
    var b := Bounds(None, false, Some(10), false);
    var c := m.OpenCursor();
    var vc := new ViewCursor(c, b);
    asWritten := vc.Last();
    corrected := vc.LastFixed();
  }

  /**
   * Over the map {5} the view [5, 10] answers `floorEntry(3)` with the pair
   * of 5: the key 3 is first raised to 5, though no key of the view is at most 3.
   */
  method FloorBelowViewScenario() returns (asWritten: Option<Pair>, corrected: Option<Pair>)
    ensures asWritten == Some(Pair(5, 0)) && corrected == None
  {
    var m := MapOfOne(false, 5);
    var v := new MapView(m, Bounds(Some(5), true, Some(10), true));
    asWritten := v.FloorEntry(3);
    corrected := v.FloorEntryFixed(3);
    assert Pair(5, 0) in m.db;
  }

  /**
   * Over the map {10} the view [5, 10] answers `lowerEntry(15)` with null:
   * the key 15 is first lowered to 10, and nothing of the view lies below 10.
   */
  method LowerAboveViewScenario() returns (asWritten: Option<Pair>, corrected: Option<Pair>)
    ensures asWritten == None && corrected == Some(Pair(10, 0))
  {
    var m := MapOfOne(false, 10);
    var v := new MapView(m, Bounds(Some(5), true, Some(10), true));
    asWritten := v.LowerEntry(15);
    corrected := v.LowerEntryFixed(15);
    assert Pair(10, 0) in m.db;
  }

  /**
   * Over the map {5} the head view below 10 holds 5, yet `lastEntry()`
   * answers null: no stored key is at least 10, so the map's lower is null.
   */
  method LastBelowBoundScenario() returns (asWritten: Option<Pair>, corrected: Option<Pair>)
    ensures asWritten == None && corrected == Some(Pair(5, 0))
  {
    var m := MapOfOne(false, 5);
    var v := new MapView(m, Bounds(None, false, Some(10), false));
    asWritten := v.LastEntry();
    corrected := v.LastEntryFixed();
    assert Pair(5, 0) in m.db;
  }

  /** Over the map {5}, `pollLastEntry()` of the head view below 10 finds nothing and removes nothing. */
  method PollLastBelowBoundScenario() returns (asWritten: Option<Pair>, kept: seq<Pair>, corrected: Option<Pair>)
    ensures asWritten == None && kept == [Pair(5, 0)] && corrected == Some(Pair(5, 0))
  {
    var m := MapOfOne(false, 5);
    var v := new MapView(m, Bounds(None, false, Some(10), false));
    asWritten := v.PollLastEntry();
    kept := m.db;
    assert Pair(5, 0) in m.db;
    corrected := v.PollLastEntryFixed();
  }

  /**
   * Over the duplicate map {5}, `last()` of the view cursor below 10 throws
   * NullPointerException, where the corrected one answers the pair of 5.
   */
  method LastBelowBoundOnDupScenario() returns (asWritten: Outcome<Option<Pair>>, corrected: Option<Pair>)
    ensures asWritten == Fail(NullPointer) && corrected == Some(Pair(5, 0))
  {
    var m := MapOfOne(true, 5);
    var b := Bounds(None, false, Some(10), false);
    var c := m.OpenCursor();
    var vc := new ViewCursor(c, b);
    asWritten := vc.Last();
    corrected := vc.LastFixed();
  }
}
