// LMDBMapView: a bounded view (headMap, tailMap, subMap) of an LMDBMapImpl.
// The view keeps no data of its own. Reads consult the map and drop what
// lies outside the bounds. Writes outside the bounds throw
// LMDBOutOfRangeException before touching the map. Keys compare as
// integers, so the view's `Objects.equals` tests on bounds agree with
// `compare == 0`.

module ViewBounds {
  import opened Common
  import opened Store
  import Maps

  /** A view's bounds; a missing bound leaves that side open. */
  datatype Bounds = Bounds(from: Option<int>, fromInc: bool, to: Option<int>, toInc: bool)

  /** Reference: `k` clears the lower bound. */
  predicate AboveFrom(b: Bounds, k: int) {
    b.from.None? || b.from.value < k || (b.fromInc && b.from.value == k)
  }

  /** Reference: `k` clears the upper bound. */
  predicate BelowTo(b: Bounds, k: int) {
    b.to.None? || k < b.to.value || (b.toInc && k == b.to.value)
  }

  /** Reference: the keys a view admits, as the NavigableMap contract states them. */
  predicate InView(b: Bounds, k: int) {
    AboveFrom(b, k) && BelowTo(b, k)
  }

  /** Reference: the closed span between the bounds, both bounds counted in. */
  predicate InSpan(b: Bounds, k: int) {
    (b.from.Some? ==> b.from.value <= k) && (b.to.Some? ==> k <= b.to.value)
  }

  /** What the constructor accepts: some bound, and `from` below `to` when both are given. */
  predicate BoundsOk(b: Bounds) {
    (b.from.Some? || b.to.Some?) && (b.from.Some? && b.to.Some? ==> b.from.value < b.to.value)
  }

  /** `new LMDBMapView(map, from, fi, to, ti)`: the constructor's argument checks. */
  function CheckBounds(b: Bounds): (r: Outcome<Bounds>)
    ensures r.Ok? <==> BoundsOk(b)
    ensures r.Ok? ==> r.value == b
    ensures r.Fail? ==> r.error == IllegalArgument
  {
    if b.from.None? && b.to.None? then Fail(IllegalArgument)
    else if b.from.Some? && b.to.Some? && Maps.Compare(b.from, b.to) >= 0 then Fail(IllegalArgument)
    else Ok(b)
  }

  /**
   * `withinRange(key, inclusive)`: null is never in range; with
   * `inclusive` false a key equal to either bound passes.
   */
  function WithinRange(b: Bounds, key: Option<int>, inclusive: bool): (r: bool)
    ensures r <==> key.Some? && (if inclusive then InView(b, key.value) else InSpan(b, key.value))
  {
    if key.None? then false
    else
      var fromOk := b.from.None? ||
        var c := Maps.Compare(b.from, key); c < 0 || (c == 0 && (b.fromInc || !inclusive));
      fromOk && (b.to.None? ||
        var c := Maps.Compare(key, b.to); c < 0 || (c == 0 && (b.toInc || !inclusive)))
  }

  /**
   * `adjustKey(key)`: a key below `from` becomes `from`, one above `to`
   * becomes `to`. A null key compares below everything, so it becomes `from`.
   */
  function AdjustKey(b: Bounds, key: Option<int>): (r: Option<int>)
    ensures key.None? ==> r == b.from
    ensures key.Some? && InSpan(b, key.value) ==> r == key
    ensures key.Some? && b.from.Some? && key.value < b.from.value ==> r == b.from
    ensures key.Some? && b.to.Some? && key.value > b.to.value && !(b.from.Some? && key.value < b.from.value) ==> r == b.to
    ensures key.Some? && BoundsOk(b) ==> r.Some? && InSpan(b, r.value)
  {
    if b.from.Some? && Maps.Compare(key, b.from) < 0 then b.from
    else if b.to.Some? && Maps.Compare(key, b.to) > 0 then b.to
    else key
  }

  /** How `ceiling*` on the view consults the map. */
  datatype CeilingMode = NoCeiling | UseHigher | UseCeiling

  /** `ceilingMode(key)`: an excluded `to` admits nothing; an excluded `from` is skipped. */
  function CeilingModeOf(b: Bounds, k: int): (m: CeilingMode)
    ensures InSpan(b, k) ==> (m == UseCeiling <==> InView(b, k))
    ensures m == NoCeiling ==> forall j :: j >= k ==> !InView(b, j)
    ensures m == UseHigher ==> forall j :: j >= k && InView(b, j) ==> j > k
  {
    if !b.toInc && Some(k) == b.to then NoCeiling
    else if !b.fromInc && Some(k) == b.from then UseHigher
    else UseCeiling
  }

  /** How `floor*` on the view consults the map. */
  datatype FloorMode = NoFloor | UseLower | UseFloor

  /** `floorMode(key)`: the mirror image of `ceilingMode`. */
  function FloorModeOf(b: Bounds, k: int): (m: FloorMode)
    ensures InSpan(b, k) ==> (m == UseFloor <==> InView(b, k))
    ensures m == NoFloor ==> forall j :: j <= k ==> !InView(b, j)
    ensures m == UseLower ==> forall j :: j <= k && InView(b, j) ==> j < k
  {
    if !b.fromInc && Some(k) == b.from then NoFloor
    else if !b.toInc && Some(k) == b.to then UseLower
    else UseFloor
  }

  // ---------------------------------------------------------------------
  // Composing views
  // ---------------------------------------------------------------------

  /**
   * `subMap(from, fi, to, ti)` on a view as written: the arguments must be
   * ordered, each is clamped with `adjustKey`, and each inclusivity is
   * ANDed with the view's own whenever the argument is given.
   */
  function SubMap(b: Bounds, from: Option<int>, fi: bool, to: Option<int>, ti: bool): (r: Outcome<Bounds>)
    requires BoundsOk(b)
    ensures from.Some? && to.Some? && from.value >= to.value ==> r == Fail(IllegalArgument)
    ensures r.Fail? ==> r.error == IllegalArgument
    ensures r.Ok? ==> BoundsOk(r.value)
    ensures r.Ok? && from.Some? && to.Some? ==> forall k :: InView(r.value, k) ==> InView(b, k)
  {
    if from.Some? && to.Some? && Maps.Compare(from, to) >= 0 then Fail(IllegalArgument)
    else
      var nb := Bounds(AdjustKey(b, from), fi && (from.None? || b.fromInc),
                       AdjustKey(b, to), ti && (to.None? || b.toInc));
      var r := CheckBounds(nb);
      assert r.Ok? && from.Some? && to.Some? ==> forall k :: InView(r.value, k) ==> InView(b, k) by {
        if r.Ok? && from.Some? && to.Some? {
          forall k | InView(nb, k) ensures InView(b, k) {
            SubMapStaysInside(b, from.value, fi, to.value, ti, k);
          }
        }
      }
      r
  }

  lemma SubMapStaysInside(b: Bounds, from: int, fi: bool, to: int, ti: bool, k: int)
    requires BoundsOk(b) && from < to
    requires InView(Bounds(AdjustKey(b, Some(from)), fi && b.fromInc, AdjustKey(b, Some(to)), ti && b.toInc), k)
    ensures InView(b, k)
  {
  }

  /** `headMap(to, ti)` on a view: `subMap(this.from, this.fromInclusive, to, ti)`. */
  function HeadMap(b: Bounds, to: int, ti: bool): (r: Outcome<Bounds>)
    requires BoundsOk(b)
    ensures r.Ok? ==> BoundsOk(r.value) && forall k :: InView(r.value, k) ==> InView(b, k)
  {
    SubMap(b, b.from, b.fromInc, Some(to), ti)
  }

  /** `tailMap(from, fi)` on a view as written: `subMap(from, fi, this.to, this.toInclusive)`. */
  function TailMap(b: Bounds, from: int, fi: bool): (r: Outcome<Bounds>)
    requires BoundsOk(b)
    ensures b.to.None? && b.from.Some? ==> r == Fail(IllegalArgument)
    ensures r.Ok? ==> BoundsOk(r.value) && forall k :: InView(r.value, k) ==> InView(b, k)
  {
    SubMap(b, Some(from), fi, b.to, b.toInc)
  }

  /**
   * `subMap` as the NavigableMap contract means it: the new view admits
   * exactly the keys both the view and the requested range admit. A null
   * argument leaves that side of the view as it is.
   */
  function SubMapFixed(b: Bounds, from: Option<int>, fi: bool, to: Option<int>, ti: bool): (r: Outcome<Bounds>)
    requires BoundsOk(b)
    ensures from.Some? && to.Some? && from.value >= to.value ==> r == Fail(IllegalArgument)
    ensures r.Ok? ==> BoundsOk(r.value)
    ensures r.Ok? ==> forall k :: InView(r.value, k) <==> InView(b, k) && InView(Bounds(from, fi, to, ti), k)
  {
    if from.Some? && to.Some? && Maps.Compare(from, to) >= 0 then Fail(IllegalArgument)
    else
      var lo := MeetFrom(b, from, fi);
      var hi := MeetTo(b, to, ti);
      CheckBounds(Bounds(lo.0, lo.1, hi.0, hi.1))
  }

  /** The tighter of the view's lower bound and `from`: it admits exactly what both admit. */
  function MeetFrom(b: Bounds, from: Option<int>, fi: bool): (lo: (Option<int>, bool))
    ensures forall k :: AboveFrom(Bounds(lo.0, lo.1, None, false), k) <==>
                        AboveFrom(b, k) && AboveFrom(Bounds(from, fi, None, false), k)
  {
    if from.None? || (b.from.Some? && from.value < b.from.value) then (b.from, b.fromInc)
    else if b.from.Some? && from.value == b.from.value then (from, fi && b.fromInc)
    else (from, fi)
  }

  /** The tighter of the view's upper bound and `to`: it admits exactly what both admit. */
  function MeetTo(b: Bounds, to: Option<int>, ti: bool): (hi: (Option<int>, bool))
    ensures forall k :: BelowTo(Bounds(None, false, hi.0, hi.1), k) <==>
                        BelowTo(b, k) && BelowTo(Bounds(None, false, to, ti), k)
  {
    if to.None? || (b.to.Some? && to.value > b.to.value) then (b.to, b.toInc)
    else if b.to.Some? && to.value == b.to.value then (to, ti && b.toInc)
    else (to, ti)
  }

  /** `tailMap(from, fi)` corrected: the view's upper side stays as it is. */
  function TailMapFixed(b: Bounds, from: int, fi: bool): (r: Outcome<Bounds>)
    requires BoundsOk(b)
    ensures r.Ok? ==> forall k :: InView(r.value, k) <==> InView(b, k) && AboveFrom(Bounds(Some(from), fi, None, false), k)
    ensures b.to.None? ==> r.Ok? && r.value.to.None?
  {
    SubMapFixed(b, Some(from), fi, None, false)
  }

  /** Finding: `tailMap` of a view open above fails, because `adjustKey(null)` yields `from`. */
  lemma TailOfTailViewFails()
    ensures TailMap(Bounds(Some(5), true, None, false), 7, true) == Fail(IllegalArgument)
    ensures TailMapFixed(Bounds(Some(5), true, None, false), 7, true) == Ok(Bounds(Some(7), true, None, false))
  {
  }

  /**
   * Finding: on a view with excluded bounds, `subMap` drops the inclusivity
   * of a `from` strictly inside the view.
   */
  lemma SubMapDropsInteriorInclusive()
    ensures SubMap(Bounds(Some(0), false, Some(10), false), Some(5), true, Some(8), false)
            == Ok(Bounds(Some(5), false, Some(8), false))
    ensures !InView(Bounds(Some(5), false, Some(8), false), 5)
    ensures SubMapFixed(Bounds(Some(0), false, Some(10), false), Some(5), true, Some(8), false)
            == Ok(Bounds(Some(5), true, Some(8), false))
  {
  }

  // ---------------------------------------------------------------------
  // The view's part of a sorted database
  // ---------------------------------------------------------------------

  /** Index of the first pair that clears the lower bound. */
  function Lo(db: seq<Pair>, b: Bounds): (i: nat)
    requires Sorted(db)
    ensures i <= |db|
    ensures forall j :: 0 <= j < |db| ==> (AboveFrom(b, db[j].key) <==> i <= j)
  {
    if b.from.None? then 0
    else if b.fromInc then KeyLowerBound(db, b.from.value)
    else KeyUpperBound(db, b.from.value)
  }

  /** Index just past the last pair that clears the upper bound. */
  function Hi(db: seq<Pair>, b: Bounds): (i: nat)
    requires Sorted(db)
    ensures i <= |db|
    ensures forall j :: 0 <= j < |db| ==> (BelowTo(b, db[j].key) <==> j < i)
  {
    if b.to.None? then |db|
    else if b.toInc then KeyUpperBound(db, b.to.value)
    else KeyLowerBound(db, b.to.value)
  }

  /**
   * The floor of an inclusive upper bound (the lower entry of an exclusive
   * one) is null exactly when no pair clears the bound, and otherwise has
   * the key of the last pair that does.
   */
  lemma TowardToEntry(db: seq<Pair>, b: Bounds)
    requires Sorted(db) && b.to.Some?
    ensures var e := if b.toInc then FloorEntry(db, b.to.value) else LowerEntry(db, b.to.value);
            (e.None? <==> Hi(db, b) == 0) && (e.Some? ==> Hi(db, b) > 0 && e.value.key == db[Hi(db, b) - 1].key)
  {
    var e := if b.toInc then FloorEntry(db, b.to.value) else LowerEntry(db, b.to.value);
    var hi := Hi(db, b);
    if hi > 0 {
      assert db[hi - 1] in db && BelowTo(b, db[hi - 1].key);
    }
    if e.Some? {
      var x :| 0 <= x < |db| && db[x] == e.value;
      assert BelowTo(b, db[x].key);
      assert db[hi - 1] in db && BelowTo(b, db[hi - 1].key);
      assert db[x].key <= db[hi - 1].key by {
        if x < hi - 1 { assert Lt(db[x], db[hi - 1]); }
      }
    }
  }

  /**
   * As the cursor writes them, the floor and lower start from the ceiling of
   * the bound, so they are also null when no stored key is at least the bound.
   */
  lemma TowardToEntryAsWritten(db: seq<Pair>, b: Bounds)
    requires Sorted(db) && b.to.Some?
    ensures var f := if b.toInc then FloorEntry(db, b.to.value) else LowerEntry(db, b.to.value);
            var e := if CeilingEntry(db, b.to.value).None? then None else f;
            (e.None? <==> Hi(db, b) == 0 || !KeyAtLeast(db, b.to.value)) &&
            (e.Some? ==> Hi(db, b) > 0 && e.value.key == db[Hi(db, b) - 1].key)
  {
    TowardToEntry(db, b);
  }

  /** With ordered bounds the lower index never passes the upper one. */
  lemma LoBelowHi(db: seq<Pair>, b: Bounds)
    requires Sorted(db) && BoundsOk(b)
    ensures Lo(db, b) <= Hi(db, b)
  {
    var lo := Lo(db, b);
    if lo > 0 {
      assert !AboveFrom(b, db[lo - 1].key);
      assert BelowTo(b, db[lo - 1].key);
    }
  }

  /** Reference: the pairs the view holds, in database order. */
  function Entries(db: seq<Pair>, b: Bounds): (r: seq<Pair>)
    requires Sorted(db) && BoundsOk(b)
    ensures Sorted(r)
    ensures forall p :: p in r <==> p in db && InView(b, p.key)
    ensures |r| == Hi(db, b) - Lo(db, b)
  {
    LoBelowHi(db, b);
    var r := db[Lo(db, b)..Hi(db, b)];
    assert forall p :: p in r <==> p in db && InView(b, p.key) by {
      forall p ensures p in r <==> p in db && InView(b, p.key) {
        if p in db && InView(b, p.key) {
          var j :| 0 <= j < |db| && db[j] == p;
          assert r[j - Lo(db, b)] == p;
        }
      }
    }
    r
  }

  /**
   * A view open below whose range holds nothing, over a non-empty database:
   * the view cursor's unchecked `first()` then still returns the first pair.
   */
  predicate Overreach(db: seq<Pair>, b: Bounds)
    requires Sorted(db)
  {
    b.from.None? && |db| > 0 && Hi(db, b) == 0
  }

  /**
   * Index just past the pairs the view cursor walks from `first()`:
   * the view's upper index, or 1 when `Overreach` lets the first pair through.
   */
  function ScanEnd(db: seq<Pair>, b: Bounds): (e: nat)
    requires Sorted(db) && BoundsOk(b)
    ensures Lo(db, b) <= e <= |db|
    ensures !Overreach(db, b) ==> e == Hi(db, b)
    ensures Overreach(db, b) ==> Lo(db, b) == 0 && e == 1 && !InView(b, db[0].key)
  {
    LoBelowHi(db, b);
    if Overreach(db, b) then 1 else Hi(db, b)
  }

  /** `i` starts a run of equal keys (or is an end of the database). */
  predicate RunStart(db: seq<Pair>, i: nat)
    requires i <= |db|
  {
    0 < i < |db| ==> db[i - 1].key < db[i].key
  }

  /** Both view indices start runs: a bound never splits the duplicates of a key. */
  lemma BoundsAtRunStarts(db: seq<Pair>, b: Bounds)
    requires Sorted(db)
    ensures RunStart(db, Lo(db, b)) && RunStart(db, Hi(db, b))
  {
    var lo, hi := Lo(db, b), Hi(db, b);
    if 0 < lo < |db| {
      assert !AboveFrom(b, db[lo - 1].key) && AboveFrom(b, db[lo].key);
    }
    if 0 < hi < |db| {
      assert BelowTo(b, db[hi - 1].key) && !BelowTo(b, db[hi].key);
    }
  }

  /** Passing one run of equal keys adds exactly one key. */
  lemma KeysStep(db: seq<Pair>, u: nat)
    requires Sorted(db) && u < |db| && RunStart(db, u)
    ensures u < KeyUpperBound(db, db[u].key)
    ensures RunStart(db, KeyUpperBound(db, db[u].key))
    ensures |Keys(db[..KeyUpperBound(db, db[u].key)])| == |Keys(db[..u])| + 1
  {
    var k := db[u].key;
    var e := KeyUpperBound(db, k);
    forall x | 0 <= x < u ensures db[x].key < k {
      assert db[x].key <= db[u - 1].key;
    }
    forall x | u <= x < e ensures db[x].key == k {
      assert db[x].key >= k;
    }
    KeysOfRun(db, u, e);
  }

  /** A run that starts inside the view ends inside it. */
  lemma RunInside(db: seq<Pair>, b: Bounds, u: nat)
    requires Sorted(db) && Lo(db, b) <= u < Hi(db, b)
    ensures KeyUpperBound(db, db[u].key) <= Hi(db, b)
  {
    var e := KeyUpperBound(db, db[u].key);
    assert u < e by { assert db[u].key <= db[u].key; }
    assert db[e - 1].key == db[u].key by {
      assert db[e - 1].key <= db[u].key;
      if e - 1 > u { assert Lt(db[u], db[e - 1]); }
    }
    assert BelowTo(b, db[e - 1].key);
  }

  /** Splitting a sorted database at a run start splits its keys. */
  lemma KeysSplit(db: seq<Pair>, lo: nat, hi: nat)
    requires Sorted(db) && lo <= hi <= |db| && RunStart(db, lo)
    ensures |Keys(db[..hi])| == |Keys(db[..lo])| + |Keys(db[lo..hi])|
  {
    var a, c := Keys(db[..lo]), Keys(db[lo..hi]);
    assert db[..hi] == db[..lo] + db[lo..hi];
    KeysConcat(db[..lo], db[lo..hi]);
    forall k | k in a ensures k !in c {
      KeysApart(db, lo, hi, k);
    }
    assert a * c == {};
  }

  lemma KeysConcat(s: seq<Pair>, t: seq<Pair>)
    ensures Keys(s + t) == Keys(s) + Keys(t)
  {
    forall k | k in Keys(s + t) ensures k in Keys(s) + Keys(t) {
      var p :| p in s + t && p.key == k;
    }
    forall k | k in Keys(s) + Keys(t) ensures k in Keys(s + t) {
      if k in Keys(s) {
        var p :| p in s && p.key == k;
        assert p in s + t;
      } else {
        var p :| p in t && p.key == k;
        assert p in s + t;
      }
    }
  }

  lemma KeysApart(db: seq<Pair>, lo: nat, hi: nat, k: int)
    requires Sorted(db) && lo <= hi <= |db| && RunStart(db, lo)
    requires k in Keys(db[..lo])
    ensures k !in Keys(db[lo..hi])
  {
    var p :| p in db[..lo] && p.key == k;
    var x :| 0 <= x < lo && db[x] == p;
    if lo < hi {
      assert db[x].key <= db[lo - 1].key < db[lo].key;
      forall q | q in db[lo..hi] ensures q.key > k {
        var y :| lo <= y < hi && db[y] == q;
        assert db[lo].key <= db[y].key;
      }
    }
  }

  /** The last run below the upper index ends exactly there. */
  lemma LastRunEndsAtHi(db: seq<Pair>, b: Bounds)
    requires Sorted(db) && Hi(db, b) > 0
    ensures KeyUpperBound(db, db[Hi(db, b) - 1].key) == Hi(db, b)
  {
    var hi := Hi(db, b);
    BoundsAtRunStarts(db, b);
    forall j | 0 <= j < hi ensures db[j].key <= db[hi - 1].key {
      if j < hi - 1 { assert Lt(db[j], db[hi - 1]); }
    }
    forall j | hi <= j < |db| ensures db[j].key > db[hi - 1].key {
      if j > hi { assert Lt(db[hi], db[j]); }
    }
    KeyUpperBoundIs(db, db[hi - 1].key, hi);
  }

  /** From just past `Lo`, a forward walk stays in the view exactly until `end`. */
  lemma ScanStops(db: seq<Pair>, b: Bounds, over: bool, j: nat)
    requires Sorted(db) && BoundsOk(b) && (over ==> Overreach(db, b))
    requires Lo(db, b) < j <= |db|
    ensures j < (if over then 1 else Hi(db, b)) <==> j < |db| && InView(b, db[j].key)
  {
  }

  // ---------------------------------------------------------------------
  // Reference answers for navigation inside a view
  // ---------------------------------------------------------------------

  /** `handleNavigableEntryResult`: a map answer outside the view becomes null. */
  function Admit(b: Bounds, e: Option<Pair>): (r: Option<Pair>)
    ensures r.Some? <==> e.Some? && InView(b, e.value.key)
    ensures r.Some? ==> r == e
  {
    if e.Some? && WithinRange(b, Some(e.value.key), true) then e else None
  }

  /** `r` is the least pair in the view whose key is at least `k` (null when none). */
  ghost predicate IsCeiling(db: seq<Pair>, b: Bounds, k: int, r: Option<Pair>) {
    (r.Some? <==> exists p :: p in db && p.key >= k && InView(b, p.key)) &&
    (r.Some? ==> r.value in db && r.value.key >= k && InView(b, r.value.key) &&
                 forall p :: p in db && p.key >= k && InView(b, p.key) ==> !Lt(p, r.value))
  }

  /** `r` is the least pair in the view whose key is above `k` (null when none). */
  ghost predicate IsHigher(db: seq<Pair>, b: Bounds, k: int, r: Option<Pair>) {
    (r.Some? <==> exists p :: p in db && p.key > k && InView(b, p.key)) &&
    (r.Some? ==> r.value in db && r.value.key > k && InView(b, r.value.key) &&
                 forall p :: p in db && p.key > k && InView(b, p.key) ==> !Lt(p, r.value))
  }

  /** `r` is a pair of the greatest key in the view at most `k` (null when none). */
  ghost predicate IsFloor(db: seq<Pair>, b: Bounds, k: int, r: Option<Pair>) {
    (r.Some? <==> exists p :: p in db && p.key <= k && InView(b, p.key)) &&
    (r.Some? ==> r.value in db && r.value.key <= k && InView(b, r.value.key) &&
                 forall p :: p in db && p.key <= k && InView(b, p.key) ==> p.key <= r.value.key)
  }

  /** `r` is a pair of the greatest key in the view below `k` (null when none). */
  ghost predicate IsLower(db: seq<Pair>, b: Bounds, k: int, r: Option<Pair>) {
    (r.Some? <==> exists p :: p in db && p.key < k && InView(b, p.key)) &&
    (r.Some? ==> r.value in db && r.value.key < k && InView(b, r.value.key) &&
                 forall p :: p in db && p.key < k && InView(b, p.key) ==> p.key <= r.value.key)
  }

  /** `r` is the least pair in the view (null when the view is empty). */
  ghost predicate IsFirst(db: seq<Pair>, b: Bounds, r: Option<Pair>) {
    (r.Some? <==> exists p :: p in db && InView(b, p.key)) &&
    (r.Some? ==> r.value in db && InView(b, r.value.key) &&
                 forall p :: p in db && InView(b, p.key) ==> !Lt(p, r.value))
  }

  /** `r` is a pair of the greatest key in the view (null when the view is empty). */
  ghost predicate IsLast(db: seq<Pair>, b: Bounds, r: Option<Pair>) {
    (r.Some? <==> exists p :: p in db && InView(b, p.key)) &&
    (r.Some? ==> r.value in db && InView(b, r.value.key) &&
                 forall p :: p in db && InView(b, p.key) ==> p.key <= r.value.key)
  }

  /** The map's floor of a key the view admits, filtered, is the view's floor. */
  lemma FloorInView(db: seq<Pair>, b: Bounds, a: int, e: Option<Pair>)
    requires BoundsOk(b) && InView(b, a)
    requires e.Some? <==> exists p :: p in db && p.key <= a
    requires e.Some? ==> e.value in db && e.value.key <= a && forall p :: p in db && p.key <= a ==> p.key <= e.value.key
    ensures IsFloor(db, b, a, Admit(b, e))
  {
    if e.Some? && !InView(b, e.value.key) {
      forall p | p in db && p.key <= a ensures !InView(b, p.key) {
        assert p.key <= e.value.key;
      }
    }
  }

  /** Below an excluded upper bound, the map's lower entry, filtered, is the view's floor. */
  lemma LowerAtExcludedTo(db: seq<Pair>, b: Bounds, a: int, e: Option<Pair>)
    requires BoundsOk(b) && InSpan(b, a) && b.to == Some(a) && !b.toInc
    requires e.Some? <==> exists p :: p in db && p.key < a
    requires e.Some? ==> e.value in db && e.value.key < a && forall p :: p in db && p.key < a ==> p.key <= e.value.key
    ensures IsFloor(db, b, a, Admit(b, e))
  {
    if e.Some? && !InView(b, e.value.key) {
      forall p | p in db && p.key <= a ensures !InView(b, p.key) {
        if p.key < a { assert p.key <= e.value.key; }
      }
    }
  }

  /** The least pair clearing the lower bound, filtered, is the view's first pair. */
  lemma FirstInView(db: seq<Pair>, b: Bounds, e: Option<Pair>)
    requires e.Some? <==> exists p :: p in db && AboveFrom(b, p.key)
    requires e.Some? ==> e.value in db && AboveFrom(b, e.value.key) &&
                         forall p :: p in db && AboveFrom(b, p.key) ==> !Lt(p, e.value)
    ensures IsFirst(db, b, Admit(b, e))
  {
    if e.Some? && !InView(b, e.value.key) {
      forall p | p in db ensures !InView(b, p.key) {
        if AboveFrom(b, p.key) {
          assert !Lt(p, e.value);
        }
      }
    }
  }

  /** A pair of the greatest key clearing the upper bound, filtered, is the view's last pair. */
  lemma LastInView(db: seq<Pair>, b: Bounds, e: Option<Pair>)
    requires e.Some? <==> exists p :: p in db && BelowTo(b, p.key)
    requires e.Some? ==> e.value in db && BelowTo(b, e.value.key) &&
                         forall p :: p in db && BelowTo(b, p.key) ==> p.key <= e.value.key
    ensures IsLast(db, b, Admit(b, e))
  {
    if e.Some? && !InView(b, e.value.key) {
      forall p | p in db ensures !InView(b, p.key) {
        if BelowTo(b, p.key) {
          assert p.key <= e.value.key;
        }
      }
    }
  }

  /** The length of the longest prefix of `entries` whose keys the view admits. */
  function InViewPrefix(b: Bounds, entries: seq<Pair>): (n: nat)
    ensures n <= |entries|
    ensures forall j :: 0 <= j < n ==> InView(b, entries[j].key)
    ensures n < |entries| ==> !InView(b, entries[n].key)
    decreases |entries|
  {
    if entries == [] || !WithinRange(b, Some(entries[0].key), true) then 0
    else 1 + InViewPrefix(b, entries[1..])
  }

  /** Only one length meets `InViewPrefix`'s contract. */
  lemma InViewPrefixIs(b: Bounds, entries: seq<Pair>, n: nat)
    requires n <= |entries|
    requires forall j :: 0 <= j < n ==> InView(b, entries[j].key)
    requires n < |entries| ==> !InView(b, entries[n].key)
    ensures InViewPrefix(b, entries) == n
  {
    var m := InViewPrefix(b, entries);
  }

  /** With no lower bound, the store's first pair is the view's first whenever the view holds any. */
  lemma HeadIsFirst(db: seq<Pair>, b: Bounds)
    requires Sorted(db) && b.from.None? && |db| > 0
    requires exists p :: p in db && InView(b, p.key)
    ensures IsFirst(db, b, Some(db[0]))
    ensures db[0] !in db[1..]
  {
    var p :| p in db && InView(b, p.key);
    var i :| 0 <= i < |db| && db[i] == p;
    assert i == 0 || Lt(db[0], db[i]);
    forall q | q in db ensures !Lt(q, db[0]) {
      var j :| 0 <= j < |db| && db[j] == q;
      assert j == 0 || Lt(db[0], db[j]);
    }
    forall j | 0 <= j < |db| - 1 ensures db[1..][j] != db[0] {
      assert Lt(db[0], db[j + 1]);
    }
  }

  /** With no upper bound, the store's last pair is the view's last whenever the view holds any. */
  lemma TailIsLast(db: seq<Pair>, b: Bounds)
    requires Sorted(db) && b.to.None? && |db| > 0
    requires exists p :: p in db && InView(b, p.key)
    ensures IsLast(db, b, Some(db[|db| - 1]))
    ensures db[|db| - 1] !in db[..|db| - 1]
  {
    var n := |db|;
    var p :| p in db && InView(b, p.key);
    var i :| 0 <= i < n && db[i] == p;
    assert i == n - 1 || Lt(db[i], db[n - 1]);
    forall q | q in db ensures q.key <= db[n - 1].key {
      var j :| 0 <= j < n && db[j] == q;
      assert j == n - 1 || Lt(db[j], db[n - 1]);
    }
    var front := db[..n - 1];
    forall j | 0 <= j < |front| ensures front[j] != db[n - 1] {
      assert Lt(db[j], db[n - 1]);
    }
  }

  /**
   * One `nextKey()` of a view cursor at a run start `u`: it moves to the next
   * run, which the view admits exactly when it starts below the upper index.
   */
  lemma NextRunStep(db: seq<Pair>, b: Bounds, u: nat)
    requires Sorted(db) && BoundsOk(b) && u < |db| && RunStart(db, u)
    requires Lo(db, b) <= u && (u < Hi(db, b) || (Overreach(db, b) && u == 0))
    ensures var e := KeyUpperBound(db, db[u].key);
      u < e <= |db| && RunStart(db, e) &&
      |Keys(db[..e])| == |Keys(db[..u])| + 1 &&
      (e < |db| && InView(b, db[e].key) <==> e < Hi(db, b)) &&
      (!Overreach(db, b) ==> e <= Hi(db, b))
  {
    KeysStep(db, u);
    var e := KeyUpperBound(db, db[u].key);
    if u < Hi(db, b) {
      RunInside(db, b, u);
      if e < |db| {
        assert AboveFrom(b, db[e].key) by { assert Lo(db, b) <= e; }
      }
    }
  }

  /**
   * The state of a key count over a view: `c` runs counted from the view's
   * lowest index up to the run start `u`, and `more` when the cursor still
   * stands on a key it answered. `over` is the overreaching walk, which
   * answers the store's first key although the view holds none.
   */
  ghost predicate KeyWalk(db: seq<Pair>, b: Bounds, over: bool, u: nat, c: nat, more: bool)
    requires Sorted(db) && BoundsOk(b)
  {
    Lo(db, b) <= u <= |db| && RunStart(db, u) &&
    |Keys(db[..u])| == |Keys(db[..Lo(db, b)])| + c &&
    (more ==> u < |db| && (u < Hi(db, b) || (over && u == 0))) &&
    (!over ==> u <= Hi(db, b) && (!more ==> u == Hi(db, b))) &&
    (over ==> Overreach(db, b) && ((c == 0 && u == 0 && more) || (c == 1 && !more)))
  }

  lemma KeyWalkStart(db: seq<Pair>, b: Bounds, over: bool)
    requires Sorted(db) && BoundsOk(b) && (over ==> Overreach(db, b))
    ensures KeyWalk(db, b, over, Lo(db, b), 0, Lo(db, b) < (if over then 1 else Hi(db, b)))
  {
    LoBelowHi(db, b);
    BoundsAtRunStarts(db, b);
  }

  /** A step of the walk is the `nextKey()` of `NextRunStep`. */
  lemma KeyWalkStep(db: seq<Pair>, b: Bounds, over: bool, u: nat, c: nat)
    requires Sorted(db) && BoundsOk(b) && KeyWalk(db, b, over, u, c, true)
    ensures var e := KeyUpperBound(db, db[u].key);
      KeyWalk(db, b, over, e, c + 1, e < |db| && InView(b, db[e].key))
  {
    NextRunStep(db, b, u);
  }

  /** A finished walk has counted the view's keys, or the one key it overreached to. */
  lemma KeyWalkEnd(db: seq<Pair>, b: Bounds, over: bool, u: nat, c: nat)
    requires Sorted(db) && BoundsOk(b) && KeyWalk(db, b, over, u, c, false)
    ensures c == if over then 1 else |Keys(Entries(db, b))|
  {
    if !over {
      BoundsAtRunStarts(db, b);
      KeysSplit(db, Lo(db, b), Hi(db, b));
    }
  }

  /** The view's pairs are the store's pairs between its two indices. */
  lemma EntriesByIndex(db: seq<Pair>, b: Bounds)
    requires Sorted(db) && BoundsOk(b)
    ensures forall p :: p in Entries(db, b) <==> exists j :: Lo(db, b) <= j < Hi(db, b) && db[j] == p
  {
    LoBelowHi(db, b);
    assert Entries(db, b) == db[Lo(db, b)..Hi(db, b)];
    SliceMembers(db, Lo(db, b), Hi(db, b));
  }

  /** The members of a slice are the elements at its indices. */
  lemma SliceMembers(s: seq<Pair>, lo: nat, hi: nat)
    requires lo <= hi <= |s|
    ensures forall p :: p in s[lo..hi] <==> exists j :: lo <= j < hi && s[j] == p
  {
    forall p | p in s[lo..hi] ensures exists j :: lo <= j < hi && s[j] == p {
      var t :| 0 <= t < hi - lo && s[lo..hi][t] == p;
      assert s[lo + t] == p;
    }
    forall j | lo <= j < hi ensures s[j] in s[lo..hi] {
      assert s[lo..hi][j - lo] == s[j];
    }
  }

  /**
   * Admitting the store's pair just below the view's upper index (or
   * nothing, when the view is empty) yields the view's last pair.
   */
  lemma LastEntryAtHi(db: seq<Pair>, b: Bounds, x: Option<Pair>)
    requires Sorted(db) && BoundsOk(b)
    requires x == None || (Hi(db, b) > 0 && x == Some(db[Hi(db, b) - 1]))
    requires Lo(db, b) < Hi(db, b) ==> x.Some?
    ensures var r := Entries(db, b); Admit(b, x) == if |r| > 0 then Some(r[|r| - 1]) else None
  {
    LoBelowHi(db, b);
    var r := Entries(db, b);
    assert r == db[Lo(db, b)..Hi(db, b)];
    if x.Some? {
      var hi := Hi(db, b);
      assert BelowTo(b, db[hi - 1].key);
      assert AboveFrom(b, db[hi - 1].key) <==> Lo(db, b) <= hi - 1;
    }
  }
}
