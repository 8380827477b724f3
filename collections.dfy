// The collection views of a map (LMDBKeySet, LMDBEntrySet,
// LMDBValuesCollection) and the array copies that they and the multiset
// (LMDBMultiSetInternal) make. A view holds its map and forwards to it; what
// it adds is its own loops: containsAll, removeAll and toArray.

module Collections {
  import opened Common
  import opened Store
  import Maps
  import MultiSets
  import Environment
  import opened Iteration

  // ---------------------------------------------------------------------
  // toArray: the walk of an iterator copied into an array
  // ---------------------------------------------------------------------

  /** An array of `n` slots holding `items` from slot 0, and null past their end. */
  function Padded(items: seq<Item>, n: nat): (r: seq<Option<Item>>)
    ensures |r| == n
  {
    seq(n, i requires 0 <= i < n => if i < |items| then Some(items[i]) else None)
  }

  /** What a caller reads back from an array: its elements up to the first null. */
  function Filled(s: seq<Option<Item>>): (r: seq<Item>)
    ensures |r| <= |s|
  {
    if s == [] || s[0].None? then [] else [s[0].value] + Filled(s[1..])
  }

  /** Reading back an array filled from `items` gives the items that fitted. */
  lemma {:induction false} FilledPadded(items: seq<Item>, n: nat)
    ensures Filled(Padded(items, n)) == items[..if n < |items| then n else |items|]
  {
    if n > 0 && items != [] {
      assert Padded(items, n)[1..] == Padded(items[1..], n - 1);
      FilledPadded(items[1..], n - 1);
      var m := if n < |items| then n else |items|;
      assert items[..m] == [items[0]] + items[1..][..m - 1];
    }
  }

  /**
   * `toArray()` once `size()` is known: `new Object[size]`, then the walk's
   * elements into slots 0, 1, ... while `hasNext()`. A negative size, or
   * more elements than slots, throws.
   */
  method NewArray(items: seq<Item>, size: int) returns (r: Outcome<array<Option<Item>>>)
    ensures r.Fail? <==> size < 0 || size < |items|
    ensures r.Fail? ==> r.error == if size < 0 then NegativeArraySize else IndexOutOfBounds
    ensures r.Ok? ==> fresh(r.value) && r.value[..] == Padded(items, size)
  {
    if size < 0 {
      return Fail(NegativeArraySize);
    }
    var arr := new Option<Item>[size](_ => None);
    var i := 0;
    while i < |items|
      invariant 0 <= i <= |items| && i <= size
      invariant forall j :: 0 <= j < size ==> arr[j] == if j < i then Some(items[j]) else None
    {
      if i == arr.Length {
        return Fail(IndexOutOfBounds);
      }
      arr[i] := Some(items[i]);
      i := i + 1;
    }
    r := Ok(arr);
  }

  /**
   * `toArray(a)` once `size()` is known: `a` itself when it has room for
   * `size` elements, otherwise a new array of `size` slots; each slot then
   * takes the next element, or null once the walk has ended.
   */
  method FillArray(a: array<Option<Item>>, items: seq<Item>, size: int) returns (r: array<Option<Item>>)
    modifies a
    ensures a.Length >= size ==> r == a
    ensures a.Length < size ==> fresh(r) && r.Length == size && unchanged(a)
    ensures r[..] == Padded(items, r.Length)
  {
    r := a;
    if a.Length < size {
      r := new Option<Item>[size](_ => None);
    }
    for i := 0 to r.Length
      invariant a.Length >= size ==> r == a
      invariant a.Length < size ==> fresh(r) && r.Length == size && unchanged(a)
      invariant forall j :: 0 <= j < i ==> r[j] == if j < |items| then Some(items[j]) else None
    {
      if i >= |items| {
        r[i] := None;
      } else {
        r[i] := Some(items[i]);
      }
    }
  }

  /** The number an element is ordered by: an entry's key, a key, or a value. */
  function Payload(x: Item): int {
    match x
    case Entry(p) => p.key
    case Key(k) => k
    case Value(v) => v
  }

  ghost function PayloadSet(items: seq<Item>): set<int> {
    set x | x in items :: Payload(x)
  }

  /** A strictly ascending walk meets each number once: it is as long as the set of them. */
  lemma {:induction false} AscendingCount(items: seq<Item>)
    requires forall i, j :: 0 <= i < j < |items| ==> Payload(items[i]) < Payload(items[j])
    ensures |PayloadSet(items)| == |items|
  {
    if items != [] {
      var n := |items| - 1;
      var init := items[..n];
      AscendingCount(init);
      var last := Payload(items[n]);
      forall x | x in PayloadSet(items) ensures x in PayloadSet(init) + {last} {
        var y :| y in items && Payload(y) == x;
        var i :| 0 <= i < |items| && items[i] == y;
        if i < n {
          assert init[i] == y;
        }
      }
      forall x | x in PayloadSet(init) ensures x in PayloadSet(items) && x < last {
        var y :| y in init && Payload(y) == x;
        var i :| 0 <= i < n && init[i] == y;
        assert items[i] == y;
      }
      assert PayloadSet(items) == PayloadSet(init) + {last};
    }
  }

  /** A key walk that is ascending and meets exactly the keys of `db` is as long as the key set. */
  lemma KeyWalkCount(db: seq<Pair>, items: seq<Item>)
    requires AscendingKeys(items)
    requires forall k :: Key(k) in items <==> HasKey(db, k)
    ensures |items| == |Store.Keys(db)|
  {
    AscendingCount(items);
    KeySetIsHasKey(db);
    forall k | k in PayloadSet(items) ensures k in Store.Keys(db) {
      var y :| y in items && Payload(y) == k;
      var i :| 0 <= i < |items| && items[i] == y;
      assert items[i].Key?;
    }
    forall k | k in Store.Keys(db) ensures k in PayloadSet(items) {
      assert Key(k) in items && Payload(Key(k)) == k;
    }
    assert PayloadSet(items) == Store.Keys(db);
  }

  /** A map's values, or its keys, are none exactly when it holds no pair. */
  lemma NoPairNoKey(db: seq<Pair>)
    ensures db == [] <==> Store.Keys(db) == {}
  {
    if db != [] {
      assert db[0].key in Store.Keys(db);
    }
  }

  /** The key of an entry the map answered. */
  function KeyOf(e: Option<Pair>): (r: Option<int>)
    ensures r.Some? <==> e.Some?
    ensures r.Some? ==> r.value == e.value.key
  {
    if e.Some? then Some(e.value.key) else None
  }

  /**
   * `lmdbIterator()` of a view over `m`: a read-only transaction, a cursor
   * on it and an adapter of `kind` over the cursor.
   */
  method OpenIterator(m: Maps.MapImpl, kind: Kind) returns (it: Iterator)
    requires m.Valid()
    ensures fresh(it) && fresh(it.adapter) && it.Valid() && it.head.None? && it.first && !it.closed
    ensures it.adapter.cur != null && fresh(it.adapter.cur) && fresh(it.adapter.cur.txn)
    ensures it.adapter.cur.db == m.db && it.adapter.cur.pos == Unset
    ensures it.adapter.kind == kind && !it.adapter.rev && it.adapter.readOnly
  {
    var c := m.OpenCursor();
    var a := new Adapter(c, kind);
    it := new Iterator(a);
  }

  /** The whole map walked by an iterator of `kind` (entries or values): its pairs in order. */
  method WalkAll(m: Maps.MapImpl, kind: Kind) returns (items: seq<Item>)
    requires m.Valid() && (kind == Entries || kind == Iteration.Values)
    ensures items == ProjectAll(kind, m.db)
  {
    var it := OpenIterator(m, kind);
    items := Drain(it, 0, |m.db|);
  }

  /** The keys of `db` removed one after another. */
  function RemoveKeys(db: seq<Pair>, ks: seq<int>): (r: seq<Pair>)
    requires Sorted(db)
    ensures Sorted(r)
    ensures forall q :: q in r <==> q in db && q.key !in ks
    ensures UniqueKeys(db) ==> UniqueKeys(r)
    decreases |ks|
  {
    if ks == [] then db
    else
      var init := ks[..|ks| - 1];
      assert ks == init + [ks[|ks| - 1]];
      RemoveKey(RemoveKeys(db, init), ks[|ks| - 1])
  }

  /** After removing the keys `ks`, a key is present exactly when it was and is not among them. */
  lemma HasKeyAfterRemoveKeys(db: seq<Pair>, ks: seq<int>, k: int)
    requires Sorted(db)
    ensures HasKey(RemoveKeys(db, ks), k) <==> HasKey(db, k) && k !in ks
  {
    var r := RemoveKeys(db, ks);
    if HasKey(r, k) {
      var i :| 0 <= i < |r| && r[i].key == k;
      assert r[i] in r;
    }
    if HasKey(db, k) && k !in ks {
      var i :| 0 <= i < |db| && db[i].key == k;
      assert db[i] in r;
    }
  }

  /** Some key among the first `i` of `ks` is in `db`. */
  ghost predicate AnyPresent(db: seq<Pair>, ks: seq<int>, i: nat)
    requires i <= |ks|
  {
    exists j :: 0 <= j < i && HasKey(db, ks[j])
  }

  /** Removing one more key is one more `RemoveKey` on the result so far. */
  lemma RemoveKeysSnoc(db: seq<Pair>, ks: seq<int>, i: nat)
    requires Sorted(db) && i < |ks|
    ensures RemoveKeys(db, ks[..i + 1]) == RemoveKey(RemoveKeys(db, ks[..i]), ks[i])
  {
    assert ks[..i + 1][..i] == ks[..i];
  }

  /** A key among the first `i + 1` is present exactly when an earlier one is, or `ks[i]` is present and new. */
  lemma AnyPresentSnoc(db: seq<Pair>, ks: seq<int>, i: nat)
    requires i < |ks|
    ensures AnyPresent(db, ks, i + 1) <==> AnyPresent(db, ks, i) || (HasKey(db, ks[i]) && ks[i] !in ks[..i])
  {
    if HasKey(db, ks[i]) && ks[i] in ks[..i] {
      var j :| 0 <= j < i && ks[..i][j] == ks[i];
      assert HasKey(db, ks[j]);
    }
    if AnyPresent(db, ks, i + 1) && !AnyPresent(db, ks, i) {
      var j :| 0 <= j < i + 1 && HasKey(db, ks[j]);
      assert j == i;
    }
    if AnyPresent(db, ks, i) {
      var j :| 0 <= j < i && HasKey(db, ks[j]);
      assert 0 <= j < i + 1;
    }
    if HasKey(db, ks[i]) {
      assert 0 <= i < i + 1;
    }
  }

  /** A key among the first `i + 1` is present exactly when an earlier one is or `ks[i]` survives the earlier removals. */
  lemma AnyPresentStep(db: seq<Pair>, ks: seq<int>, i: nat)
    requires Sorted(db) && i < |ks|
    ensures AnyPresent(db, ks, i + 1) <==> AnyPresent(db, ks, i) || HasKey(RemoveKeys(db, ks[..i]), ks[i])
  {
    HasKeyAfterRemoveKeys(db, ks[..i], ks[i]);
    AnyPresentSnoc(db, ks, i);
  }

  /**
   * One round of `removeAll`: the next removal finds its key exactly when
   * the key was there and has not been removed already.
   */
  lemma RemoveAllStep(db: seq<Pair>, ks: seq<int>, i: nat)
    requires Sorted(db) && i < |ks|
    ensures AnyPresent(db, ks, i + 1) <==> AnyPresent(db, ks, i) || HasKey(RemoveKeys(db, ks[..i]), ks[i])
    ensures RemoveKeys(db, ks[..i + 1]) == RemoveKey(RemoveKeys(db, ks[..i]), ks[i])
  {
    AnyPresentStep(db, ks, i);
    RemoveKeysSnoc(db, ks, i);
  }

  // ---------------------------------------------------------------------
  // LMDBKeySet
  // ---------------------------------------------------------------------

  /** `map.keySet()`: the keys of a map, each once, in ascending order. */
  class KeySet {
    const base: Maps.MapImpl

    ghost predicate Valid()
      reads this, base
    {
      base.Valid()
    }

    constructor (m: Maps.MapImpl)
      requires m.Valid()
      ensures Valid() && base == m
    {
      base := m;
    }

    /** `add(k)`: the key set does not grow on its own. */
    function Add(k: int): (r: Outcome<bool>)
      ensures r == Fail(Unsupported)
    {
      Fail(Unsupported)
    }

    /** `addAll(ks)`: refused like `add`. */
    function AddAll(ks: seq<int>): (r: Outcome<bool>)
      ensures r == Fail(Unsupported)
    {
      Fail(Unsupported)
    }

    /** `retainAll(ks)`: not supported. */
    function RetainAll(ks: seq<int>): (r: Outcome<bool>)
      ensures r == Fail(Unsupported)
    {
      Fail(Unsupported)
    }

    /** `ceiling(k)`: the map's `ceilingKey(k)`, the least key at least `k`. */
    method Ceiling(k: int) returns (r: Option<int>)
      requires Valid()
      ensures r.Some? <==> exists p :: p in base.db && p.key >= k
      ensures r.Some? ==> HasKey(base.db, r.value) && r.value >= k
      ensures r.Some? ==> forall p :: p in base.db && p.key >= k ==> r.value <= p.key
    {
      var e := base.CeilingEntry(k);
      r := KeyOf(e);
    }

    /** `higher(k)`: the map's `higherKey(k)`, the least key above `k`. */
    method Higher(k: int) returns (r: Option<int>)
      requires Valid()
      ensures r.Some? <==> exists p :: p in base.db && p.key > k
      ensures r.Some? ==> HasKey(base.db, r.value) && r.value > k
      ensures r.Some? ==> forall p :: p in base.db && p.key > k ==> r.value <= p.key
    {
      var e := base.HigherEntry(k);
      r := KeyOf(e);
    }

    /**
     * `floor(k)`: the map's `floorKey(k)`, the greatest key at most `k`, as
     * written null when no key is at least `k`.
     */
    method Floor(k: int) returns (r: Option<int>)
      requires Valid()
      ensures r.Some? <==> KeyAtLeast(base.db, k) && exists p :: p in base.db && p.key <= k
      ensures r.Some? ==> HasKey(base.db, r.value) && r.value <= k
      ensures r.Some? ==> forall p :: p in base.db && p.key <= k ==> p.key <= r.value
    {
      var e := base.FloorEntry(k);
      r := KeyOf(e);
    }

    /**
     * `lower(k)`: the map's `lowerKey(k)`, the greatest key below `k`, as
     * written null when no key is at least `k`.
     */
    method Lower(k: int) returns (r: Option<int>)
      requires Valid()
      ensures r.Some? <==> KeyAtLeast(base.db, k) && exists p :: p in base.db && p.key < k
      ensures r.Some? ==> HasKey(base.db, r.value) && r.value < k
      ensures r.Some? ==> forall p :: p in base.db && p.key < k ==> p.key <= r.value
    {
      var e := base.LowerEntry(k);
      r := KeyOf(e);
    }

    /** `floor(k)` on the map's corrected floor: the greatest key at most `k`. */
    method FloorFixed(k: int) returns (r: Option<int>)
      requires Valid()
      ensures r.Some? <==> exists p :: p in base.db && p.key <= k
      ensures r.Some? ==> HasKey(base.db, r.value) && r.value <= k
      ensures r.Some? ==> forall p :: p in base.db && p.key <= k ==> p.key <= r.value
    {
      var e := base.FloorEntryFixed(k);
      r := KeyOf(e);
    }

    /** `lower(k)` on the map's corrected lower: the greatest key below `k`. */
    method LowerFixed(k: int) returns (r: Option<int>)
      requires Valid()
      ensures r.Some? <==> exists p :: p in base.db && p.key < k
      ensures r.Some? ==> HasKey(base.db, r.value) && r.value < k
      ensures r.Some? ==> forall p :: p in base.db && p.key < k ==> p.key <= r.value
    {
      var e := base.LowerEntryFixed(k);
      r := KeyOf(e);
    }

    /** `first()`: the map's `firstKey()`, the least key; null (not an exception) when empty. */
    method First() returns (r: Option<int>)
      requires Valid()
      ensures r.None? <==> base.db == []
      ensures r.Some? ==> HasKey(base.db, r.value) && forall p :: p in base.db ==> r.value <= p.key
    {
      var e := base.FirstEntry();
      r := KeyOf(e);
    }

    /** `last()`: the map's `lastKey()`, the greatest key; null when empty. */
    method Last() returns (r: Option<int>)
      requires Valid()
      ensures r.None? <==> base.db == []
      ensures r.Some? ==> HasKey(base.db, r.value) && forall p :: p in base.db ==> p.key <= r.value
    {
      var e := base.LastEntry();
      r := KeyOf(e);
    }

    /** `clear()`: clears the map. */
    method Clear()
      requires Valid()
      modifies base
      ensures Valid() && Store.Keys(base.db) == {}
    {
      base.Clear();
    }

    /** `contains(k)`: the map's `containsKey(k)`. */
    function Contains(k: int): (r: bool)
      reads this, base
      ensures r <==> k in Store.Keys(base.db)
    {
      KeySetIsHasKey(base.db);
      base.ContainsKey(k)
    }

    /** `containsAll(ks)`: false at the first key the map lacks. */
    method ContainsAll(ks: seq<int>) returns (r: bool)
      requires Valid()
      ensures r <==> forall i :: 0 <= i < |ks| ==> ks[i] in Store.Keys(base.db)
    {
      for i := 0 to |ks|
        invariant forall j :: 0 <= j < i ==> ks[j] in Store.Keys(base.db)
      {
        if !Contains(ks[i]) {
          return false;
        }
      }
      return true;
    }

    /** `isEmpty()`: the map's `isEmpty()`, which throws where `size()` does. */
    function IsEmpty(): (r: Outcome<bool>)
      reads this, base
      ensures r.Ok? <==> |base.db| <= INT_MAX
      ensures r.Ok? ==> (r.value <==> Store.Keys(base.db) == {})
    {
      NoPairNoKey(base.db);
      base.IsEmpty()
    }

    /** `remove(k)`: the map's `remove(k)`; true when it returned a previous value. */
    method Remove(k: int) returns (r: bool)
      requires Valid()
      modifies base
      ensures Valid()
      ensures r <==> HasKey(old(base.db), k)
      ensures base.db == RemoveKey(old(base.db), k)
    {
      var prev := base.Remove(k);
      r := prev.Some?;
    }

    /** `removeAll(ks)`: removes each key; true when any removal found its key. */
    method RemoveAll(ks: seq<int>) returns (changed: bool)
      requires Valid()
      modifies base
      ensures Valid()
      ensures changed <==> exists i :: 0 <= i < |ks| && HasKey(old(base.db), ks[i])
      ensures base.db == RemoveKeys(old(base.db), ks)
    {
      ghost var db0 := base.db;
      changed := false;
      var i := 0;
      while i < |ks|
        invariant 0 <= i <= |ks| && Valid()
        invariant base.db == RemoveKeys(db0, ks[..i])
        invariant changed <==> AnyPresent(db0, ks, i)
      {
        RemoveAllStep(db0, ks, i);
        var removed := Remove(ks[i]);
        if removed {
          changed := true;
        }
        i := i + 1;
      }
      assert ks[..i] == ks;
    }

    /** `pollFirst()` as written: the map's `pollFirstKey()`, which deletes the first pair only. */
    method PollFirst() returns (r: Option<int>)
      requires Valid()
      modifies base
      ensures Valid()
      ensures r.None? <==> old(base.db) == []
      ensures r.Some? ==> r.value == old(base.db)[0].key && base.db == old(base.db)[1..]
      ensures r.None? ==> base.db == old(base.db)
    {
      var e := base.PollFirstEntry();
      r := KeyOf(e);
    }

    /** `pollLast()` as written: the map's `pollLastKey()`, which deletes the last pair only. */
    method PollLast() returns (r: Option<int>)
      requires Valid()
      modifies base
      ensures Valid()
      ensures r.None? <==> old(base.db) == []
      ensures r.Some? ==> r.value == old(base.db)[|old(base.db)| - 1].key && base.db == old(base.db)[..|old(base.db)| - 1]
      ensures r.None? ==> base.db == old(base.db)
    {
      var e := base.PollLastEntry();
      r := KeyOf(e);
    }

    /** `pollFirst()` corrected: the least key, removed with all its values. */
    method PollFirstFixed() returns (r: Option<int>)
      requires Valid()
      modifies base
      ensures Valid()
      ensures r.None? <==> old(base.db) == []
      ensures r.Some? ==> r.value in Store.Keys(old(base.db)) && forall p :: p in old(base.db) ==> r.value <= p.key
      ensures r.Some? ==> Store.Keys(base.db) == Store.Keys(old(base.db)) - {r.value}
      ensures r.None? ==> base.db == old(base.db)
    {
      var e := base.FirstEntry();
      r := KeyOf(e);
      if r.Some? {
        var _ := base.RemoveNoPrev(r.value);
        RemoveKeyKeys(old(base.db), r.value);
      }
    }

    /** `pollLast()` corrected: the greatest key, removed with all its values. */
    method PollLastFixed() returns (r: Option<int>)
      requires Valid()
      modifies base
      ensures Valid()
      ensures r.None? <==> old(base.db) == []
      ensures r.Some? ==> r.value in Store.Keys(old(base.db)) && forall p :: p in old(base.db) ==> p.key <= r.value
      ensures r.Some? ==> Store.Keys(base.db) == Store.Keys(old(base.db)) - {r.value}
      ensures r.None? ==> base.db == old(base.db)
    {
      var e := base.LastEntry();
      r := KeyOf(e);
      if r.Some? {
        var _ := base.RemoveNoPrev(r.value);
        RemoveKeyKeys(old(base.db), r.value);
      }
    }

    /** `sizeLong()`: the map's `keyCount()`. */
    method SizeLong() returns (n: nat)
      requires Valid()
      ensures n == |Store.Keys(base.db)|
    {
      n := base.KeyCount();
    }

    /** `size()`: `(int) keyCount()`, a narrowing that wraps instead of throwing. */
    method Size() returns (n: int)
      requires Valid()
      ensures n == NarrowToInt(|Store.Keys(base.db)|)
      ensures |Store.Keys(base.db)| <= INT_MAX ==> n == |Store.Keys(base.db)|
    {
      var count := base.KeyCount();
      n := NarrowToInt(count);
    }

    /** `iterator()` and `lmdbIterator()`: a forward key iterator over the map. */
    method LmdbIterator() returns (it: Iterator)
      requires Valid()
      ensures fresh(it) && fresh(it.adapter) && it.Valid() && it.head.None? && it.first && !it.closed
      ensures it.adapter.cur != null && fresh(it.adapter.cur) && fresh(it.adapter.cur.txn)
      ensures it.adapter.cur.db == base.db && it.adapter.kind == Iteration.Keys && !it.adapter.rev
    {
      it := OpenIterator(base, Iteration.Keys);
    }

    /**
     * `toArray()`: the keys in ascending order, each once, in an array of
     * `size()` slots. Past `Integer.MAX_VALUE` keys the narrowed size is
     * negative or too small, and the copy throws.
     */
    method ToArray() returns (r: Outcome<array<Option<Item>>>, ghost items: seq<Item>)
      requires Valid()
      ensures AscendingKeys(items) && forall k :: Key(k) in items <==> k in Store.Keys(base.db)
      ensures |items| == |Store.Keys(base.db)|
      ensures r.Ok? <==> |Store.Keys(base.db)| <= INT_MAX
      ensures r.Ok? ==> fresh(r.value) && r.value[..] == Padded(items, |items|)
    {
      var size := Size();
      var it := LmdbIterator();
      var walked := DrainKeys(it);
      KeyWalkCount(base.db, walked);
      KeySetIsHasKey(base.db);
      r := NewArray(walked, size);
      items := walked;
    }

    /** `toArray(a)`: the keys in ascending order, in `a` when it has room, null after the last. */
    method ToArrayInto(a: array<Option<Item>>) returns (r: array<Option<Item>>, ghost items: seq<Item>)
      requires Valid()
      modifies a
      ensures AscendingKeys(items) && forall k :: Key(k) in items <==> k in Store.Keys(base.db)
      ensures |items| == |Store.Keys(base.db)|
      ensures a.Length >= NarrowToInt(|items|) ==> r == a
      ensures a.Length < NarrowToInt(|items|) ==> fresh(r) && r.Length == NarrowToInt(|items|) && unchanged(a)
      ensures r[..] == Padded(items, r.Length)
    {
      var size := Size();
      var it := LmdbIterator();
      var walked := DrainKeys(it);
      KeyWalkCount(base.db, walked);
      KeySetIsHasKey(base.db);
      r := FillArray(a, walked, size);
      items := walked;
    }
  }

  /** Removing a key takes exactly that key out of the key set. */
  lemma RemoveKeyKeys(db: seq<Pair>, k: int)
    requires Sorted(db)
    ensures Store.Keys(RemoveKey(db, k)) == Store.Keys(db) - {k}
  {
    var r := RemoveKey(db, k);
    forall x | x in Store.Keys(db) - {k} ensures x in Store.Keys(r) {
      var p :| p in db && p.key == x;
      assert p in r;
    }
  }

  /**
   * A duplicate map holding the pairs 1 -> 0 and 1 -> 1: `keySet().pollFirst()`
   * returns 1, yet the key set still contains 1.
   */
  method PollFirstKeepsKeyScenario() returns (polled: Option<int>, still: bool)
    ensures polled == Some(1) && still
  {
    var e := new Environment.Env();
    var m := new Maps.MapImpl(e, true);
    m.db := [Pair(1, 0), Pair(1, 1)];
    var ks := new KeySet(m);
    polled := ks.PollFirst();
    still := ks.Contains(1);
    assert m.db[0] == Pair(1, 1);
  }

  /** The same call on the corrected `pollFirst()` takes the key out of the set. */
  method PollFirstFixedScenario() returns (polled: Option<int>, still: bool)
    ensures polled == Some(1) && !still
  {
    var e := new Environment.Env();
    var m := new Maps.MapImpl(e, true);
    m.db := [Pair(1, 0), Pair(1, 1)];
    var ks := new KeySet(m);
    assert Store.Keys(m.db) == {1};
    polled := ks.PollFirstFixed();
    still := ks.Contains(1);
  }

  /** Over the map {1}, `keySet().lower(5)` answers null, where the corrected one answers 1. */
  method LowerKeyScenario() returns (asWritten: Option<int>, corrected: Option<int>)
    ensures asWritten == None && corrected == Some(1)
  {
    var e := new Environment.Env();
    var m := new Maps.MapImpl(e, false);
    m.PutNoPrev(1, 0);
    assert m.db == [Pair(1, 0)];
    var ks := new KeySet(m);
    asWritten := ks.Lower(5);
    corrected := ks.LowerFixed(5);
    assert Pair(1, 0) in m.db;
  }

  // ---------------------------------------------------------------------
  // LMDBEntrySet
  // ---------------------------------------------------------------------

  /** `map.entrySet()`: the pairs of a map in order. */
  class EntrySet {
    const base: Maps.MapImpl

    ghost predicate Valid()
      reads this, base
    {
      base.Valid()
    }

    constructor (m: Maps.MapImpl)
      requires m.Valid()
      ensures Valid() && base == m
    {
      base := m;
    }

    /** `add(e)`: not supported. */
    function Add(e: Pair): (r: Outcome<bool>)
      ensures r == Fail(Unsupported)
    {
      Fail(Unsupported)
    }

    /** `addAll(es)`: not supported. */
    function AddAll(es: seq<Pair>): (r: Outcome<bool>)
      ensures r == Fail(Unsupported)
    {
      Fail(Unsupported)
    }

    /** `clear()`: not supported on the entry set (the map's own `clear` is). */
    function Clear(): (r: Outcome<()>)
      ensures r == Fail(Unsupported)
    {
      Fail(Unsupported)
    }

    /** `removeAll(es)`: not supported. */
    function RemoveAll(es: seq<Pair>): (r: Outcome<bool>)
      ensures r == Fail(Unsupported)
    {
      Fail(Unsupported)
    }

    /** `retainAll(es)`: not supported. */
    function RetainAll(es: seq<Pair>): (r: Outcome<bool>)
      ensures r == Fail(Unsupported)
    {
      Fail(Unsupported)
    }

    /** `contains(e)`: the map's `contains(key, value)`. */
    method Contains(e: Pair) returns (r: bool)
      requires Valid()
      ensures r <==> e in base.db
    {
      r := base.Contains(e.key, e.val);
    }

    /** `containsAll(es)`: false at the first pair the map lacks. */
    method ContainsAll(es: seq<Pair>) returns (r: bool)
      requires Valid()
      ensures r <==> forall i :: 0 <= i < |es| ==> es[i] in base.db
    {
      for i := 0 to |es|
        invariant forall j :: 0 <= j < i ==> es[j] in base.db
      {
        var found := base.Contains(es[i].key, es[i].val);
        if !found {
          return false;
        }
      }
      return true;
    }

    /** `isEmpty()`: the map's `isEmpty()`. */
    function IsEmpty(): (r: Outcome<bool>)
      reads this, base
      ensures r.Ok? <==> |base.db| <= INT_MAX
      ensures r.Ok? ==> (r.value <==> base.db == [])
    {
      base.IsEmpty()
    }

    /** `remove(e)`: the map's `remove(key, value)`; only that exact pair goes. */
    method Remove(e: Pair) returns (r: bool)
      requires Valid()
      modifies base
      ensures Valid()
      ensures r <==> e in old(base.db)
      ensures forall q :: q in base.db <==> q in old(base.db) && q != e
    {
      r := base.RemovePair(e.key, e.val);
    }

    /** `size()`: the map's `size()`, which throws past `Integer.MAX_VALUE` pairs. */
    function Size(): (r: Outcome<int>)
      reads this, base
      ensures r.Ok? <==> |base.db| <= INT_MAX
      ensures r.Ok? ==> r.value == |base.db|
      ensures r.Fail? ==> r.error == Runtime
    {
      base.Size()
    }

    /** `iterator()` and `lmdbIterator()`: an entry iterator over the map. */
    method LmdbIterator() returns (it: Iterator)
      requires Valid()
      ensures fresh(it) && fresh(it.adapter) && it.Valid() && it.head.None? && it.first && !it.closed
      ensures it.adapter.cur != null && fresh(it.adapter.cur) && fresh(it.adapter.cur.txn)
      ensures it.adapter.cur.db == base.db && it.adapter.kind == Entries && !it.adapter.rev
    {
      it := OpenIterator(base, Entries);
    }

    /** `toArray()`: every pair, in the map's order. */
    method ToArray() returns (r: Outcome<array<Option<Item>>>)
      requires Valid()
      ensures r.Ok? <==> |base.db| <= INT_MAX
      ensures r.Fail? ==> r.error == Runtime
      ensures r.Ok? ==> fresh(r.value) && r.value[..] == Padded(ProjectAll(Entries, base.db), |base.db|)
    {
      var size := Size();
      if size.Fail? {
        return Fail(size.error);
      }
      var items := WalkAll(base, Entries);
      r := NewArray(items, size.value);
    }

    /** `toArray(a)`: every pair, in `a` when it has room, null after the last. */
    method ToArrayInto(a: array<Option<Item>>) returns (r: Outcome<array<Option<Item>>>)
      requires Valid()
      modifies a
      ensures r.Ok? <==> |base.db| <= INT_MAX
      ensures r.Fail? ==> r.error == Runtime && unchanged(a)
      ensures r.Ok? && a.Length >= |base.db| ==> r.value == a
      ensures r.Ok? && a.Length < |base.db| ==> fresh(r.value) && r.value.Length == |base.db| && unchanged(a)
      ensures r.Ok? ==> r.value[..] == Padded(ProjectAll(Entries, base.db), r.value.Length)
    {
      var size := Size();
      if size.Fail? {
        return Fail(size.error);
      }
      var items := WalkAll(base, Entries);
      var arr := FillArray(a, items, size.value);
      r := Ok(arr);
    }
  }

  // ---------------------------------------------------------------------
  // LMDBValuesCollection
  // ---------------------------------------------------------------------

  /** Some pair of `db` holds the value `v`. */
  ghost predicate HoldsValue(db: seq<Pair>, v: int) {
    exists p :: p in db && p.val == v
  }

  /** `map.values()`: the values of a map, in the order of their pairs. */
  class ValuesCollection {
    const base: Maps.MapImpl

    ghost predicate Valid()
      reads this, base
    {
      base.Valid()
    }

    constructor (m: Maps.MapImpl)
      requires m.Valid()
      ensures Valid() && base == m
    {
      base := m;
    }

    /** `add(v)`: not supported. */
    function Add(v: int): (r: Outcome<bool>)
      ensures r == Fail(Unsupported)
    {
      Fail(Unsupported)
    }

    /** `addAll(vs)`: not supported. */
    function AddAll(vs: seq<int>): (r: Outcome<bool>)
      ensures r == Fail(Unsupported)
    {
      Fail(Unsupported)
    }

    /** `clear()`: not supported. */
    function Clear(): (r: Outcome<()>)
      ensures r == Fail(Unsupported)
    {
      Fail(Unsupported)
    }

    /** `remove(v)`: not supported. */
    function Remove(v: int): (r: Outcome<bool>)
      ensures r == Fail(Unsupported)
    {
      Fail(Unsupported)
    }

    /** `removeAll(vs)`: not supported. */
    function RemoveAll(vs: seq<int>): (r: Outcome<bool>)
      ensures r == Fail(Unsupported)
    {
      Fail(Unsupported)
    }

    /** `retainAll(vs)`: not supported. */
    function RetainAll(vs: seq<int>): (r: Outcome<bool>)
      ensures r == Fail(Unsupported)
    {
      Fail(Unsupported)
    }

    /** `contains(v)`: the map's `containsValue(v)`. */
    method Contains(v: int) returns (r: bool)
      requires Valid()
      ensures r <==> HoldsValue(base.db, v)
    {
      r := base.ContainsValue(v);
    }

    /** `containsAll(vs)`: false at the first value no pair holds. */
    method ContainsAll(vs: seq<int>) returns (r: bool)
      requires Valid()
      ensures r <==> forall i :: 0 <= i < |vs| ==> HoldsValue(base.db, vs[i])
    {
      for i := 0 to |vs|
        invariant forall j :: 0 <= j < i ==> HoldsValue(base.db, vs[j])
      {
        var found := Contains(vs[i]);
        if !found {
          return false;
        }
      }
      return true;
    }

    /** `isEmpty()`: the map's `isEmpty()`. */
    function IsEmpty(): (r: Outcome<bool>)
      reads this, base
      ensures r.Ok? <==> |base.db| <= INT_MAX
      ensures r.Ok? ==> (r.value <==> base.db == [])
    {
      base.IsEmpty()
    }

    /** `size()`: the map's `size()`: one value per pair. */
    function Size(): (r: Outcome<int>)
      reads this, base
      ensures r.Ok? <==> |base.db| <= INT_MAX
      ensures r.Ok? ==> r.value == |base.db|
      ensures r.Fail? ==> r.error == Runtime
    {
      base.Size()
    }

    /** `iterator()` and `lmdbIterator()`: a value iterator over the map. */
    method LmdbIterator() returns (it: Iterator)
      requires Valid()
      ensures fresh(it) && fresh(it.adapter) && it.Valid() && it.head.None? && it.first && !it.closed
      ensures it.adapter.cur != null && fresh(it.adapter.cur) && fresh(it.adapter.cur.txn)
      ensures it.adapter.cur.db == base.db && it.adapter.kind == Iteration.Values && !it.adapter.rev
    {
      it := OpenIterator(base, Iteration.Values);
    }

    /** `toArray()`: the value of every pair, in key order. */
    method ToArray() returns (r: Outcome<array<Option<Item>>>)
      requires Valid()
      ensures r.Ok? <==> |base.db| <= INT_MAX
      ensures r.Fail? ==> r.error == Runtime
      ensures r.Ok? ==> fresh(r.value) && r.value[..] == Padded(ProjectAll(Iteration.Values, base.db), |base.db|)
    {
      var size := Size();
      if size.Fail? {
        return Fail(size.error);
      }
      var items := WalkAll(base, Iteration.Values);
      r := NewArray(items, size.value);
    }

    /** `toArray(a)`: the values in key order, in `a` when it has room, null after the last. */
    method ToArrayInto(a: array<Option<Item>>) returns (r: Outcome<array<Option<Item>>>)
      requires Valid()
      modifies a
      ensures r.Ok? <==> |base.db| <= INT_MAX
      ensures r.Fail? ==> r.error == Runtime && unchanged(a)
      ensures r.Ok? && a.Length >= |base.db| ==> r.value == a
      ensures r.Ok? && a.Length < |base.db| ==> fresh(r.value) && r.value.Length == |base.db| && unchanged(a)
      ensures r.Ok? ==> r.value[..] == Padded(ProjectAll(Iteration.Values, base.db), r.value.Length)
    {
      var size := Size();
      if size.Fail? {
        return Fail(size.error);
      }
      var items := WalkAll(base, Iteration.Values);
      var arr := FillArray(a, items, size.value);
      r := Ok(arr);
    }
  }

  // ---------------------------------------------------------------------
  // LMDBMultiSetInternal.toArray over a multiset
  // ---------------------------------------------------------------------

  /** The multiset's `lmdbIterator()` walked to the end: the run of its key, or nothing. */
  method WalkRun(s: MultiSets.MultiSetImpl) returns (items: seq<Item>)
    requires s.Valid()
    ensures var db := s.base.db;
            var lo, hi := KeyLowerBound(db, s.key), KeyUpperBound(db, s.key);
            if HasKey(db, s.key) then Span(DupValues, db, At(lo), lo, hi) && items == ProjectAll(DupValues, db[lo..hi])
            else items == []
  {
    var c := s.base.OpenCursor();
    var it := DupValuesIterator(c, s.key, false);
    if it.adapter.cur == null {
      var _ := it.HasNext();
      items := [];
    } else {
      ghost var lo, hi := KeyLowerBound(c.db, s.key), KeyUpperBound(c.db, s.key);
      items := Drain(it, lo, hi);
    }
  }

  /** The run of a key, walked, is that key's set of values: ascending, each once. */
  lemma RunIsContents(db: seq<Pair>, key: int, items: seq<Item>)
    requires Sorted(db)
    requires var lo, hi := KeyLowerBound(db, key), KeyUpperBound(db, key);
             if HasKey(db, key) then Span(DupValues, db, At(lo), lo, hi) && items == ProjectAll(DupValues, db[lo..hi])
             else items == []
    ensures forall i :: 0 <= i < |items| ==> items[i].Value?
    ensures forall i, j :: 0 <= i < j < |items| ==> Payload(items[i]) < Payload(items[j])
    ensures forall v :: Value(v) in items <==> v in MultiSets.Values(db, key)
    ensures |items| == |MultiSets.Values(db, key)|
  {
    if !HasKey(db, key) {
      assert MultiSets.Values(db, key) == {};
    } else {
      var lo, hi := KeyLowerBound(db, key), KeyUpperBound(db, key);
      HasKeyRun(db, key);
      RunMembers(db, At(lo), lo, hi);
      RunAscending(db, At(lo), lo, hi);
      AscendingCount(items);
      ValuesWalked(items, MultiSets.Values(db, key));
    }
  }

  /** A walk of values that meets exactly the set `vals` has their numbers as its payloads. */
  lemma ValuesWalked(items: seq<Item>, vals: set<int>)
    requires forall i :: 0 <= i < |items| ==> items[i].Value?
    requires forall v :: Value(v) in items <==> v in vals
    ensures PayloadSet(items) == vals
  {
    forall x | x in PayloadSet(items) ensures x in vals {
      var y :| y in items && Payload(y) == x;
      var i :| 0 <= i < |items| && items[i] == y;
    }
    forall x | x in vals ensures x in PayloadSet(items) {
      assert Value(x) in items;
    }
  }

  /** The multiset's walk: its values, ascending, each once. */
  method WalkValues(s: MultiSets.MultiSetImpl) returns (items: seq<Item>)
    requires s.Valid()
    ensures forall i :: 0 <= i < |items| ==> items[i].Value?
    ensures forall i, j :: 0 <= i < j < |items| ==> Payload(items[i]) < Payload(items[j])
    ensures forall v :: Value(v) in items <==> v in s.Contents()
    ensures |items| == |s.Contents()|
  {
    items := WalkRun(s);
    RunIsContents(s.base.db, s.key, items);
  }

  /** `toArray()` of a multiset: its values, ascending, in an array of `size()` slots. */
  method MultiSetToArray(s: MultiSets.MultiSetImpl) returns (r: Outcome<array<Option<Item>>>, ghost items: seq<Item>)
    requires s.Valid()
    ensures r.Ok? <==> |s.Contents()| <= INT_MAX
    ensures r.Fail? ==> r.error == Runtime
    ensures r.Ok? ==> forall i :: 0 <= i < |items| ==> items[i].Value?
    ensures r.Ok? ==> forall i, j :: 0 <= i < j < |items| ==> Payload(items[i]) < Payload(items[j])
    ensures r.Ok? ==> forall v :: Value(v) in items <==> v in s.Contents()
    ensures r.Ok? ==> fresh(r.value) && r.value[..] == Padded(items, |items|)
  {
    var size := s.Size();
    if size.Fail? {
      return Fail(size.error), [];
    }
    var walked := WalkValues(s);
    r := NewArray(walked, size.value);
    items := walked;
  }

  /** `toArray(a)` of a multiset: its values, ascending, in `a` when it has room, null after the last. */
  method MultiSetToArrayInto(s: MultiSets.MultiSetImpl, a: array<Option<Item>>)
    returns (r: Outcome<array<Option<Item>>>, ghost items: seq<Item>)
    requires s.Valid()
    modifies a
    ensures r.Ok? <==> |s.Contents()| <= INT_MAX
    ensures r.Fail? ==> r.error == Runtime && unchanged(a)
    ensures r.Ok? ==> forall i :: 0 <= i < |items| ==> items[i].Value?
    ensures r.Ok? ==> forall i, j :: 0 <= i < j < |items| ==> Payload(items[i]) < Payload(items[j])
    ensures r.Ok? ==> forall v :: Value(v) in items <==> v in s.Contents()
    ensures r.Ok? && a.Length >= |items| ==> r.value == a
    ensures r.Ok? && a.Length < |items| ==> fresh(r.value) && r.value.Length == |items| && unchanged(a)
    ensures r.Ok? ==> r.value[..] == Padded(items, r.value.Length)
  {
    var size := s.Size();
    if size.Fail? {
      return Fail(size.error), [];
    }
    var walked := WalkValues(s);
    var arr := FillArray(a, walked, size.value);
    r := Ok(arr);
    items := walked;
  }
}
