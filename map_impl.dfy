// LMDBMapImpl: a navigable map over one database, or a multimap when the
// database keeps sorted duplicate values per key. Every operation runs in
// its own transaction; the navigation operations open a cursor on it.

module Maps {
  import opened Common
  import opened Store
  import Api
  import Environment

  /**
   * `compare(a, b)` (and `valueCompare` on a duplicate database): null sorts
   * before every key and two nulls are equal; otherwise the comparator decides.
   */
  function Compare(a: Option<int>, b: Option<int>): (r: int)
    ensures r == 0 <==> a == b
    ensures r < 0 <==> (a.None? && b.Some?) || (a.Some? && b.Some? && a.value < b.value)
    ensures r > 0 <==> (a.Some? && b.None?) || (a.Some? && b.Some? && a.value > b.value)
  {
    if a.None? then (if b.None? then 0 else -1)
    else if b.None? then 1
    else if a.value < b.value then -1
    else if a.value == b.value then 0
    else 1
  }

  /** The comparison is antisymmetric and transitive: a total preorder with null first. */
  lemma CompareIsOrder(a: Option<int>, b: Option<int>, c: Option<int>)
    ensures Compare(a, b) == -Compare(b, a)
    ensures Compare(a, b) <= 0 && Compare(b, c) <= 0 ==> Compare(a, c) <= 0
  {
  }

  /** A map over one database; `db` is its committed contents. */
  class MapImpl {
    const env: Environment.Env
    const dup: bool
    var db: seq<Pair>

    ghost predicate Valid()
      reads this
    {
      Wf(db, dup)
    }

    constructor (e: Environment.Env, isDup: bool)
      ensures Valid() && env == e && dup == isDup && db == []
    {
      env, dup, db := e, isDup, [];
    }

    /** `valueCompare`: only a duplicate database orders its values. */
    function ValueCompare(a: Option<int>, b: Option<int>): (r: Outcome<int>)
      ensures !dup <==> r == Fail(IllegalArgument)
      ensures dup ==> r.Ok? && (r.value == 0 <==> a == b)
      ensures dup ==> r.Ok? && (r.value < 0 <==> Compare(a, b) < 0)
    {
      if !dup then Fail(IllegalArgument) else Ok(Compare(a, b))
    }

    /** A read-only transaction and a fresh cursor on it, seeing `db`. */
    method OpenCursor() returns (c: Api.Cursor)
      requires Valid()
      ensures fresh(c) && c.Valid() && c.state == Api.OPEN && c.db == db && c.dup == dup && c.pos == Unset
      ensures c.txn != null && fresh(c.txn) && c.txn.readOnly && (c.txn.current == null || c.txn.cursors.None?)
    {
      var t := new Api.Txn(env, null, true);
      c := new Api.Cursor(t, db, dup);
    }

    // Navigation. Each opens a cursor and maps its result; the `*Key`
    // variants return the key of the same entry.

    /** `ceilingEntry(k)`: the first entry whose key is at least `k`. */
    method CeilingEntry(k: int) returns (r: Option<Pair>)
      requires Valid()
      ensures r.Some? <==> exists p :: p in db && p.key >= k
      ensures r.Some? ==> r.value in db && r.value.key >= k &&
                          forall p :: p in db && p.key >= k ==> !Lt(p, r.value)
    {
      var c := OpenCursor();
      var res := c.Ceiling(Api.Bytes(k));
      r := res.value;
    }

    /** `higherEntry(k)`: the first entry whose key is above `k`. */
    method HigherEntry(k: int) returns (r: Option<Pair>)
      requires Valid()
      ensures r.Some? <==> exists p :: p in db && p.key > k
      ensures r.Some? ==> r.value in db && r.value.key > k &&
                          forall p :: p in db && p.key > k ==> !Lt(p, r.value)
    {
      var c := OpenCursor();
      var res := c.Higher(Api.Bytes(k));
      r := res.value;
    }

    /**
     * `floorEntry(k)` as written, on the cursor's `floor`: the entry with the
     * greatest key at most `k` (its first duplicate), but null whenever no
     * key is at least `k`.
     */
    method FloorEntry(k: int) returns (r: Option<Pair>)
      requires Valid()
      ensures !KeyAtLeast(db, k) ==> r.None?
      ensures KeyAtLeast(db, k) ==> r == Store.FloorEntry(db, k)
      ensures r.Some? <==> KeyAtLeast(db, k) && exists p :: p in db && p.key <= k
    {
      var c := OpenCursor();
      var res := c.Floor(Api.Bytes(k));
      r := res.value;
    }

    /** `lowerEntry(k)` as written, on the cursor's `lower`: null whenever no key is at least `k`. */
    method LowerEntry(k: int) returns (r: Option<Pair>)
      requires Valid()
      ensures !KeyAtLeast(db, k) ==> r.None?
      ensures KeyAtLeast(db, k) ==> r == Store.LowerEntry(db, k)
      ensures r.Some? <==> KeyAtLeast(db, k) && exists p :: p in db && p.key < k
    {
      var c := OpenCursor();
      var res := c.Lower(Api.Bytes(k));
      r := res.value;
    }

    /** `floorEntry(k)` corrected: the entry with the greatest key at most `k`, on the corrected cursor floor. */
    method FloorEntryFixed(k: int) returns (r: Option<Pair>)
      requires Valid()
      ensures r == Store.FloorEntry(db, k)
      ensures r.Some? <==> exists p :: p in db && p.key <= k
    {
      var c := OpenCursor();
      var res := c.FloorFixed(Api.Bytes(k));
      r := res.value;
    }

    /** `lowerEntry(k)` corrected: the entry with the greatest key below `k`, on the corrected cursor lower. */
    method LowerEntryFixed(k: int) returns (r: Option<Pair>)
      requires Valid()
      ensures r == Store.LowerEntry(db, k)
      ensures r.Some? <==> exists p :: p in db && p.key < k
    {
      var c := OpenCursor();
      var res := c.LowerFixed(Api.Bytes(k));
      r := res.value;
    }

    /** `firstEntry` / `firstKey`: the least entry, or null when empty. */
    method FirstEntry() returns (r: Option<Pair>)
      requires Valid()
      ensures r.None? <==> |db| == 0
      ensures r.Some? ==> r.value in db && forall p :: p in db ==> p == r.value || Lt(r.value, p)
    {
      var c := OpenCursor();
      var res := c.First();
      r := res.value;
    }

    /** `lastEntry` / `lastKey`: the greatest entry, or null when empty. */
    method LastEntry() returns (r: Option<Pair>)
      requires Valid()
      ensures r.None? <==> |db| == 0
      ensures r.Some? ==> r.value in db && forall p :: p in db ==> p == r.value || Lt(p, r.value)
    {
      var c := OpenCursor();
      var res := c.Last();
      r := res.value;
    }

    /** `dupCeiling(k, v)`: the least value of `k` at least `v`. */
    method DupCeiling(k: int, v: int) returns (r: Option<int>)
      requires Valid()
      ensures r.Some? <==> exists w :: Pair(k, w) in db && w >= v
      ensures r.Some? ==> Pair(k, r.value) in db && r.value >= v &&
                          forall w :: Pair(k, w) in db && w >= v ==> r.value <= w
    {
      var c := OpenCursor();
      var res := c.DupCeiling(Api.Bytes(k), Api.Bytes(v));
      r := if res.value.Some? then Some(res.value.value.val) else None;
    }

    /** `dupHigher(k, v)`: the least value of `k` above `v`. */
    method DupHigher(k: int, v: int) returns (r: Option<int>)
      requires Valid()
      ensures r.Some? <==> exists w :: Pair(k, w) in db && w > v
      ensures r.Some? ==> Pair(k, r.value) in db && r.value > v &&
                          forall w :: Pair(k, w) in db && w > v ==> r.value <= w
    {
      var c := OpenCursor();
      var res := c.DupHigher(Api.Bytes(k), Api.Bytes(v));
      r := if res.value.Some? then Some(res.value.value.val) else None;
    }

    /** `dupFloor(k, v)`: the greatest value of `k` at most `v`. */
    method DupFloor(k: int, v: int) returns (r: Option<int>)
      requires Valid()
      ensures r.Some? <==> exists w :: Pair(k, w) in db && w <= v
      ensures r.Some? ==> Pair(k, r.value) in db && r.value <= v &&
                          forall w :: Pair(k, w) in db && w <= v ==> w <= r.value
    {
      var c := OpenCursor();
      var res := c.DupFloor(Api.Bytes(k), Api.Bytes(v));
      r := if res.value.Some? then Some(res.value.value.val) else None;
    }

    /** `dupLower(k, v)`: the greatest value of `k` below `v`. */
    method DupLower(k: int, v: int) returns (r: Option<int>)
      requires Valid()
      ensures r.Some? <==> exists w :: Pair(k, w) in db && w < v
      ensures r.Some? ==> Pair(k, r.value) in db && r.value < v &&
                          forall w :: Pair(k, w) in db && w < v ==> w <= r.value
    {
      var c := OpenCursor();
      var res := c.DupLower(Api.Bytes(k), Api.Bytes(v));
      r := if res.value.Some? then Some(res.value.value.val) else None;
    }

    // Queries.

    /** `get(k)`: the value of `k` (its first duplicate), or null. */
    function Get(k: int): (r: Option<int>)
      reads this
      requires Valid()
      ensures r.Some? <==> HasKey(db, k)
      ensures r.Some? ==> Pair(k, r.value) in db
      ensures !dup ==> forall v :: r == Some(v) <==> Pair(k, v) in db
    {
      if !dup then LookupExact(db, k) else Lookup(db, k)
    }

    /** `containsKey(k)`. */
    function ContainsKey(k: int): (r: bool)
      reads this
      ensures r <==> exists p :: p in db && p.key == k
    {
      HasKey(db, k)
    }

    /**
     * `contains(k, v)`: on a duplicate database a GET_BOTH cursor lookup,
     * otherwise `get(k)` compared with `v`. Both mean the pair is stored.
     */
    method Contains(k: int, v: int) returns (r: bool)
      requires Valid()
      ensures r <==> Pair(k, v) in db
    {
      if dup {
        var c := OpenCursor();
        var res := c.MoveToBoth(k, v);
        r := res.value;
      } else {
        var existing := Get(k);
        r := existing.Some? && existing.value == v;
      }
    }

    /** `containsValue(v)`: a scan over the entries in order. */
    method ContainsValue(v: int) returns (r: bool)
      requires Valid()
      ensures r <==> exists p :: p in db && p.val == v
    {
      var i := 0;
      while i < |db|
        invariant 0 <= i <= |db|
        invariant forall j :: 0 <= j < i ==> db[j].val != v
      {
        if db[i].val == v { return true; }
        i := i + 1;
      }
      return false;
    }

    /** `valueCount`: the number of stored pairs (the database's entry count). */
    function ValueCount(): (n: nat)
      reads this
      ensures n == |db|
    {
      |db|
    }

    /** `size`: the value count, refused when it does not fit in an `int`. */
    function Size(): (r: Outcome<int>)
      reads this
      ensures r.Ok? <==> |db| <= INT_MAX
      ensures r.Ok? ==> r.value == |db|
      ensures r.Fail? ==> r.error == Runtime
    {
      if |db| > INT_MAX then Fail(Runtime) else Ok(|db|)
    }

    /** `isEmpty`: `0 == size()`, so it throws where `size` does. */
    function IsEmpty(): (r: Outcome<bool>)
      reads this
      ensures r.Ok? <==> |db| <= INT_MAX
      ensures r.Ok? ==> (r.value <==> db == [])
    {
      var s := Size();
      if s.Fail? then Fail(s.error) else Ok(s.value == 0)
    }

    /** `keyCount`: distinct keys; a counting cursor walk on a duplicate database. */
    method KeyCount() returns (n: nat)
      requires Valid()
      ensures n == |Keys(db)|
      ensures !dup ==> n == |db|
    {
      if dup {
        var c := OpenCursor();
        var res := c.KeyCount();
        n := res.value;
      } else {
        NumKeysUnique(db);
        NumKeysIsKeyCount(db);
        n := |db|;
      }
    }

    // Updates.

    /** `put(k, v)`: stores the pair and returns the previous value of `k`. */
    method Put(k: int, v: int) returns (prev: Option<int>)
      requires Valid()
      modifies this
      ensures Valid() && prev == old(Get(k))
      ensures db == Store.Put(old(db), dup, k, v, Plain).value
    {
      prev := Get(k);
      db := Store.Put(db, dup, k, v, Plain).value;
    }

    /** `putNoPrev(k, v)`: `put` without the lookup. */
    method PutNoPrev(k: int, v: int)
      requires Valid()
      modifies this
      ensures Valid() && db == Store.Put(old(db), dup, k, v, Plain).value
    {
      db := Store.Put(db, dup, k, v, Plain).value;
    }

    /** `putIfAbsent(k, v)`: stores only when `k` is absent; returns the existing value. */
    method PutIfAbsent(k: int, v: int) returns (prev: Option<int>)
      requires Valid()
      modifies this
      ensures Valid() && prev == old(Get(k))
      ensures prev.Some? ==> db == old(db)
      ensures prev.None? ==> db == Store.Put(old(db), dup, k, v, Plain).value
    {
      prev := Get(k);
      if prev.None? {
        db := Store.Put(db, dup, k, v, Plain).value;
      }
    }

    /**
     * `add(k, v)`: MDB_NODUPDATA on a duplicate database, MDB_NOOVERWRITE
     * otherwise; false (nothing stored) when the pair, or the key, exists.
     */
    method Add(k: int, v: int) returns (added: bool)
      requires Valid()
      modifies this
      ensures Valid()
      ensures dup ==> (added <==> Pair(k, v) !in old(db))
      ensures !dup ==> (added <==> !HasKey(old(db), k))
      ensures added ==> db == Store.Put(old(db), dup, k, v, if dup then NoDupData else NoOverwrite).value
      ensures !added ==> db == old(db)
    {
      var res := Store.Put(db, dup, k, v, if dup then NoDupData else NoOverwrite);
      added := res.Some?;
      if added { db := res.value; }
    }

    /** `append(k, v)`: MDB_APPEND; false unless `k` is above every stored key. */
    method Append(k: int, v: int) returns (appended: bool)
      requires Valid()
      modifies this
      ensures Valid()
      ensures appended <==> forall p :: p in old(db) ==> p.key < k
      ensures appended ==> db == old(db) + [Pair(k, v)]
      ensures !appended ==> db == old(db)
    {
      var res := Store.Put(db, dup, k, v, PutFlag.Append);
      appended := res.Some?;
      if appended {
        AppendIsSuffix(db, dup, k, v);
        db := res.value;
      } else {
        assert db[|db| - 1] in db;
      }
    }

    /**
     * `prepend(k, v)` as written: a plain `putNoPrev`, answering true
     * whatever the existing keys are.
     */
    method Prepend(k: int, v: int) returns (prepended: bool)
      requires Valid()
      modifies this
      ensures Valid() && prepended
      ensures db == Store.Put(old(db), dup, k, v, Plain).value
    {
      PutNoPrev(k, v);
      prepended := true;
    }

    /**
     * `prepend(k, v)` with the documented result. It may stay a plain
     * `putNoPrev`, but it answers true only when `k` was below every stored
     * key, and then the pair is the new first pair.
     */
    method PrependFixed(k: int, v: int) returns (prepended: bool)
      requires Valid()
      modifies this
      ensures Valid()
      ensures prepended <==> forall p :: p in old(db) ==> k < p.key
      ensures db == Store.Put(old(db), dup, k, v, Plain).value
      ensures prepended ==> db == [Pair(k, v)] + old(db)
    {
      prepended := |db| == 0 || k < db[0].key;
      if prepended {
        PrependIsPrefix(db, dup, k, v);
      } else {
        assert db[0] in db;
      }
      PutNoPrev(k, v);
    }

    /** `putAll(m)`: one plain put per entry, in order, in one transaction. */
    method PutAll(entries: seq<Pair>)
      requires Valid()
      modifies this
      ensures Valid() && db == PutEach(old(db), dup, entries)
    {
      ghost var start := db;
      var i := 0;
      while i < |entries|
        invariant 0 <= i <= |entries|
        invariant Wf(start, dup) && Wf(db, dup)
        invariant PutEach(db, dup, entries[i..]) == PutEach(start, dup, entries)
      {
        var e := entries[i];
        assert entries[i..][1..] == entries[i + 1..];
        db := Store.Put(db, dup, e.key, e.val, Plain).value;
        i := i + 1;
      }
    }

    /** `remove(k)`: deletes every value of `k`; returns its first value. */
    method Remove(k: int) returns (prev: Option<int>)
      requires Valid()
      modifies this
      ensures Valid() && prev == old(Get(k))
      ensures db == RemoveKey(old(db), k)
    {
      prev := Get(k);
      if prev.Some? {
        db := RemoveKey(db, k);
      } else {
        RemoveAbsentKey(db, k);
      }
    }

    /** `removeNoPrev(k)`: the delete alone; true when something was removed. */
    method RemoveNoPrev(k: int) returns (removed: bool)
      requires Valid()
      modifies this
      ensures Valid() && (removed <==> HasKey(old(db), k))
      ensures db == RemoveKey(old(db), k)
    {
      removed := HasKey(db, k);
      if removed {
        db := RemoveKey(db, k);
      } else {
        RemoveAbsentKey(db, k);
      }
    }

    /**
     * `remove(k, v)`: a GET_BOTH cursor delete on a duplicate database;
     * otherwise the key's delete when its value is `v`. Either way exactly
     * the pair goes.
     */
    method RemovePair(k: int, v: int) returns (removed: bool)
      requires Valid()
      modifies this
      ensures Valid() && (removed <==> Pair(k, v) in old(db))
      ensures forall q :: q in db <==> q in old(db) && q != Pair(k, v)
      ensures !removed ==> db == old(db)
    {
      if dup {
        var c := OpenCursor();
        var found := c.MoveToBoth(k, v);
        removed := found.value;
        if removed {
          var d := c.Delete();
          db := c.db;
        }
      } else {
        var existing := Get(k);
        removed := existing.Some? && existing.value == v;
        if removed {
          UniquePairOfKey(db, k, v);
          db := RemoveKey(db, k);
        }
      }
    }

    /**
     * `replace(k, v)`: a plain put, only when `k` is present; returns the old
     * value. On a duplicate database the put adds `v` beside the old values.
     */
    method Replace(k: int, v: int) returns (prev: Option<int>)
      requires Valid()
      modifies this
      ensures Valid() && prev == old(Get(k))
      ensures prev.None? ==> db == old(db)
      ensures prev.Some? ==> db == Store.Put(old(db), dup, k, v, Plain).value
      ensures prev.Some? && !dup ==> Get(k) == Some(v) && |db| == |old(db)|
    {
      prev := Get(k);
      if prev.Some? {
        if !dup { ReplaceKeepsSize(db, k, v); }
        db := Store.Put(db, dup, k, v, Plain).value;
        if !dup { LookupUnique(db, k, v); }
      }
    }

    /** `replace(k, expected, v)`: the put happens only when `get(k)` is `expected`. */
    method ReplaceIf(k: int, expected: int, v: int) returns (replaced: bool)
      requires Valid()
      modifies this
      ensures Valid() && (replaced <==> old(Get(k)) == Some(expected))
      ensures replaced ==> db == Store.Put(old(db), dup, k, v, Plain).value
      ensures !replaced ==> db == old(db)
    {
      var existing := Get(k);
      replaced := existing == Some(expected);
      if replaced {
        db := Store.Put(db, dup, k, v, Plain).value;
      }
    }

    /** `clear`: truncates the database. */
    method Clear()
      requires Valid()
      modifies this
      ensures Valid() && db == []
    {
      db := [];
    }

    /** `pollFirstEntry` / `pollFirstKey`: removes and returns the least pair. */
    method PollFirstEntry() returns (r: Option<Pair>)
      requires Valid()
      modifies this
      ensures Valid()
      ensures r.None? <==> old(db) == []
      ensures r.Some? ==> r.value == old(db)[0] && db == old(db)[1..]
      ensures r.None? ==> db == old(db)
    {
      var c := OpenCursor();
      var res := c.First();
      r := res.value;
      if r.Some? {
        var d := c.Delete();
        assert c.db == RemoveAt(db, 0);
        db := c.db;
        assert db == old(db)[1..];
      }
    }

    /** `pollLastEntry` / `pollLastKey`: removes and returns the greatest pair. */
    method PollLastEntry() returns (r: Option<Pair>)
      requires Valid()
      modifies this
      ensures Valid()
      ensures r.None? <==> old(db) == []
      ensures r.Some? ==> r.value == old(db)[|old(db)| - 1] && db == old(db)[..|old(db)| - 1]
      ensures r.None? ==> db == old(db)
    {
      var c := OpenCursor();
      var res := c.Last();
      r := res.value;
      if r.Some? {
        var d := c.Delete();
        db := c.db;
        assert db == old(db)[..|old(db)| - 1];
      }
    }
  }

  /** Without duplicates the first value of a key is its only value. */
  function LookupExact(db: seq<Pair>, k: int): (r: Option<int>)
    requires Wf(db, false)
    ensures r == Lookup(db, k)
    ensures forall v :: r == Some(v) <==> Pair(k, v) in db
  {
    forall v ensures Lookup(db, k) == Some(v) <==> Pair(k, v) in db {
      LookupUnique(db, k, v);
    }
    Lookup(db, k)
  }

  /** The effect of `putAll`: plain puts of the entries, left to right. */
  function PutEach(db: seq<Pair>, dup: bool, entries: seq<Pair>): (r: seq<Pair>)
    requires Wf(db, dup)
    ensures Wf(r, dup)
    decreases |entries|
  {
    if entries == [] then db
    else PutEach(Store.Put(db, dup, entries[0].key, entries[0].val, Plain).value, dup, entries[1..])
  }

  /** `putAll` of a longer list is one more plain put after the shorter one. */
  lemma {:induction false} PutEachSnoc(db: seq<Pair>, dup: bool, entries: seq<Pair>, e: Pair)
    requires Wf(db, dup)
    ensures PutEach(db, dup, entries + [e]) == Store.Put(PutEach(db, dup, entries), dup, e.key, e.val, Plain).value
    decreases |entries|
  {
    if entries == [] {
      assert entries + [e] == [e];
      assert [e][1..] == [];
    } else {
      assert (entries + [e])[1..] == entries[1..] + [e];
      PutEachSnoc(Store.Put(db, dup, entries[0].key, entries[0].val, Plain).value, dup, entries[1..], e);
    }
  }

  /** One more entry of a prefix is one more put. */
  lemma PutEachPrefix(db: seq<Pair>, dup: bool, entries: seq<Pair>, i: nat)
    requires Wf(db, dup) && i < |entries|
    ensures PutEach(db, dup, entries[..i + 1]) == Store.Put(PutEach(db, dup, entries[..i]), dup, entries[i].key, entries[i].val, Plain).value
  {
    assert entries[..i + 1] == entries[..i] + [entries[i]];
    PutEachSnoc(db, dup, entries[..i], entries[i]);
  }

  /** Without duplicates, after `putAll` every key written holds its last value. */
  lemma {:induction false} PutEachLastWins(db: seq<Pair>, entries: seq<Pair>, i: nat)
    requires Wf(db, false) && i < |entries|
    requires forall j :: i < j < |entries| ==> entries[j].key != entries[i].key
    ensures Lookup(PutEach(db, false, entries), entries[i].key) == Some(entries[i].val)
    decreases |entries|
  {
    var e := entries[0];
    var next := Store.Put(db, false, e.key, e.val, Plain).value;
    if i == 0 {
      LookupUnique(next, e.key, e.val);
      PutEachKeepsAbsent(next, entries[1..], e.key, e.val);
    } else {
      PutEachLastWins(next, entries[1..], i - 1);
    }
  }

  /** Without duplicates, puts of other keys leave a key's value alone. */
  lemma {:induction false} PutEachKeepsAbsent(db: seq<Pair>, entries: seq<Pair>, k: int, v: int)
    requires Wf(db, false) && Lookup(db, k) == Some(v)
    requires forall j :: 0 <= j < |entries| ==> entries[j].key != k
    ensures Lookup(PutEach(db, false, entries), k) == Some(v)
    decreases |entries|
  {
    if entries != [] {
      var e := entries[0];
      var next := Store.Put(db, false, e.key, e.val, Plain).value;
      LookupUnique(db, k, v);
      LookupUnique(next, k, v);
      PutEachKeepsAbsent(next, entries[1..], k, v);
    }
  }

  /** A successful MDB_APPEND puts the pair at the end. */
  lemma AppendIsSuffix(db: seq<Pair>, dup: bool, k: int, v: int)
    requires Wf(db, dup)
    requires Store.Put(db, dup, k, v, PutFlag.Append).Some?
    ensures Store.Put(db, dup, k, v, PutFlag.Append).value == db + [Pair(k, v)]
    ensures forall p :: p in db ==> p.key < k
  {
    var r := Store.Put(db, dup, k, v, PutFlag.Append).value;
    var s := db + [Pair(k, v)];
    forall p | p in db ensures p.key < k {
      var j :| 0 <= j < |db| && db[j] == p;
      assert j == |db| - 1 || Lt(db[j], db[|db| - 1]);
    }
    SortedSameMembers(r, s);
  }

  /** A plain put of a key below every stored key puts the pair first. */
  lemma PrependIsPrefix(db: seq<Pair>, dup: bool, k: int, v: int)
    requires Wf(db, dup)
    requires |db| == 0 || k < db[0].key
    ensures forall p :: p in db ==> k < p.key
    ensures Store.Put(db, dup, k, v, Plain).value == [Pair(k, v)] + db
  {
    PrependSorted(db, k, v);
    var r := Store.Put(db, dup, k, v, Plain).value;
    assert forall q :: q in r <==> q in [Pair(k, v)] + db;
    SortedSameMembers(r, [Pair(k, v)] + db);
  }

  lemma PrependSorted(db: seq<Pair>, k: int, v: int)
    requires Sorted(db)
    requires |db| == 0 || k < db[0].key
    ensures forall p :: p in db ==> k < p.key
    ensures Sorted([Pair(k, v)] + db)
  {
    var s := [Pair(k, v)] + db;
    forall p | p in db ensures k < p.key {
      var j :| 0 <= j < |db| && db[j] == p;
      assert j == 0 || Lt(db[0], db[j]);
    }
    forall x, y | 0 <= x < y < |s| ensures Lt(s[x], s[y]) {
      if x == 0 { assert s[y] == db[y - 1] && s[y] in db; } else { assert s[x] == db[x - 1] && s[y] == db[y - 1]; }
    }
  }

  /** Two strictly sorted sequences with the same members are equal. */
  lemma {:induction false} SortedSameMembers(a: seq<Pair>, b: seq<Pair>)
    requires Sorted(a) && Sorted(b)
    requires forall q :: q in a <==> q in b
    ensures a == b
    decreases |a|
  {
    SameMembersBothEmpty(a, b);
    if |a| == 0 { return; }
    HeadsAgree(a, b);
    forall q ensures q in a[1..] <==> q in b[1..] {
      TailMember(a, b, q);
      TailMember(b, a, q);
    }
    SortedSameMembers(a[1..], b[1..]);
    assert a == [a[0]] + a[1..] && b == [b[0]] + b[1..];
  }

  lemma HeadsAgree(a: seq<Pair>, b: seq<Pair>)
    requires Sorted(a) && Sorted(b) && |a| > 0 && |b| > 0
    requires forall q :: q in a <==> q in b
    ensures a[0] == b[0]
  {
    assert a[0] in a && b[0] in b;
    if a[0] != b[0] {
      assert false;
    }
  }

  lemma SameMembersBothEmpty(a: seq<Pair>, b: seq<Pair>)
    requires forall q :: q in a <==> q in b
    ensures |a| == 0 <==> |b| == 0
  {
    if |a| > 0 { assert a[0] in a; }
    if |b| > 0 { assert b[0] in b; }
  }

  lemma TailMember(a: seq<Pair>, b: seq<Pair>, q: Pair)
    requires Sorted(a) && Sorted(b) && |a| > 0 && |b| > 0 && a[0] == b[0]
    requires forall q :: q in a <==> q in b
    ensures q in a[1..] ==> q in b[1..]
  {
    if q in a[1..] {
      var j :| 0 <= j < |a| - 1 && a[1..][j] == q;
      assert Lt(a[0], a[j + 1]);
      assert q in b;
      var i :| 0 <= i < |b| && b[i] == q;
      assert i != 0;
      assert b[1..][i - 1] == q;
    }
  }

  /** Removing an absent key changes nothing. */
  lemma RemoveAbsentKey(db: seq<Pair>, k: int)
    requires Sorted(db) && !HasKey(db, k)
    ensures RemoveKey(db, k) == db
  {
    SortedSameMembers(RemoveKey(db, k), db);
  }

  /** Without duplicates, the only pair of `k` is the one holding its value. */
  lemma UniquePairOfKey(db: seq<Pair>, k: int, v: int)
    requires Wf(db, false) && Pair(k, v) in db
    ensures forall q :: q in RemoveKey(db, k) <==> q in db && q != Pair(k, v)
  {
    forall q | q in db && q.key == k ensures q == Pair(k, v) {
      var i :| 0 <= i < |db| && db[i] == q;
      var j :| 0 <= j < |db| && db[j] == Pair(k, v);
      assert i == j;
    }
  }

  /** Replacing the value of a present key, without duplicates, keeps the size. */
  lemma ReplaceKeepsSize(db: seq<Pair>, k: int, v: int)
    requires Wf(db, false) && HasKey(db, k)
    ensures |Store.Put(db, false, k, v, Plain).value| == |db|
  {
    var i := KeyLowerBound(db, k);
    HasKeyRun(db, k);
    ReplacedInPlace(db, i, v);
    SortedSameMembers(Store.Put(db, false, k, v, Plain).value, db[i := Pair(k, v)]);
  }

  /** Overwriting the value at one index of a unique-key database keeps it sorted. */
  lemma ReplacedInPlace(db: seq<Pair>, i: nat, v: int)
    requires Wf(db, false) && i < |db|
    ensures Sorted(db[i := Pair(db[i].key, v)])
    ensures forall q :: q in db[i := Pair(db[i].key, v)] <==> (q in db && q.key != db[i].key) || q == Pair(db[i].key, v)
  {
    var s := db[i := Pair(db[i].key, v)];
    forall a, b | 0 <= a < b < |s| ensures Lt(s[a], s[b]) {
      assert db[a].key < db[b].key;
    }
    forall q ensures q in s <==> (q in db && q.key != db[i].key) || q == Pair(db[i].key, v) {
      if q in s && q != Pair(db[i].key, v) {
        var j :| 0 <= j < |s| && s[j] == q;
        assert j != i && db[j] == q;
        if j < i { assert db[j].key < db[i].key; } else { assert db[i].key < db[j].key; }
      }
      if q in db && q.key != db[i].key {
        var j :| 0 <= j < |db| && db[j] == q;
        assert j != i && s[j] == q;
      }
      if q == Pair(db[i].key, v) {
        assert s[i] == q;
      }
    }
  }

  /** `put(foo, bar)` on an empty map answers null; a second `put(foo, baz)` answers `bar`. */
  method PutReturnsPreviousScenario() returns (first: Option<int>, second: Option<int>, now: Option<int>)
    ensures first == None && second == Some(1) && now == Some(2)
  {
    var e := new Environment.Env();
    var m := new MapImpl(e, false);
    first := m.Put(0, 1);
    second := m.Put(0, 2);
    LookupUnique(m.db, 0, 2);
    now := m.Get(0);
  }

  /**
   * Over the map {1 -> 0}, `floorEntry(5)` answers null: the cursor's floor
   * starts from the ceiling of 5, and no key is at least 5.
   */
  method FloorEntryScenario() returns (asWritten: Option<Pair>, corrected: Option<Pair>)
    ensures asWritten == None && corrected == Some(Pair(1, 0))
  {
    var e := new Environment.Env();
    var m := new MapImpl(e, false);
    m.PutNoPrev(1, 0);
    assert m.db == [Pair(1, 0)];
    asWritten := m.FloorEntry(5);
    corrected := m.FloorEntryFixed(5);
  }

  /**
   * Over the map {1 -> 0}, `prepend(5, 0)` stores the pair and answers true
   * though 5 is not below 1; the corrected result is false.
   */
  method PrependScenario() returns (asWritten: bool, corrected: bool)
    ensures asWritten && !corrected
  {
    var e := new Environment.Env();
    var m := new MapImpl(e, false);
    m.PutNoPrev(1, 0);
    assert m.db == [Pair(1, 0)];
    asWritten := m.Prepend(5, 0);
    var m2 := new MapImpl(e, false);
    m2.PutNoPrev(1, 0);
    assert Pair(1, 0) in m2.db;
    corrected := m2.PrependFixed(5, 0);
  }
}
