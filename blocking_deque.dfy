// LMDBBlockingDeque: an optionally bounded deque stored in a map from `long`
// keys to elements. The head gets ever smaller keys, the tail ever larger
// ones, starting at 0. Two counting semaphores guard it: read permits count
// the stored elements, and (when bounded) write permits count the free
// slots. Only the non-blocking try-acquire paths are modelled; a semaphore
// is its integer permit count.

module Deques {
  import opened Common
  import opened Store
  import Maps
  import Serializers
  import Collections
  import Iteration
  import Environment

  const UNBOUNDED: int := -1
  const STARTING_KEY: int := 0

  /** The values of the pairs, in order. */
  function ValuesOf(db: seq<Pair>): (vs: seq<int>)
    ensures |vs| == |db|
    ensures forall i :: 0 <= i < |db| ==> vs[i] == db[i].val
  {
    seq(|db|, i requires 0 <= i < |db| => db[i].val)
  }

  /** The elements of a collection that may hold nulls, nulls dropped. */
  function Present(c: seq<Option<int>>): (r: seq<int>)
    ensures |r| <= |c|
  {
    if c == [] then []
    else Present(c[..|c| - 1]) + (if c[|c| - 1].Some? then [c[|c| - 1].value] else [])
  }

  /** The index of the first null in `c`, or `|c|` when there is none. */
  function FirstNull(c: seq<Option<int>>): (j: nat)
    ensures j <= |c|
    ensures forall i :: 0 <= i < j ==> c[i].Some?
    ensures j < |c| ==> c[j].None?
  {
    if c == [] then 0
    else if c[0].None? then 0
    else 1 + FirstNull(c[1..])
  }

  /** `s` back to front. */
  function Reverse(s: seq<int>): (r: seq<int>)
    ensures |r| == |s|
    ensures forall i :: 0 <= i < |s| ==> r[i] == s[|s| - 1 - i]
  {
    if s == [] then [] else [s[|s| - 1]] + Reverse(s[..|s| - 1])
  }

  /** The position of the first occurrence of `o`. */
  function FirstIndex(s: seq<int>, o: int): (i: nat)
    requires o in s
    ensures i < |s| && s[i] == o
    ensures forall j :: 0 <= j < i ==> s[j] != o
  {
    if s[0] == o then 0 else 1 + FirstIndex(s[1..], o)
  }

  /** The position of the last occurrence of `o`. */
  function LastIndex(s: seq<int>, o: int): (i: nat)
    requires o in s
    ensures i < |s| && s[i] == o
    ensures forall j :: i < j < |s| ==> s[j] != o
  {
    if s[|s| - 1] == o then |s| - 1 else LastIndex(s[..|s| - 1], o)
  }

  /** `s` without the element at `i`. */
  function Without(s: seq<int>, i: nat): (r: seq<int>)
    requires i < |s|
    ensures |r| == |s| - 1
    ensures forall j :: 0 <= j < i ==> r[j] == s[j]
    ensures forall j :: i <= j < |r| ==> r[j] == s[j + 1]
  {
    s[..i] + s[i + 1..]
  }

  lemma ValuesOfConcat(a: seq<Pair>, b: seq<Pair>)
    ensures ValuesOf(a + b) == ValuesOf(a) + ValuesOf(b)
  {
    assert forall i :: 0 <= i < |a + b| ==> ValuesOf(a + b)[i] == (ValuesOf(a) + ValuesOf(b))[i];
  }

  lemma ValuesOfSlice(db: seq<Pair>, lo: nat, hi: nat)
    requires lo <= hi <= |db|
    ensures ValuesOf(db[lo..hi]) == ValuesOf(db)[lo..hi]
  {
  }

  /** A value is an element exactly when some stored pair holds it. */
  lemma ValueMember(db: seq<Pair>, o: int)
    ensures o in ValuesOf(db) <==> exists p :: p in db && p.val == o
  {
    if o in ValuesOf(db) {
      var i :| 0 <= i < |db| && ValuesOf(db)[i] == o;
      assert db[i] in db;
    }
    if exists p :: p in db && p.val == o {
      var p :| p in db && p.val == o;
      var i :| 0 <= i < |db| && db[i] == p;
      assert ValuesOf(db)[i] == o;
    }
  }

  lemma HeadIsLeast(db: seq<Pair>)
    requires Sorted(db) && db != []
    ensures forall p :: p in db ==> db[0].key <= p.key
  {
    forall p | p in db ensures db[0].key <= p.key {
      var i :| 0 <= i < |db| && db[i] == p;
      if i > 0 { assert Lt(db[0], db[i]); }
    }
  }

  lemma LastIsGreatest(db: seq<Pair>)
    requires Sorted(db) && db != []
    ensures forall p :: p in db ==> p.key <= db[|db| - 1].key
  {
    forall p | p in db ensures p.key <= db[|db| - 1].key {
      var i :| 0 <= i < |db| && db[i] == p;
      if i < |db| - 1 { assert Lt(db[i], db[|db| - 1]); }
    }
  }

  /** The least pair of a sorted store is its first one. */
  lemma LeastIsFirst(db: seq<Pair>, q: Pair)
    requires Sorted(db) && q in db && forall p :: p in db ==> p == q || Lt(q, p)
    ensures q == db[0]
  {
    assert db[0] in db;
  }

  /** The greatest pair of a sorted store is its last one. */
  lemma GreatestIsLast(db: seq<Pair>, q: Pair)
    requires Sorted(db) && q in db && forall p :: p in db ==> p == q || Lt(p, q)
    ensures q == db[|db| - 1]
  {
    assert db[|db| - 1] in db;
  }

  /** In a store with unique keys, deleting the key of the pair at `j` deletes exactly that pair. */
  lemma RemoveKeyIsRemoveAt(db: seq<Pair>, j: nat)
    requires Wf(db, false) && j < |db|
    ensures RemoveKey(db, db[j].key) == RemoveAt(db, j)
    ensures ValuesOf(RemoveKey(db, db[j].key)) == Without(ValuesOf(db), j)
  {
    forall q ensures q in RemoveKey(db, db[j].key) <==> q in RemoveAt(db, j) {
      if q in db && q.key == db[j].key {
        var i :| 0 <= i < |db| && db[i] == q;
        assert i == j;
      }
    }
    Maps.SortedSameMembers(RemoveKey(db, db[j].key), RemoveAt(db, j));
  }

  class BlockingDeque {
    /** The maximum number of elements, or UNBOUNDED. */
    const capacity: int
    /** The backing map from keys to elements; nothing else writes to it. */
    const m: Maps.MapImpl
    /** Permits of `writeCapacitySemaphore` (no semaphore, and always 0, when unbounded). */
    var writePermits: int
    /** Permits of `readCapacitySemaphore`. */
    var readPermits: int

    /** The fields hold sensible values; the permits need not match the contents. */
    ghost predicate Wellformed()
      reads this, m
    {
      m.Valid() && !m.dup &&
      (capacity == UNBOUNDED || 0 < capacity <= INT_MAX) &&
      (capacity == UNBOUNDED ==> writePermits == 0) &&
      (forall p :: p in m.db ==> IsLong(p.key)) &&
      0 <= readPermits && 0 <= writePermits
    }

    /**
     * The permits account for the contents, with `wHeld` write permits and
     * `rHeld` read permits taken and not yet used.
     */
    ghost predicate Accounted(wHeld: int, rHeld: int)
      reads this, m
    {
      readPermits + rHeld == |m.db| &&
      (capacity != UNBOUNDED ==> writePermits + wHeld + |m.db| == capacity)
    }

    /** Read permits equal the size and, when bounded, write permits plus size equal the capacity. */
    ghost predicate Valid()
      reads this, m
    {
      Wellformed() && Accounted(0, 0)
    }

    /** The queue's elements, head first. */
    function Elements(): seq<int>
      reads m
    {
      ValuesOf(m.db)
    }

    /** Whether one more element fits. */
    ghost predicate HasRoom()
      reads m
    {
      capacity == UNBOUNDED || |m.db| < capacity
    }

    constructor (backing: Maps.MapImpl, cap: int, readCount: int, writeCount: int)
      requires backing.Valid() && !backing.dup && forall p :: p in backing.db ==> IsLong(p.key)
      requires cap == UNBOUNDED || 0 < cap <= INT_MAX
      requires 0 <= readCount && 0 <= writeCount && (cap == UNBOUNDED ==> writeCount == 0)
      ensures Wellformed() && m == backing && capacity == cap && readPermits == readCount && writePermits == writeCount
    {
      m := backing;
      capacity := cap;
      readPermits := readCount;
      writePermits := writeCount;
    }

    // ------------------------------------------------------------------
    // Semaphore helpers
    // ------------------------------------------------------------------

    /** `tryAcquireWriteCapacity(n)`: always succeeds when unbounded. */
    method TryAcquireWrites(n: nat) returns (ok: bool)
      requires Wellformed()
      modifies this
      ensures Wellformed() && readPermits == old(readPermits)
      ensures ok <==> capacity == UNBOUNDED || old(writePermits) >= n
      ensures writePermits == if ok && capacity != UNBOUNDED then old(writePermits) - n else old(writePermits)
    {
      if capacity == UNBOUNDED {
        return true;
      }
      ok := writePermits >= n;
      if ok {
        writePermits := writePermits - n;
      }
    }

    /** `tryAcquireWriteCapacity()` */
    method TryAcquireWrite() returns (ok: bool)
      requires Wellformed()
      modifies this
      ensures Wellformed() && readPermits == old(readPermits)
      ensures ok <==> capacity == UNBOUNDED || old(writePermits) >= 1
      ensures writePermits == if ok && capacity != UNBOUNDED then old(writePermits) - 1 else old(writePermits)
    {
      ok := TryAcquireWrites(1);
    }

    /** `releaseWriteCapacity()`, `n` times; nothing when unbounded. */
    method ReleaseWrites(n: nat)
      requires Wellformed()
      modifies this
      ensures Wellformed() && readPermits == old(readPermits)
      ensures writePermits == if capacity == UNBOUNDED then old(writePermits) else old(writePermits) + n
    {
      if capacity != UNBOUNDED {
        writePermits := writePermits + n;
      }
    }

    /** `tryAcquireReadCapacity()` */
    method TryAcquireRead() returns (ok: bool)
      requires Wellformed()
      modifies this
      ensures Wellformed() && writePermits == old(writePermits)
      ensures ok <==> old(readPermits) >= 1
      ensures readPermits == if ok then old(readPermits) - 1 else old(readPermits)
    {
      ok := readPermits >= 1;
      if ok {
        readPermits := readPermits - 1;
      }
    }

    /** `releaseReadCapacity()` */
    method ReleaseRead()
      requires Wellformed()
      modifies this
      ensures Wellformed() && writePermits == old(writePermits)
      ensures readPermits == old(readPermits) + 1
    {
      readPermits := readPermits + 1;
    }

    // ------------------------------------------------------------------
    // Keys
    // ------------------------------------------------------------------

    /** `nextHeadKey()`: one below the least key (0 when empty); AssertionError on wrap-around. */
    function NextHeadKey(): (r: Outcome<int>)
      reads m
      requires m.Valid() && !m.dup && forall p :: p in m.db ==> IsLong(p.key)
      ensures r.Ok? ==> IsLong(r.value) && forall p :: p in m.db ==> r.value < p.key
      ensures r.Fail? <==> m.db != [] && m.db[0].key == LONG_MIN
      ensures r.Fail? ==> r.error == AssertionFailed
      ensures m.db == [] ==> r == Ok(STARTING_KEY)
      ensures r.Ok? ==> r.value == HeadBase() - 1
    {
      if m.db == [] then Ok(STARTING_KEY)
      else
        assert m.db[0] in m.db && IsLong(m.db[0].key);
        var next := Serializers.WrapLong(m.db[0].key - 1);
        assert m.db[0].key > LONG_MIN ==> next == m.db[0].key - 1;
        if next == LONG_MAX then Fail(AssertionFailed)
        else
          HeadIsLeast(m.db);
          Ok(next)
    }

    /** `nextTailKey()`: one above the greatest key (0 when empty); AssertionError on wrap-around. */
    function NextTailKey(): (r: Outcome<int>)
      reads m
      requires m.Valid() && !m.dup && forall p :: p in m.db ==> IsLong(p.key)
      ensures r.Ok? ==> IsLong(r.value) && forall p :: p in m.db ==> p.key < r.value
      ensures r.Fail? <==> m.db != [] && m.db[|m.db| - 1].key == LONG_MAX
      ensures r.Fail? ==> r.error == AssertionFailed
      ensures m.db == [] ==> r == Ok(STARTING_KEY)
      ensures r.Ok? ==> r.value == TailBase() + 1
    {
      if m.db == [] then Ok(STARTING_KEY)
      else
        assert m.db[|m.db| - 1] in m.db && IsLong(m.db[|m.db| - 1].key);
        var next := Serializers.WrapLong(m.db[|m.db| - 1].key + 1);
        assert m.db[|m.db| - 1].key < LONG_MAX ==> next == m.db[|m.db| - 1].key + 1;
        if next == LONG_MIN then Fail(AssertionFailed)
        else
          LastIsGreatest(m.db);
          Ok(next)
    }

    /** The key the next head insert would take is `HeadBase() - 1`. */
    ghost function HeadBase(): int
      reads m
    {
      HeadBaseOf(m.db)
    }

    /** The key the next tail insert would take is `TailBase() + 1`. */
    ghost function TailBase(): int
      reads m
    {
      TailBaseOf(m.db)
    }

    /** `n` more head inserts find keys without wrapping around. */
    ghost predicate HeadRoom(n: nat)
      reads m
    {
      HeadBase() - n >= LONG_MIN
    }

    /** `n` more tail inserts find keys without wrapping around. */
    ghost predicate TailRoom(n: nat)
      reads m
    {
      TailBase() + n <= LONG_MAX
    }

    // ------------------------------------------------------------------
    // Map helpers
    // ------------------------------------------------------------------

    /**
     * `mapAddFirst(e)`, called holding one write permit: a null element gives
     * the permit back and throws; otherwise the element goes in front under
     * the next head key and a read permit is released.
     */
    method MapAddFirst(e: Option<int>, ghost held: nat) returns (r: Outcome<()>)
      requires Wellformed() && held >= 1 && Accounted(held, 0)
      modifies this, m
      ensures Wellformed()
      ensures e.None? ==> r == Fail(NullPointer) && m.db == old(m.db) && Accounted(held - 1, 0)
      ensures e.Some? && old(NextHeadKey()).Fail? ==> r == Fail(AssertionFailed) && m.db == old(m.db) && Accounted(held, 0)
      ensures e.Some? && old(NextHeadKey()).Ok? ==>
        (r == Ok(()) && Accounted(held - 1, 0) && m.db == [Pair(old(NextHeadKey()).value, e.value)] + old(m.db))
    {
      if e.None? {
        ReleaseWrites(1);
        return Fail(NullPointer);
      }
      var key := NextHeadKey();
      if key.Fail? {
        return Fail(key.error);
      }
      if |m.db| > 0 {
        assert m.db[0] in m.db;
      }
      Maps.PrependIsPrefix(m.db, m.dup, key.value, e.value);
      var prepended := m.Prepend(key.value, e.value);
      // The source's failure branch (release, AssertionError) is unreachable:
      // `prepend` always answers true.
      assert prepended;
      ReleaseRead();
      r := Ok(());
    }

    /** `mapAddLast(e)`: as `MapAddFirst`, at the tail under the next tail key. */
    method MapAddLast(e: Option<int>, ghost held: nat) returns (r: Outcome<()>)
      requires Wellformed() && held >= 1 && Accounted(held, 0)
      modifies this, m
      ensures Wellformed()
      ensures e.None? ==> r == Fail(NullPointer) && m.db == old(m.db) && Accounted(held - 1, 0)
      ensures e.Some? && old(NextTailKey()).Fail? ==> r == Fail(AssertionFailed) && m.db == old(m.db) && Accounted(held, 0)
      ensures e.Some? && old(NextTailKey()).Ok? ==>
        (r == Ok(()) && Accounted(held - 1, 0) && m.db == old(m.db) + [Pair(old(NextTailKey()).value, e.value)])
    {
      if e.None? {
        ReleaseWrites(1);
        return Fail(NullPointer);
      }
      var key := NextTailKey();
      if key.Fail? {
        return Fail(key.error);
      }
      var appended := m.Append(key.value, e.value);
      assert appended;
      ReleaseRead();
      r := Ok(());
    }

    /** `mapTakeFirst()`, called holding one read permit: removes the head and releases a write permit. */
    method MapTakeFirst() returns (v: int)
      requires Wellformed() && Accounted(0, 1)
      modifies this, m
      ensures Wellformed() && Accounted(0, 0)
      ensures old(m.db) != [] && v == old(m.db)[0].val && m.db == old(m.db)[1..]
    {
      var first := m.PollFirstEntry();
      // Holding a read permit means the map is not empty, so the source's
      // AssertionError for a null value cannot happen.
      assert first.Some?;
      ReleaseWrites(1);
      v := first.value.val;
    }

    /** `mapTakeLast()`: as `MapTakeFirst`, at the tail. */
    method MapTakeLast() returns (v: int)
      requires Wellformed() && Accounted(0, 1)
      modifies this, m
      ensures Wellformed() && Accounted(0, 0)
      ensures old(m.db) != [] && v == old(m.db)[|old(m.db)| - 1].val && m.db == old(m.db)[..|old(m.db)| - 1]
    {
      var last := m.PollLastEntry();
      assert last.Some?;
      ReleaseWrites(1);
      v := last.value.val;
    }

    // ------------------------------------------------------------------
    // Adding
    // ------------------------------------------------------------------

    /** `offerFirst(e)`: false when full; otherwise the element goes to the head. */
    method OfferFirst(e: Option<int>) returns (r: Outcome<bool>)
      requires Valid()
      modifies this, m
      ensures Wellformed()
      ensures !old(HasRoom()) ==> r == Ok(false) && m.db == old(m.db) && Valid()
      ensures old(HasRoom()) && e.None? ==> r == Fail(NullPointer) && m.db == old(m.db) && Valid()
      ensures old(HasRoom()) && e.Some? && old(NextHeadKey()).Ok? ==>
        (r == Ok(true) && Valid() && m.db == [Pair(old(NextHeadKey()).value, e.value)] + old(m.db) && Elements() == [e.value] + old(Elements()))
      ensures old(HasRoom()) && e.Some? && old(NextHeadKey()).Fail? ==> r == Fail(AssertionFailed) && m.db == old(m.db)
    {
      ghost var before := m.db;
      ghost var key := NextHeadKey();
      var ok := TryAcquireWrite();
      if !ok {
        return Ok(false);
      }
      var added := MapAddFirst(e, 1);
      if added.Fail? {
        return Fail(added.error);
      }
      ValuesOfConcat([Pair(key.value, e.value)], before);
      assert ValuesOf([Pair(key.value, e.value)]) == [e.value];
      r := Ok(true);
    }

    /** `offerLast(e)`: false when full; otherwise the element goes to the tail. */
    method OfferLast(e: Option<int>) returns (r: Outcome<bool>)
      requires Valid()
      modifies this, m
      ensures Wellformed()
      ensures !old(HasRoom()) ==> r == Ok(false) && m.db == old(m.db) && Valid()
      ensures old(HasRoom()) && e.None? ==> r == Fail(NullPointer) && m.db == old(m.db) && Valid()
      ensures old(HasRoom()) && e.Some? && old(NextTailKey()).Ok? ==>
        (r == Ok(true) && Valid() && m.db == old(m.db) + [Pair(old(NextTailKey()).value, e.value)] && Elements() == old(Elements()) + [e.value])
      ensures old(HasRoom()) && e.Some? && old(NextTailKey()).Fail? ==> r == Fail(AssertionFailed) && m.db == old(m.db)
    {
      ghost var before := m.db;
      ghost var key := NextTailKey();
      var ok := TryAcquireWrite();
      if !ok {
        return Ok(false);
      }
      var added := MapAddLast(e, 1);
      if added.Fail? {
        return Fail(added.error);
      }
      ValuesOfConcat(before, [Pair(key.value, e.value)]);
      assert ValuesOf([Pair(key.value, e.value)]) == [e.value];
      r := Ok(true);
    }

    /** `addFirst(e)` (and `push(e)`): as `offerFirst`, but IllegalStateException when full. */
    method AddFirst(e: Option<int>) returns (r: Outcome<()>)
      requires Valid()
      modifies this, m
      ensures Wellformed()
      ensures !old(HasRoom()) ==> r == Fail(IllegalState) && m.db == old(m.db) && Valid()
      ensures old(HasRoom()) && e.None? ==> r == Fail(NullPointer) && m.db == old(m.db) && Valid()
      ensures old(HasRoom()) && e.Some? && old(NextHeadKey()).Ok? ==>
        (r == Ok(()) && Valid() && m.db == [Pair(old(NextHeadKey()).value, e.value)] + old(m.db) && Elements() == [e.value] + old(Elements()))
      ensures old(HasRoom()) && e.Some? && old(NextHeadKey()).Fail? ==> r == Fail(AssertionFailed) && m.db == old(m.db)
    {
      var offered := OfferFirst(e);
      if offered.Fail? {
        return Fail(offered.error);
      }
      r := if offered.value then Ok(()) else Fail(IllegalState);
    }

    /** `addLast(e)` (and `add(e)`, which then returns true): IllegalStateException when full. */
    method AddLast(e: Option<int>) returns (r: Outcome<()>)
      requires Valid()
      modifies this, m
      ensures Wellformed()
      ensures !old(HasRoom()) ==> r == Fail(IllegalState) && m.db == old(m.db) && Valid()
      ensures old(HasRoom()) && e.None? ==> r == Fail(NullPointer) && m.db == old(m.db) && Valid()
      ensures old(HasRoom()) && e.Some? && old(NextTailKey()).Ok? ==>
        (r == Ok(()) && Valid() && m.db == old(m.db) + [Pair(old(NextTailKey()).value, e.value)] && Elements() == old(Elements()) + [e.value])
      ensures old(HasRoom()) && e.Some? && old(NextTailKey()).Fail? ==> r == Fail(AssertionFailed) && m.db == old(m.db)
    {
      var offered := OfferLast(e);
      if offered.Fail? {
        return Fail(offered.error);
      }
      r := if offered.value then Ok(()) else Fail(IllegalState);
    }

    // ------------------------------------------------------------------
    // Taking
    // ------------------------------------------------------------------

    /** `pollFirst()` (and `poll()`): the head, removed, or null when empty. */
    method PollFirst() returns (r: Option<int>)
      requires Valid()
      modifies this, m
      ensures Valid()
      ensures r.None? <==> old(Elements()) == []
      ensures r.None? ==> m.db == old(m.db)
      ensures r.Some? ==> r.value == old(Elements())[0] && m.db == old(m.db)[1..] && Elements() == old(Elements())[1..]
    {
      var ok := TryAcquireRead();
      if !ok {
        return None;
      }
      var v := MapTakeFirst();
      ValuesOfSlice(old(m.db), 1, |old(m.db)|);
      r := Some(v);
    }

    /** `pollLast()`: the tail, removed, or null when empty. */
    method PollLast() returns (r: Option<int>)
      requires Valid()
      modifies this, m
      ensures Valid()
      ensures r.None? <==> old(Elements()) == []
      ensures r.None? ==> m.db == old(m.db)
      ensures r.Some? ==>
        (r.value == old(Elements())[|old(Elements())| - 1] &&
         m.db == old(m.db)[..|old(m.db)| - 1] && Elements() == old(Elements())[..|old(Elements())| - 1])
    {
      var ok := TryAcquireRead();
      if !ok {
        return None;
      }
      var v := MapTakeLast();
      ValuesOfSlice(old(m.db), 0, |old(m.db)| - 1);
      r := Some(v);
    }

    /** `removeFirst()` (and `pop()`, `remove()`): the head, removed; NoSuchElementException when empty. */
    method RemoveFirst() returns (r: Outcome<int>)
      requires Valid()
      modifies this, m
      ensures Valid()
      ensures r.Fail? <==> old(Elements()) == []
      ensures r.Fail? ==> r.error == NoSuchElement && m.db == old(m.db)
      ensures r.Ok? ==> r.value == old(Elements())[0] && m.db == old(m.db)[1..] && Elements() == old(Elements())[1..]
    {
      var v := PollFirst();
      r := if v.None? then Fail(NoSuchElement) else Ok(v.value);
    }

    /** `removeLast()`: the tail, removed; NoSuchElementException when empty. */
    method RemoveLast() returns (r: Outcome<int>)
      requires Valid()
      modifies this, m
      ensures Valid()
      ensures r.Fail? <==> old(Elements()) == []
      ensures r.Fail? ==> r.error == NoSuchElement && m.db == old(m.db)
      ensures r.Ok? ==>
        (r.value == old(Elements())[|old(Elements())| - 1] &&
         m.db == old(m.db)[..|old(m.db)| - 1] && Elements() == old(Elements())[..|old(Elements())| - 1])
    {
      var v := PollLast();
      r := if v.None? then Fail(NoSuchElement) else Ok(v.value);
    }

    // ------------------------------------------------------------------
    // Peeking and queries
    // ------------------------------------------------------------------

    /** `peekFirst()` (and `peek()`): the head, or null when empty. */
    method PeekFirst() returns (r: Option<int>)
      requires Valid()
      ensures r.None? <==> Elements() == []
      ensures r.Some? ==> r.value == Elements()[0]
    {
      var first := m.FirstEntry();
      if first.None? {
        return None;
      }
      LeastIsFirst(m.db, first.value);
      r := Some(first.value.val);
    }

    /** `peekLast()`: the tail, or null when empty. */
    method PeekLast() returns (r: Option<int>)
      requires Valid()
      ensures r.None? <==> Elements() == []
      ensures r.Some? ==> r.value == Elements()[|Elements()| - 1]
    {
      var last := m.LastEntry();
      if last.None? {
        return None;
      }
      GreatestIsLast(m.db, last.value);
      r := Some(last.value.val);
    }

    /** `getFirst()` (and `element()`): the head; NoSuchElementException when empty. */
    method GetFirst() returns (r: Outcome<int>)
      requires Valid()
      ensures r.Fail? <==> Elements() == []
      ensures r.Fail? ==> r.error == NoSuchElement
      ensures r.Ok? ==> r.value == Elements()[0]
    {
      var first := m.FirstEntry();
      if first.None? {
        return Fail(NoSuchElement);
      }
      LeastIsFirst(m.db, first.value);
      r := Ok(first.value.val);
    }

    /** `getLast()`: the tail; NoSuchElementException when empty. */
    method GetLast() returns (r: Outcome<int>)
      requires Valid()
      ensures r.Fail? <==> Elements() == []
      ensures r.Fail? ==> r.error == NoSuchElement
      ensures r.Ok? ==> r.value == Elements()[|Elements()| - 1]
    {
      var last := m.LastEntry();
      if last.None? {
        return Fail(NoSuchElement);
      }
      GreatestIsLast(m.db, last.value);
      r := Ok(last.value.val);
    }

    /** `contains(o)`: whether some element equals `o`. */
    method Contains(o: int) returns (r: bool)
      requires Valid()
      ensures r <==> o in Elements()
    {
      r := m.ContainsValue(o);
      ValueMember(m.db, o);
    }

    /** `containsAll(c)`: through the map's values collection. */
    method ContainsAll(c: seq<int>) returns (r: bool)
      requires Valid()
      ensures r <==> forall i :: 0 <= i < |c| ==> c[i] in Elements()
    {
      var values := new Collections.ValuesCollection(m);
      r := values.ContainsAll(c);
      forall i | 0 <= i < |c| ensures Collections.HoldsValue(m.db, c[i]) <==> c[i] in Elements() {
        ValueMember(m.db, c[i]);
      }
    }

    /** `remainingCapacity()`: the free slots, Integer.MAX_VALUE when unbounded. */
    function RemainingCapacity(): (r: int)
      reads this, m
      requires Valid()
      ensures capacity == UNBOUNDED ==> r == INT_MAX
      ensures capacity != UNBOUNDED ==> r == capacity - |Elements()| && r == writePermits
      ensures r > 0 <==> HasRoom()
    {
      if capacity == UNBOUNDED then INT_MAX
      else
        var free := capacity - m.ValueCount();
        NarrowToInt(if free < INT_MAX then free else INT_MAX)
    }

    /** `size()`: the number of elements; RuntimeException beyond Integer.MAX_VALUE. */
    function Size(): (r: Outcome<int>)
      reads this, m
      requires Valid()
      ensures r.Ok? <==> |Elements()| <= INT_MAX
      ensures r.Ok? ==> r.value == |Elements()|
    {
      m.Size()
    }

    /** `isEmpty()` */
    function IsEmpty(): (r: Outcome<bool>)
      reads this, m
      requires Valid()
      ensures r.Ok? <==> |Elements()| <= INT_MAX
      ensures r.Ok? ==> (r.value <==> Elements() == [])
    {
      m.IsEmpty()
    }

    /** `toArray()`: the map's values, head first. */
    method ToArray() returns (r: Outcome<array<Option<Iteration.Item>>>)
      requires Valid()
      ensures r.Ok? <==> |Elements()| <= INT_MAX
      ensures r.Ok? ==> fresh(r.value) && r.value.Length == |Elements()|
      ensures r.Ok? ==> forall i :: 0 <= i < |Elements()| ==> r.value[i] == Some(Iteration.Value(Elements()[i]))
    {
      var values := new Collections.ValuesCollection(m);
      r := values.ToArray();
    }

    /** `removeAll(c)`: not supported. */
    function RemoveAll(c: seq<int>): (r: Outcome<bool>)
      ensures r == Fail(Unsupported)
    {
      Fail(Unsupported)
    }

    /** `retainAll(c)`: not supported. */
    function RetainAll(c: seq<int>): (r: Outcome<bool>)
      ensures r == Fail(Unsupported)
    {
      Fail(Unsupported)
    }

    // ------------------------------------------------------------------
    // Removing by value
    // ------------------------------------------------------------------

    /**
     * `removeFirstOccurrence(o)` (and `remove(o)`): takes a read permit, walks
     * the values from the head and deletes the first match, then releases a
     * write permit; with no match the read permit goes back.
     */
    method RemoveFirstOccurrence(o: int) returns (r: bool)
      requires Valid()
      modifies this, m
      ensures Valid()
      ensures r <==> o in old(Elements())
      ensures r ==> Elements() == Without(old(Elements()), FirstIndex(old(Elements()), o))
      ensures !r ==> m.db == old(m.db)
    {
      var ok := TryAcquireRead();
      if !ok {
        return false;
      }
      var j := IndexOfFirst(Elements(), o);
      if j == |m.db| {
        ReleaseRead();
        return false;
      }
      DeleteAt(j);
      r := true;
    }

    /**
     * The end of both removals by value, holding a read permit: deletes the
     * key of the pair at `at` from the map and releases a write permit.
     */
    method DeleteAt(at: nat)
      requires Wellformed() && Accounted(0, 1) && at < |m.db|
      modifies this, m
      ensures Valid()
      ensures Elements() == Without(old(Elements()), at)
    {
      RemoveKeyIsRemoveAt(m.db, at);
      var _ := m.RemoveNoPrev(m.db[at].key);
      ReleaseWrites(1);
    }

    /** `removeLastOccurrence(o)`: as `removeFirstOccurrence`, walking from the tail. */
    method RemoveLastOccurrence(o: int) returns (r: bool)
      requires Valid()
      modifies this, m
      ensures Valid()
      ensures r <==> o in old(Elements())
      ensures r ==> Elements() == Without(old(Elements()), LastIndex(old(Elements()), o))
      ensures !r ==> m.db == old(m.db)
    {
      var ok := TryAcquireRead();
      if !ok {
        return false;
      }
      var j := IndexOfLast(Elements(), o);
      if j == |m.db| {
        ReleaseRead();
        return false;
      }
      DeleteAt(j);
      r := true;
    }

    // ------------------------------------------------------------------
    // Bulk operations
    // ------------------------------------------------------------------

    /** `clear()`: polls the tail until the deque is empty. */
    method Clear()
      requires Valid()
      modifies this, m
      ensures Valid() && Elements() == []
    {
      var r := PollLast();
      while r.Some?
        invariant Valid()
        invariant r.None? ==> m.db == []
        decreases |m.db| + (if r.Some? then 1 else 0)
      {
        r := PollLast();
      }
    }

    /**
     * `addAll(c)` as written: IllegalStateException when `c.size()` is
     * Integer.MAX_VALUE, false unless `c.size()` write permits can be taken at
     * once, then `mapAddFirst` for each element in turn. A null element stops
     * the loop with NullPointerException, giving back only its own permit.
     */
    method AddAll(c: seq<Option<int>>) returns (r: Outcome<bool>)
      requires Valid()
      modifies this, m
      ensures Wellformed()
      ensures |c| >= INT_MAX ==> r == Fail(IllegalState) && m.db == old(m.db) && Valid()
      ensures |c| < INT_MAX && capacity != UNBOUNDED && capacity < |old(Elements())| + |c| ==>
        (r == Ok(false) && m.db == old(m.db) && Valid())
      ensures |c| < INT_MAX && (capacity == UNBOUNDED || |old(Elements())| + |c| <= capacity) && old(HeadRoom(|c|)) ==>
        (Elements() == Reverse(Present(c[..FirstNull(c)])) + old(Elements()) &&
         (FirstNull(c) == |c| ==> r == Ok(true) && Valid()) &&
         (FirstNull(c) < |c| ==> r == Fail(NullPointer) && Accounted(|c| - FirstNull(c) - 1, 0)))
    {
      ghost var e0 := Elements();
      ghost var b0 := HeadBase();
      ghost var roomy := HeadRoom(|c|);
      if |c| >= INT_MAX {
        return Fail(IllegalState);
      }
      var ok := TryAcquireWrites(|c|);
      if !ok {
        return Ok(false);
      }
      var i := 0;
      while i < |c|
        invariant i <= |c| && Wellformed() && Accounted(|c| - i, 0)
        invariant roomy ==> AddedAtHead(m.db, c, i, e0, b0)
      {
        var added := AddAllRound(c, i, e0, b0, roomy);
        if added.Fail? {
          return Fail(added.error);
        }
        i := i + 1;
      }
      assert c[..i] == c;
      r := Ok(true);
    }

    /** One round of `addAll` as written: `mapAddFirst(c[i])`, holding the permits of `c[i..]`. */
    method AddAllRound(c: seq<Option<int>>, i: nat, ghost e0: seq<int>, ghost b0: int, ghost roomy: bool)
      returns (r: Outcome<()>)
      requires i < |c| && Wellformed() && Accounted(|c| - i, 0)
      requires roomy ==> AddedAtHead(m.db, c, i, e0, b0)
      modifies this, m
      ensures Wellformed()
      ensures r.Ok? ==> Accounted(|c| - i - 1, 0)
      ensures roomy && r.Ok? ==> AddedAtHead(m.db, c, i + 1, e0, b0)
      ensures roomy && r.Fail? ==>
        (r == Fail(NullPointer) && FirstNull(c) == i && Accounted(|c| - i - 1, 0) && AddedAtHead(m.db, c, i, e0, b0))
    {
      ghost var before := m.db;
      r := MapAddFirst(c[i], |c| - i);
      if roomy && r.Ok? {
        AddedAtHeadStep(before, c, i, e0, b0);
      }
    }

    /**
     * `addAll(c)` as the Deque contract intends: the elements go to the tail
     * in order (as `addLast` each), and a null element gives back the permits
     * of every element not added.
     */
    method AddAllFixed(c: seq<Option<int>>) returns (r: Outcome<bool>)
      requires Valid()
      modifies this, m
      ensures Wellformed()
      ensures |c| >= INT_MAX ==> r == Fail(IllegalState) && m.db == old(m.db) && Valid()
      ensures |c| < INT_MAX && capacity != UNBOUNDED && capacity < |old(Elements())| + |c| ==>
        (r == Ok(false) && m.db == old(m.db) && Valid())
      ensures |c| < INT_MAX && (capacity == UNBOUNDED || |old(Elements())| + |c| <= capacity) && old(TailRoom(|c|)) ==>
        (Valid() && Elements() == old(Elements()) + Present(c[..FirstNull(c)]) &&
         r == (if FirstNull(c) == |c| then Ok(true) else Fail(NullPointer)))
    {
      ghost var e0 := Elements();
      ghost var b0 := TailBase();
      ghost var roomy := TailRoom(|c|);
      if |c| >= INT_MAX {
        return Fail(IllegalState);
      }
      var ok := TryAcquireWrites(|c|);
      if !ok {
        return Ok(false);
      }
      var i := 0;
      while i < |c|
        invariant i <= |c| && Wellformed() && Accounted(|c| - i, 0)
        invariant roomy ==> AddedAtTail(m.db, c, i, e0, b0)
      {
        var added := AddAllFixedRound(c, i, e0, b0, roomy);
        if added.Fail? {
          return Fail(added.error);
        }
        i := i + 1;
      }
      assert c[..i] == c;
      r := Ok(true);
    }

    /**
     * One round of the intended `addAll`: `mapAddLast(c[i])`; when it fails,
     * the permits of `c[i + 1..]` go back too.
     */
    method AddAllFixedRound(c: seq<Option<int>>, i: nat, ghost e0: seq<int>, ghost b0: int, ghost roomy: bool)
      returns (r: Outcome<()>)
      requires i < |c| && Wellformed() && Accounted(|c| - i, 0)
      requires roomy ==> AddedAtTail(m.db, c, i, e0, b0)
      modifies this, m
      ensures Wellformed()
      ensures r.Ok? ==> Accounted(|c| - i - 1, 0)
      ensures roomy && r.Ok? ==> AddedAtTail(m.db, c, i + 1, e0, b0)
      ensures roomy && r.Fail? ==>
        (r == Fail(NullPointer) && FirstNull(c) == i && Accounted(0, 0) && AddedAtTail(m.db, c, i, e0, b0))
    {
      ghost var before := m.db;
      r := MapAddLast(c[i], |c| - i);
      if r.Fail? {
        ReleaseWrites(|c| - i - 1);
      } else if roomy {
        AddedAtTailStep(before, c, i, e0, b0);
      }
    }

    /** `pollLast()`, seen as one round of draining `e0` from the tail. */
    method PollLastDraining(ghost e0: seq<int>, ghost count: int, ghost drained: seq<int>) returns (v: Option<int>)
      requires Valid() && DrainedFromTail(e0, count, drained, Elements())
      modifies this, m
      ensures Valid()
      ensures v.None? ==> count == |e0| && Elements() == []
      ensures v.Some? ==> DrainedFromTail(e0, count + 1, drained + [v.value], Elements())
    {
      ghost var cur := Elements();
      v := PollLast();
      if v.Some? {
        DrainedFromTailStep(e0, count, drained, cur);
      }
    }

    /**
     * `drainTo(c)` as written: while a read permit can be taken, moves the
     * element at the TAIL into `c` (the loop body is exactly `pollLast()`).
     */
    method DrainTo() returns (count: int, drained: seq<int>)
      requires Valid()
      modifies this, m
      ensures Valid() && Elements() == []
      ensures count == |old(Elements())| && drained == Reverse(old(Elements()))
    {
      ghost var e0 := Elements();
      count := 0;
      drained := [];
      while true
        invariant Valid() && DrainedFromTail(e0, count, drained, Elements())
        decreases |e0| - count
      {
        var v := PollLastDraining(e0, count, drained);
        if v.None? {
          break;
        }
        drained := drained + [v.value];
        count := count + 1;
      }
      assert e0[|e0| - count..] == e0;
    }

    /** `drainTo(c, max)` as written: moves up to `max` elements, taking each from the TAIL. */
    method DrainToMax(maxElements: int) returns (count: int, drained: seq<int>)
      requires Valid()
      modifies this, m
      ensures Valid()
      ensures count == if maxElements <= 0 then 0 else Min(maxElements, |old(Elements())|)
      ensures Elements() == old(Elements())[..|old(Elements())| - count]
      ensures drained == Reverse(old(Elements())[|old(Elements())| - count..])
    {
      ghost var e0 := Elements();
      count := 0;
      drained := [];
      while count < maxElements
        invariant Valid() && DrainedFromTail(e0, count, drained, Elements())
        invariant count == 0 || count <= maxElements
        decreases |e0| - count
      {
        var v := PollLastDraining(e0, count, drained);
        if v.None? {
          break;
        }
        drained := drained + [v.value];
        count := count + 1;
      }
    }

    /** `drainTo(c)` as the BlockingQueue contract intends: every element, head first. */
    method DrainToFixed() returns (count: int, drained: seq<int>)
      requires Valid()
      modifies this, m
      ensures Valid() && Elements() == []
      ensures count == |old(Elements())| && drained == old(Elements())
    {
      ghost var e0 := Elements();
      count := 0;
      drained := [];
      while true
        invariant Valid() && 0 <= count <= |e0|
        invariant Elements() == e0[count..]
        invariant drained == e0[..count]
        decreases |e0| - count
      {
        var v := PollFirst();
        if v.None? {
          break;
        }
        drained := drained + [v.value];
        count := count + 1;
      }
      assert e0[..count] == e0;
    }

    /** `drainTo(c, max)` as intended: up to `max` elements, head first, as `poll()` would give them. */
    method DrainToMaxFixed(maxElements: int) returns (count: int, drained: seq<int>)
      requires Valid()
      modifies this, m
      ensures Valid()
      ensures count == if maxElements <= 0 then 0 else Min(maxElements, |old(Elements())|)
      ensures Elements() == old(Elements())[count..]
      ensures drained == old(Elements())[..count]
    {
      ghost var e0 := Elements();
      count := 0;
      drained := [];
      while count < maxElements
        invariant Valid() && 0 <= count <= |e0|
        invariant count == 0 || count <= maxElements
        invariant Elements() == e0[count..]
        invariant drained == e0[..count]
        decreases |e0| - count
      {
        var v := PollFirst();
        if v.None? {
          assert count == |e0|;
          break;
        }
        drained := drained + [v.value];
        count := count + 1;
      }
    }
  }

  function Min(a: int, b: int): int {
    if a < b then a else b
  }

  /** The key one above which the next head insert goes. */
  ghost function HeadBaseOf(db: seq<Pair>): int {
    if db == [] then STARTING_KEY + 1 else db[0].key
  }

  /** The key one below which the next tail insert goes. */
  ghost function TailBaseOf(db: seq<Pair>): int {
    if db == [] then STARTING_KEY - 1 else db[|db| - 1].key
  }

  /**
   * After `i` rounds of `addAll` as written, starting from elements `e0` and
   * head base `b0` with room for all of `c`: the present elements of `c[..i]`
   * sit in front, last added first.
   */
  ghost predicate AddedAtHead(db: seq<Pair>, c: seq<Option<int>>, i: nat, e0: seq<int>, b0: int) {
    b0 - |c| >= LONG_MIN && i <= FirstNull(c) && i <= |c| &&
    HeadBaseOf(db) == b0 - i && ValuesOf(db) == Reverse(Present(c[..i])) + e0
  }

  /** After `i` rounds of the intended `addAll`: the present elements of `c[..i]` follow `e0` in order. */
  ghost predicate AddedAtTail(db: seq<Pair>, c: seq<Option<int>>, i: nat, e0: seq<int>, b0: int) {
    b0 + |c| <= LONG_MAX && i <= FirstNull(c) && i <= |c| &&
    TailBaseOf(db) == b0 + i && ValuesOf(db) == e0 + Present(c[..i])
  }

  lemma AddedAtHeadStep(db: seq<Pair>, c: seq<Option<int>>, i: nat, e0: seq<int>, b0: int)
    requires AddedAtHead(db, c, i, e0, b0) && i < |c| && c[i].Some?
    ensures AddedAtHead([Pair(b0 - i - 1, c[i].value)] + db, c, i + 1, e0, b0)
  {
    var v := c[i].value;
    PresentSnoc(c, i);
    ValuesOfConcat([Pair(b0 - i - 1, v)], db);
    assert ValuesOf([Pair(b0 - i - 1, v)]) == [v];
    assert ValuesOf([Pair(b0 - i - 1, v)] + db) == [v] + (Reverse(Present(c[..i])) + e0);
    assert [v] + (Reverse(Present(c[..i])) + e0) == Reverse(Present(c[..i + 1])) + e0;
  }

  lemma AddedAtTailStep(db: seq<Pair>, c: seq<Option<int>>, i: nat, e0: seq<int>, b0: int)
    requires AddedAtTail(db, c, i, e0, b0) && i < |c| && c[i].Some?
    ensures AddedAtTail(db + [Pair(b0 + i + 1, c[i].value)], c, i + 1, e0, b0)
  {
    var v := c[i].value;
    PresentSnoc(c, i);
    ValuesOfConcat(db, [Pair(b0 + i + 1, v)]);
    assert ValuesOf([Pair(b0 + i + 1, v)]) == [v];
  }

  /**
   * The removals by value walk the elements from the head: the index of the
   * first element equal to `o`, or `|vs|` when there is none.
   */
  method IndexOfFirst(vs: seq<int>, o: int) returns (j: nat)
    ensures j <= |vs|
    ensures j == |vs| <==> o !in vs
    ensures j < |vs| ==> j == FirstIndex(vs, o)
  {
    j := 0;
    while j < |vs| && vs[j] != o
      invariant j <= |vs|
      invariant forall i :: 0 <= i < j ==> vs[i] != o
    {
      j := j + 1;
    }
  }

  /** As `IndexOfFirst`, walking from the tail: the last element equal to `o`, or `|vs|`. */
  method IndexOfLast(vs: seq<int>, o: int) returns (j: nat)
    ensures j <= |vs|
    ensures j == |vs| <==> o !in vs
    ensures j < |vs| ==> j == LastIndex(vs, o)
  {
    var k := |vs|;
    while k > 0 && vs[k - 1] != o
      invariant 0 <= k <= |vs|
      invariant forall i :: k <= i < |vs| ==> vs[i] != o
    {
      k := k - 1;
    }
    j := if k == 0 then |vs| else k - 1;
  }

  /**
   * `count` elements of `e0` drained from the tail: `drained` holds them
   * last first, and `cur` is what remains.
   */
  ghost predicate DrainedFromTail(e0: seq<int>, count: int, drained: seq<int>, cur: seq<int>) {
    0 <= count <= |e0| && cur == e0[..|e0| - count] && drained == Reverse(e0[|e0| - count..])
  }

  lemma DrainedFromTailStep(e0: seq<int>, count: int, drained: seq<int>, cur: seq<int>)
    requires DrainedFromTail(e0, count, drained, cur) && cur != []
    ensures DrainedFromTail(e0, count + 1, drained + [cur[|cur| - 1]], cur[..|cur| - 1])
  {
    DrainedTail(e0, count);
  }

  /** Taking the element before an already reversed tail extends the reversal by one. */
  lemma DrainedTail(e: seq<int>, count: nat)
    requires count < |e|
    ensures Reverse(e[|e| - count - 1..]) == Reverse(e[|e| - count..]) + [e[|e| - count - 1]]
  {
    var a := Reverse(e[|e| - count - 1..]);
    var b := Reverse(e[|e| - count..]) + [e[|e| - count - 1]];
    assert |a| == |b|;
    forall i | 0 <= i < |a| ensures a[i] == b[i] {
    }
  }

  /** One more present element at the end of the prefix. */
  lemma PresentSnoc(c: seq<Option<int>>, i: nat)
    requires i < |c| && c[i].Some?
    ensures Present(c[..i + 1]) == Present(c[..i]) + [c[i].value]
    ensures Reverse(Present(c[..i + 1])) == [c[i].value] + Reverse(Present(c[..i]))
  {
    assert c[..i + 1][..i] == c[..i];
    var s := Present(c[..i]) + [c[i].value];
    assert s[..|s| - 1] == Present(c[..i]);
  }

  /**
   * `new LMDBBlockingDeque(map, capacity)` as written: rejects a map whose
   * comparator does not put Long.MIN_VALUE below Long.MAX_VALUE and a
   * capacity other than -1 or a positive number; both semaphores start as
   * if the map were empty.
   */
  method NewDeque(backing: Maps.MapImpl, capacity: int, keys: Serializers.Format) returns (r: Outcome<BlockingDeque>)
    requires backing.Valid() && !backing.dup && forall p :: p in backing.db ==> IsLong(p.key)
    requires keys.Long? || keys.UnsignedLong?
    requires INT_MIN <= capacity <= INT_MAX
    ensures r.Fail? <==> keys.UnsignedLong? || capacity < -1 || capacity == 0
    ensures r.Fail? ==> r.error == IllegalArgument
    ensures r.Ok? ==> fresh(r.value) && r.value.m == backing && r.value.capacity == capacity && r.value.Wellformed()
    ensures r.Ok? ==> r.value.readPermits == 0 && r.value.writePermits == (if capacity == UNBOUNDED then 0 else capacity)
    ensures r.Ok? ==> (r.value.Valid() <==> backing.db == [])
  {
    if !OrdersLongs(keys) {
      return Fail(IllegalArgument);
    }
    if capacity < -1 || capacity == 0 {
      return Fail(IllegalArgument);
    }
    var d := new BlockingDeque(backing, capacity, 0, if capacity == UNBOUNDED then 0 else capacity);
    r := Ok(d);
  }

  /**
   * The constructor as intended for a map that already holds elements (a
   * queue reopened from its database file): the permits start from what is
   * stored, and a map holding more than the capacity is rejected.
   */
  method NewDequeFixed(backing: Maps.MapImpl, capacity: int, keys: Serializers.Format) returns (r: Outcome<BlockingDeque>)
    requires backing.Valid() && !backing.dup && forall p :: p in backing.db ==> IsLong(p.key)
    requires keys.Long? || keys.UnsignedLong?
    requires INT_MIN <= capacity <= INT_MAX
    ensures r.Fail? <==> keys.UnsignedLong? || capacity < -1 || capacity == 0 || (capacity > 0 && |backing.db| > capacity)
    ensures r.Fail? ==> r.error == IllegalArgument
    ensures r.Ok? ==> fresh(r.value) && r.value.m == backing && r.value.capacity == capacity && r.value.Valid()
  {
    if !OrdersLongs(keys) {
      return Fail(IllegalArgument);
    }
    if capacity < -1 || capacity == 0 {
      return Fail(IllegalArgument);
    }
    var size := backing.ValueCount();
    if capacity != UNBOUNDED && size > capacity {
      return Fail(IllegalArgument);
    }
    var d := new BlockingDeque(backing, capacity, size, if capacity == UNBOUNDED then 0 else capacity - size);
    r := Ok(d);
  }

  /**
   * The constructor's comparator check: the key comparator must put
   * Long.MIN_VALUE below Long.MAX_VALUE. It holds for the Long serializer
   * and fails for UnsignedLong.
   */
  function OrdersLongs(keys: Serializers.Format): (ok: bool)
    requires keys.Long? || keys.UnsignedLong?
    ensures ok <==> keys.Long?
  {
    KeyOrderCheck(keys);
    Serializers.IntegerKeyCompare(keys, LONG_MIN, LONG_MAX) < 0
  }

  /** The constructor's comparator check accepts the Long serializer and rejects UnsignedLong. */
  lemma KeyOrderCheck(keys: Serializers.Format)
    requires keys.Long? || keys.UnsignedLong?
    ensures Serializers.IntegerKeyCompare(keys, LONG_MIN, LONG_MAX) >= 0 <==> keys.UnsignedLong?
  {
    if keys.Long? {
      Serializers.SignedKeyOrder(keys, LONG_MIN, LONG_MAX);
    } else {
      Serializers.UnsignedMinAfterMax(keys);
    }
  }

  // ------------------------------------------------------------------
  // Scenarios
  // ------------------------------------------------------------------

  /** An empty map with unique keys, as the deque's backing store. */
  method EmptyBacking() returns (mp: Maps.MapImpl)
    ensures fresh(mp) && mp.Valid() && !mp.dup && mp.db == []
  {
    var e := new Environment.Env();
    mp := new Maps.MapImpl(e, false);
  }

  /** A deque over an unsigned-long keyed map is refused. */
  method UnsignedKeysRejectedScenario() returns (failed: bool, error: Exn)
    ensures failed && error == IllegalArgument
  {
    var mp := EmptyBacking();
    var made := NewDeque(mp, UNBOUNDED, Serializers.UnsignedLong);
    failed := made.Fail?;
    error := if made.Fail? then made.error else AssertionFailed;
  }

  /** An empty unbounded deque: removeFirst fails, pollLast and peekFirst give null, the size is 0. */
  method UnboundedEmptyScenario() returns (empty: Outcome<int>, polled: Option<int>, head: Option<int>,
                                            size: Outcome<int>, room: int)
    ensures empty == Fail(NoSuchElement) && polled == None && head == None && size == Ok(0) && room == INT_MAX
  {
    var mp := EmptyBacking();
    var made := NewDeque(mp, UNBOUNDED, Serializers.Long);
    var q := made.value;
    empty := q.RemoveFirst();
    polled := q.PollLast();
    head := q.PeekFirst();
    size := q.Size();
    room := q.RemainingCapacity();
  }

  /** An unbounded deque: addFirst then addLast give head and tail. */
  method UnboundedBasicsScenario() returns (head: Option<int>, tail: Option<int>, size: Outcome<int>)
    ensures head == Some(1) && tail == Some(2) && size == Ok(2)
  {
    var mp := EmptyBacking();
    var made := NewDeque(mp, UNBOUNDED, Serializers.Long);
    var q := made.value;
    var _ := q.AddFirst(Some(1));
    var _ := q.AddLast(Some(2));
    head := q.PeekFirst();
    tail := q.PeekLast();
    size := q.Size();
  }

  /** An unbounded deque holding 1 then 2: removeFirst takes 1, which is then no longer contained. */
  method UnboundedRemoveScenario() returns (removed: Outcome<int>, stillThere: bool, left: seq<int>)
    ensures removed == Ok(1) && !stillThere && left == [2]
  {
    var mp := EmptyBacking();
    var made := NewDeque(mp, UNBOUNDED, Serializers.Long);
    var q := made.value;
    var _ := q.AddLast(Some(1));
    var _ := q.AddLast(Some(2));
    removed := q.RemoveFirst();
    stillThere := q.Contains(1);
    left := q.Elements();
  }

  /** A deque of capacity 1: once full, add fails and offer gives false; a removal frees the slot. */
  method BoundedBasicsScenario() returns (room0: int, room1: int, full: Outcome<()>, offered: Outcome<bool>,
                                           removed: Outcome<int>, room2: int)
    ensures room0 == 1 && room1 == 0 && full == Fail(IllegalState) && offered == Ok(false)
    ensures removed == Ok(1) && room2 == 1
  {
    var mp := EmptyBacking();
    var made := NewDeque(mp, 1, Serializers.Long);
    var q := made.value;
    room0 := q.RemainingCapacity();
    var _ := q.AddFirst(Some(1));
    room1 := q.RemainingCapacity();
    full := q.AddLast(Some(9));
    offered := q.OfferFirst(Some(9));
    removed := q.RemoveFirst();
    room2 := q.RemainingCapacity();
  }

  /** Finding: after add(1), add(2), `drainTo(c, 1)` moves 2, where `poll()` would give 1. */
  method DrainToTakesTailScenario() returns (drained: seq<int>, left: seq<int>)
    ensures drained == [2] && left == [1]
  {
    var mp := EmptyBacking();
    var made := NewDeque(mp, UNBOUNDED, Serializers.Long);
    var q := made.value;
    var _ := q.AddLast(Some(1));
    var _ := q.AddLast(Some(2));
    var _, d := q.DrainToMax(1);
    drained := d;
    left := q.Elements();
  }

  /** The intended `drainTo(c, 1)` on the same deque moves the head, 1. */
  method DrainToFixedScenario() returns (drained: seq<int>, left: seq<int>)
    ensures drained == [1] && left == [2]
  {
    var mp := EmptyBacking();
    var made := NewDeque(mp, UNBOUNDED, Serializers.Long);
    var q := made.value;
    var _ := q.AddLast(Some(1));
    var _ := q.AddLast(Some(2));
    var _, d := q.DrainToMaxFixed(1);
    drained := d;
    left := q.Elements();
  }

  /** Finding: `addAll([1, 2])` on an empty deque stores them head first in reverse, [2, 1]. */
  method AddAllReversesScenario() returns (r: Outcome<bool>, contents: seq<int>)
    ensures r == Ok(true) && contents == [2, 1]
  {
    var mp := EmptyBacking();
    var made := NewDeque(mp, UNBOUNDED, Serializers.Long);
    var q := made.value;
    var c := [Some(1), Some(2)];
    assert FirstNull(c) == 2 && c[..2] == c;
    assert Present(c) == [1, 2] by {
      assert c[..1] == [Some(1)];
    }
    r := q.AddAll(c);
    contents := q.Elements();
  }

  /** The intended `addAll([1, 2])` appends them in order. */
  method AddAllFixedScenario() returns (r: Outcome<bool>, contents: seq<int>)
    ensures r == Ok(true) && contents == [1, 2]
  {
    var mp := EmptyBacking();
    var made := NewDeque(mp, UNBOUNDED, Serializers.Long);
    var q := made.value;
    var c := [Some(1), Some(2)];
    assert FirstNull(c) == 2 && c[..2] == c;
    assert Present(c) == [1, 2] by {
      assert c[..1] == [Some(1)];
    }
    r := q.AddAllFixed(c);
    contents := q.Elements();
  }

  /**
   * Finding: `addAll([1, null, 2])` on an empty deque of capacity 3 throws
   * NullPointerException holding one element and one write permit: a slot
   * is lost, so two more elements no longer fit.
   */
  method AddAllLeaksPermitScenario() returns (r: Outcome<bool>, contents: seq<int>, permits: int, twoFit: bool)
    ensures r == Fail(NullPointer) && contents == [1] && permits == 1 && !twoFit
  {
    var mp := EmptyBacking();
    var made := NewDeque(mp, 3, Serializers.Long);
    var q := made.value;
    var c := [Some(1), None, Some(2)];
    assert FirstNull(c) == 1 && c[..1] == [Some(1)];
    r := q.AddAll(c);
    contents := q.Elements();
    permits := q.writePermits;
    twoFit := q.TryAcquireWrites(2);
  }

  /** The intended `addAll([1, null, 2])` gives back every unused permit: two slots stay free. */
  method AddAllReleasesPermitsScenario() returns (r: Outcome<bool>, contents: seq<int>, room: int)
    ensures r == Fail(NullPointer) && contents == [1] && room == 2
  {
    var mp := EmptyBacking();
    var made := NewDeque(mp, 3, Serializers.Long);
    var q := made.value;
    var c := [Some(1), None, Some(2)];
    assert FirstNull(c) == 1 && c[..1] == [Some(1)];
    r := q.AddAllFixed(c);
    contents := q.Elements();
    room := q.RemainingCapacity();
  }

  /**
   * Finding: a deque opened over a map that already holds an element starts
   * with no read permit, so `pollFirst()` finds nothing to take while the
   * element is there, and the full capacity is offered for writes.
   */
  method ReopenedDequeScenario() returns (contents: seq<int>, canTake: bool, permits: int)
    ensures contents == [7] && !canTake && permits == 1
  {
    var mp := EmptyBacking();
    var _ := mp.Append(0, 7);
    var made := NewDeque(mp, 1, Serializers.Long);
    var q := made.value;
    contents := q.Elements();
    permits := q.writePermits;
    canTake := q.TryAcquireRead();
  }

  /** The intended constructor counts the stored element: pollFirst() takes it. */
  method ReopenedDequeFixedScenario() returns (polled: Option<int>, room: int)
    ensures polled == Some(7) && room == 1
  {
    var mp := EmptyBacking();
    var _ := mp.Append(0, 7);
    var made := NewDequeFixed(mp, 1, Serializers.Long);
    var q := made.value;
    polled := q.PollFirst();
    room := q.RemainingCapacity();
  }
}
