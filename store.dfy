// The native ordered store that the Java library reaches through JNR-FFI.
// A database is a strictly increasing sequence of key/value pairs, ordered by
// key and then by value; in a database without duplicates every key occurs
// once. The functions here state the store's contract as the Java code uses
// it (cursor positioning, put, delete); they are not Java code themselves.

module Store {
  import opened Common

  datatype Pair = Pair(key: int, val: int)

  /** The store's order on pairs: by key, then by duplicate value. */
  predicate Lt(a: Pair, b: Pair) {
    a.key < b.key || (a.key == b.key && a.val < b.val)
  }

  predicate Sorted(db: seq<Pair>) {
    forall i, j :: 0 <= i < j < |db| ==> Lt(db[i], db[j])
  }

  predicate UniqueKeys(db: seq<Pair>) {
    forall i, j :: 0 <= i < j < |db| ==> db[i].key < db[j].key
  }

  /** A well-formed database; `dup` is the MDB_DUPSORT flag. */
  predicate Wf(db: seq<Pair>, dup: bool) {
    Sorted(db) && (!dup ==> UniqueKeys(db))
  }

  predicate HasKey(db: seq<Pair>, k: int) {
    exists i :: 0 <= i < |db| && db[i].key == k
  }

  function Keys(db: seq<Pair>): set<int> {
    set p | p in db :: p.key
  }

  // ---------------------------------------------------------------------
  // Binary-search positions
  // ---------------------------------------------------------------------

  /** Index of the first pair whose key is at least k; |db| if none. */
  function KeyLowerBound(db: seq<Pair>, k: int): (i: nat)
    requires Sorted(db)
    ensures i <= |db|
    ensures forall j :: 0 <= j < i ==> db[j].key < k
    ensures forall j :: i <= j < |db| ==> db[j].key >= k
  {
    if |db| == 0 || db[0].key >= k then 0 else 1 + KeyLowerBound(db[1..], k)
  }

  /** Index of the first pair whose key is greater than k; |db| if none. */
  function KeyUpperBound(db: seq<Pair>, k: int): (i: nat)
    requires Sorted(db)
    ensures i <= |db|
    ensures forall j :: 0 <= j < i ==> db[j].key <= k
    ensures forall j :: i <= j < |db| ==> db[j].key > k
  {
    if |db| == 0 || db[0].key > k then 0 else 1 + KeyUpperBound(db[1..], k)
  }

  /** Index of the first pair not below p in the store's order; |db| if none. */
  function PairLowerBound(db: seq<Pair>, p: Pair): (i: nat)
    requires Sorted(db)
    ensures i <= |db|
    ensures forall j :: 0 <= j < i ==> Lt(db[j], p)
    ensures forall j :: i <= j < |db| ==> !Lt(db[j], p)
  {
    if |db| == 0 || !Lt(db[0], p) then 0 else 1 + PairLowerBound(db[1..], p)
  }

  /** The pairs of key k sit between the two bounds. */
  lemma {:induction false} BoundsOrdered(db: seq<Pair>, k: int)
    requires Sorted(db)
    ensures KeyLowerBound(db, k) <= KeyUpperBound(db, k)
  {
    if |db| > 0 && db[0].key < k {
      BoundsOrdered(db[1..], k);
    }
  }

  /** k is present exactly when its run between the two bounds is not empty. */
  lemma HasKeyRun(db: seq<Pair>, k: int)
    requires Sorted(db)
    ensures HasKey(db, k) <==> KeyLowerBound(db, k) < |db| && db[KeyLowerBound(db, k)].key == k
    ensures HasKey(db, k) <==> KeyUpperBound(db, k) > 0 && db[KeyUpperBound(db, k) - 1].key == k
  {
    var lo, hi := KeyLowerBound(db, k), KeyUpperBound(db, k);
    BoundsOrdered(db, k);
    if HasKey(db, k) {
      var j :| 0 <= j < |db| && db[j].key == k;
      assert lo <= j < hi;
    }
  }

  /** The value `mdb_get` returns for k: the first (smallest) duplicate. */
  function Lookup(db: seq<Pair>, k: int): (r: Option<int>)
    requires Sorted(db)
    ensures r.Some? <==> HasKey(db, k)
    ensures r.Some? ==> Pair(k, r.value) in db
    ensures r.Some? ==> forall p :: p in db && p.key == k ==> r.value <= p.val
  {
    var i := KeyLowerBound(db, k);
    if i < |db| && db[i].key == k then Some(db[i].val) else None
  }

  /** In a database without duplicates, `Lookup` is exactly membership. */
  lemma LookupUnique(db: seq<Pair>, k: int, v: int)
    requires Wf(db, false)
    ensures Lookup(db, k) == Some(v) <==> Pair(k, v) in db
  {
    if Pair(k, v) in db {
      var j :| 0 <= j < |db| && db[j] == Pair(k, v);
      var i := KeyLowerBound(db, k);
      assert i <= j;
    }
  }

  /** KeyLowerBound is the one index that splits the keys below k from the rest. */
  lemma {:induction false} KeyLowerBoundIs(db: seq<Pair>, k: int, i: nat)
    requires Sorted(db) && i <= |db|
    requires forall j :: 0 <= j < i ==> db[j].key < k
    requires forall j :: i <= j < |db| ==> db[j].key >= k
    ensures KeyLowerBound(db, k) == i
  {
    if |db| > 0 && db[0].key < k {
      KeyLowerBoundIs(db[1..], k, i - 1);
    }
  }

  /** KeyUpperBound is the one index that splits the keys up to k from the rest. */
  lemma {:induction false} KeyUpperBoundIs(db: seq<Pair>, k: int, i: nat)
    requires Sorted(db) && i <= |db|
    requires forall j :: 0 <= j < i ==> db[j].key <= k
    requires forall j :: i <= j < |db| ==> db[j].key > k
    ensures KeyUpperBound(db, k) == i
  {
    if |db| > 0 && db[0].key <= k {
      KeyUpperBoundIs(db[1..], k, i - 1);
    }
  }

  /** PairLowerBound is the one index that splits the pairs below p from the rest. */
  lemma {:induction false} PairLowerBoundIs(db: seq<Pair>, p: Pair, i: nat)
    requires Sorted(db) && i <= |db|
    requires forall j :: 0 <= j < i ==> Lt(db[j], p)
    requires forall j :: i <= j < |db| ==> !Lt(db[j], p)
    ensures PairLowerBound(db, p) == i
  {
    if |db| > 0 && Lt(db[0], p) {
      PairLowerBoundIs(db[1..], p, i - 1);
    }
  }

  /** The position of a stored pair. */
  function IndexOf(db: seq<Pair>, p: Pair): (i: nat)
    requires Sorted(db) && p in db
    ensures i < |db| && db[i] == p
    ensures i == PairLowerBound(db, p)
  {
    var i := PairLowerBound(db, p);
    var j :| 0 <= j < |db| && db[j] == p;
    assert i <= j;
    assert !Lt(db[i], db[j]);
    i
  }

  /**
   * When no duplicate of k is at least v, the search for (k, v) stops just
   * past the last duplicate of k.
   */
  lemma LastDupOfKey(db: seq<Pair>, k: int, v: int)
    requires Sorted(db)
    requires DupCeilingEntry(db, k, v).None?
    ensures PairLowerBound(db, Pair(k, v)) == KeyUpperBound(db, k)
  {
    var u := KeyUpperBound(db, k);
    forall j | 0 <= j < u ensures Lt(db[j], Pair(k, v)) {
      assert Pair(db[j].key, db[j].val) in db;
    }
    PairLowerBoundIs(db, Pair(k, v), u);
  }

  /** A run of one key, starting after all smaller keys, adds exactly that key. */
  lemma KeysOfRun(db: seq<Pair>, j: nat, u: nat)
    requires Sorted(db) && j < u <= |db|
    requires forall x :: 0 <= x < j ==> db[x].key < db[j].key
    requires forall x :: j <= x < u ==> db[x].key == db[j].key
    ensures Keys(db[..u]) == Keys(db[..j]) + {db[j].key}
    ensures db[j].key !in Keys(db[..j])
  {
    assert db[..u] == db[..j] + db[j..u];
    forall q | q in db[j..u] ensures q.key == db[j].key {
      var x :| 0 <= x < u - j && db[j..u][x] == q;
      assert db[j + x] == q;
    }
    assert db[j] in db[..u];
  }

  /** The keys up to the end of the next key's run gain exactly that key. */
  lemma KeysNextRun(db: seq<Pair>, k: int, u: nat)
    requires Sorted(db) && u == KeyUpperBound(db, k) && u < |db|
    ensures u < KeyUpperBound(db, db[u].key)
    ensures Keys(db[..KeyUpperBound(db, db[u].key)]) == Keys(db[..u]) + {db[u].key}
    ensures |Keys(db[..KeyUpperBound(db, db[u].key)])| == |Keys(db[..u])| + 1
  {
    KeysOfRun(db, u, KeyUpperBound(db, db[u].key));
  }

  // ---------------------------------------------------------------------
  // Navigation, as the NavigableMap contract states it
  // ---------------------------------------------------------------------

  /** The least pair whose key is at least k. */
  function CeilingEntry(db: seq<Pair>, k: int): (r: Option<Pair>)
    requires Sorted(db)
    ensures r.Some? <==> exists p :: p in db && p.key >= k
    ensures r.Some? ==> r.value in db && r.value.key >= k
    ensures r.Some? ==> forall p :: p in db && p.key >= k ==> p == r.value || Lt(r.value, p)
  {
    var i := KeyLowerBound(db, k);
    if i < |db| then Some(db[i]) else None
  }

  /**
   * Some stored key is at least k. The cursor's `floor` and `lower` start
   * from the ceiling of k, so as written they answer only when this holds.
   */
  predicate KeyAtLeast(db: seq<Pair>, k: int) {
    exists p :: p in db && p.key >= k
  }

  /** The least pair whose key is greater than k. */
  function HigherEntry(db: seq<Pair>, k: int): (r: Option<Pair>)
    requires Sorted(db)
    ensures r.Some? <==> exists p :: p in db && p.key > k
    ensures r.Some? ==> r.value in db && r.value.key > k
    ensures r.Some? ==> forall p :: p in db && p.key > k ==> p == r.value || Lt(r.value, p)
  {
    var i := KeyUpperBound(db, k);
    if i < |db| then Some(db[i]) else None
  }

  /** The greatest pair whose key is less than k. */
  function LowerEntry(db: seq<Pair>, k: int): (r: Option<Pair>)
    requires Sorted(db)
    ensures r.Some? <==> exists p :: p in db && p.key < k
    ensures r.Some? ==> r.value in db && r.value.key < k
    ensures r.Some? ==> forall p :: p in db && p.key < k ==> p == r.value || Lt(p, r.value)
  {
    var i := KeyLowerBound(db, k);
    if i > 0 then Some(db[i - 1]) else None
  }

  /**
   * A pair with the greatest key not above k: the first duplicate when k
   * itself is stored (where the cursor lands on an exact match), otherwise
   * the lower entry.
   */
  function FloorEntry(db: seq<Pair>, k: int): (r: Option<Pair>)
    requires Sorted(db)
    ensures r.Some? <==> exists p :: p in db && p.key <= k
    ensures r.Some? ==> r.value in db && r.value.key <= k
    ensures r.Some? ==> forall p :: p in db && p.key <= k ==> p.key <= r.value.key
    ensures HasKey(db, k) ==> r == CeilingEntry(db, k)
    ensures !HasKey(db, k) ==> r == LowerEntry(db, k)
  {
    var i := KeyLowerBound(db, k);
    if i < |db| && db[i].key == k then Some(db[i]) else LowerEntry(db, k)
  }

  /** Among the duplicates of k, the least value at least v. */
  function DupCeilingEntry(db: seq<Pair>, k: int, v: int): (r: Option<Pair>)
    requires Sorted(db)
    ensures r.Some? <==> exists w :: Pair(k, w) in db && w >= v
    ensures r.Some? ==> r.value in db && r.value.key == k && r.value.val >= v
    ensures r.Some? ==> forall w :: Pair(k, w) in db && w >= v ==> r.value.val <= w
  {
    var i := PairLowerBound(db, Pair(k, v));
    if i < |db| && db[i].key == k then Some(db[i]) else None
  }

  /** Among the duplicates of k, the least value greater than v. */
  function DupHigherEntry(db: seq<Pair>, k: int, v: int): (r: Option<Pair>)
    requires Sorted(db)
    ensures r.Some? <==> exists w :: Pair(k, w) in db && w > v
    ensures r.Some? ==> r.value in db && r.value.key == k && r.value.val > v
    ensures r.Some? ==> forall w :: Pair(k, w) in db && w > v ==> r.value.val <= w
  {
    var i := PairLowerBound(db, Pair(k, v));
    var j := if i < |db| && db[i] == Pair(k, v) then i + 1 else i;
    if j < |db| && db[j].key == k then Some(db[j]) else None
  }

  /** Among the duplicates of k, the greatest value at most v. */
  function DupFloorEntry(db: seq<Pair>, k: int, v: int): (r: Option<Pair>)
    requires Sorted(db)
    ensures r.Some? <==> exists w :: Pair(k, w) in db && w <= v
    ensures r.Some? ==> r.value in db && r.value.key == k && r.value.val <= v
    ensures r.Some? ==> forall w :: Pair(k, w) in db && w <= v ==> w <= r.value.val
  {
    var i := PairLowerBound(db, Pair(k, v));
    if i < |db| && db[i] == Pair(k, v) then Some(db[i])
    else if i > 0 && db[i - 1].key == k then Some(db[i - 1])
    else None
  }

  /** Among the duplicates of k, the greatest value less than v. */
  function DupLowerEntry(db: seq<Pair>, k: int, v: int): (r: Option<Pair>)
    requires Sorted(db)
    ensures r.Some? <==> exists w :: Pair(k, w) in db && w < v
    ensures r.Some? ==> r.value in db && r.value.key == k && r.value.val < v
    ensures r.Some? ==> forall w :: Pair(k, w) in db && w < v ==> w <= r.value.val
  {
    var i := PairLowerBound(db, Pair(k, v));
    if i > 0 && db[i - 1].key == k then Some(db[i - 1]) else None
  }

  // ---------------------------------------------------------------------
  // Cursor positioning (`mdb_cursor_get`)
  // ---------------------------------------------------------------------

  /**
   * Where a cursor stands: not positioned, on the pair at index i, or in the
   * gap at index i left by deleting a pair with the given key (the next
   * forward move lands on index i without skipping it).
   */
  datatype Pos = Unset | At(i: nat) | Gap(i: nat, key: int)

  predicate PosOk(db: seq<Pair>, pos: Pos) {
    match pos
    case Unset => true
    case At(i) => i < |db|
    case Gap(i, _) => i <= |db|
  }

  /** The `MDB_cursor_op` values the library uses. */
  datatype Op =
    | First | Last | Next | Prev
    | FirstDup | LastDup | NextDup | PrevDup | NextNoDup | PrevNoDup
    | Set(k: int) | SetRange(k: int) | GetBoth(k: int, v: int) | GetBothRange(k: int, v: int)

  /** Operations that position the cursor from scratch. */
  predicate Absolute(op: Op) {
    op.First? || op.Last? || op.Set? || op.SetRange? || op.GetBoth? || op.GetBothRange?
  }

  /** The key a positioned cursor refers to. */
  function PosKey(db: seq<Pair>, pos: Pos): int
    requires PosOk(db, pos) && !pos.Unset?
  {
    if pos.At? then db[pos.i].key else pos.key
  }

  /** The index an operation lands on, or None for MDB_NOTFOUND. */
  function Target(db: seq<Pair>, pos: Pos, op: Op): (r: Option<nat>)
    requires Sorted(db) && PosOk(db, pos)
    ensures r.Some? ==> r.value < |db|
  {
    match op
    case First => if |db| > 0 then Some(0) else None
    case Last => if |db| > 0 then Some(|db| - 1) else None
    case Set(k) =>
      var i := KeyLowerBound(db, k);
      if i < |db| && db[i].key == k then Some(i) else None
    case SetRange(k) =>
      var i := KeyLowerBound(db, k);
      if i < |db| then Some(i) else None
    case GetBoth(k, v) =>
      var i := PairLowerBound(db, Pair(k, v));
      if i < |db| && db[i] == Pair(k, v) then Some(i) else None
    case GetBothRange(k, v) =>
      var i := PairLowerBound(db, Pair(k, v));
      if i < |db| && db[i].key == k then Some(i) else None
    case Next =>
      (match pos
       case Unset => if |db| > 0 then Some(0) else None
       case At(i) => if i + 1 < |db| then Some(i + 1) else None
       case Gap(i, _) => if i < |db| then Some(i) else None)
    case Prev =>
      (match pos
       case Unset => if |db| > 0 then Some(|db| - 1) else None
       case At(i) => if i > 0 then Some(i - 1) else None
       case Gap(i, _) => if i > 0 then Some(i - 1) else None)
    case NextNoDup =>
      if pos.Unset? then (if |db| > 0 then Some(0) else None)
      else
        var j := KeyUpperBound(db, PosKey(db, pos));
        if j < |db| then Some(j) else None
    case PrevNoDup =>
      if pos.Unset? then (if |db| > 0 then Some(|db| - 1) else None)
      else
        var j := KeyLowerBound(db, PosKey(db, pos));
        if j > 0 then Some(j - 1) else None
    case NextDup =>
      (match pos
       case Unset => if |db| > 0 then Some(0) else None
       case At(i) => if i + 1 < |db| && db[i + 1].key == db[i].key then Some(i + 1) else None
       case Gap(i, k) => if i < |db| && db[i].key == k then Some(i) else None)
    case PrevDup =>
      (match pos
       case Unset => if |db| > 0 then Some(|db| - 1) else None
       case At(i) => if i > 0 && db[i - 1].key == db[i].key then Some(i - 1) else None
       case Gap(i, k) => if i > 0 && db[i - 1].key == k then Some(i - 1) else None)
    case FirstDup =>
      if pos.Unset? then None
      else
        var k := PosKey(db, pos);
        var j := KeyLowerBound(db, k);
        if j < |db| && db[j].key == k then Some(j) else None
    case LastDup =>
      if pos.Unset? then None
      else
        var k := PosKey(db, pos);
        var j := KeyUpperBound(db, k);
        if j > 0 && db[j - 1].key == k then Some(j - 1) else None
  }

  /** The pair an operation returns and where it leaves the cursor. */
  function Step(db: seq<Pair>, pos: Pos, op: Op): (r: (Option<Pair>, Pos))
    requires Sorted(db) && PosOk(db, pos)
    ensures PosOk(db, r.1)
    ensures r.0.Some? ==> r.1.At? && r.0.value == db[r.1.i]
    ensures r.0.None? ==> r.1 == (if Absolute(op) then Unset else pos)
  {
    var t := Target(db, pos, op);
    if t.Some? then (Some(db[t.value]), At(t.value))
    else (None, if Absolute(op) then Unset else pos)
  }

  // ---------------------------------------------------------------------
  // Updates (`mdb_put`, `mdb_del`, `mdb_cursor_del`)
  // ---------------------------------------------------------------------

  /** Inserting a pair keeps the database sorted; inserting a present pair changes nothing. */
  function Insert(db: seq<Pair>, p: Pair): (r: seq<Pair>)
    requires Sorted(db)
    ensures Sorted(r)
    ensures forall q :: q in r <==> q in db || q == p
    ensures p in db ==> r == db
  {
    var i := PairLowerBound(db, p);
    if i < |db| && db[i] == p then db
    else
      var r := db[..i] + [p] + db[i..];
      assert forall a, b :: 0 <= a < b < |r| ==> Lt(r[a], r[b]) by {
        forall a, b | 0 <= a < b < |r| ensures Lt(r[a], r[b]) {
          if b < i { assert r[a] == db[a] && r[b] == db[b]; }
          else if b == i { assert r[a] == db[a]; }
          else if a < i { assert r[a] == db[a] && r[b] == db[b - 1]; }
          else if a == i { assert r[b] == db[b - 1]; }
          else { assert r[a] == db[a - 1] && r[b] == db[b - 1]; }
        }
      }
      assert forall q :: q in r <==> q in db || q == p by {
        assert db == db[..i] + db[i..];
      }
      r
  }

  /** Deleting the pair at index i. */
  function RemoveAt(db: seq<Pair>, i: nat): (r: seq<Pair>)
    requires Sorted(db) && i < |db|
    ensures Sorted(r) && |r| == |db| - 1
    ensures forall q :: q in r <==> q in db && q != db[i]
    ensures forall j :: 0 <= j < i ==> r[j] == db[j]
    ensures forall j :: i <= j < |r| ==> r[j] == db[j + 1]
  {
    var r := db[..i] + db[i + 1..];
    assert forall q :: q in db <==> q in r || q == db[i] by {
      assert db == db[..i] + [db[i]] + db[i + 1..];
    }
    forall q | q in r ensures q != db[i] {
      var j :| 0 <= j < |r| && r[j] == q;
      if j < i { assert Lt(db[j], db[i]); } else { assert Lt(db[i], db[j + 1]); }
    }
    r
  }

  /** Deleting every pair of key k (`mdb_del` without data). */
  function RemoveKey(db: seq<Pair>, k: int): (r: seq<Pair>)
    requires Sorted(db)
    ensures Sorted(r)
    ensures forall q :: q in r <==> q in db && q.key != k
    ensures UniqueKeys(db) ==> UniqueKeys(r)
  {
    var lo := KeyLowerBound(db, k);
    var hi := KeyUpperBound(db, k);
    BoundsOrdered(db, k);
    var r := db[..lo] + db[hi..];
    assert forall q :: q in r <==> q in db && q.key != k by {
      RemoveKeyMembers(db, k, lo, hi);
    }
    assert Sorted(r) && (UniqueKeys(db) ==> UniqueKeys(r)) by {
      SliceOutOrdered(db, lo, hi);
    }
    r
  }

  lemma SliceOutOrdered(db: seq<Pair>, lo: nat, hi: nat)
    requires Sorted(db) && lo <= hi <= |db|
    ensures Sorted(db[..lo] + db[hi..])
    ensures UniqueKeys(db) ==> UniqueKeys(db[..lo] + db[hi..])
  {
    var r := db[..lo] + db[hi..];
    forall a, b | 0 <= a < b < |r| ensures Lt(r[a], r[b]) && (UniqueKeys(db) ==> r[a].key < r[b].key) {
      var x := if a < lo then a else a + hi - lo;
      var y := if b < lo then b else b + hi - lo;
      assert r[a] == db[x] && r[b] == db[y] && x < y;
    }
  }

  lemma RemoveKeyMembers(db: seq<Pair>, k: int, lo: nat, hi: nat)
    requires Sorted(db) && lo == KeyLowerBound(db, k) && hi == KeyUpperBound(db, k) && lo <= hi
    ensures forall q :: q in db[..lo] + db[hi..] <==> q in db && q.key != k
  {
    forall q | q in db[..lo] + db[hi..] ensures q in db && q.key != k {
      RemoveKeyKept(db, k, lo, hi, q);
    }
    forall q | q in db && q.key != k ensures q in db[..lo] + db[hi..] {
      var j :| 0 <= j < |db| && db[j] == q;
      RemoveKeyOther(db, k, lo, hi, j);
    }
  }

  lemma RemoveKeyKept(db: seq<Pair>, k: int, lo: nat, hi: nat, q: Pair)
    requires Sorted(db) && lo == KeyLowerBound(db, k) && hi == KeyUpperBound(db, k) && lo <= hi
    requires q in db[..lo] + db[hi..]
    ensures q in db && q.key != k
  {
    var r := db[..lo] + db[hi..];
    var a :| 0 <= a < |r| && r[a] == q;
    if a < lo { assert q == db[a]; } else { assert q == db[a + hi - lo]; }
  }

  lemma RemoveKeyOther(db: seq<Pair>, k: int, lo: nat, hi: nat, j: nat)
    requires Sorted(db) && lo == KeyLowerBound(db, k) && hi == KeyUpperBound(db, k) && lo <= hi
    requires j < |db| && db[j].key != k
    ensures db[j] in db[..lo] + db[hi..]
  {
    var r := db[..lo] + db[hi..];
    if j < lo { assert r[j] == db[j]; } else { assert r[j - hi + lo] == db[j]; }
  }

  /** Flags of `mdb_put` that the library passes. */
  datatype PutFlag = Plain | NoOverwrite | NoDupData | Append

  /**
   * The database after `mdb_put`, or None for MDB_KEYEXIST. Without
   * duplicates a plain put replaces the key's value; with duplicates it adds
   * the pair. MDB_APPEND succeeds only for a key above every stored key.
   */
  function Put(db: seq<Pair>, dup: bool, k: int, v: int, flag: PutFlag): (r: Option<seq<Pair>>)
    requires Wf(db, dup)
    ensures r.Some? ==> Wf(r.value, dup) && Pair(k, v) in r.value
    ensures r.Some? && dup ==> forall q :: q in r.value <==> q in db || q == Pair(k, v)
    ensures r.Some? && !dup ==> forall q :: q in r.value <==> (q in db && q.key != k) || q == Pair(k, v)
    ensures r.None? <==> match flag
                         case Plain => false
                         case NoOverwrite => HasKey(db, k)
                         case NoDupData => if dup then Pair(k, v) in db else false
                         case Append => |db| > 0 && db[|db| - 1].key >= k
  {
    match flag
    case NoOverwrite => if HasKey(db, k) then None else Some(Stored(db, dup, k, v))
    case NoDupData => if dup && Pair(k, v) in db then None else Some(Stored(db, dup, k, v))
    case Append => if |db| > 0 && db[|db| - 1].key >= k then None else Some(Stored(db, dup, k, v))
    case Plain => Some(Stored(db, dup, k, v))
  }

  /** A successful put: with duplicates the pair joins the key's others, without it replaces them. */
  function Stored(db: seq<Pair>, dup: bool, k: int, v: int): (r: seq<Pair>)
    requires Wf(db, dup)
    ensures Wf(r, dup) && Pair(k, v) in r
    ensures dup ==> forall q :: q in r <==> q in db || q == Pair(k, v)
    ensures !dup ==> forall q :: q in r <==> (q in db && q.key != k) || q == Pair(k, v)
  {
    if dup then Insert(db, Pair(k, v)) else ReplaceKey(db, k, v)
  }

  /** A put without duplicates: the key's old pair goes, the new one comes. */
  function ReplaceKey(db: seq<Pair>, k: int, v: int): (r: seq<Pair>)
    requires Wf(db, false)
    ensures Wf(r, false)
    ensures forall q :: q in r <==> (q in db && q.key != k) || q == Pair(k, v)
  {
    var d := RemoveKey(db, k);
    var r := Insert(d, Pair(k, v));
    forall a, b | 0 <= a < b < |r| ensures r[a].key < r[b].key {
      assert Lt(r[a], r[b]);
    }
    r
  }

  // ---------------------------------------------------------------------
  // Counting (`mdb_cursor_count`, key counts)
  // ---------------------------------------------------------------------

  /** Number of duplicates stored under k (`mdb_cursor_count` on key k). */
  function DupCount(db: seq<Pair>, k: int): (n: nat)
    requires Sorted(db)
    ensures forall j :: 0 <= j < |db| ==>
              (db[j].key == k <==> KeyLowerBound(db, k) <= j < KeyLowerBound(db, k) + n)
    ensures n > 0 <==> HasKey(db, k)
  {
    BoundsOrdered(db, k);
    var lo, hi := KeyLowerBound(db, k), KeyUpperBound(db, k);
    assert HasKey(db, k) ==> lo < hi by {
      if HasKey(db, k) {
        var j :| 0 <= j < |db| && db[j].key == k;
        assert lo <= j < hi;
      }
    }
    assert forall j :: 0 <= j < |db| ==> (db[j].key == k <==> lo <= j < hi);
    assert hi - lo > 0 ==> HasKey(db, k) by {
      if hi > lo { assert db[lo].key == k; }
    }
    hi - lo
  }

  /** Number of distinct keys: one for each pair that starts a new key. */
  function NumKeys(db: seq<Pair>): nat
  {
    if |db| == 0 then 0
    else NumKeys(db[..|db| - 1]) + (if |db| > 1 && db[|db| - 2].key == db[|db| - 1].key then 0 else 1)
  }

  /** In a sorted database `NumKeys` counts the distinct keys. */
  lemma {:induction false} NumKeysIsKeyCount(db: seq<Pair>)
    requires Sorted(db)
    ensures NumKeys(db) == |Keys(db)|
  {
    if |db| > 0 {
      var n := |db|;
      var init := db[..n - 1];
      NumKeysIsKeyCount(init);
      KeysOfLast(db);
      if n > 1 && db[n - 2].key == db[n - 1].key {
        assert db[n - 2] in init;
        assert Keys(db) == Keys(init);
      } else {
        LastKeyIsNew(db);
      }
    }
  }

  lemma KeysOfLast(db: seq<Pair>)
    requires |db| > 0
    ensures Keys(db) == Keys(db[..|db| - 1]) + {db[|db| - 1].key}
  {
    assert db == db[..|db| - 1] + [db[|db| - 1]];
  }

  /** In a sorted database, a last pair whose key differs from its predecessor's has a new key. */
  lemma LastKeyIsNew(db: seq<Pair>)
    requires Sorted(db) && |db| > 0
    requires !(|db| > 1 && db[|db| - 2].key == db[|db| - 1].key)
    ensures db[|db| - 1].key !in Keys(db[..|db| - 1])
  {
    var n := |db|;
    forall p | p in db[..n - 1] ensures p.key < db[n - 1].key {
      var j :| 0 <= j < n - 1 && db[j] == p;
      assert Lt(db[j], db[n - 1]);
      if j < n - 2 { assert Lt(db[j], db[n - 2]); }
    }
  }

  /** Without duplicates every pair is its own key. */
  lemma {:induction false} NumKeysUnique(db: seq<Pair>)
    requires Wf(db, false)
    ensures NumKeys(db) == |db|
  {
    if |db| > 0 {
      NumKeysUnique(db[..|db| - 1]);
    }
  }
}
