// LMDBCursorAdapter and LMDBIteratorImpl. An adapter turns a cursor into
// four moves (first, last, next, prev) yielding entries, keys or values;
// `reversed()` swaps the moves. The iterator is a lazy state machine over an
// adapter: `hasNext()` fetches one element ahead and caches it, reaching the
// end closes the cursor.

module Iteration {
  import opened Common
  import opened Store
  import Api
  import Environment
  import Reversed

  datatype Move = MFirst | MLast | MNext | MPrev

  /** The move `reversed()` makes for `m`: first and last, next and prev trade places. */
  function Swap(m: Move): (r: Move)
    ensures (m == MFirst <==> r == MLast) && (m == MNext <==> r == MPrev)
  {
    match m
    case MFirst => MLast
    case MLast => MFirst
    case MNext => MPrev
    case MPrev => MNext
  }

  /** The move the underlying cursor makes for `m`, reversed or not. */
  function Dir(rev: bool, m: Move): Move {
    if rev then Swap(m) else m
  }

  /** What an adapter yields: `forEntries`, `forKeys`, `forValues`, `forDupValues`. */
  datatype Kind = Entries | Keys | Values | DupValues

  /** The cursor operation behind each move of each adapter. */
  function OpOf(kind: Kind, m: Move): Op {
    match kind
    case Keys =>
      (match m case MFirst => First case MLast => Last case MNext => NextNoDup case MPrev => PrevNoDup)
    case DupValues =>
      (match m case MFirst => FirstDup case MLast => LastDup case MNext => NextDup case MPrev => PrevDup)
    case _ =>
      (match m case MFirst => First case MLast => Last case MNext => Next case MPrev => Prev)
  }

  datatype Item = Entry(p: Pair) | Key(k: int) | Value(v: int)

  /** The element an adapter hands out for the pair its cursor lands on. */
  function Project(kind: Kind, p: Pair): Item {
    match kind
    case Entries => Entry(p)
    case Keys => Key(p.key)
    case _ => Value(p.val)
  }

  function ProjectAll(kind: Kind, s: seq<Pair>): (r: seq<Item>)
    ensures |r| == |s|
    ensures forall i :: 0 <= i < |s| ==> r[i] == Project(kind, s[i])
  {
    seq(|s|, i requires 0 <= i < |s| => Project(kind, s[i]))
  }

  /** The pairs in the order an adapter walks them. */
  function Ordered(rev: bool, s: seq<Pair>): (r: seq<Pair>)
    ensures |r| == |s|
    ensures forall j :: 0 <= j < |s| ==> r[j] == s[Idx(rev, |s|, j)]
  {
    if rev then Reversed.Reverse(s) else s
  }

  /** Index, within a span of `n` pairs, of the `j`-th pair walked. */
  function Idx(rev: bool, n: int, j: int): int {
    if rev then n - 1 - j else j
  }

  /** The `j`-th index walked over the span `[lo, hi)`, from either end. */
  function Nth(rev: bool, lo: int, hi: int, j: int): int {
    if rev then hi - 1 - j else lo + j
  }

  /**
   * The pairs `[lo, hi)` an adapter of `kind` walks over `db` when its
   * cursor starts at `pos`: the whole database for entries and values; for
   * the values of one key, the run of that key, with the cursor on its
   * first pair (where `forDupValues` leaves it).
   */
  ghost predicate Span(kind: Kind, db: seq<Pair>, pos: Pos, lo: nat, hi: nat) {
    Sorted(db) && PosOk(db, pos) &&
    match kind
    case Entries => lo == 0 && hi == |db|
    case Values => lo == 0 && hi == |db|
    case DupValues =>
      lo < hi <= |db| && pos == At(lo) &&
      lo == KeyLowerBound(db, db[lo].key) && hi == KeyUpperBound(db, db[lo].key)
    case Keys => false
  }

  /** The first move lands on the first pair of the span, or finds nothing when it is empty. */
  lemma FetchFirst(kind: Kind, rev: bool, db: seq<Pair>, pos: Pos, lo: nat, hi: nat)
    requires Span(kind, db, pos, lo, hi)
    ensures var s := Step(db, pos, OpOf(kind, Dir(rev, MFirst)));
            if lo < hi then s == (Some(db[Nth(rev, lo, hi, 0)]), At(Nth(rev, lo, hi, 0))) else s.0.None?
  {
    if kind == DupValues {
      assert db[hi - 1].key == db[lo].key;
    }
  }

  /** From the `j`-th pair of the span, the next move lands on the `j + 1`-th, or finds nothing past the end. */
  lemma FetchStep(kind: Kind, rev: bool, db: seq<Pair>, pos: Pos, lo: nat, hi: nat, j: nat)
    requires Span(kind, db, pos, lo, hi) && j < hi - lo
    ensures var p := At(Nth(rev, lo, hi, j));
            PosOk(db, p) &&
            var s := Step(db, p, OpOf(kind, Dir(rev, MNext)));
            if j + 1 < hi - lo then s == (Some(db[Nth(rev, lo, hi, j + 1)]), At(Nth(rev, lo, hi, j + 1)))
            else s.0.None? && s.1 == p
  {
    if kind == DupValues {
      var k := db[lo].key;
      var i := Nth(rev, lo, hi, j);
      assert db[i].key == k;
      if j + 1 < hi - lo {
        assert db[Nth(rev, lo, hi, j + 1)].key == k;
      }
    }
  }

  class Adapter {
    /** The cursor, or null for the shared `empty` adapter. */
    const cur: Api.Cursor?
    const kind: Kind
    /** Whether this adapter is `reversed()` of the one over `cur`. */
    const rev: bool
    /** `readOnly()`: the flag of the cursor's transaction; true for the empty adapter. */
    const readOnly: bool

    ghost predicate Valid()
      reads this, cur, if cur != null then cur.txn else null
    {
      (cur == null ==> readOnly) &&
      (cur != null ==> cur.Valid() && (cur.txn != null ==> cur.txn.current == null || cur.txn.cursors.None?))
    }

    ghost predicate IsOpen()
      reads this, cur
    {
      cur != null ==> cur.state == Api.OPEN
    }

    /** What the adapter may change: its cursor and the cursor's transaction. */
    ghost function Objs(): set<object>
      reads this, cur
    {
      (if cur != null then {cur} else {}) + (if cur != null && cur.txn != null then {cur.txn} else {})
    }

    /** `forEntries`, `forKeys`, `forValues` and the adapter `forDupValues` builds: moves over an open cursor. */
    constructor (c: Api.Cursor, k: Kind)
      requires c.Valid() && c.state == Api.OPEN && (c.txn.current == null || c.txn.cursors.None?)
      ensures Valid() && IsOpen() && cur == c && kind == k && !rev && readOnly == c.txn.readOnly
    {
      cur, kind, rev, readOnly := c, k, false, c.txn.readOnly;
    }

    /** `empty`: no cursor; every move yields null. */
    constructor Empty(k: Kind)
      ensures Valid() && IsOpen() && cur == null && kind == k && !rev && readOnly
    {
      cur, kind, rev, readOnly := null, k, false, true;
    }

    /** The adapter `reversed()` builds around another. */
    constructor Around(c: Api.Cursor?, k: Kind, r: bool, ro: bool)
      ensures cur == c && kind == k && rev == r && readOnly == ro
    {
      cur, kind, rev, readOnly := c, k, r, ro;
    }

    /** The element move `m` yields now. */
    ghost function Peek(m: Move): Option<Item>
      reads this, cur, if cur != null then cur.txn else null
      requires Valid()
    {
      if cur == null then None
      else
        var s := Step(cur.db, cur.pos, OpOf(kind, Dir(rev, m)));
        if s.0.Some? then Some(Project(kind, s.0.value)) else None
    }

    /** Where move `m` leaves the cursor. */
    ghost function PosAfter(m: Move): Pos
      reads this, cur, if cur != null then cur.txn else null
      requires Valid() && cur != null
    {
      Step(cur.db, cur.pos, OpOf(kind, Dir(rev, m))).1
    }

    /** `first()`, `last()`, `next()` or `prev()`. */
    method Move(m: Move) returns (r: Option<Item>)
      requires Valid() && IsOpen()
      modifies cur
      ensures Valid() && IsOpen()
      ensures r == old(Peek(m))
      ensures cur != null ==> cur.db == old(cur.db) && cur.txn == old(cur.txn) && cur.pos == old(PosAfter(m))
    {
      if cur == null {
        return None;
      }
      var g := cur.Get(OpOf(kind, Dir(rev, m)));
      var e := g.value;
      r := if e.Some? then Some(Project(kind, e.value)) else None;
    }

    /** `reversed()`: the same cursor, with the moves swapped. */
    method Reversed() returns (a: Adapter)
      requires Valid()
      ensures fresh(a) && a.Valid()
      ensures a.cur == cur && a.kind == kind && a.rev == !rev && a.readOnly == readOnly
      ensures forall m :: a.Peek(m) == Peek(Swap(m))
    {
      a := new Adapter.Around(cur, kind, !rev, readOnly);
    }

    /** `delete()`: the cursor's delete; the empty adapter does nothing. */
    method Delete() returns (r: Outcome<()>)
      requires Valid()
      modifies cur
      ensures Valid()
      ensures cur != null ==> cur.state == old(cur.state) && cur.txn == old(cur.txn)
      ensures cur == null ==> r == Ok(())
      ensures cur != null && old(cur.state) == Api.OPEN && old(cur.pos).At? ==>
                r == Ok(()) && cur.db == RemoveAt(old(cur.db), old(cur.pos).i) &&
                cur.pos == Gap(old(cur.pos).i, old(cur.db)[old(cur.pos).i].key)
      ensures r.Fail? ==> cur != null && cur.db == old(cur.db) && cur.pos == old(cur.pos)
    {
      if cur == null {
        return Ok(());
      }
      r := cur.Delete();
    }

    /** `close()`: closes the cursor; the empty adapter does nothing. */
    method Close()
      requires Valid()
      modifies Objs()
      ensures Valid() && Objs() <= old(Objs())
      ensures cur != null ==> cur.state == Api.CLOSED && cur.db == old(cur.db) && cur.pos == old(cur.pos)
    {
      if cur != null {
        var _ := cur.Close();
      }
    }
  }

  /**
   * `forDupValues(cursor, key)`: an adapter over the values of `key`, or,
   * when the key is absent, the cursor closed and the empty adapter.
   */
  method ForDupValues(c: Api.Cursor, key: int) returns (a: Adapter)
    requires c.Valid() && c.state == Api.OPEN && (c.txn.current == null || c.txn.cursors.None?)
    modifies c, c.txn
    ensures a.Valid() && a.IsOpen() && a.kind == DupValues && !a.rev && c.db == old(c.db)
    ensures HasKey(c.db, key) ==>
              a.cur == c && c.txn == old(c.txn) && Span(DupValues, c.db, c.pos, KeyLowerBound(c.db, key), KeyUpperBound(c.db, key))
    ensures !HasKey(c.db, key) ==> a.cur == null && c.state == Api.CLOSED
  {
    var found := c.MoveTo(key);
    if !found.value {
      var _ := c.Close();
      a := new Adapter.Empty(DupValues);
      return;
    }
    a := new Adapter(c, DupValues);
    HasKeyRun(c.db, key);
  }

  /**
   * `forDupValues(cursor, key, keyBuf)` and `forDupValuesReversed`: an
   * iterator over the values of `key`, ascending or descending.
   */
  method DupValuesIterator(c: Api.Cursor, key: int, reversed: bool) returns (it: Iterator)
    requires c.Valid() && c.state == Api.OPEN && (c.txn.current == null || c.txn.cursors.None?)
    modifies c, c.txn
    ensures fresh(it) && it.Valid() && it.head.None? && it.first && !it.closed && c.db == old(c.db)
    ensures it.adapter.kind == DupValues && it.adapter.rev == reversed
    ensures HasKey(c.db, key) ==>
              it.adapter.cur == c && c.txn == old(c.txn) && Span(DupValues, c.db, c.pos, KeyLowerBound(c.db, key), KeyUpperBound(c.db, key))
    ensures !HasKey(c.db, key) ==> it.adapter.cur == null
  {
    var a := ForDupValues(c, key);
    if reversed {
      a := a.Reversed();
    }
    it := new Iterator(a);
  }

  /** The values walked over the run of a key are exactly that key's values. */
  lemma RunMembers(db: seq<Pair>, pos: Pos, lo: nat, hi: nat)
    requires Span(DupValues, db, pos, lo, hi)
    ensures forall v :: Value(v) in ProjectAll(DupValues, db[lo..hi]) <==> Pair(db[lo].key, v) in db
  {
    var k := db[lo].key;
    var run := ProjectAll(DupValues, db[lo..hi]);
    forall v ensures Value(v) in run <==> Pair(k, v) in db {
      if Value(v) in run {
        var i :| 0 <= i < |run| && run[i] == Value(v);
        assert db[lo + i] == db[lo..hi][i];
      }
      if Pair(k, v) in db {
        var j :| 0 <= j < |db| && db[j] == Pair(k, v);
        assert db[lo..hi][j - lo] == db[j];
      }
    }
  }

  /** ... and they come in ascending order. */
  lemma RunAscending(db: seq<Pair>, pos: Pos, lo: nat, hi: nat)
    requires Span(DupValues, db, pos, lo, hi)
    ensures var run := ProjectAll(DupValues, db[lo..hi]);
            forall i, j :: 0 <= i < j < |run| ==> run[i].v < run[j].v
  {
    var run := ProjectAll(DupValues, db[lo..hi]);
    forall i, j | 0 <= i < j < |run| ensures run[i].v < run[j].v {
      assert db[lo..hi][i] == db[lo + i] && db[lo..hi][j] == db[lo + j];
      assert Lt(db[lo + i], db[lo + j]);
    }
  }

  class Iterator {
    const adapter: Adapter
    /** The element fetched ahead by `hasNext()` and not yet returned. */
    var head: Option<Item>
    var first: bool
    var closed: bool

    ghost predicate Valid()
      reads this, adapter, adapter.cur, if adapter.cur != null then adapter.cur.txn else null
    {
      adapter.Valid() && (!closed ==> adapter.IsOpen())
    }

    constructor (a: Adapter)
      requires a.Valid() && a.IsOpen()
      ensures Valid() && adapter == a && head.None? && first && !closed
    {
      adapter, head, first, closed := a, None, true, false;
    }

    /** The move the next fetch makes. */
    function Fetch(): Move
      reads this
    {
      if first then MFirst else MNext
    }

    /** Whether `hasNext()` now moves the cursor. */
    ghost predicate Fetches()
      reads this
    {
      !closed && head.None?
    }

    /** The element `next()` returns now, if any. */
    ghost function Upcoming(): Option<Item>
      reads this, adapter, adapter.cur, if adapter.cur != null then adapter.cur.txn else null
      requires Valid()
    {
      if closed then None else if head.Some? then head else adapter.Peek(Fetch())
    }

    /** `hasNext()`: fetches and caches the next element; at the end closes the iterator. */
    method HasNext() returns (r: bool)
      requires Valid()
      modifies this, adapter.Objs()
      ensures Valid() && adapter.Objs() <= old(adapter.Objs())
      ensures r == old(Upcoming()).Some?
      ensures head == (if old(closed) then old(head) else old(Upcoming()))
      ensures closed == (old(closed) || old(Upcoming()).None?)
      ensures first == (old(first) && !old(Fetches()))
      ensures adapter.cur != null ==> adapter.cur.db == old(adapter.cur.db)
      ensures adapter.cur != null ==>
                adapter.cur.pos == if old(Fetches()) then old(adapter.PosAfter(Fetch())) else old(adapter.cur.pos)
    {
      if closed {
        return false;
      }
      if head.None? {
        head := adapter.Move(Fetch());
        first := false;
        if head.None? {
          Close();
        }
      }
      r := head.Some?;
    }

    /** `next()`: the cached or freshly fetched element; NoSuchElementException at the end. */
    method Next() returns (r: Outcome<Item>)
      requires Valid()
      modifies this, adapter.Objs()
      ensures Valid() && adapter.Objs() <= old(adapter.Objs())
      ensures r == if old(Upcoming()).Some? then Ok(old(Upcoming()).value) else Fail(NoSuchElement)
      ensures head == (if r.Fail? && old(closed) then old(head) else None)
      ensures closed == (old(closed) || old(Upcoming()).None?)
      ensures first == (old(first) && !old(Fetches()))
      ensures adapter.cur != null ==> adapter.cur.db == old(adapter.cur.db)
      ensures adapter.cur != null ==>
                adapter.cur.pos == if old(Fetches()) then old(adapter.PosAfter(Fetch())) else old(adapter.cur.pos)
    {
      var has := HasNext();
      if !has {
        return Fail(NoSuchElement);
      }
      r := Ok(head.value);
      head := None;
    }

    /**
     * `remove()` as written: refused on a read-only transaction, otherwise
     * the pair under the cursor is deleted.
     */
    method Remove() returns (r: Outcome<()>)
      requires Valid()
      modifies adapter.cur
      ensures Valid()
      ensures adapter.readOnly ==> r == Fail(Unsupported) && (adapter.cur != null ==> unchanged(adapter.cur))
      ensures !adapter.readOnly && adapter.cur != null && old(adapter.cur.state) == Api.OPEN && old(adapter.cur.pos).At? ==>
                r == Ok(()) && adapter.cur.db == RemoveAt(old(adapter.cur.db), old(adapter.cur.pos).i) &&
                adapter.cur.pos == Gap(old(adapter.cur.pos).i, old(adapter.cur.db)[old(adapter.cur.pos).i].key)
      ensures r.Fail? && adapter.cur != null ==> adapter.cur.db == old(adapter.cur.db) && adapter.cur.pos == old(adapter.cur.pos)
    {
      if adapter.readOnly {
        return Fail(Unsupported);
      }
      r := adapter.Delete();
    }

    /** `hasNext()` has fetched an element `next()` has not returned: the cursor is one step ahead. */
    ghost predicate Ahead()
      reads this
    {
      !closed && head.Some? && adapter.cur != null
    }

    /**
     * `remove()` corrected: when the cursor is one step ahead, step back onto
     * the element `next()` returned (IllegalStateException when there is
     * none), delete it, and step forward onto the cached element again.
     */
    method RemoveFixed() returns (r: Outcome<()>)
      requires Valid()
      modifies adapter.cur
      ensures Valid() && head == old(head) && closed == old(closed)
      ensures adapter.readOnly ==> r == Fail(Unsupported) && (adapter.cur != null ==> unchanged(adapter.cur))
      ensures !adapter.readOnly && !old(Ahead()) && adapter.cur != null &&
              old(adapter.cur.state) == Api.OPEN && old(adapter.cur.pos).At? ==>
                r == Ok(()) && adapter.cur.db == RemoveAt(old(adapter.cur.db), old(adapter.cur.pos).i)
      ensures !adapter.readOnly && old(Ahead()) && old(adapter.Peek(MPrev)).None? ==>
                r == Fail(IllegalState) && adapter.cur.db == old(adapter.cur.db)
      ensures !adapter.readOnly && old(Ahead()) && old(adapter.Peek(MPrev)).Some? ==>
                var i := old(adapter.PosAfter(MPrev)).i;
                var d := old(adapter.cur.db);
                i < |d| && r == Ok(()) && adapter.cur.db == RemoveAt(d, i) &&
                adapter.cur.pos == Step(adapter.cur.db, Gap(i, d[i].key), OpOf(adapter.kind, Dir(adapter.rev, MNext))).1
    {
      if adapter.readOnly {
        return Fail(Unsupported);
      }
      if !closed && head.Some? && adapter.cur != null {
        var back := adapter.Move(MPrev);
        if back.None? {
          return Fail(IllegalState);
        }
        r := adapter.Delete();
        var _ := adapter.Move(MNext);
      } else {
        r := adapter.Delete();
      }
    }

    /** `close()`: closes the adapter once. */
    method Close()
      requires Valid()
      modifies this, adapter.Objs()
      ensures Valid() && closed && head == old(head) && first == old(first)
      ensures adapter.Objs() <= old(adapter.Objs())
      ensures adapter.cur != null ==> adapter.cur.db == old(adapter.cur.db) && adapter.cur.pos == old(adapter.cur.pos)
      ensures old(closed) ==> adapter.cur != null ==> adapter.cur.state == old(adapter.cur.state)
    {
      if closed {
        return;
      }
      adapter.Close();
      closed := true;
    }
  }

  /**
   * One round of `while (it.hasNext()) it.next()` after the first: `next()`
   * returns the cached element, then `hasNext()` makes the next move.
   */
  method Round(it: Iterator, ghost c: Api.Cursor) returns (x: Item, more: bool)
    requires it.Valid() && it.adapter.cur == c && !it.closed && !it.first && it.head.Some?
    modifies it, it.adapter.Objs()
    ensures it.Valid() && it.adapter.Objs() <= old(it.adapter.Objs()) && c.db == old(c.db)
    ensures x == old(it.head.value) && !it.first
    ensures var s := Step(c.db, old(c.pos), OpOf(it.adapter.kind, Dir(it.adapter.rev, MNext)));
            c.pos == s.1 && (more <==> s.0.Some?) &&
            (more ==> !it.closed && it.head == Some(Project(it.adapter.kind, s.0.value))) &&
            (!more ==> it.closed)
  {
    var r := it.Next();
    x := r.value;
    more := it.HasNext();
  }

  /**
   * The iterator stands on the `j`-th pair of the span: that pair is its
   * cached head and the cursor is on it.
   */
  ghost predicate OnSpan(it: Iterator, c: Api.Cursor, pos0: Pos, lo: nat, hi: nat, j: nat)
    reads it, c
  {
    it.adapter.cur == c && Span(it.adapter.kind, c.db, pos0, lo, hi) && j < hi - lo &&
    !it.closed && !it.first &&
    it.head == Some(Project(it.adapter.kind, c.db[Nth(it.adapter.rev, lo, hi, j)])) &&
    c.pos == At(Nth(it.adapter.rev, lo, hi, j))
  }

  /** One round of the loop: `next()` returns the cached pair, `hasNext()` fetches the following one. */
  method Advance(it: Iterator, ghost c: Api.Cursor, ghost pos0: Pos, ghost lo: nat, ghost hi: nat, ghost j: nat)
    returns (x: Item, more: bool)
    requires it.Valid() && OnSpan(it, c, pos0, lo, hi, j)
    modifies it, it.adapter.Objs()
    ensures it.Valid() && it.adapter.Objs() <= old(it.adapter.Objs()) && c.db == old(c.db)
    ensures x == Project(it.adapter.kind, c.db[Nth(it.adapter.rev, lo, hi, j)])
    ensures more <==> j + 1 < hi - lo
    ensures more ==> OnSpan(it, c, pos0, lo, hi, j + 1)
    ensures !more ==> it.closed
  {
    FetchStep(it.adapter.kind, it.adapter.rev, c.db, pos0, lo, hi, j);
    x, more := Round(it, c);
  }

  /** From the `j`-th pair of the span, the previous move lands on the `j - 1`-th, or finds nothing at the start. */
  lemma StepBack(kind: Kind, rev: bool, db: seq<Pair>, pos: Pos, lo: nat, hi: nat, j: nat)
    requires Span(kind, db, pos, lo, hi) && j < hi - lo
    ensures var p := At(Nth(rev, lo, hi, j));
            PosOk(db, p) &&
            var s := Step(db, p, OpOf(kind, Dir(rev, MPrev)));
            if j > 0 then s == (Some(db[Nth(rev, lo, hi, j - 1)]), At(Nth(rev, lo, hi, j - 1)))
            else s.0.None?
  {
    if kind == DupValues {
      var k := db[lo].key;
      assert db[Nth(rev, lo, hi, j)].key == k;
      if j > 0 {
        assert db[Nth(rev, lo, hi, j - 1)].key == k;
      }
    }
  }

  /**
   * Once the `j - 1`-th pair of the span is deleted, the next move from the
   * gap lands on what was the `j`-th pair.
   */
  lemma ResumeAfterDelete(kind: Kind, rev: bool, db: seq<Pair>, pos: Pos, lo: nat, hi: nat, j: nat)
    requires Span(kind, db, pos, lo, hi) && 0 < j < hi - lo
    ensures var i := Nth(rev, lo, hi, j - 1);
            var d := RemoveAt(db, i);
            var i2 := if rev then i - 1 else i;
            Sorted(d) && PosOk(d, Gap(i, db[i].key)) && 0 <= i2 < |d| && d[i2] == db[Nth(rev, lo, hi, j)] &&
            Step(d, Gap(i, db[i].key), OpOf(kind, Dir(rev, MNext))) == (Some(d[i2]), At(i2))
  {
    var i := Nth(rev, lo, hi, j - 1);
    var d := RemoveAt(db, i);
    var i2 := if rev then i - 1 else i;
    if kind == DupValues {
      var k := db[lo].key;
      assert db[i].key == k && db[Nth(rev, lo, hi, j)].key == k;
    }
  }

  /**
   * `remove()` as written, after `next()` returned the `j - 1`-th pair and
   * `hasNext()` fetched the `j`-th: it deletes the `j`-th, which `next()`
   * has not returned.
   */
  method RemoveAhead(it: Iterator, ghost c: Api.Cursor, ghost pos0: Pos, ghost lo: nat, ghost hi: nat, ghost j: nat)
    returns (r: Outcome<()>)
    requires it.Valid() && OnSpan(it, c, pos0, lo, hi, j) && !it.adapter.readOnly
    modifies c
    ensures r == Ok(()) && c.db == RemoveAt(old(c.db), Nth(it.adapter.rev, lo, hi, j))
  {
    r := it.Remove();
  }

  /**
   * `remove()` corrected, in the same state: it deletes the `j - 1`-th pair,
   * the one `next()` returned, and leaves the cursor on the cached `j`-th;
   * before any `next()` it refuses.
   */
  method RemoveAheadFixed(it: Iterator, ghost c: Api.Cursor, ghost pos0: Pos, ghost lo: nat, ghost hi: nat, ghost j: nat)
    returns (r: Outcome<()>)
    requires it.Valid() && OnSpan(it, c, pos0, lo, hi, j) && !it.adapter.readOnly
    modifies c
    ensures j == 0 ==> r == Fail(IllegalState) && c.db == old(c.db)
    ensures j > 0 ==> r == Ok(()) && c.db == RemoveAt(old(c.db), Nth(it.adapter.rev, lo, hi, j - 1))
    ensures j > 0 ==> it.head == old(it.head) && c.pos.At? && c.pos.i < |c.db| &&
                      c.db[c.pos.i] == old(c.db)[Nth(it.adapter.rev, lo, hi, j)]
  {
    StepBack(it.adapter.kind, it.adapter.rev, c.db, pos0, lo, hi, j);
    if j > 0 {
      ResumeAfterDelete(it.adapter.kind, it.adapter.rev, c.db, pos0, lo, hi, j);
    }
    r := it.RemoveFixed();
  }

  /** The first `hasNext()`: the iterator comes to stand on the first pair of the span, or closes. */
  method Start(it: Iterator, ghost c: Api.Cursor, ghost lo: nat, ghost hi: nat) returns (more: bool)
    requires it.Valid() && it.head.None? && it.first && !it.closed && it.adapter.cur == c
    requires Span(it.adapter.kind, c.db, c.pos, lo, hi)
    modifies it, it.adapter.Objs()
    ensures it.Valid() && it.adapter.Objs() <= old(it.adapter.Objs()) && c.db == old(c.db)
    ensures more <==> lo < hi
    ensures more ==> OnSpan(it, c, old(c.pos), lo, hi, 0)
    ensures !more ==> it.closed
  {
    FetchFirst(it.adapter.kind, it.adapter.rev, c.db, c.pos, lo, hi);
    more := it.HasNext();
  }

  /**
   * Iterating to the end (`while (it.hasNext()) it.next()`) over a span
   * yields its pairs, projected, in the order the adapter walks them, and
   * leaves the iterator closed.
   */
  method Drain(it: Iterator, ghost lo: nat, ghost hi: nat) returns (items: seq<Item>)
    requires it.Valid() && it.head.None? && it.first && !it.closed && it.adapter.cur != null
    requires Span(it.adapter.kind, it.adapter.cur.db, it.adapter.cur.pos, lo, hi)
    modifies it, it.adapter.Objs()
    ensures it.closed && it.adapter.cur.db == old(it.adapter.cur.db)
    ensures items == ProjectAll(it.adapter.kind, Ordered(it.adapter.rev, it.adapter.cur.db[lo..hi]))
  {
    ghost var c := it.adapter.cur;
    ghost var db := c.db;
    ghost var pos0 := c.pos;
    items := [];
    var more := Start(it, c, lo, hi);
    while more
      invariant it.Valid() && it.adapter.cur == c && c.db == db
      invariant it.adapter.Objs() <= old(it.adapter.Objs())
      invariant |items| <= hi - lo
      invariant forall j :: 0 <= j < |items| ==> items[j] == Project(it.adapter.kind, db[Nth(it.adapter.rev, lo, hi, j)])
      invariant more ==> OnSpan(it, c, pos0, lo, hi, |items|)
      invariant !more ==> it.closed && |items| == hi - lo
      decreases hi - lo - |items|
    {
      var x;
      x, more := Advance(it, c, pos0, lo, hi, |items|);
      items := items + [x];
    }
    WalkOrder(it.adapter.kind, it.adapter.rev, db, lo, hi, items);
  }

  /** The pairs of a span, taken by `Nth`, are the span in walking order. */
  lemma WalkOrder(kind: Kind, rev: bool, db: seq<Pair>, lo: nat, hi: nat, items: seq<Item>)
    requires lo <= hi <= |db| && |items| == hi - lo
    requires forall j :: 0 <= j < |items| ==> items[j] == Project(kind, db[Nth(rev, lo, hi, j)])
    ensures items == ProjectAll(kind, Ordered(rev, db[lo..hi]))
  {
    var span := db[lo..hi];
    var o := Ordered(rev, span);
    forall j | 0 <= j < |items| ensures items[j] == Project(kind, o[j]) {
      var k := Idx(rev, hi - lo, j);
      assert o[j] == span[k] && span[k] == db[lo + k];
    }
    assert items == ProjectAll(kind, o);
  }

  // A forward key iterator walks from the first pair of each key to the
  // first pair of the next (MDB_NEXT_NODUP), once per distinct key.

  /** Keys strictly increasing. */
  ghost predicate AscendingKeys(items: seq<Item>) {
    (forall i :: 0 <= i < |items| ==> items[i].Key?) &&
    (forall i, j :: 0 <= i < j < |items| ==> items[i].k < items[j].k)
  }

  /**
   * Pair `p` is the first pair of its key, and `items` holds exactly the
   * smaller keys.
   */
  ghost predicate KeysBefore(db: seq<Pair>, p: nat, items: seq<Item>) {
    Sorted(db) && p < |db| &&
    (p == 0 || p == KeyUpperBound(db, db[p - 1].key)) &&
    (forall k :: Key(k) in items <==> k in Store.Keys(db[..p])) &&
    (forall i :: 0 <= i < |items| ==> items[i].Key? && items[i].k < db[p].key) &&
    AscendingKeys(items)
  }

  /** From the first pair of a key, MDB_NEXT_NODUP lands on the first pair of the next key. */
  lemma KeyStep(db: seq<Pair>, p: nat, items: seq<Item>)
    requires KeysBefore(db, p, items)
    ensures var u := KeyUpperBound(db, db[p].key);
            p < u <= |db| &&
            Step(db, At(p), NextNoDup) == (if u < |db| then (Some(db[u]), At(u)) else (None, At(p))) &&
            (u < |db| ==> KeysBefore(db, u, items + [Key(db[p].key)])) &&
            (u == |db| ==> forall k :: Key(k) in items + [Key(db[p].key)] <==> k in Store.Keys(db)) &&
            AscendingKeys(items + [Key(db[p].key)])
  {
    var u := KeyUpperBound(db, db[p].key);
    AscendingAppend(items, Key(db[p].key));
    NextNoDupStep(db, p);
    KeysOfKeyRun(db, p);
    if u < |db| {
      NextKeyBefore(db, p, items);
    } else {
      LastKeyTaken(db, p, items);
    }
  }

  lemma NextNoDupStep(db: seq<Pair>, p: nat)
    requires Sorted(db) && p < |db|
    ensures var u := KeyUpperBound(db, db[p].key);
            p < u <= |db| &&
            Step(db, At(p), NextNoDup) == (if u < |db| then (Some(db[u]), At(u)) else (None, At(p)))
  {
    var k := db[p].key;
    var u := KeyUpperBound(db, k);
    assert PosKey(db, At(p)) == k;
    assert Target(db, At(p), NextNoDup) == if u < |db| then Some(u) else None;
    assert !(u <= p < |db|) by {
      assert p < |db| && db[p].key <= k;
    }
  }

  lemma LastKeyTaken(db: seq<Pair>, p: nat, items: seq<Item>)
    requires KeysBefore(db, p, items)
    requires KeyUpperBound(db, db[p].key) == |db|
    requires Store.Keys(db[..KeyUpperBound(db, db[p].key)]) == Store.Keys(db[..p]) + {db[p].key}
    ensures forall k :: Key(k) in items + [Key(db[p].key)] <==> k in Store.Keys(db)
  {
    assert db[..|db|] == db;
  }

  lemma AscendingAppend(items: seq<Item>, x: Item)
    requires AscendingKeys(items) && x.Key?
    requires forall i :: 0 <= i < |items| ==> items[i].Key? && items[i].k < x.k
    ensures AscendingKeys(items + [x])
  {
  }

  /** Taking in the run of the key at `p` adds just that key. */
  lemma KeysOfKeyRun(db: seq<Pair>, p: nat)
    requires Sorted(db) && p < |db| && (p == 0 || p == KeyUpperBound(db, db[p - 1].key))
    ensures Store.Keys(db[..KeyUpperBound(db, db[p].key)]) == Store.Keys(db[..p]) + {db[p].key}
  {
    if p == 0 {
      KeysOfRun(db, 0, KeyUpperBound(db, db[0].key));
    } else {
      KeysNextRun(db, db[p - 1].key, p);
    }
  }

  /** The first pair of the next key stands where `KeysBefore` asks, with one more key taken. */
  lemma NextKeyBefore(db: seq<Pair>, p: nat, items: seq<Item>)
    requires KeysBefore(db, p, items)
    requires KeyUpperBound(db, db[p].key) < |db|
    requires Store.Keys(db[..KeyUpperBound(db, db[p].key)]) == Store.Keys(db[..p]) + {db[p].key}
    requires AscendingKeys(items + [Key(db[p].key)])
    ensures KeysBefore(db, KeyUpperBound(db, db[p].key), items + [Key(db[p].key)])
  {
    var u := KeyUpperBound(db, db[p].key);
    var x := Key(db[p].key);
    assert db[u - 1].key <= db[p].key;
    if p < u - 1 {
      assert Lt(db[p], db[u - 1]);
    }
    forall k ensures Key(k) in items + [x] <==> k in Store.Keys(db[..u]) {
      assert Key(k) in items + [x] <==> Key(k) in items || k == db[p].key;
    }
    forall i | 0 <= i < |items + [x]| ensures (items + [x])[i].Key? && (items + [x])[i].k < db[u].key {
      if i < |items| {
        assert (items + [x])[i] == items[i];
      }
    }
  }

  /** The key iterator stands on pair `p`, the first pair of its key, with that key cached. */
  ghost predicate OnKeys(it: Iterator, c: Api.Cursor, p: nat, items: seq<Item>)
    reads it, c
  {
    it.adapter.cur == c && it.adapter.kind == Keys && !it.adapter.rev &&
    KeysBefore(c.db, p, items) && c.pos == At(p) &&
    !it.closed && !it.first && it.head == Some(Key(c.db[p].key))
  }

  /** The first `hasNext()` of a fresh key iterator. */
  method StartKeys(it: Iterator, ghost c: Api.Cursor) returns (more: bool)
    requires it.Valid() && it.head.None? && it.first && !it.closed
    requires it.adapter.cur == c && it.adapter.kind == Keys && !it.adapter.rev
    modifies it, it.adapter.Objs()
    ensures it.Valid() && it.adapter.Objs() <= old(it.adapter.Objs()) && c.db == old(c.db)
    ensures more <==> |c.db| > 0
    ensures more ==> OnKeys(it, c, 0, [])
    ensures !more ==> it.closed && Store.Keys(c.db) == {}
  {
    more := it.HasNext();
  }

  /** One round of the key loop: `next()` returns the cached key, `hasNext()` fetches the next key. */
  method AdvanceKeys(it: Iterator, ghost c: Api.Cursor, ghost p: nat, ghost items: seq<Item>)
    returns (x: Item, more: bool, ghost q: nat)
    requires it.Valid() && OnKeys(it, c, p, items)
    modifies it, it.adapter.Objs()
    ensures it.Valid() && it.adapter.Objs() <= old(it.adapter.Objs()) && c.db == old(c.db)
    ensures x == Key(c.db[p].key)
    ensures p < q <= |c.db|
    ensures more ==> OnKeys(it, c, q, items + [x])
    ensures !more ==> it.closed && AscendingKeys(items + [x])
    ensures !more ==> forall k :: Key(k) in items + [x] <==> k in Store.Keys(c.db)
  {
    KeyStep(c.db, p, items);
    x, more := Round(it, c);
    q := KeyUpperBound(c.db, c.db[p].key);
  }

  /**
   * Iterating a forward key iterator to the end yields every key of the
   * database once, in ascending order.
   */
  method DrainKeys(it: Iterator) returns (items: seq<Item>)
    requires it.Valid() && it.head.None? && it.first && !it.closed
    requires it.adapter.cur != null && it.adapter.kind == Keys && !it.adapter.rev
    modifies it, it.adapter.Objs()
    ensures it.closed && it.adapter.cur.db == old(it.adapter.cur.db)
    ensures AscendingKeys(items)
    ensures forall k :: Key(k) in items <==> HasKey(it.adapter.cur.db, k)
  {
    ghost var c := it.adapter.cur;
    ghost var db := c.db;
    items := [];
    ghost var p: nat := 0;
    var more := StartKeys(it, c);
    while more
      invariant it.Valid() && it.adapter.cur == c && c.db == db
      invariant it.adapter.Objs() <= old(it.adapter.Objs())
      invariant more ==> OnKeys(it, c, p, items)
      invariant !more ==> it.closed && AscendingKeys(items)
      invariant !more ==> forall k :: Key(k) in items <==> k in Store.Keys(db)
      decreases |db| - p
    {
      var x;
      x, more, p := AdvanceKeys(it, c, p, items);
      items := items + [x];
    }
    KeySetIsHasKey(db);
  }

  /** The key set of a database holds exactly the keys it has. */
  lemma KeySetIsHasKey(db: seq<Pair>)
    ensures forall k :: k in Store.Keys(db) <==> HasKey(db, k)
  {
    forall k ensures k in Store.Keys(db) <==> HasKey(db, k) {
      if k in Store.Keys(db) {
        var w :| w in db && w.key == k;
      }
    }
  }

  /** An iterator over the entries of a fresh read-write cursor on `db`. */
  method EntryIterator(db: seq<Pair>) returns (it: Iterator, c: Api.Cursor)
    requires Wf(db, false)
    ensures fresh(it) && fresh(c) && fresh(c.txn) && fresh(it.adapter) && it.Valid() && it.adapter.cur == c && c.db == db
    ensures it.adapter.kind == Entries && !it.adapter.rev && !it.adapter.readOnly
    ensures it.head.None? && it.first && !it.closed && c.pos == Unset
  {
    var e := new Environment.Env();
    var t := new Api.Txn(e, null, false);
    c := new Api.Cursor(t, db, false);
    var a := new Adapter(c, Entries);
    it := new Iterator(a);
  }

  /**
   * Over the entries 1 and 2: `next()` returns 1, `hasNext()` fetches 2, and
   * `remove()` then deletes 2.
   */
  method RemoveAfterHasNextScenario() returns (returned: Item, left: seq<Pair>)
    ensures returned == Entry(Pair(1, 0)) && left == [Pair(1, 0)]
  {
    var db := [Pair(1, 0), Pair(2, 0)];
    var it, c := EntryIterator(db);
    var more := Start(it, c, 0, 2);
    var m;
    returned, m := Advance(it, c, Unset, 0, 2, 0);
    var r := RemoveAhead(it, c, Unset, 0, 2, 1);
    left := c.db;
  }

  /** The same calls with the corrected `remove()` delete 1, the entry `next()` returned. */
  method RemoveFixedAfterHasNextScenario() returns (returned: Item, left: seq<Pair>)
    ensures returned == Entry(Pair(1, 0)) && left == [Pair(2, 0)]
  {
    var db := [Pair(1, 0), Pair(2, 0)];
    var it, c := EntryIterator(db);
    var more := Start(it, c, 0, 2);
    var m;
    returned, m := Advance(it, c, Unset, 0, 2, 0);
    var r := RemoveAheadFixed(it, c, Unset, 0, 2, 1);
    left := c.db;
  }
}
