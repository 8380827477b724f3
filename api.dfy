// eluvio.lmdb.api.Txn and eluvio.lmdb.api.Cursor.
//
// A transaction is an INIT/OPEN/CLOSED state machine that tracks the cursors
// opened in it (a single slot, switching to a set once a second cursor
// arrives) and a one-shot list of abort-or-commit callbacks. A cursor is a
// position in the database as its transaction sees it; every navigation
// call is one `mdb_cursor_get` (the `Store.Step` function) or a short fixed
// sequence of them. Callbacks are identified by a number; running one
// appends it to the transaction's `ran` log. Native return codes that the
// store could report are parameters.

module Api {
  import opened Common
  import opened Store
  import ApiErrors
  import Environment

  /** Txn.State; a cursor only ever uses OPEN and CLOSED. */
  datatype State = INIT | OPEN | CLOSED

  /** A ByteBuffer argument: a null reference, an empty buffer, or a serialized datum. */
  datatype Buf = NullBuf | EmptyBuf | Bytes(v: int)

  /** The exception `ceiling` and the `dup*` methods throw for an unusable buffer. */
  function BufError(b: Buf): (e: Option<Exn>)
    ensures e.None? <==> b.Bytes?
    ensures b.NullBuf? ==> e == Some(NullPointer)
    ensures b.EmptyBuf? ==> e == Some(IllegalArgument)
  {
    match b
    case NullBuf => Some(NullPointer)
    case EmptyBuf => Some(IllegalArgument)
    case Bytes(_) => None
  }

  class Txn {
    const env: Environment.Env
    const parent: Txn?
    const readOnly: bool
    var state: State
    /** The single registered cursor, while at most one was ever registered at once. */
    var current: Cursor?
    /** The registry once a second cursor arrived. */
    var cursors: Option<set<Cursor>>
    var callbacks: Option<seq<nat>>
    /** Callbacks run so far, in order. */
    var ran: seq<nat>

    ghost function Registered(): set<Cursor>
      reads this
    {
      (if current != null then {current} else {}) + (if cursors.Some? then cursors.value else {})
    }

    /** One registry in use at a time, holding open cursors of this transaction. */
    ghost predicate Valid()
      reads this, Registered()
    {
      (current == null || cursors.None?) &&
      forall c :: c in Registered() ==> c.txn == this && c.state == OPEN && c.Valid()
    }

    constructor (e: Environment.Env, p: Txn?, ro: bool)
      ensures env == e && parent == p && readOnly == ro
      ensures state == OPEN && current == null && cursors.None? && callbacks.None? && ran == []
      ensures Valid() && Registered() == {}
    {
      env, parent, readOnly := e, p, ro;
      state := OPEN;
      current, cursors, callbacks, ran := null, None, None, [];
    }

    /**
     * `new Txn(env, parent, flags)`: `mdb_txn_begin` returns `rc`; on
     * MDB_MAP_RESIZED the map size is refreshed with `setMapSize(0)` and the
     * begin is retried once, returning `retryRc`.
     */
    static method Begin(e: Environment.Env, p: Txn?, ro: bool, rc: int, numReaders: nat, resizeRc: int, retryRc: int)
      returns (r: Outcome<Txn>)
      modifies e
      ensures rc != ApiErrors.MDB_MAP_RESIZED ==> e.state == old(e.state) && e.mapSize == old(e.mapSize)
      ensures rc != ApiErrors.MDB_MAP_RESIZED ==> (r.Ok? <==> rc == ApiErrors.MDB_SUCCESS)
      ensures rc == ApiErrors.MDB_MAP_RESIZED ==>
                (r.Ok? <==> (e.state == Environment.INIT || (e.state == Environment.OPEN && numReaders == 0))
                            && resizeRc == ApiErrors.MDB_SUCCESS && retryRc == ApiErrors.MDB_SUCCESS)
      ensures r.Ok? ==> fresh(r.value) && r.value.state == OPEN && r.value.Valid() && r.value.Registered() == {}
      ensures r.Ok? ==> r.value.env == e && r.value.parent == p && r.value.readOnly == ro
      ensures r.Fail? && rc != ApiErrors.MDB_MAP_RESIZED ==> r.error == Lmdb(rc)
    {
      var code := rc;
      if rc == ApiErrors.MDB_MAP_RESIZED {
        var s := e.SetMapSize(0, numReaders, resizeRc);
        if s.Fail? { return Fail(s.error); }
        code := retryRc;
      }
      var chk := ApiErrors.CheckError(code);
      if chk.Fail? { return Fail(chk.error); }
      var t := new Txn(e, p, ro);
      return Ok(t);
    }

    /** `registerCursor`: the single slot first, then the set. */
    method Register(c: Cursor)
      requires current == null || cursors.None?
      modifies this
      ensures Registered() == old(Registered()) + {c}
      ensures current == null || cursors.None?
      ensures old(cursors).Some? ==> cursors.Some?
      ensures state == old(state) && callbacks == old(callbacks) && ran == old(ran)
    {
      if cursors.Some? {
        cursors := Some(cursors.value + {c});
        return;
      }
      if current == null {
        current := c;
        return;
      }
      cursors := Some({current, c});
      current := null;
    }

    /** `deregisterCursor`: a cursor this transaction does not hold is an IllegalStateException. */
    method Deregister(c: Cursor) returns (r: Outcome<()>)
      requires current == null || cursors.None?
      modifies this
      ensures r == if c in old(Registered()) then Ok(()) else Fail(IllegalState)
      ensures current == if old(current) == c then null else old(current)
      ensures cursors == if old(current) != c && old(cursors).Some? then Some(old(cursors).value - {c}) else old(cursors)
      ensures Registered() == old(Registered()) - {c}
      ensures current == null || cursors.None?
      ensures state == old(state) && callbacks == old(callbacks) && ran == old(ran)
    {
      if c == current {
        current := null;
      } else if cursors.Some? && c in cursors.value {
        cursors := Some(cursors.value - {c});
      } else {
        assert cursors.Some? ==> cursors.value - {c} == cursors.value;
        return Fail(IllegalState);
      }
      r := Ok(());
    }

    /** `closeCursors`: every registered cursor is closed and the registry emptied. */
    method CloseCursors()
      requires Valid()
      modifies this, Registered()
      ensures current == null && cursors.None? && Registered() == {}
      ensures forall c :: c in old(Registered()) ==> c.state == CLOSED && c.txn == null
      ensures state == old(state) && callbacks == old(callbacks) && ran == old(ran)
    {
      ghost var all := Registered();
      if current != null {
        var c := current;
        var _ := c.Close();
        current := null;
      }
      if cursors.Some? {
        var todo := cursors.value;
        while todo != {}
          invariant cursors == Some(todo) && current == null
          invariant todo <= all
          invariant forall c :: c in todo ==> c.txn == this && c.state == OPEN && c.Valid()
          invariant forall c :: c in all - todo ==> c.state == CLOSED && c.txn == null
          invariant state == old(state) && callbacks == old(callbacks) && ran == old(ran)
          decreases todo
        {
          var c :| c in todo;
          var _ := c.Close();
          todo := todo - {c};
        }
        cursors := None;
      }
    }

    /** `runAbortOrCommitCallbacks`: run each callback once, in order, then drop the list. */
    method RunCallbacks()
      modifies this
      ensures callbacks.None?
      ensures ran == old(ran) + (if old(callbacks).Some? then old(callbacks).value else [])
      ensures state == old(state) && current == old(current) && cursors == old(cursors)
    {
      if callbacks.None? { return; }
      var cbs := callbacks.value;
      for i := 0 to |cbs|
        invariant ran == old(ran) + cbs[..i]
        invariant callbacks == old(callbacks) && state == old(state)
        invariant current == old(current) && cursors == old(cursors)
      {
        ran := ran + [cbs[i]];
      }
      callbacks := None;
    }

    /** `onAbortOrCommit`: queue a callback for the next abort or commit. */
    method OnAbortOrCommit(cb: nat)
      modifies this
      ensures callbacks == Some((if old(callbacks).Some? then old(callbacks).value else []) + [cb])
      ensures state == old(state) && ran == old(ran) && current == old(current) && cursors == old(cursors)
    {
      if callbacks.None? { callbacks := Some([]); }
      callbacks := Some(callbacks.value + [cb]);
    }

    /**
     * `commit`: only an OPEN transaction; its cursors are closed first.
     * `rc` is the result of `mdb_txn_commit`.
     */
    method Commit(rc: int) returns (r: Outcome<()>)
      requires Valid()
      modifies this, Registered()
      ensures old(state) != OPEN ==> r == Fail(Runtime) && state == old(state)
      ensures old(state) != OPEN ==> current == old(current) && cursors == old(cursors)
      ensures old(state) != OPEN ==> callbacks == old(callbacks) && ran == old(ran)
      ensures old(state) == OPEN ==> Registered() == {} && r == ApiErrors.CheckError(rc)
      ensures old(state) == OPEN ==> forall c :: c in old(Registered()) ==> c.state == CLOSED
      ensures old(state) == OPEN && r.Ok? ==> state == CLOSED && callbacks.None?
      ensures old(state) == OPEN && r.Ok? ==> ran == old(ran) + (if old(callbacks).Some? then old(callbacks).value else [])
      ensures old(state) == OPEN && r.Fail? ==> state == OPEN && callbacks == old(callbacks) && ran == old(ran)
      ensures Valid()
    {
      if state != OPEN { return Fail(Runtime); }
      CloseCursors();
      r := ApiErrors.CheckError(rc);
      if r.Fail? { return; }
      state := CLOSED;
      RunCallbacks();
    }

    /** `abort`: anything but a CLOSED transaction; cursors are closed, callbacks run. */
    method Abort() returns (r: Outcome<()>)
      requires Valid()
      modifies this, Registered()
      ensures old(state) == CLOSED ==> r == Fail(Runtime) && state == CLOSED
      ensures old(state) == CLOSED ==> current == old(current) && cursors == old(cursors)
      ensures old(state) == CLOSED ==> callbacks == old(callbacks) && ran == old(ran)
      ensures old(state) != CLOSED ==> r == Ok(()) && state == CLOSED && Registered() == {}
      ensures old(state) != CLOSED ==> forall c :: c in old(Registered()) ==> c.state == CLOSED
      ensures old(state) != CLOSED ==> callbacks.None?
      ensures old(state) != CLOSED ==> ran == old(ran) + (if old(callbacks).Some? then old(callbacks).value else [])
      ensures Valid()
    {
      if state == CLOSED { return Fail(Runtime); }
      CloseCursors();
      state := CLOSED;
      RunCallbacks();
      r := Ok(());
    }

    /** `reset`: an OPEN read-only transaction goes back to INIT, its cursors closed. */
    method Reset() returns (r: Outcome<()>)
      requires Valid()
      modifies this, Registered()
      ensures r.Ok? <==> old(state) == OPEN && readOnly
      ensures r.Fail? ==> r.error == Runtime && state == old(state)
      ensures r.Fail? ==> current == old(current) && cursors == old(cursors)
      ensures r.Ok? ==> state == INIT && Registered() == {}
      ensures r.Ok? ==> forall c :: c in old(Registered()) ==> c.state == CLOSED
      ensures callbacks == old(callbacks) && ran == old(ran)
      ensures Valid()
    {
      if state != OPEN { return Fail(Runtime); }
      if !readOnly { return Fail(Runtime); }
      CloseCursors();
      state := INIT;
      r := Ok(());
    }

    /** `renew`: a reset read-only transaction is OPEN again. */
    method Renew() returns (r: Outcome<()>)
      modifies this
      ensures r.Ok? <==> old(state) == INIT && readOnly
      ensures r.Fail? ==> r.error == Runtime
      ensures state == if r.Ok? then OPEN else old(state)
      ensures current == old(current) && cursors == old(cursors)
      ensures callbacks == old(callbacks) && ran == old(ran)
    {
      if state != INIT { return Fail(Runtime); }
      if !readOnly { return Fail(Runtime); }
      state := OPEN;
      r := Ok(());
    }

    /** `close`: abort a reset transaction, commit an open one, ignore a closed one. */
    method Close(rc: int) returns (r: Outcome<()>)
      requires Valid()
      modifies this, Registered()
      ensures old(state) == CLOSED ==> r == Ok(()) && state == CLOSED
      ensures old(state) == INIT ==> r == Ok(()) && state == CLOSED
      ensures old(state) == OPEN ==> r == ApiErrors.CheckError(rc)
      ensures old(state) == OPEN ==> state == if r.Ok? then CLOSED else OPEN
      ensures old(state) != CLOSED ==> Registered() == {}
      ensures Valid()
    {
      match state {
        case INIT => r := Abort();
        case OPEN => r := Commit(rc);
        case CLOSED => r := Ok(());
      }
    }
  }

  class Cursor {
    var txn: Txn?
    var state: State
    /** The database as this cursor's transaction sees it. */
    var db: seq<Pair>
    const dup: bool
    var pos: Pos

    ghost predicate Valid()
      reads this
    {
      Wf(db, dup) && PosOk(db, pos) && state != INIT && (state == OPEN ==> txn != null)
    }

    /** `new Cursor(txn, db)`: an unpositioned cursor, registered with its transaction. */
    constructor (t: Txn, data: seq<Pair>, isDup: bool)
      requires Wf(data, isDup)
      requires t.current == null || t.cursors.None?
      modifies t
      ensures Valid() && state == OPEN && txn == t && db == data && dup == isDup && pos == Unset
      ensures t.Registered() == old(t.Registered()) + {this}
      ensures t.current == null || t.cursors.None?
      ensures t.state == old(t.state) && t.callbacks == old(t.callbacks) && t.ran == old(t.ran)
    {
      txn := t;
      state := OPEN;
      db := data;
      dup := isDup;
      pos := Unset;
      new;
      t.Register(this);
    }

    /** `get(op)`: one `mdb_cursor_get`; MDB_NOTFOUND is a null result, not an exception. */
    method Get(op: Op) returns (r: Outcome<Option<Pair>>)
      requires Valid()
      modifies this
      ensures Valid() && db == old(db) && state == old(state) && txn == old(txn)
      ensures old(state) != OPEN ==> r == Fail(Runtime) && pos == old(pos)
      ensures old(state) == OPEN ==> r == Ok(Step(db, old(pos), op).0) && pos == Step(db, old(pos), op).1
    {
      if state != OPEN { return Fail(Runtime); }
      var s := Step(db, pos, op);
      pos := s.1;
      r := Ok(s.0);
    }

    /** `first()`: MDB_FIRST. */
    method First() returns (r: Outcome<Option<Pair>>)
      requires Valid()
      modifies this
      ensures Valid() && db == old(db) && state == old(state) && txn == old(txn)
      ensures old(state) != OPEN ==> r == Fail(Runtime) && pos == old(pos)
      ensures old(state) == OPEN && |db| > 0 ==> r == Ok(Some(db[0])) && pos == At(0)
      ensures old(state) == OPEN && |db| == 0 ==> r == Ok(None) && pos == Unset
    {
      r := Get(Op.First);
    }

    /** `last()`: MDB_LAST. */
    method Last() returns (r: Outcome<Option<Pair>>)
      requires Valid()
      modifies this
      ensures Valid() && db == old(db) && state == old(state) && txn == old(txn)
      ensures old(state) != OPEN ==> r == Fail(Runtime) && pos == old(pos)
      ensures old(state) == OPEN && |db| > 0 ==> r == Ok(Some(db[|db| - 1])) && pos == At(|db| - 1)
      ensures old(state) == OPEN && |db| == 0 ==> r == Ok(None) && pos == Unset
    {
      r := Get(Op.Last);
    }

    /** `next()`: MDB_NEXT; from the gap a delete left, the successor of the deleted pair. */
    method Next() returns (r: Outcome<Option<Pair>>)
      requires Valid()
      modifies this
      ensures Valid() && db == old(db) && state == old(state) && txn == old(txn)
      ensures old(state) != OPEN ==> r == Fail(Runtime) && pos == old(pos)
      ensures old(state) == OPEN && old(pos).Unset? ==>
                r == Ok(if |db| > 0 then Some(db[0]) else None) && pos == (if |db| > 0 then At(0) else Unset)
      ensures old(state) == OPEN && !old(pos).Unset? ==>
                var j := if old(pos).At? then old(pos).i + 1 else old(pos).i;
                r == Ok(if j < |db| then Some(db[j]) else None) && pos == (if j < |db| then At(j) else old(pos))
    {
      r := Get(Op.Next);
    }

    /** `prev()`: MDB_PREV. */
    method Prev() returns (r: Outcome<Option<Pair>>)
      requires Valid()
      modifies this
      ensures Valid() && db == old(db) && state == old(state) && txn == old(txn)
      ensures old(state) != OPEN ==> r == Fail(Runtime) && pos == old(pos)
      ensures old(state) == OPEN && old(pos).Unset? ==>
                r == Ok(if |db| > 0 then Some(db[|db| - 1]) else None) && pos == (if |db| > 0 then At(|db| - 1) else Unset)
      ensures old(state) == OPEN && !old(pos).Unset? ==>
                r == Ok(if old(pos).i > 0 then Some(db[old(pos).i - 1]) else None)
                && pos == (if old(pos).i > 0 then At(old(pos).i - 1) else old(pos))
    {
      r := Get(Op.Prev);
    }

    /** `nextNoDup()`: MDB_NEXT_NODUP, the first pair of the next key. */
    method NextNoDup() returns (r: Outcome<Option<Pair>>)
      requires Valid()
      modifies this
      ensures Valid() && db == old(db) && state == old(state) && txn == old(txn)
      ensures old(state) != OPEN ==> r == Fail(Runtime) && pos == old(pos)
      ensures old(state) == OPEN && old(pos).Unset? ==>
                r == Ok(if |db| > 0 then Some(db[0]) else None) && pos == (if |db| > 0 then At(0) else Unset)
      ensures old(state) == OPEN && !old(pos).Unset? ==>
                var j := KeyUpperBound(db, PosKey(db, old(pos)));
                r == Ok(if j < |db| then Some(db[j]) else None) && pos == (if j < |db| then At(j) else old(pos))
    {
      r := Get(Op.NextNoDup);
    }

    /** `prevNoDup()`: MDB_PREV_NODUP, the last pair of the previous key. */
    method PrevNoDup() returns (r: Outcome<Option<Pair>>)
      requires Valid()
      modifies this
      ensures Valid() && db == old(db) && state == old(state) && txn == old(txn)
      ensures old(state) != OPEN ==> r == Fail(Runtime) && pos == old(pos)
      ensures old(state) == OPEN && old(pos).Unset? ==>
                r == Ok(if |db| > 0 then Some(db[|db| - 1]) else None) && pos == (if |db| > 0 then At(|db| - 1) else Unset)
      ensures old(state) == OPEN && !old(pos).Unset? ==>
                var j := KeyLowerBound(db, PosKey(db, old(pos)));
                r == Ok(if j > 0 then Some(db[j - 1]) else None) && pos == (if j > 0 then At(j - 1) else old(pos))
    {
      r := Get(Op.PrevNoDup);
    }

    /** `nextDup()`: MDB_NEXT_DUP, the next duplicate of the current key. */
    method NextDup() returns (r: Outcome<Option<Pair>>)
      requires Valid()
      modifies this
      ensures Valid() && db == old(db) && state == old(state) && txn == old(txn)
      ensures old(state) != OPEN ==> r == Fail(Runtime) && pos == old(pos)
      ensures old(state) == OPEN && old(pos).Unset? ==>
                r == Ok(if |db| > 0 then Some(db[0]) else None) && pos == (if |db| > 0 then At(0) else Unset)
      ensures old(state) == OPEN && !old(pos).Unset? ==>
                var j := if old(pos).At? then old(pos).i + 1 else old(pos).i;
                var ok := j < |db| && db[j].key == PosKey(db, old(pos));
                r == Ok(if ok then Some(db[j]) else None) && pos == (if ok then At(j) else old(pos))
    {
      r := Get(Op.NextDup);
    }

    /** `prevDup()`: MDB_PREV_DUP, the previous duplicate of the current key. */
    method PrevDup() returns (r: Outcome<Option<Pair>>)
      requires Valid()
      modifies this
      ensures Valid() && db == old(db) && state == old(state) && txn == old(txn)
      ensures old(state) != OPEN ==> r == Fail(Runtime) && pos == old(pos)
      ensures old(state) == OPEN && old(pos).Unset? ==>
                r == Ok(if |db| > 0 then Some(db[|db| - 1]) else None) && pos == (if |db| > 0 then At(|db| - 1) else Unset)
      ensures old(state) == OPEN && !old(pos).Unset? ==>
                var ok := old(pos).i > 0 && db[old(pos).i - 1].key == PosKey(db, old(pos));
                r == Ok(if ok then Some(db[old(pos).i - 1]) else None) && pos == (if ok then At(old(pos).i - 1) else old(pos))
    {
      r := Get(Op.PrevDup);
    }

    /** `firstDup()`: MDB_FIRST_DUP; an unpositioned cursor finds nothing. */
    method FirstDup() returns (r: Outcome<Option<Pair>>)
      requires Valid()
      modifies this
      ensures Valid() && db == old(db) && state == old(state) && txn == old(txn)
      ensures old(state) != OPEN ==> r == Fail(Runtime) && pos == old(pos)
      ensures old(state) == OPEN && old(pos).Unset? ==> r == Ok(None) && pos == Unset
      ensures old(state) == OPEN && !old(pos).Unset? ==>
                var k := PosKey(db, old(pos));
                var j := KeyLowerBound(db, k);
                var ok := j < |db| && db[j].key == k;
                r == Ok(if ok then Some(db[j]) else None) && pos == (if ok then At(j) else old(pos))
    {
      r := Get(Op.FirstDup);
    }

    /** `lastDup()`: MDB_LAST_DUP; an unpositioned cursor finds nothing. */
    method LastDup() returns (r: Outcome<Option<Pair>>)
      requires Valid()
      modifies this
      ensures Valid() && db == old(db) && state == old(state) && txn == old(txn)
      ensures old(state) != OPEN ==> r == Fail(Runtime) && pos == old(pos)
      ensures old(state) == OPEN && old(pos).Unset? ==> r == Ok(None) && pos == Unset
      ensures old(state) == OPEN && !old(pos).Unset? ==>
                var k := PosKey(db, old(pos));
                var j := KeyUpperBound(db, k);
                var ok := j > 0 && db[j - 1].key == k;
                r == Ok(if ok then Some(db[j - 1]) else None) && pos == (if ok then At(j - 1) else old(pos))
    {
      r := Get(Op.LastDup);
    }

    /** `moveTo(key)`: MDB_SET. */
    method MoveTo(k: int) returns (r: Outcome<bool>)
      requires Valid()
      modifies this
      ensures Valid() && db == old(db) && state == old(state) && txn == old(txn)
      ensures old(state) != OPEN ==> r == Fail(Runtime)
      ensures old(state) == OPEN ==> r == Ok(HasKey(db, k))
      ensures old(state) == OPEN && HasKey(db, k) ==> pos == At(KeyLowerBound(db, k))
    {
      var g := Get(Set(k));
      if g.Fail? { return Fail(g.error); }
      r := Ok(g.value.Some?);
    }

    /** `moveTo(key, value)`: MDB_GET_BOTH. */
    method MoveToBoth(k: int, v: int) returns (r: Outcome<bool>)
      requires Valid()
      modifies this
      ensures Valid() && db == old(db) && state == old(state) && txn == old(txn)
      ensures old(state) != OPEN ==> r == Fail(Runtime)
      ensures old(state) == OPEN ==> r == Ok(Pair(k, v) in db)
      ensures old(state) == OPEN && Pair(k, v) in db ==> pos.At? && db[pos.i] == Pair(k, v)
    {
      var g := Get(GetBoth(k, v));
      if g.Fail? { return Fail(g.error); }
      r := Ok(g.value.Some?);
      if Pair(k, v) in db {
        ghost var ix := IndexOf(db, Pair(k, v));
      }
    }

    /** `ceiling(key)`: MDB_SET_RANGE, after the null and empty-buffer checks. */
    method Ceiling(key: Buf) returns (r: Outcome<Option<Pair>>)
      requires Valid()
      modifies this
      ensures Valid() && db == old(db) && state == old(state) && txn == old(txn)
      ensures BufError(key).Some? ==> r == Fail(BufError(key).value)
      ensures key.Bytes? && old(state) != OPEN ==> r == Fail(Runtime)
      ensures key.Bytes? && old(state) == OPEN ==> r == Ok(CeilingEntry(db, key.v))
      ensures r.Ok? && r.value.Some? ==> pos == At(KeyLowerBound(db, key.v))
    {
      if key.NullBuf? { return Fail(NullPointer); }
      if key.EmptyBuf? { return Fail(IllegalArgument); }
      r := Get(SetRange(key.v));
    }

    /** `higher(key)`: the ceiling, stepped past an exact match with MDB_NEXT_NODUP. */
    method Higher(key: Buf) returns (r: Outcome<Option<Pair>>)
      requires Valid()
      modifies this
      ensures Valid() && db == old(db) && state == old(state) && txn == old(txn)
      ensures BufError(key).Some? ==> r == Fail(BufError(key).value)
      ensures key.Bytes? && old(state) != OPEN ==> r == Fail(Runtime)
      ensures key.Bytes? && old(state) == OPEN ==> r == Ok(HigherEntry(db, key.v))
      ensures key.Bytes? && r.Ok? && r.value.Some? ==> pos == At(KeyUpperBound(db, key.v))
    {
      var res := Ceiling(key);
      if res.Fail? || res.value.None? { return res; }
      var k := key.v;
      var i := KeyLowerBound(db, k);
      if k == res.value.value.key {
        r := NextNoDup();
      } else {
        KeyUpperBoundIs(db, k, i);
        r := res;
      }
    }

    /**
     * `floor(key)` as written: the ceiling, or the pair before it with
     * MDB_PREV_NODUP. When no key is at least `key` the ceiling is null and
     * so is the result, even when smaller keys exist.
     */
    method Floor(key: Buf) returns (r: Outcome<Option<Pair>>)
      requires Valid()
      modifies this
      ensures Valid() && db == old(db) && state == old(state) && txn == old(txn)
      ensures BufError(key).Some? ==> r == Fail(BufError(key).value)
      ensures key.Bytes? && old(state) != OPEN ==> r == Fail(Runtime)
      ensures key.Bytes? && old(state) == OPEN ==>
                r == Ok(if CeilingEntry(db, key.v).None? then None else FloorEntry(db, key.v))
      ensures r.Ok? && r.value.Some? && key.Bytes? && r.value.value.key == key.v ==> pos == At(KeyLowerBound(db, key.v))
      ensures r.Ok? && r.value.Some? ==> pos.At? && db[pos.i] == r.value.value
    {
      var res := Ceiling(key);
      if res.Fail? || res.value.None? { return res; }
      var k := key.v;
      if k == res.value.value.key {
        r := res;
      } else {
        r := PrevFromCeiling(k);
      }
    }

    /** `lower(key)` as written: built on `floor`, so it inherits its null result. */
    method Lower(key: Buf) returns (r: Outcome<Option<Pair>>)
      requires Valid()
      modifies this
      ensures Valid() && db == old(db) && state == old(state) && txn == old(txn)
      ensures BufError(key).Some? ==> r == Fail(BufError(key).value)
      ensures key.Bytes? && old(state) != OPEN ==> r == Fail(Runtime)
      ensures key.Bytes? && old(state) == OPEN ==>
                r == Ok(if CeilingEntry(db, key.v).None? then None else LowerEntry(db, key.v))
      ensures r.Ok? && r.value.Some? ==> pos.At? && db[pos.i] == r.value.value
    {
      var res := Floor(key);
      if res.Fail? || res.value.None? { return res; }
      if key.v == res.value.value.key {
        r := PrevFromKey(key.v);
      } else {
        assert res.value == LowerEntry(db, key.v);
        r := res;
      }
    }

    /** `floor(key)` corrected: with no ceiling, the floor is the last pair. */
    method FloorFixed(key: Buf) returns (r: Outcome<Option<Pair>>)
      requires Valid()
      modifies this
      ensures Valid() && db == old(db) && state == old(state) && txn == old(txn)
      ensures BufError(key).Some? ==> r == Fail(BufError(key).value)
      ensures key.Bytes? && old(state) != OPEN ==> r == Fail(Runtime)
      ensures key.Bytes? && old(state) == OPEN ==> r == Ok(FloorEntry(db, key.v))
      ensures r.Ok? && r.value.Some? && key.Bytes? && r.value.value.key == key.v ==> pos == At(KeyLowerBound(db, key.v))
      ensures r.Ok? && r.value.Some? ==> pos.At? && db[pos.i] == r.value.value
    {
      var res := Ceiling(key);
      if res.Fail? { return res; }
      var k := key.v;
      if res.value.None? {
        r := LastBelow(k);
        return;
      }
      ghost var i := KeyLowerBound(db, k);
      assert pos == At(i) && res.value.value == db[i];
      if k == res.value.value.key {
        r := res;
        return;
      }
      r := PrevFromCeiling(k);
    }

    /** From the ceiling of `k`, a pair above `k`, MDB_PREV_NODUP lands on the floor of `k`. */
    method PrevFromCeiling(ghost k: int) returns (r: Outcome<Option<Pair>>)
      requires Valid() && state == OPEN
      requires pos.At? && pos.i == KeyLowerBound(db, k) && db[pos.i].key != k
      modifies this
      ensures Valid() && db == old(db) && state == old(state) && txn == old(txn)
      ensures r == Ok(FloorEntry(db, k))
      ensures r.value.Some? ==> pos.At? && db[pos.i] == r.value.value
    {
      ghost var i := pos.i;
      KeyLowerBoundIs(db, db[i].key, i);
      r := PrevNoDup();
    }

    /** With every pair below `k`, MDB_LAST lands on the floor of `k`, which is also its lower entry. */
    method LastBelow(ghost k: int) returns (r: Outcome<Option<Pair>>)
      requires Valid() && state == OPEN && KeyLowerBound(db, k) == |db|
      modifies this
      ensures Valid() && db == old(db) && state == old(state) && txn == old(txn)
      ensures r == Ok(FloorEntry(db, k)) && r == Ok(LowerEntry(db, k))
      ensures r.value.Some? ==> pos.At? && db[pos.i] == r.value.value
    {
      r := Last();
    }

    /** On the first pair of `k`, MDB_PREV_NODUP lands on the lower entry of `k`. */
    method PrevFromKey(ghost k: int) returns (r: Outcome<Option<Pair>>)
      requires Valid() && state == OPEN
      requires pos == At(KeyLowerBound(db, k)) && pos.i < |db| && db[pos.i].key == k
      modifies this
      ensures Valid() && db == old(db) && state == old(state) && txn == old(txn)
      ensures r == Ok(LowerEntry(db, k))
      ensures r.value.Some? ==> pos.At? && db[pos.i] == r.value.value
    {
      assert PosKey(db, pos) == k;
      r := PrevNoDup();
    }

    /** `lower(key)` corrected: built on the corrected floor. */
    method LowerFixed(key: Buf) returns (r: Outcome<Option<Pair>>)
      requires Valid()
      modifies this
      ensures Valid() && db == old(db) && state == old(state) && txn == old(txn)
      ensures BufError(key).Some? ==> r == Fail(BufError(key).value)
      ensures key.Bytes? && old(state) != OPEN ==> r == Fail(Runtime)
      ensures key.Bytes? && old(state) == OPEN ==> r == Ok(LowerEntry(db, key.v))
      ensures r.Ok? && r.value.Some? ==> pos.At? && db[pos.i] == r.value.value
    {
      var res := FloorFixed(key);
      if res.Fail? || res.value.None? { return res; }
      if key.v == res.value.value.key {
        r := PrevFromKey(key.v);
      } else {
        r := res;
      }
    }

    /**
     * `close`: idempotent. Closing marks the cursor CLOSED and removes it from
     * its transaction; a transaction that does not hold it throws
     * IllegalStateException, and the cursor then keeps its `txn` reference.
     */
    method Close() returns (r: Outcome<()>)
      requires Valid()
      requires txn != null ==> txn.current == null || txn.cursors.None?
      modifies this, txn
      ensures Valid() && state == CLOSED && db == old(db) && pos == old(pos)
      ensures old(state) == CLOSED ==> r == Ok(()) && txn == old(txn) && (txn != null ==> unchanged(txn))
      ensures old(state) == OPEN ==> r == if this in old(txn.Registered()) then Ok(()) else Fail(IllegalState)
      ensures old(state) == OPEN ==> txn == if r.Ok? then null else old(txn)
      ensures old(state) == OPEN ==> old(txn).current == if old(txn.current) == this then null else old(txn.current)
      ensures old(state) == OPEN ==>
                old(txn).cursors == if old(txn.current) != this && old(txn.cursors).Some?
                                    then Some(old(txn.cursors).value - {this}) else old(txn.cursors)
      ensures old(state) == OPEN ==> old(txn).Registered() == old(txn.Registered()) - {this}
      ensures old(state) == OPEN ==> old(txn).state == old(txn.state) && old(txn).callbacks == old(txn.callbacks)
      ensures old(state) == OPEN ==> old(txn).ran == old(txn.ran)
    {
      if state == CLOSED { return Ok(()); }
      state := CLOSED;
      r := txn.Deregister(this);
      if r.Fail? { return; }
      txn := null;
    }

    /**
     * `renew(txn)` as written: both transactions must be read-only; the cursor
     * is rebound to the new transaction (and unpositioned by the store), but
     * it stays registered with the old one and is never registered with the
     * new one. `data` is the database as the new transaction sees it.
     */
    method Renew(t: Txn, data: seq<Pair>, rc: int) returns (r: Outcome<()>)
      requires Valid() && Wf(data, dup)
      modifies this
      ensures Valid() && state == old(state)
      ensures old(state) != OPEN ==> r == Fail(Runtime)
      ensures old(state) == OPEN && !(old(txn).readOnly && t.readOnly) ==> r == Fail(Runtime)
      ensures old(state) == OPEN && old(txn).readOnly && t.readOnly ==> r == ApiErrors.CheckError(rc)
      ensures r.Ok? ==> txn == t && db == data && pos == Unset
      ensures r.Fail? ==> txn == old(txn) && db == old(db) && pos == old(pos)
    {
      if state != OPEN { return Fail(Runtime); }
      if !txn.readOnly || !t.readOnly { return Fail(Runtime); }
      r := ApiErrors.CheckError(rc);
      if r.Fail? { return; }
      txn := t;
      db, pos := data, Unset;
    }

    /** `renew(txn)` corrected: the registration moves with the cursor. */
    method RenewFixed(t: Txn, data: seq<Pair>, rc: int) returns (r: Outcome<()>)
      requires Valid() && Wf(data, dup)
      requires state == OPEN ==> this in txn.Registered() && (txn.current == null || txn.cursors.None?)
      requires t.current == null || t.cursors.None?
      modifies this, txn, t
      ensures Valid() && state == old(state)
      ensures old(state) != OPEN ==> r == Fail(Runtime)
      ensures old(state) == OPEN && !(old(txn).readOnly && t.readOnly) ==> r == Fail(Runtime)
      ensures old(state) == OPEN && old(txn).readOnly && t.readOnly ==> r == ApiErrors.CheckError(rc)
      ensures r.Ok? ==> txn == t && db == data && pos == Unset && this in t.Registered()
      ensures t.current == null || t.cursors.None?
      ensures old(state) == OPEN ==> old(txn).current == null || old(txn).cursors.None?
      ensures r.Ok? && old(txn) != t ==> old(txn).Registered() == old(txn.Registered()) - {this}
      ensures r.Ok? && old(txn) != t ==> t.Registered() == old(t.Registered()) + {this}
      ensures r.Fail? ==> txn == old(txn) && db == old(db) && pos == old(pos)
    {
      if state != OPEN { return Fail(Runtime); }
      if !txn.readOnly || !t.readOnly { return Fail(Runtime); }
      r := ApiErrors.CheckError(rc);
      if r.Fail? { return; }
      var d := txn.Deregister(this);
      t.Register(this);
      txn := t;
      db, pos := data, Unset;
    }

    /** Both-buffer checks of the `dup*` methods: null references first, then empty buffers. */
    static function PairBufError(key: Buf, value: Buf): (e: Option<Exn>)
      ensures e.None? <==> key.Bytes? && value.Bytes?
      ensures e.Some? ==> e.value == (if key.NullBuf? || value.NullBuf? then NullPointer else IllegalArgument)
    {
      if key.NullBuf? || value.NullBuf? then Some(NullPointer)
      else if key.EmptyBuf? || value.EmptyBuf? then Some(IllegalArgument)
      else None
    }

    /** `dupCeiling(key, value)`: MDB_GET_BOTH_RANGE. */
    method DupCeiling(key: Buf, value: Buf) returns (r: Outcome<Option<Pair>>)
      requires Valid()
      modifies this
      ensures Valid() && db == old(db) && state == old(state) && txn == old(txn)
      ensures PairBufError(key, value).Some? ==> r == Fail(PairBufError(key, value).value)
      ensures PairBufError(key, value).None? && old(state) != OPEN ==> r == Fail(Runtime)
      ensures PairBufError(key, value).None? && old(state) == OPEN ==> r == Ok(DupCeilingEntry(db, key.v, value.v))
      ensures r.Ok? && r.value.Some? ==> pos == At(PairLowerBound(db, Pair(key.v, value.v)))
    {
      var e := PairBufError(key, value);
      if e.Some? { return Fail(e.value); }
      r := Get(GetBothRange(key.v, value.v));
    }

    /** `dupHigher(key, value)`: the dup ceiling, stepped past an exact match with MDB_NEXT_DUP. */
    method DupHigher(key: Buf, value: Buf) returns (r: Outcome<Option<Pair>>)
      requires Valid()
      modifies this
      ensures Valid() && db == old(db) && state == old(state) && txn == old(txn)
      ensures PairBufError(key, value).Some? ==> r == Fail(PairBufError(key, value).value)
      ensures PairBufError(key, value).None? && old(state) != OPEN ==> r == Fail(Runtime)
      ensures PairBufError(key, value).None? && old(state) == OPEN ==> r == Ok(DupHigherEntry(db, key.v, value.v))
    {
      var res := DupCeiling(key, value);
      if res.Fail? || res.value.None? { return res; }
      if res.value.value.val > value.v {
        r := res;
      } else {
        r := NextDup();
      }
    }

    /**
     * `dupFloor(key, value)`: the dup ceiling if it is an exact match, else
     * the duplicate before it (MDB_PREV_DUP); with no dup ceiling, the last
     * duplicate of the key (MDB_SET then MDB_LAST_DUP).
     */
    method DupFloor(key: Buf, value: Buf) returns (r: Outcome<Option<Pair>>)
      requires Valid()
      modifies this
      ensures Valid() && db == old(db) && state == old(state) && txn == old(txn)
      ensures PairBufError(key, value).Some? ==> r == Fail(PairBufError(key, value).value)
      ensures PairBufError(key, value).None? && old(state) != OPEN ==> r == Fail(Runtime)
      ensures PairBufError(key, value).None? && old(state) == OPEN ==> r == Ok(DupFloorEntry(db, key.v, value.v))
    {
      var res := DupCeiling(key, value);
      if res.Fail? { return res; }
      if res.value.None? {
        r := LastDupBelow(key.v, value.v);
        return;
      }
      ghost var i := PairLowerBound(db, Pair(key.v, value.v));
      assert pos == At(i) && res.value.value == db[i];
      if res.value.value.val <= value.v {
        assert db[i] == Pair(key.v, value.v);
        r := res;
      } else {
        r := PrevDupFromCeiling(key.v, value.v);
      }
    }

    /**
     * With no duplicate of `k` at or above `v`, MDB_SET then MDB_LAST_DUP
     * lands on the greatest duplicate of `k`, which is below `v`.
     */
    method LastDupBelow(k: int, ghost v: int) returns (r: Outcome<Option<Pair>>)
      requires Valid() && state == OPEN && DupCeilingEntry(db, k, v).None?
      modifies this
      ensures Valid() && db == old(db) && state == old(state) && txn == old(txn)
      ensures r == Ok(DupLowerEntry(db, k, v)) && r == Ok(DupFloorEntry(db, k, v))
    {
      LastDupOfKey(db, k, v);
      HasKeyRun(db, k);
      var found := MoveTo(k);
      if found.value {
        assert PosKey(db, pos) == k;
        r := LastDup();
      } else {
        r := Ok(None);
      }
    }

    /** From the dup ceiling of `(k, v)`, MDB_PREV_DUP lands on the greatest duplicate of `k` below `v`. */
    method PrevDupFromCeiling(ghost k: int, ghost v: int) returns (r: Outcome<Option<Pair>>)
      requires Valid() && state == OPEN
      requires pos.At? && pos.i == PairLowerBound(db, Pair(k, v)) && db[pos.i].key == k
      modifies this
      ensures Valid() && db == old(db) && state == old(state) && txn == old(txn)
      ensures r == Ok(DupLowerEntry(db, k, v))
      ensures db[old(pos).i] != Pair(k, v) ==> r == Ok(DupFloorEntry(db, k, v))
    {
      assert PosKey(db, pos) == k;
      r := PrevDup();
    }

    /** `dupLower(key, value)`: as `dupFloor`, never keeping an exact match. */
    method DupLower(key: Buf, value: Buf) returns (r: Outcome<Option<Pair>>)
      requires Valid()
      modifies this
      ensures Valid() && db == old(db) && state == old(state) && txn == old(txn)
      ensures PairBufError(key, value).Some? ==> r == Fail(PairBufError(key, value).value)
      ensures PairBufError(key, value).None? && old(state) != OPEN ==> r == Fail(Runtime)
      ensures PairBufError(key, value).None? && old(state) == OPEN ==> r == Ok(DupLowerEntry(db, key.v, value.v))
    {
      var res := DupCeiling(key, value);
      if res.Fail? { return res; }
      if res.value.None? {
        r := LastDupBelow(key.v, value.v);
        return;
      }
      ghost var i := PairLowerBound(db, Pair(key.v, value.v));
      assert pos == At(i) && res.value.value == db[i];
      if res.value.value.val < value.v {
        r := res;
      } else {
        r := PrevDupFromCeiling(key.v, value.v);
      }
    }

    /**
     * `keyCount`: MDB_FIRST, then MDB_NEXT_NODUP until MDB_NOTFOUND,
     * counting the pairs it lands on.
     */
    method KeyCount() returns (r: Outcome<nat>)
      requires Valid()
      modifies this
      ensures Valid() && db == old(db) && state == old(state) && txn == old(txn)
      ensures old(state) != OPEN ==> r == Fail(Runtime)
      ensures old(state) == OPEN ==> r == Ok(|Keys(db)|)
    {
      if state != OPEN { return Fail(Runtime); }
      var g := First();
      if g.value.None? {
        assert db == [];
        return Ok(0);
      }
      KeysNextRun(db, db[0].key - 1, 0);
      var count := CountKeysFrom(1, KeyUpperBound(db, db[0].key));
      r := Ok(count);
    }

    /**
     * The loop of `keyCount`: from a pair of the run ending at `u0`, with
     * `count0` keys seen so far, MDB_NEXT_NODUP until MDB_NOTFOUND.
     */
    method CountKeysFrom(count0: nat, ghost u0: nat) returns (count: nat)
      requires Valid() && state == OPEN
      requires pos.At? && pos.i < u0 <= |db| && u0 == KeyUpperBound(db, db[pos.i].key)
      requires count0 == |Keys(db[..u0])|
      modifies this
      ensures Valid() && db == old(db) && state == old(state) && txn == old(txn)
      ensures count == |Keys(db)|
    {
      count := count0;
      ghost var u := u0;
      while true
        invariant Valid() && db == old(db) && state == OPEN && txn == old(txn)
        invariant pos.At? && pos.i < u <= |db|
        invariant u == KeyUpperBound(db, db[pos.i].key)
        invariant count == |Keys(db[..u])|
        decreases |db| - pos.i
      {
        var more;
        more, u := NextKey(u);
        if !more { break; }
        count := count + 1;
      }
      assert db[..|db|] == db;
    }

    /**
     * One step of `keyCount`: MDB_NEXT_NODUP from the pair before `u`, the end
     * of the run of the current key; on success the keys seen grow by one.
     */
    method NextKey(ghost u: nat) returns (more: bool, ghost u': nat)
      requires Valid() && state == OPEN
      requires pos.At? && pos.i < u <= |db| && u == KeyUpperBound(db, db[pos.i].key)
      modifies this
      ensures Valid() && db == old(db) && state == old(state) && txn == old(txn)
      ensures more <==> u < |db|
      ensures more ==> pos == At(u) && u' == KeyUpperBound(db, db[u].key) && u < u'
                       && |Keys(db[..u'])| == |Keys(db[..u])| + 1
      ensures !more ==> pos == old(pos) && u' == u
    {
      ghost var k := db[pos.i].key;
      assert PosKey(db, pos) == k;
      var g := NextNoDup();
      more := g.value.Some?;
      u' := u;
      if more {
        KeysNextRun(db, k, u);
        u' := KeyUpperBound(db, db[u].key);
      }
    }

    /** `dupCount`: `mdb_cursor_count` on the pair the cursor is on. */
    method DupCount() returns (r: Outcome<nat>)
      requires Valid()
      ensures state != OPEN ==> r == Fail(Runtime)
      ensures state == OPEN && pos.At? ==> r == Ok(Store.DupCount(db, db[pos.i].key))
      ensures state == OPEN && !pos.At? ==> r == Fail(Lmdb(ApiErrors.EINVAL))
    {
      if state != OPEN { return Fail(Runtime); }
      if !pos.At? { return Fail(Lmdb(ApiErrors.EINVAL)); }
      r := Ok(Store.DupCount(db, db[pos.i].key));
    }

    /**
     * `put(key, data, flags)`: `mdb_cursor_put`. The key must be at least one
     * byte; MDB_KEYEXIST is thrown. On success the cursor is on the new pair.
     */
    method Put(key: Buf, v: int, flag: PutFlag) returns (r: Outcome<()>)
      requires Valid()
      modifies this
      ensures Valid() && state == old(state) && txn == old(txn)
      ensures old(state) != OPEN ==> r == Fail(Runtime)
      ensures old(state) == OPEN && key.NullBuf? ==> r == Fail(NullPointer)
      ensures old(state) == OPEN && key.EmptyBuf? ==> r == Fail(IllegalArgument)
      ensures old(state) == OPEN && key.Bytes? && Store.Put(old(db), dup, key.v, v, flag).None? ==>
                r == Fail(Lmdb(ApiErrors.MDB_KEYEXIST))
      ensures old(state) == OPEN && key.Bytes? && Store.Put(old(db), dup, key.v, v, flag).Some? ==>
                r == Ok(()) && db == Store.Put(old(db), dup, key.v, v, flag).value
      ensures r.Ok? ==> pos.At? && db[pos.i] == Pair(key.v, v)
      ensures r.Fail? ==> db == old(db) && pos == old(pos)
    {
      if state != OPEN { return Fail(Runtime); }
      if key.NullBuf? { return Fail(NullPointer); }
      if key.EmptyBuf? { return Fail(IllegalArgument); }
      var res := Store.Put(db, dup, key.v, v, flag);
      if res.None? { return Fail(Lmdb(ApiErrors.MDB_KEYEXIST)); }
      db := res.value;
      pos := At(IndexOf(db, Pair(key.v, v)));
      r := Ok(());
    }

    /**
     * `put(key, data)` as written: the two-argument overload calls itself,
     * so it never reaches the store. `depth` bounds the Java stack.
     */
    method PutRecursive(key: Buf, v: int, depth: nat) returns (r: Outcome<()>)
      ensures r == Fail(StackOverflow)
      decreases depth
    {
      if depth == 0 { return Fail(StackOverflow); }
      r := PutRecursive(key, v, depth - 1);
    }

    /** `put(key, data)` corrected: `put(key, data, 0)`. */
    method PutDefault(key: Buf, v: int) returns (r: Outcome<()>)
      requires Valid()
      modifies this
      ensures Valid() && state == old(state) && txn == old(txn)
      ensures old(state) == OPEN && key.Bytes? ==> r == Ok(()) && Pair(key.v, v) in db
      ensures old(state) == OPEN && key.Bytes? && !dup ==>
                forall q :: q in db <==> (q in old(db) && q.key != key.v) || q == Pair(key.v, v)
      ensures old(state) == OPEN && key.Bytes? && dup ==> forall q :: q in db <==> q in old(db) || q == Pair(key.v, v)
      ensures r.Fail? ==> db == old(db)
    {
      r := Put(key, v, Plain);
    }

    /**
     * `delete`: `mdb_cursor_del` removes the pair the cursor is on and leaves
     * the cursor in the gap, so the next forward move lands on its successor.
     */
    method Delete() returns (r: Outcome<()>)
      requires Valid()
      modifies this
      ensures Valid() && state == old(state) && txn == old(txn)
      ensures old(state) != OPEN ==> r == Fail(Runtime)
      ensures old(state) == OPEN && !old(pos).At? ==> r == Fail(Lmdb(ApiErrors.EINVAL))
      ensures old(state) == OPEN && old(pos).At? ==>
                r == Ok(()) && db == RemoveAt(old(db), old(pos).i) && pos == Gap(old(pos).i, old(db)[old(pos).i].key)
      ensures r.Fail? ==> db == old(db) && pos == old(pos)
    {
      if state != OPEN { return Fail(Runtime); }
      if !pos.At? { return Fail(Lmdb(ApiErrors.EINVAL)); }
      var i := pos.i;
      var k := db[i].key;
      db := RemoveAt(db, i);
      pos := Gap(i, k);
      r := Ok(());
    }
  }

  /** A cursor renewed into another read-only transaction cannot be closed. */
  method RenewThenCloseScenario() returns (renewed: Outcome<()>, closed: Outcome<()>)
    ensures renewed == Ok(()) && closed == Fail(IllegalState)
  {
    var e := new Environment.Env();
    var t1 := new Txn(e, null, true);
    var t2 := new Txn(e, null, true);
    var c := new Cursor(t1, [], false);
    renewed := c.Renew(t2, [], ApiErrors.MDB_SUCCESS);
    closed := c.Close();
  }

  /** With the corrected renew, the same sequence closes cleanly and empties both registries. */
  method RenewFixedThenCloseScenario() returns (renewed: Outcome<()>, closed: Outcome<()>, left1: bool, left2: bool)
    ensures renewed == Ok(()) && closed == Ok(())
    ensures !left1 && !left2
  {
    var e := new Environment.Env();
    var t1 := new Txn(e, null, true);
    var t2 := new Txn(e, null, true);
    var c := new Cursor(t1, [], false);
    renewed := c.RenewFixed(t2, [], ApiErrors.MDB_SUCCESS);
    closed := c.Close();
    left1 := t1.current != null || (t1.cursors.Some? && t1.cursors.value != {});
    left2 := t2.current != null || (t2.cursors.Some? && t2.cursors.value != {});
  }

  /** `floor` as written misses a smaller key when nothing is at or above the argument. */
  method FloorScenario() returns (asWritten: Outcome<Option<Pair>>, fixed: Outcome<Option<Pair>>)
    ensures asWritten == Ok(None)
    ensures fixed == Ok(Some(Pair(1, 0)))
  {
    var e := new Environment.Env();
    var t := new Txn(e, null, true);
    var c := new Cursor(t, [Pair(1, 0)], false);
    asWritten := c.Floor(Bytes(5));
    fixed := c.FloorFixed(Bytes(5));
  }
}
