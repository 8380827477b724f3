# lmdb-je core, modelled in Dafny

lmdb-je wraps LMDB, an ordered key/value store, as Java navigable maps, multimaps
(one sorted set of values per key) and a blocking deque. This project models
what sits above the store and proves the properties its contracts promise.

- The store is an abstract, sorted sequence of (key, value) pairs (module `Store`).
  A database with duplicates (MDB_DUPSORT) may hold several values per key, each
  value at most once. A database without duplicates holds each key once. Keys and
  values are integers under their usual order. They stand for the comparator's
  total order on byte strings, and key equality means `compare == 0`. The views
  compare bounds with `Objects.equals`, which agrees with this only when the
  comparator agrees with `equals`; the model assumes that it does.
- `Api.Cursor` and `Api.Txn` are classes whose methods update the cursor position,
  the cursor and transaction states, the cursor registry and the callback list.
  Every cursor navigation (`ceiling`, `higher`, `floor`, `lower`, the duplicate
  variants and `keyCount`) is proved against a textbook definition over the store.
- `Environment.Env` is the INIT/OPEN/CLOSED guard of the environment, and
  `ApiErrors` is the table from return code to exception.
- `Reusable.ReusableTxn` is the per-thread transaction slot: the read-only depth
  counter, nested write transactions and the `withTxn` decision table.
- `Maps.MapImpl`, `MapViews.MapView` (with the pure bound arithmetic in
  `ViewBounds`) and `Reversed.MapReversed` are the map layer. `MultiSets`,
  `MultiSetViews` and `MultiSetsReversed` are the per-key value sets.
- `Iteration` covers the cursor adapters and the iterator state machine
  (`head`, `first`, `closed`). It proves what a complete walk yields.
- `Collections` covers the key set, the entry set, the values collection and the
  shared `toArray` fill logic of the multisets.
- `Serializers` covers the numeric offset serializers and the byte-array
  serializer over a `ByteBuffer` class. `ReusableBufs` is the in-use flag of the
  cached buffer.
- `Deques.BlockingDeque` is the deque's sequential part: head and tail key
  assignment, and the read and write permit counters as plain integers. It keeps
  the invariant read permits = size and, when bounded, write permits + size = capacity.

Where the code departs from what its documentation or the Java collection
contracts promise, the model follows the code. Such a member is named "as
written" in the table below, and a corrected member, whose name ends in `Fixed`,
sits beside it (see "## Findings"). In particular, the cursor's `floor` and
`lower` answer null whenever no stored key is at least the key asked for, and
every member built on them inherits this: the map's `floorEntry` and
`lowerEntry`, the view cursor's `last()`, the view's `floorEntry`, `lowerEntry`,
`lastEntry` and `pollLastEntry`, the reversed map's `ceilingEntry` and
`higherEntry`, and the key set's `floor` and `lower`. Only the `Fixed` members
reach the corrected cursor navigation.

## Model

| member | source | states |
|---|---|---|
| Common.NarrowToInt | src/main/java/eluvio/lmdb/map/LMDBMapView.java:728 | Java's `(int)` narrowing of a long count: the result is an `int`, equals the input when it fits, and differs from it by a multiple of 2^32 |
| ApiErrors.CodeOf | src/main/java/eluvio/lmdb/api/ApiErrors.java:7-27 | each dedicated exception class stands for one LMDB return code, all in the range MDB_KEYEXIST..MDB_BAD_DBI |
| ApiErrors.ToException | src/main/java/eluvio/lmdb/api/ApiErrors.java:47-75 | a zero code raises AssertionError; a code in MDB_KEYEXIST..MDB_BAD_DBI gets its dedicated class and any other code the generic LMDBException |
| ApiErrors.ToExceptionRoundTrip | src/main/java/eluvio/lmdb/api/ApiErrors.java:52-74 | the dedicated class is chosen exactly for its own code, and for no other |
| ApiErrors.CheckError | src/main/java/eluvio/lmdb/api/ApiErrors.java:35-38 | success passes; every other code fails with an LMDBException carrying that code |
| Environment.Env.constructor | src/main/java/eluvio/lmdb/api/Env.java:27-31 | a new environment handle is in state INIT |
| Environment.Env.SetMapSize | src/main/java/eluvio/lmdb/api/Env.java:37-47 | refused on a closed environment, and on an open one while readers are live; otherwise the native result decides; the state never changes |
| Environment.Env.SetMaxReaders | src/main/java/eluvio/lmdb/api/Env.java:49-52 | allowed only in INIT, then the native result decides |
| Environment.Env.SetMaxDbs | src/main/java/eluvio/lmdb/api/Env.java:54-57 | allowed only in INIT, then the native result decides |
| Environment.Env.Open | src/main/java/eluvio/lmdb/api/Env.java:67-79 | allowed only from INIT; success ends OPEN, a failing native open ends CLOSED and throws its code |
| Environment.Env.Close | src/main/java/eluvio/lmdb/api/Env.java:81-85 | idempotent: every state ends CLOSED |
| Environment.ClosedIsFinal | src/main/java/eluvio/lmdb/api/Env.java:37-85 | once closed, every configuration call is refused and the environment cannot reopen |
| Reusable.CommitBox | src/main/java/eluvio/lmdb/api/Txn.java:124-131 | only an OPEN transaction commits, and it ends CLOSED; any other state throws |
| Reusable.AbortBox | src/main/java/eluvio/lmdb/api/Txn.java:136-146 | every state but CLOSED aborts and ends CLOSED; a CLOSED transaction throws |
| Reusable.ResetBox | src/main/java/eluvio/lmdb/api/Txn.java:151-158 | only an OPEN read-only transaction resets, back to INIT |
| Reusable.RenewBox | src/main/java/eluvio/lmdb/api/Txn.java:163-169 | only a reset (INIT) read-only transaction renews, back to OPEN |
| Reusable.CommitAgrees | src/main/java/eluvio/lmdb/api/Txn.java:124-131 | `Txn.commit` of the cursor-level model moves the state exactly as `CommitBox` |
| Reusable.AbortAgrees | src/main/java/eluvio/lmdb/api/Txn.java:136-146 | `Txn.abort` moves the state exactly as `AbortBox` |
| Reusable.ResetAgrees | src/main/java/eluvio/lmdb/api/Txn.java:151-158 | `Txn.reset` moves the state exactly as `ResetBox` |
| Reusable.RenewAgrees | src/main/java/eluvio/lmdb/api/Txn.java:163-169 | `Txn.renew` moves the state exactly as `RenewBox` |
| Reusable.ReusableTxn.constructor | src/main/java/eluvio/lmdb/map/ReusableTxn.java:87-89 | a new slot holds no transaction and a zero read-only depth |
| Reusable.ReusableTxn.WithTxn | src/main/java/eluvio/lmdb/map/ReusableTxn.java:176-243 | the whole decision table of `withTxn(flags)`: which handle is returned, which transaction is begun, renewed, nested or replaced, when IllegalState is thrown, and the slot invariant is kept |
| Reusable.ReusableTxn.CloseHandle | src/main/java/eluvio/lmdb/map/ReusableTxn.java:40-83 | closing each of the four handles: a write handle commits and pops, restoring a read-only transaction under a positive depth; a read-only handle decrements the depth and resets at 0; the others do nothing |
| Reusable.ReusableTxn.FinishHandle | src/main/java/eluvio/lmdb/map/ReusableTxn.java:26-83 | commit/abort of a handle: a write handle commits or aborts in place, read-only and no-op handles do nothing, a non-nested write handle throws IllegalState |
| Reusable.ReusableTxn.Abort | src/main/java/eluvio/lmdb/map/ReusableTxn.java:91-93 | aborts the current transaction only when it is an OPEN write transaction |
| Reusable.ReusableTxn.EndTxn | src/main/java/eluvio/lmdb/map/ReusableTxn.java:95-106 | `commitTxn`/`abortTxn`: with no transaction IllegalState; a read-only one is reset and the depth must drop to 0; a write one ends and the slot pops to its parent |
| Reusable.ReusableTxn.BeginTxn | src/main/java/eluvio/lmdb/map/ReusableTxn.java:108-111 | as written: refused whenever the current transaction is read-only, otherwise a nested `withTxn` |
| Reusable.ReusableTxn.BeginTxnFixed | src/main/java/eluvio/lmdb/map/ReusableTxn.java:108-111 | corrected: refused only while a read-only transaction is OPEN |
| Reusable.ReusableTxn.Close | src/main/java/eluvio/lmdb/map/ReusableTxn.java:116-123 | aborts the whole chain and zeroes the depth; succeeds exactly when no transaction in the chain is already CLOSED, and otherwise stops at the first CLOSED one |
| Reusable.BeginAfterResetScenario | src/main/java/eluvio/lmdb/map/ReusableTxn.java:108-111 | after a read-only use has ended, `beginTxn(false)` is refused as written and begins a write transaction when corrected |
| Reusable.NestedReadOnlyScenario | src/main/java/eluvio/lmdb/map/ReusableTxn.java:57-67 | two nested read-only uses share one transaction, which stays OPEN until the outer handle closes and is then reset |
| Api.BufError | src/main/java/eluvio/lmdb/api/Cursor.java:192-196 | a null key buffer throws NullPointerException and an empty one IllegalArgumentException; only a non-empty buffer passes |
| Api.Txn.constructor | src/main/java/eluvio/lmdb/api/Txn.java:98-119 | a transaction just begun is OPEN with no cursors and no callbacks |
| Api.Txn.Begin | src/main/java/eluvio/lmdb/api/Txn.java:98-119 | `mdb_txn_begin` decides; on MDB_MAP_RESIZED the map size is refreshed and the begin retried once, and success requires both to succeed |
| Api.Txn.Register | src/main/java/eluvio/lmdb/api/Txn.java:224-242 | the cursor joins the registry: the single slot first, then the set |
| Api.Txn.Deregister | src/main/java/eluvio/lmdb/api/Txn.java:244-254 | the cursor leaves the registry; a cursor the transaction does not hold throws IllegalStateException |
| Api.Txn.CloseCursors | src/main/java/eluvio/lmdb/api/Txn.java:256-271 | every registered cursor ends CLOSED and the registry is emptied |
| Api.Txn.RunCallbacks | src/main/java/eluvio/lmdb/api/Txn.java:278-286 | every queued callback runs once, in order, and the list is dropped |
| Api.Txn.OnAbortOrCommit | src/main/java/eluvio/lmdb/api/Txn.java:273-276 | the callback is appended to the queue |
| Api.Txn.Commit | src/main/java/eluvio/lmdb/api/Txn.java:124-131 | only an OPEN transaction commits: its cursors are closed, the native result decides, and on success it is CLOSED and its callbacks have run |
| Api.Txn.Abort | src/main/java/eluvio/lmdb/api/Txn.java:136-146 | any state but CLOSED aborts: cursors closed, state CLOSED, callbacks run |
| Api.Txn.Reset | src/main/java/eluvio/lmdb/api/Txn.java:151-158 | only an OPEN read-only transaction resets, to INIT, with its cursors closed |
| Api.Txn.Renew | src/main/java/eluvio/lmdb/api/Txn.java:163-169 | only a reset read-only transaction renews, to OPEN |
| Api.Txn.Close | src/main/java/eluvio/lmdb/api/Txn.java:184-198 | aborts a reset transaction, commits an open one and ignores a closed one |
| Api.Cursor.constructor | src/main/java/eluvio/lmdb/api/Cursor.java:55-63 | a new cursor is OPEN, unpositioned and registered with its transaction |
| Api.Cursor.Get | src/main/java/eluvio/lmdb/api/Cursor.java:321-348 | one `mdb_cursor_get`: refused unless OPEN; MDB_NOTFOUND is a null result; the result and the new position are those of the operation on the sorted store |
| Api.Cursor.First | src/main/java/eluvio/lmdb/api/Cursor.java:93 | MDB_FIRST: the least pair, or null on an empty store |
| Api.Cursor.Last | src/main/java/eluvio/lmdb/api/Cursor.java:103 | MDB_LAST: the greatest pair, or null on an empty store |
| Api.Cursor.Next | src/main/java/eluvio/lmdb/api/Cursor.java:113 | MDB_NEXT: the successor of the current pair (of the deleted pair after a delete), or null at the end |
| Api.Cursor.Prev | src/main/java/eluvio/lmdb/api/Cursor.java:123 | MDB_PREV: the predecessor of the current pair, or null at the start |
| Api.Cursor.NextNoDup | src/main/java/eluvio/lmdb/api/Cursor.java:163 | MDB_NEXT_NODUP: the first pair of the next key |
| Api.Cursor.PrevNoDup | src/main/java/eluvio/lmdb/api/Cursor.java:183 | MDB_PREV_NODUP: the last pair of the previous key |
| Api.Cursor.NextDup | src/main/java/eluvio/lmdb/api/Cursor.java:153 | MDB_NEXT_DUP: the next duplicate of the current key, or null after its last |
| Api.Cursor.PrevDup | src/main/java/eluvio/lmdb/api/Cursor.java:173 | MDB_PREV_DUP: the previous duplicate of the current key, or null before its first |
| Api.Cursor.FirstDup | src/main/java/eluvio/lmdb/api/Cursor.java:133 | MDB_FIRST_DUP: the first duplicate of the current key; an unpositioned cursor finds nothing |
| Api.Cursor.LastDup | src/main/java/eluvio/lmdb/api/Cursor.java:143 | MDB_LAST_DUP: the last duplicate of the current key; an unpositioned cursor finds nothing |
| Api.Cursor.MoveTo | src/main/java/eluvio/lmdb/api/Cursor.java:73 | MDB_SET: true exactly when the key is present, and the cursor is then on its first pair |
| Api.Cursor.MoveToBoth | src/main/java/eluvio/lmdb/api/Cursor.java:83 | MDB_GET_BOTH: true exactly when the pair is present, and the cursor is then on it |
| Api.Cursor.Ceiling | src/main/java/eluvio/lmdb/api/Cursor.java:192-196 | the least pair whose key is at least the argument, after the null and empty-buffer checks |
| Api.Cursor.Higher | src/main/java/eluvio/lmdb/api/Cursor.java:205-209 | the least pair whose key is greater than the argument |
| Api.Cursor.Floor | src/main/java/eluvio/lmdb/api/Cursor.java:218-222 | as written: null whenever no stored key is at least k; otherwise the pair of the greatest key at most k (the first duplicate of k when k is stored), where the cursor then stands; a closed cursor or bad buffer fails |
| Api.Cursor.Lower | src/main/java/eluvio/lmdb/api/Cursor.java:231-235 | as written: null whenever no stored key is at least k; otherwise the pair of the greatest key below k, where the cursor then stands; a closed cursor or bad buffer fails |
| Api.Cursor.FloorFixed | src/main/java/eluvio/lmdb/api/Cursor.java:218-222 | corrected: exactly the floor entry, including when every key is below the argument |
| Api.Cursor.PrevFromCeiling | src/main/java/eluvio/lmdb/api/Cursor.java:221 | from the ceiling of a key above the argument, MDB_PREV_NODUP lands on the floor of the argument |
| Api.Cursor.LastBelow | src/main/java/eluvio/lmdb/api/Cursor.java:218-222 | with every key below the argument, MDB_LAST lands on its floor, which is also its lower entry |
| Api.Cursor.PrevFromKey | src/main/java/eluvio/lmdb/api/Cursor.java:234 | from the first pair of the argument's key, MDB_PREV_NODUP lands on its lower entry |
| Api.Cursor.LowerFixed | src/main/java/eluvio/lmdb/api/Cursor.java:231-235 | corrected: exactly the lower entry |
| Api.Cursor.Close | src/main/java/eluvio/lmdb/api/Cursor.java:468-474 | idempotent; closing marks the cursor CLOSED and removes it from its transaction, which throws IllegalStateException when it does not hold the cursor |
| Api.Cursor.Renew | src/main/java/eluvio/lmdb/api/Cursor.java:458-463 | as written: both transactions must be read-only; the cursor is rebound and unpositioned but stays registered with the old transaction |
| Api.Cursor.RenewFixed | src/main/java/eluvio/lmdb/api/Cursor.java:458-463 | corrected: the registration moves with the cursor to the new transaction |
| Api.Cursor.DupCeiling | src/main/java/eluvio/lmdb/api/Cursor.java:261-267 | MDB_GET_BOTH_RANGE: the least duplicate of the key at or above the value, after both buffer checks |
| Api.Cursor.DupHigher | src/main/java/eluvio/lmdb/api/Cursor.java:277-282 | the least duplicate of the key strictly above the value |
| Api.Cursor.DupFloor | src/main/java/eluvio/lmdb/api/Cursor.java:292-297 | the greatest duplicate of the key at or below the value, or null |
| Api.Cursor.LastDupBelow | src/main/java/eluvio/lmdb/api/Cursor.java:294 | with no duplicate at or above the value, MDB_SET then MDB_LAST_DUP lands on the greatest duplicate, which is below the value |
| Api.Cursor.PrevDupFromCeiling | src/main/java/eluvio/lmdb/api/Cursor.java:296 | from the dup ceiling, MDB_PREV_DUP lands on the greatest duplicate below the value |
| Api.Cursor.DupLower | src/main/java/eluvio/lmdb/api/Cursor.java:307-312 | the greatest duplicate of the key strictly below the value, or null |
| Api.Cursor.KeyCount | src/main/java/eluvio/lmdb/api/Cursor.java:415-437 | refused unless OPEN; otherwise the number of distinct keys in the store |
| Api.Cursor.CountKeysFrom | src/main/java/eluvio/lmdb/api/Cursor.java:427-432 | the MDB_NEXT_NODUP loop adds exactly the keys after the current run to the count |
| Api.Cursor.NextKey | src/main/java/eluvio/lmdb/api/Cursor.java:429-431 | one MDB_NEXT_NODUP step moves to the next run and counts one more key, or finds none at the last run |
| Api.Cursor.DupCount | src/main/java/eluvio/lmdb/api/Cursor.java:447-452 | refused unless OPEN; on a positioned cursor, the number of duplicates of its key; an unpositioned cursor gets EINVAL |
| Api.Cursor.Put | src/main/java/eluvio/lmdb/api/Cursor.java:365-370 | refused unless OPEN; a key shorter than one byte is IllegalArgument; the store gains the pair (or MDB_KEYEXIST under NOOVERWRITE/NODUPDATA) and the cursor stands on it |
| Api.Cursor.PutRecursive | src/main/java/eluvio/lmdb/api/Cursor.java:355-357 | as written: the two-argument `put` calls itself and ends in StackOverflowError, never changing the store |
| Api.Cursor.PutDefault | src/main/java/eluvio/lmdb/api/Cursor.java:355-357 | corrected: `put(key, data, 0)` |
| Api.Cursor.Delete | src/main/java/eluvio/lmdb/api/Cursor.java:402-413 | `mdb_cursor_del` removes the pair the cursor is on and leaves the cursor in the gap, so the next forward move lands on the successor |
| Api.RenewThenCloseScenario | src/main/java/eluvio/lmdb/api/Cursor.java:458-474 | a cursor renewed into another read-only transaction cannot be closed: IllegalStateException |
| Api.RenewFixedThenCloseScenario | src/main/java/eluvio/lmdb/api/Cursor.java:458-474 | with the corrected renew the same sequence closes cleanly and empties both registries |
| Api.FloorScenario | src/main/java/eluvio/lmdb/api/Cursor.java:218-222 | `floor(5)` over the single pair (1, 0) is null as written and that pair when corrected |
| Store.KeyLowerBound | src/main/java/eluvio/lmdb/api/CursorOp.java:56-57 | the index splitting the pairs with keys below k from the rest |
| Store.KeyUpperBound | src/main/java/eluvio/lmdb/api/CursorOp.java:44-45 | the index splitting the pairs with keys at most k from the rest |
| Store.PairLowerBound | src/main/java/eluvio/lmdb/api/CursorOp.java:29-30 | the index splitting the pairs below (k, v) in the store's order from the rest |
| Store.KeyLowerBoundIs | src/main/java/eluvio/lmdb/api/CursorOp.java:56-57 | the lower bound is the only index with that splitting property |
| Store.KeyUpperBoundIs | src/main/java/eluvio/lmdb/api/CursorOp.java:44-45 | the upper bound is the only index with that splitting property |
| Store.PairLowerBoundIs | src/main/java/eluvio/lmdb/api/CursorOp.java:29-30 | the pair lower bound is the only index with that splitting property |
| Store.BoundsOrdered | src/main/java/eluvio/lmdb/api/CursorOp.java:52-53 | the run of key k lies between its lower and upper bound |
| Store.HasKeyRun | src/main/java/eluvio/lmdb/api/CursorOp.java:52-53 | k is present exactly when its run between the two bounds is non-empty |
| Store.Lookup | src/main/java/eluvio/lmdb/api/Api.java:179 | `mdb_get` finds a value exactly when the key is present, and returns its smallest duplicate |
| Store.LookupUnique | src/main/java/eluvio/lmdb/api/Api.java:179 | without duplicates, `mdb_get` returns v exactly when the pair (k, v) is stored |
| Store.IndexOf | src/main/java/eluvio/lmdb/api/CursorOp.java:26-27 | a stored pair sits at its pair lower bound |
| Store.LastDupOfKey | src/main/java/eluvio/lmdb/api/CursorOp.java:28-29 | with no duplicate of k at or above v, MDB_GET_BOTH_RANGE's search stops just past the last duplicate of k |
| Store.KeysOfRun | src/main/java/eluvio/lmdb/api/CursorOp.java:44-45 | a run of one key, after all smaller keys, adds exactly that key to the keys seen |
| Store.KeysNextRun | src/main/java/eluvio/lmdb/api/CursorOp.java:44-45 | MDB_NEXT_NODUP's next run adds exactly one key to the keys seen |
| Store.CeilingEntry | src/main/java/eluvio/lmdb/api/CursorOp.java:56-57 | the least pair whose key is at least k: present exactly when such a key exists |
| Store.HigherEntry | src/main/java/eluvio/lmdb/api/CursorOp.java:44-45 | the least pair whose key is greater than k |
| Store.LowerEntry | src/main/java/eluvio/lmdb/api/CursorOp.java:50-51 | the greatest pair whose key is less than k |
| Store.FloorEntry | src/main/java/eluvio/lmdb/api/CursorOp.java:50-57 | a pair with the greatest key at most k: the first duplicate of k when present, otherwise the lower entry |
| Store.DupCeilingEntry | src/main/java/eluvio/lmdb/api/CursorOp.java:28-29 | among the duplicates of k, the least value at least v |
| Store.DupHigherEntry | src/main/java/eluvio/lmdb/api/CursorOp.java:40-41 | among the duplicates of k, the least value greater than v |
| Store.DupFloorEntry | src/main/java/eluvio/lmdb/api/CursorOp.java:48-49 | among the duplicates of k, the greatest value at most v |
| Store.DupLowerEntry | src/main/java/eluvio/lmdb/api/CursorOp.java:48-49 | among the duplicates of k, the greatest value less than v |
| Store.Target | src/main/java/eluvio/lmdb/api/CursorOp.java:21-58 | the index each MDB_cursor_op lands on, or none for MDB_NOTFOUND, always inside the store |
| Store.Step | src/main/java/eluvio/lmdb/api/CursorOp.java:21-58 | a found pair is the one the cursor ends on; a failed absolute operation unpositions the cursor and a failed relative one keeps its place |
| Store.Insert | src/main/java/eluvio/lmdb/api/Api.java:180 | inserting keeps the store sorted, adds exactly the pair, and leaves a store already holding it unchanged |
| Store.RemoveAt | src/main/java/eluvio/lmdb/api/Api.java:190 | `mdb_cursor_del`: the pair at the index goes and every other pair keeps its order |
| Store.RemoveKey | src/main/java/eluvio/lmdb/api/Api.java:181 | `mdb_del` without data: exactly the pairs of the key go, and a store with unique keys keeps them unique |
| Store.Put | src/main/java/eluvio/lmdb/api/Api.java:66-71 | `mdb_put`: NOOVERWRITE fails on a present key, NODUPDATA on a present pair, APPEND on a key not above every stored key; otherwise the store gains the pair, replacing the key's value without duplicates |
| Store.Stored | src/main/java/eluvio/lmdb/api/Api.java:180 | a successful put: the pair joins the key's others with duplicates and replaces them without |
| Store.ReplaceKey | src/main/java/eluvio/lmdb/api/Api.java:180 | without duplicates, a put removes the key's old pair and adds the new one, keeping keys unique |
| Store.DupCount | src/main/java/eluvio/lmdb/api/Api.java:191 | `mdb_cursor_count`: the length of the run of key k, positive exactly when k is present |
| Store.NumKeysIsKeyCount | src/main/java/eluvio/lmdb/api/CursorOp.java:44-45 | counting each pair that starts a new key counts the distinct keys |
| Store.NumKeysUnique | src/main/java/eluvio/lmdb/api/CursorOp.java:44-45 | without duplicates every pair is its own key |
| Maps.Compare | src/main/java/eluvio/lmdb/map/LMDBMapImpl.java:177-189 | two nulls compare equal, null sorts before every key, and otherwise the sign follows the key order: zero exactly on equal arguments |
| Maps.MapImpl.ValueCompare | src/main/java/eluvio/lmdb/map/LMDBMapImpl.java:208-222 | refused with IllegalArgumentException unless the database keeps duplicates; otherwise zero exactly on equal values and negative exactly when the first sorts first |
| Maps.MapImpl.OpenCursor | src/main/java/eluvio/lmdb/map/LMDBMapImpl.java:243-268 | a fresh cursor on a fresh read-only transaction, unpositioned, seeing the map's contents |
| Maps.MapImpl.CeilingEntry | src/main/java/eluvio/lmdb/map/LMDBMapImpl.java:703-717 | an entry exists exactly when some key is at least k, and it is the least such pair |
| Maps.MapImpl.HigherEntry | src/main/java/eluvio/lmdb/map/LMDBMapImpl.java:782-796 | an entry exists exactly when some key is above k, and it is the least such pair |
| Maps.MapImpl.FloorEntry | src/main/java/eluvio/lmdb/map/LMDBMapImpl.java:748-762 | as written, on the cursor floor: null whenever no key is at least k; otherwise the floor entry of the store, present exactly when some key is at most k |
| Maps.MapImpl.LowerEntry | src/main/java/eluvio/lmdb/map/LMDBMapImpl.java:827-841 | as written, on the cursor lower: null whenever no key is at least k; otherwise the lower entry of the store, present exactly when some key is below k |
| Maps.MapImpl.FloorEntryFixed | src/main/java/eluvio/lmdb/map/LMDBMapImpl.java:748-762 | corrected: the floor entry of the store, present exactly when some key is at most k |
| Maps.MapImpl.LowerEntryFixed | src/main/java/eluvio/lmdb/map/LMDBMapImpl.java:827-841 | corrected: the lower entry of the store, present exactly when some key is below k |
| Maps.MapImpl.FirstEntry | src/main/java/eluvio/lmdb/map/LMDBMapImpl.java:737-745 | null exactly on an empty map; otherwise the least stored pair |
| Maps.MapImpl.LastEntry | src/main/java/eluvio/lmdb/map/LMDBMapImpl.java:816-824 | null exactly on an empty map; otherwise the greatest stored pair |
| Maps.MapImpl.DupCeiling | src/main/java/eluvio/lmdb/map/LMDBMapImpl.java:889-898 | a value exists exactly when k holds some value at least v, and it is the least such value |
| Maps.MapImpl.DupHigher | src/main/java/eluvio/lmdb/map/LMDBMapImpl.java:913-922 | a value exists exactly when k holds some value above v, and it is the least such value |
| Maps.MapImpl.DupFloor | src/main/java/eluvio/lmdb/map/LMDBMapImpl.java:901-910 | a value exists exactly when k holds some value at most v, and it is the greatest such value |
| Maps.MapImpl.DupLower | src/main/java/eluvio/lmdb/map/LMDBMapImpl.java:925-934 | a value exists exactly when k holds some value below v, and it is the greatest such value |
| Maps.MapImpl.Get | src/main/java/eluvio/lmdb/map/LMDBMapImpl.java:1047-1060 | a value exactly when k is present, and a stored value of k; without duplicates, v exactly when (k, v) is stored |
| Maps.MapImpl.ContainsKey | src/main/java/eluvio/lmdb/map/LMDBMapImpl.java:1023-1031 | true exactly when some stored pair has key k |
| Maps.MapImpl.Contains | src/main/java/eluvio/lmdb/map/LMDBMapImpl.java:489-516 | true exactly when the pair (k, v) is stored, through either the duplicate or the plain path |
| Maps.MapImpl.ContainsValue | src/main/java/eluvio/lmdb/map/LMDBMapImpl.java:1034-1043 | true exactly when some stored pair has value v |
| Maps.MapImpl.ValueCount | src/main/java/eluvio/lmdb/map/LMDBMapImpl.java:1222-1227 | the number of stored pairs |
| Maps.MapImpl.Size | src/main/java/eluvio/lmdb/map/LMDBMapImpl.java:1203-1207 | the number of pairs when it fits an int; a RuntimeException exactly when it does not |
| Maps.MapImpl.IsEmpty | src/main/java/eluvio/lmdb/map/LMDBMapImpl.java:1063-1065 | true exactly on an empty map, failing exactly where size fails |
| Maps.MapImpl.KeyCount | src/main/java/eluvio/lmdb/map/LMDBMapImpl.java:1209-1220 | the number of distinct keys, which is the pair count without duplicates |
| Maps.MapImpl.Put | src/main/java/eluvio/lmdb/map/LMDBMapImpl.java:1106-1129 | answers the key's previous value and leaves the store a plain put leaves |
| Maps.MapImpl.PutNoPrev | src/main/java/eluvio/lmdb/map/LMDBMapImpl.java:1095-1097 | leaves the store a plain put leaves |
| Maps.MapImpl.PutIfAbsent | src/main/java/eluvio/lmdb/map/LMDBMapImpl.java:581-596 | answers the existing value; stores only when the key was absent, otherwise nothing changes |
| Maps.MapImpl.Add | src/main/java/eluvio/lmdb/map/LMDBMapImpl.java:1073-1089 | true exactly when the pair (duplicates) or the key (no duplicates) was absent; then the store is the flagged put's, otherwise unchanged |
| Maps.MapImpl.Append | src/main/java/eluvio/lmdb/map/LMDBMapImpl.java:1138-1149 | true exactly when k is above every stored key, and then the pair is added at the end; otherwise nothing changes |
| Maps.MapImpl.Prepend | src/main/java/eluvio/lmdb/map/LMDBMapImpl.java:1132-1135 | as written: always true, and the store is a plain put's whatever the stored keys are |
| Maps.MapImpl.PrependFixed | src/main/java/eluvio/lmdb/map/LMDBMapImpl.java:1132-1135 | corrected result: still a plain put, but true exactly when k is below every stored key, and then the pair is the new first pair |
| Maps.MapImpl.PutAll | src/main/java/eluvio/lmdb/map/LMDBMapImpl.java:1152-1163 | the store after one plain put per entry, in order |
| Maps.MapImpl.Remove | src/main/java/eluvio/lmdb/map/LMDBMapImpl.java:1167-1185 | answers the key's first value and removes every pair of the key |
| Maps.MapImpl.RemoveNoPrev | src/main/java/eluvio/lmdb/map/LMDBMapImpl.java:1188-1200 | true exactly when the key was present; every pair of the key is removed |
| Maps.MapImpl.RemovePair | src/main/java/eluvio/lmdb/map/LMDBMapImpl.java:600-649 | true exactly when the pair was stored; exactly that pair leaves and all others stay |
| Maps.MapImpl.Replace | src/main/java/eluvio/lmdb/map/LMDBMapImpl.java:652-671 | answers the old value; no change on an absent key, otherwise a plain put, which without duplicates keeps the size and makes v the value |
| Maps.MapImpl.ReplaceIf | src/main/java/eluvio/lmdb/map/LMDBMapImpl.java:674-694 | replaces exactly when the key's value is the expected one; otherwise nothing changes |
| Maps.MapImpl.Clear | src/main/java/eluvio/lmdb/map/LMDBMapImpl.java:1015-1019 | the map is empty |
| Maps.MapImpl.PollFirstEntry | src/main/java/eluvio/lmdb/map/LMDBMapImpl.java:937-948 | null exactly on an empty map; otherwise the first pair, removed and nothing else |
| Maps.MapImpl.PollLastEntry | src/main/java/eluvio/lmdb/map/LMDBMapImpl.java:951-962 | null exactly on an empty map; otherwise the last pair, removed and nothing else |
| Maps.LookupExact | src/main/java/eluvio/lmdb/map/LMDBMapImpl.java:1057-1060 | without duplicates, a key's looked-up value is v exactly when the pair (k, v) is stored |
| Maps.PutEach | src/main/java/eluvio/lmdb/map/LMDBMapImpl.java:1152-1163 | the puts of putAll keep the store well formed |
| Maps.PutEachSnoc | src/main/java/eluvio/lmdb/map/LMDBMapImpl.java:1152-1163 | putAll of one more entry is one more plain put |
| Maps.PutEachPrefix | src/main/java/eluvio/lmdb/map/LMDBMapImpl.java:1152-1163 | each prefix of putAll grows by one put per entry |
| Maps.PutEachLastWins | src/main/java/eluvio/lmdb/map/LMDBMapImpl.java:1152-1163 | without duplicates, after putAll a key holds the value of its last entry |
| Maps.PutEachKeepsAbsent | src/main/java/eluvio/lmdb/map/LMDBMapImpl.java:1152-1163 | without duplicates, putAll leaves the value of a key it does not write |
| Maps.AppendIsSuffix | src/main/java/eluvio/lmdb/map/LMDBMapImpl.java:1138-1149 | a successful MDB_APPEND puts the pair after all others, whose keys are all smaller |
| Maps.PrependIsPrefix | src/main/java/eluvio/lmdb/map/LMDBMapImpl.java:1132-1135 | a plain put of a key below every stored key puts the pair first |
| Maps.PrependSorted | src/main/java/eluvio/lmdb/map/LMDBMapImpl.java:1132-1135 | a key below the first stays sorted at the front |
| Maps.SortedSameMembers | src/main/java/eluvio/lmdb/map/LMDBMapImpl.java:1106-1129 | two sorted stores with the same pairs are equal, so a store is fixed by its members |
| Maps.RemoveAbsentKey | src/main/java/eluvio/lmdb/map/LMDBMapImpl.java:1167-1185 | removing an absent key changes nothing |
| Maps.UniquePairOfKey | src/main/java/eluvio/lmdb/map/LMDBMapImpl.java:609-626 | without duplicates, removing the key of a stored pair removes exactly that pair |
| Maps.ReplaceKeepsSize | src/main/java/eluvio/lmdb/map/LMDBMapImpl.java:652-671 | without duplicates, replacing a present key keeps the size |
| Maps.ReplacedInPlace | src/main/java/eluvio/lmdb/map/LMDBMapImpl.java:652-671 | overwriting one value of a unique-key store keeps it sorted and swaps exactly that pair |
| Maps.PutReturnsPreviousScenario | src/main/java/eluvio/lmdb/map/LMDBMapImpl.java:1068-1070 | put on an empty map answers null, a second put answers the first value, and get then answers the second |
| Maps.FloorEntryScenario | src/main/java/eluvio/lmdb/map/LMDBMapImpl.java:748-762 | over the map {1 -> 0}, floorEntry(5) is null as written and (1, 0) corrected |
| Maps.PrependScenario | src/main/java/eluvio/lmdb/map/LMDBMapImpl.java:1132-1135 | over the map {1 -> 0}, prepend(5, 0) answers true as written and false corrected |
| ViewBounds.CheckBounds | src/main/java/eluvio/lmdb/map/LMDBMapView.java:222-241 | the constructor accepts exactly bounds with at least one side given and from below to, and keeps them; anything else is an IllegalArgumentException |
| ViewBounds.WithinRange | src/main/java/eluvio/lmdb/map/LMDBMapView.java:803-819 | null is never in range; inclusive checks admit exactly the view's keys, exclusive checks exactly the closed span between the bounds |
| ViewBounds.AdjustKey | src/main/java/eluvio/lmdb/map/LMDBMapView.java:259-263 | null becomes from, a key inside the span stays, a key below from becomes from and one above to becomes to, so the result always lies in the span |
| ViewBounds.CeilingModeOf | src/main/java/eluvio/lmdb/map/LMDBMapView.java:303-307 | inside the span, the ceiling is used exactly when the view admits the key; no ceiling means no admitted key at or above it; higher means the key itself is excluded |
| ViewBounds.FloorModeOf | src/main/java/eluvio/lmdb/map/LMDBMapView.java:476-480 | the mirror of the ceiling mode: floor used exactly when the key is admitted, no floor means nothing admitted at or below it |
| ViewBounds.SubMap | src/main/java/eluvio/lmdb/map/LMDBMapView.java:732-735 | out-of-order arguments throw IllegalArgumentException; an accepted sub-view has valid bounds and, for two given bounds, admits only keys the view admits |
| ViewBounds.SubMapStaysInside | src/main/java/eluvio/lmdb/map/LMDBMapView.java:732-735 | a key the clamped sub-view admits is admitted by the view |
| ViewBounds.HeadMap | src/main/java/eluvio/lmdb/map/LMDBMapView.java:503-505 | an accepted head view is valid and admits only keys the view admits |
| ViewBounds.TailMap | src/main/java/eluvio/lmdb/map/LMDBMapView.java:748-750 | as written, a tail of a view open above fails; an accepted tail view admits only keys the view admits |
| ViewBounds.SubMapFixed | src/main/java/eluvio/lmdb/map/LMDBMapView.java:732-735 | corrected: out-of-order arguments fail; otherwise the sub-view admits exactly the keys both the view and the requested range admit |
| ViewBounds.MeetFrom | src/main/java/eluvio/lmdb/map/LMDBMapView.java:732-735 | the tighter lower bound admits exactly what both lower bounds admit |
| ViewBounds.MeetTo | src/main/java/eluvio/lmdb/map/LMDBMapView.java:732-735 | the tighter upper bound admits exactly what both upper bounds admit |
| ViewBounds.TailMapFixed | src/main/java/eluvio/lmdb/map/LMDBMapView.java:748-750 | corrected: the tail view admits exactly the view's keys at or above from, and keeps an open upper side open |
| ViewBounds.TailOfTailViewFails | src/main/java/eluvio/lmdb/map/LMDBMapView.java:259-263 | tailMap(7) of the view from 5 upward throws, where the corrected tail view is from 7 upward |
| ViewBounds.SubMapDropsInteriorInclusive | src/main/java/eluvio/lmdb/map/LMDBMapView.java:732-735 | on the view (0, 10) exclusive, subMap(5 inclusive, 8) drops key 5, which the corrected sub-view keeps |
| ViewBounds.Lo | src/main/java/eluvio/lmdb/map/LMDBMapView.java:72-77 | the first index whose key clears the lower bound |
| ViewBounds.Hi | src/main/java/eluvio/lmdb/map/LMDBMapView.java:99-104 | the index just past the last pair under the upper bound: every pair before it clears the bound and none after |
| ViewBounds.TowardToEntry | src/main/java/eluvio/lmdb/map/LMDBMapView.java:99-104 | the floor of an inclusive upper bound (lower of an exclusive one) is null exactly when no pair clears it, otherwise a pair of the last cleared key |
| ViewBounds.TowardToEntryAsWritten | src/main/java/eluvio/lmdb/map/LMDBMapView.java:99-104 | the floor (lower) of the bound as the cursor writes it: null exactly when no pair clears the bound or no stored key is at least it, otherwise a pair of the last cleared key |
| ViewBounds.LoBelowHi | src/main/java/eluvio/lmdb/map/LMDBMapView.java:222-241 | with ordered bounds the lower index never passes the upper one |
| ViewBounds.Entries | src/main/java/eluvio/lmdb/map/LMDBMapView.java:419-421 | the pairs the view holds: sorted, exactly the stored pairs whose keys the view admits, as many as the two indices span |
| ViewBounds.ScanEnd | src/main/java/eluvio/lmdb/map/LMDBMapView.java:72-77 | where a forward walk from the view cursor's first() stops: the upper index, or just past the first pair when the unchecked first() overreaches |
| ViewBounds.BoundsAtRunStarts | src/main/java/eluvio/lmdb/map/LMDBMapView.java:529-540 | a bound never splits the duplicates of a key |
| ViewBounds.KeysStep | src/main/java/eluvio/lmdb/map/LMDBMapView.java:148-152 | passing one run of equal keys adds exactly one key |
| ViewBounds.RunInside | src/main/java/eluvio/lmdb/map/LMDBMapView.java:148-152 | a run that starts inside the view ends inside it |
| ViewBounds.KeysSplit | src/main/java/eluvio/lmdb/map/LMDBMapView.java:529-540 | splitting the store at a run start splits its keys |
| ViewBounds.LastRunEndsAtHi | src/main/java/eluvio/lmdb/map/LMDBMapView.java:107-109 | the last run below the upper index ends exactly there |
| ViewBounds.ScanStops | src/main/java/eluvio/lmdb/map/LMDBMapView.java:136-141 | a forward walk stays in the view exactly until its end index |
| ViewBounds.Admit | src/main/java/eluvio/lmdb/map/LMDBMapView.java:489-491 | a map answer survives exactly when the view admits its key, and then unchanged |
| ViewBounds.FloorInView | src/main/java/eluvio/lmdb/map/LMDBMapView.java:445-459 | the map's floor of an admitted key, filtered, is the view's floor |
| ViewBounds.LowerAtExcludedTo | src/main/java/eluvio/lmdb/map/LMDBMapView.java:445-459 | at an excluded upper bound, the map's lower entry, filtered, is the view's floor |
| ViewBounds.FirstInView | src/main/java/eluvio/lmdb/map/LMDBMapView.java:429-434 | the least pair clearing the lower bound, filtered, is the view's first pair |
| ViewBounds.LastInView | src/main/java/eluvio/lmdb/map/LMDBMapView.java:553-558 | a pair of the greatest key clearing the upper bound, filtered, is the view's last pair |
| ViewBounds.InViewPrefix | src/main/java/eluvio/lmdb/map/LMDBMapView.java:645-652 | the longest prefix of the entries whose keys the view admits |
| ViewBounds.InViewPrefixIs | src/main/java/eluvio/lmdb/map/LMDBMapView.java:645-652 | only one length has that property |
| ViewBounds.HeadIsFirst | src/main/java/eluvio/lmdb/map/LMDBMapView.java:593-600 | with no lower bound, the store's first pair is the view's first whenever the view is non-empty |
| ViewBounds.TailIsLast | src/main/java/eluvio/lmdb/map/LMDBMapView.java:613-620 | with no upper bound, the store's last pair is the view's last whenever the view is non-empty |
| ViewBounds.NextRunStep | src/main/java/eluvio/lmdb/map/LMDBMapView.java:148-152 | one nextKey() moves to the next run, which the view admits exactly when it starts below the upper index |
| ViewBounds.KeyWalkStart | src/main/java/eluvio/lmdb/map/LMDBMapView.java:529-540 | the key count starts at the view's lower index with nothing counted |
| ViewBounds.KeyWalkStep | src/main/java/eluvio/lmdb/map/LMDBMapView.java:529-540 | each nextKey() of the count keeps the walk's invariant |
| ViewBounds.KeyWalkEnd | src/main/java/eluvio/lmdb/map/LMDBMapView.java:529-540 | a finished count has counted the view's distinct keys, or the one key it overreached to |
| ViewBounds.EntriesByIndex | src/main/java/eluvio/lmdb/map/LMDBMapView.java:419-421 | the view's pairs are the stored pairs between its two indices |
| ViewBounds.LastEntryAtHi | src/main/java/eluvio/lmdb/map/LMDBMapView.java:99-104 | the pair just below the upper index, admitted, is the view's last pair, and null exactly on an empty view |
| MapViews.ViewCursor.constructor | src/main/java/eluvio/lmdb/map/LMDBMapView.java:32-34 | a view cursor wraps an open parent cursor with the view's bounds |
| MapViews.ViewCursor.First | src/main/java/eluvio/lmdb/map/LMDBMapView.java:72-77 | as written: the pair at the view's lower index when the walk end lies past it (so an unchecked first pair may overreach), and the cursor stands there |
| MapViews.ViewCursor.FirstFixed | src/main/java/eluvio/lmdb/map/LMDBMapView.java:72-77 | corrected: the view's first pair, null exactly on an empty view |
| MapViews.ViewCursor.FirstKey | src/main/java/eluvio/lmdb/map/LMDBMapView.java:85-90 | as written: the key of the pair first() answers, with the same overreach |
| MapViews.ViewCursor.FirstKeyFixed | src/main/java/eluvio/lmdb/map/LMDBMapView.java:85-90 | corrected: the key of the view's first pair |
| MapViews.ViewCursor.Next | src/main/java/eluvio/lmdb/map/LMDBMapView.java:136-141 | MDB_NEXT, answered only when the view admits the pair it reaches |
| MapViews.ViewCursor.NextKey | src/main/java/eluvio/lmdb/map/LMDBMapView.java:148-152 | MDB_NEXT_NODUP, answered only when the view admits the key it reaches |
| MapViews.ViewCursor.Prev | src/main/java/eluvio/lmdb/map/LMDBMapView.java:161-166 | MDB_PREV, answered only when the view admits the pair it reaches |
| MapViews.ViewCursor.PrevKey | src/main/java/eluvio/lmdb/map/LMDBMapView.java:173-177 | MDB_PREV_NODUP, answered only when the view admits the key it reaches |
| MapViews.ViewCursor.TowardTo | src/main/java/eluvio/lmdb/map/LMDBMapView.java:99-104 | as written: the parent cursor floor or lower of the upper bound: null when no pair clears it or when no stored key is at least the bound, otherwise a pair of the last cleared key, where the cursor stands |
| MapViews.ViewCursor.TowardToFixed | src/main/java/eluvio/lmdb/map/LMDBMapView.java:99-104 | corrected: on the corrected cursor floor and lower, null exactly when no pair clears the bound, otherwise a pair of the last cleared key |
| MapViews.ViewCursor.Last | src/main/java/eluvio/lmdb/map/LMDBMapView.java:99-104 | as written: with no upper bound the store's last pair unchecked; on a duplicate database a NullPointerException whenever nothing is under the bound or no stored key is at least it; otherwise the view's last pair, or null also when no stored key is at least the bound |
| MapViews.ViewCursor.LastBelowTo | src/main/java/eluvio/lmdb/map/LMDBMapView.java:99-104 | the bounded half of last(): NullPointerException exactly on a duplicate database with nothing under the bound or no stored key at least the bound; otherwise the view's last pair when some key reaches the bound, else null |
| MapViews.ViewCursor.LastDupOfKey | src/main/java/eluvio/lmdb/map/LMDBMapView.java:99-104 | the pair rebuilt from lastDupValue() is the store's pair just below the upper index |
| MapViews.ViewCursor.LastFixed | src/main/java/eluvio/lmdb/map/LMDBMapView.java:99-104 | corrected: the view's last pair, null exactly on an empty view, on any database |
| MapViews.ViewCursor.LastCheckedBelowTo | src/main/java/eluvio/lmdb/map/LMDBMapView.java:99-104 | corrected, under an upper bound: the pair just below the upper index when the view is non-empty, otherwise null, on any database |
| MapViews.ViewCursor.LastKey | src/main/java/eluvio/lmdb/map/LMDBMapView.java:112-117 | as written: the store's last key with no upper bound; under one, the key just below the upper index when the view is non-empty and some stored key is at least the bound, otherwise null |
| MapViews.ViewCursor.LastKeyFixed | src/main/java/eluvio/lmdb/map/LMDBMapView.java:112-117 | corrected: the key of the view's last pair, null exactly on an empty view |
| MapViews.ViewCursor.MoveTo | src/main/java/eluvio/lmdb/map/LMDBMapView.java:126-128 | true exactly when the view admits k and k is stored; the cursor then stands on its first duplicate |
| MapViews.MapView.constructor | src/main/java/eluvio/lmdb/map/LMDBMapView.java:222-241 | a view over the map with accepted bounds |
| MapViews.MapView.CeilingEntry | src/main/java/eluvio/lmdb/map/LMDBMapView.java:272-286 | as written: the view's ceiling of the key clamped into the span |
| MapViews.MapView.HigherEntry | src/main/java/eluvio/lmdb/map/LMDBMapView.java:508-513 | as written: the view's higher entry of the clamped key |
| MapViews.MapView.FloorEntry | src/main/java/eluvio/lmdb/map/LMDBMapView.java:445-459 | as written: the view's floor of the clamped key, and null whenever no stored key is at least the clamped key |
| MapViews.MapView.LowerEntry | src/main/java/eluvio/lmdb/map/LMDBMapView.java:569-574 | as written: the view's lower entry of the clamped key, and null whenever no stored key is at least the clamped key |
| MapViews.MapView.ClampedFloor | src/main/java/eluvio/lmdb/map/LMDBMapView.java:445-459 | the view's floor of the clamped key on the map's corrected floor |
| MapViews.MapView.ClampedLower | src/main/java/eluvio/lmdb/map/LMDBMapView.java:569-574 | the view's lower entry of the clamped key on the map's corrected lower |
| MapViews.MapView.CeilingEntryFixed | src/main/java/eluvio/lmdb/map/LMDBMapView.java:272-286 | corrected: the least pair in the view with key at least k |
| MapViews.MapView.HigherEntryFixed | src/main/java/eluvio/lmdb/map/LMDBMapView.java:508-513 | corrected: the least pair in the view with key above k |
| MapViews.MapView.FloorEntryFixed | src/main/java/eluvio/lmdb/map/LMDBMapView.java:445-459 | corrected clamp and map floor: a pair of the greatest key in the view at most k |
| MapViews.MapView.LowerEntryFixed | src/main/java/eluvio/lmdb/map/LMDBMapView.java:569-574 | corrected clamp and map lower: a pair of the greatest key in the view below k |
| MapViews.MapView.FirstEntry | src/main/java/eluvio/lmdb/map/LMDBMapView.java:429-434 | as written: the view's first pair under a lower bound; with none, the map's first pair unchecked |
| MapViews.MapView.FirstEntryFixed | src/main/java/eluvio/lmdb/map/LMDBMapView.java:429-434 | corrected: the view's first pair, null exactly on an empty view |
| MapViews.MapView.LastEntry | src/main/java/eluvio/lmdb/map/LMDBMapView.java:553-558 | as written: with no upper bound the map's last pair unchecked; under one, the view's last pair when some stored key is at least the bound, and null otherwise |
| MapViews.MapView.LastEntryFixed | src/main/java/eluvio/lmdb/map/LMDBMapView.java:553-558 | corrected: the view's last pair, null exactly on an empty view |
| MapViews.MapView.Get | src/main/java/eluvio/lmdb/map/LMDBMapView.java:484-487 | a value exactly when the view admits k and k is stored, and then a stored value of k |
| MapViews.MapView.ContainsKey | src/main/java/eluvio/lmdb/map/LMDBMapView.java:346-349 | true exactly when the view admits k and k is stored |
| MapViews.MapView.Contains | src/main/java/eluvio/lmdb/map/LMDBMapView.java:340-342 | true exactly when the view admits k and (k, v) is stored |
| MapViews.MapView.DupCeiling | src/main/java/eluvio/lmdb/map/LMDBMapView.java:384-386 | the least value of k at least v, present exactly when the view admits k and such a value exists |
| MapViews.MapView.DupHigher | src/main/java/eluvio/lmdb/map/LMDBMapView.java:404-406 | the least value of k above v, present exactly when the view admits k and such a value exists |
| MapViews.MapView.DupFloor | src/main/java/eluvio/lmdb/map/LMDBMapView.java:394-396 | the greatest value of k at most v, present exactly when the view admits k and such a value exists |
| MapViews.MapView.DupLower | src/main/java/eluvio/lmdb/map/LMDBMapView.java:414-416 | the greatest value of k below v, present exactly when the view admits k and such a value exists |
| MapViews.MapView.Put | src/main/java/eluvio/lmdb/map/LMDBMapView.java:639-642 | out of range: an exception and no change; in range: the map's put and its previous value |
| MapViews.MapView.PutNoPrev | src/main/java/eluvio/lmdb/map/LMDBMapView.java:661-664 | out of range: an exception and no change; in range: the map's put |
| MapViews.MapView.PutIfAbsent | src/main/java/eluvio/lmdb/map/LMDBMapView.java:655-658 | out of range: an exception; in range: the existing value, and a put only when there was none |
| MapViews.MapView.Add | src/main/java/eluvio/lmdb/map/LMDBMapView.java:250-253 | out of range: an exception; in range: true exactly when the pair (or key) was absent, and then the flagged put, otherwise no change |
| MapViews.MapView.Append | src/main/java/eluvio/lmdb/map/LMDBMapView.java:266-269 | out of range: an exception; in range: true exactly when k is above every stored key, and then the pair goes last |
| MapViews.MapView.Prepend | src/main/java/eluvio/lmdb/map/LMDBMapView.java:633-636 | as written: out of range an exception and no change; in range the map's prepend, a plain put answering true |
| MapViews.MapView.PrependFixed | src/main/java/eluvio/lmdb/map/LMDBMapView.java:633-636 | on the corrected map prepend: in range a plain put answering whether k was below every stored key, and then the pair goes first |
| MapViews.MapView.Remove | src/main/java/eluvio/lmdb/map/LMDBMapView.java:690-693 | out of range: an exception; in range: the first value of k, and every pair of k goes |
| MapViews.MapView.RemoveNoPrev | src/main/java/eluvio/lmdb/map/LMDBMapView.java:703-706 | out of range: an exception; in range: whether k was present, and every pair of k goes |
| MapViews.MapView.RemovePair | src/main/java/eluvio/lmdb/map/LMDBMapView.java:697-700 | out of range: an exception; in range: whether the pair was stored, and exactly that pair goes |
| MapViews.MapView.RemovePairQuiet | src/main/java/eluvio/lmdb/map/LMDBMapView.java:684-686 | true exactly when the view admits k and the pair was stored; exactly that pair goes |
| MapViews.MapView.Replace | src/main/java/eluvio/lmdb/map/LMDBMapView.java:715-718 | out of range: an exception; in range: the old value, and a put only over a present key |
| MapViews.MapView.ReplaceIf | src/main/java/eluvio/lmdb/map/LMDBMapView.java:721-724 | out of range: an exception; in range: true exactly when the key's value was the expected one, and then the put |
| MapViews.MapView.Clear | src/main/java/eluvio/lmdb/map/LMDBMapView.java:310-312 | always UnsupportedOperationException |
| MapViews.MapView.PutAll | src/main/java/eluvio/lmdb/map/LMDBMapView.java:645-652 | succeeds exactly when every entry is in range; otherwise OutOfRange, with the puts of the admitted prefix kept |
| MapViews.MapView.PutEntry | src/main/java/eluvio/lmdb/map/LMDBMapView.java:645-652 | one in-range put of putAll extends the puts done so far by one |
| MapViews.MapView.PollFirstEntry | src/main/java/eluvio/lmdb/map/LMDBMapView.java:593-600 | as written: with no lower bound the map's poll; otherwise the view's first pair, after which every pair of its key goes |
| MapViews.MapView.PollFirstEntryFixed | src/main/java/eluvio/lmdb/map/LMDBMapView.java:593-600 | corrected: the view's first pair, removed; pairs outside the view untouched |
| MapViews.MapView.PollLastEntry | src/main/java/eluvio/lmdb/map/LMDBMapView.java:613-620 | as written: with no upper bound the map's poll; under one, null and no change when no stored key is at least the bound, otherwise the view's last pair, after which every pair of its key goes |
| MapViews.MapView.PollLastEntryFixed | src/main/java/eluvio/lmdb/map/LMDBMapView.java:613-620 | corrected: the view's last pair, removed; pairs outside the view untouched |
| MapViews.MapView.DrainPairs | src/main/java/eluvio/lmdb/map/LMDBMapView.java:768-779 | walking the values from first() counts the view's pairs, or the one overreached pair, narrowed to an int |
| MapViews.MapView.DrainKeys | src/main/java/eluvio/lmdb/map/LMDBMapView.java:529-540 | walking the keys from firstKey() counts the view's distinct keys, or the one overreached key, narrowed to an int |
| MapViews.MapView.StepKey | src/main/java/eluvio/lmdb/map/LMDBMapView.java:148-152 | one nextKey() of the count advances to the next run and keeps the walk's invariant |
| MapViews.MapView.FindValue | src/main/java/eluvio/lmdb/map/LMDBMapView.java:352-361 | the walk from first() finds v exactly when some pair it passes holds v |
| MapViews.MapView.OpenViewCursor | src/main/java/eluvio/lmdb/map/LMDBMapView.java:588-590 | a fresh unpositioned view cursor over the map's contents |
| MapViews.MapView.KeyCount | src/main/java/eluvio/lmdb/map/LMDBMapView.java:529-540 | as written: the view's distinct keys, or 1 when an open-below empty view overreaches |
| MapViews.MapView.KeyCountFixed | src/main/java/eluvio/lmdb/map/LMDBMapView.java:529-540 | corrected: the view's distinct keys |
| MapViews.MapView.ValueCount | src/main/java/eluvio/lmdb/map/LMDBMapView.java:768-779 | as written: the view's pairs, or 1 on overreach |
| MapViews.MapView.ValueCountFixed | src/main/java/eluvio/lmdb/map/LMDBMapView.java:768-779 | corrected: the view's pairs |
| MapViews.MapView.Size | src/main/java/eluvio/lmdb/map/LMDBMapView.java:727-729 | the value count narrowed to an int |
| MapViews.MapView.IsEmpty | src/main/java/eluvio/lmdb/map/LMDBMapView.java:522-526 | as written: true exactly when the view holds a pair (or overreaches), the opposite of emptiness |
| MapViews.MapView.IsEmptyFixed | src/main/java/eluvio/lmdb/map/LMDBMapView.java:522-526 | corrected: true exactly when no stored key is in the view |
| MapViews.MapView.ContainsValue | src/main/java/eluvio/lmdb/map/LMDBMapView.java:352-361 | as written: some pair of the view holds v, or the overreached pair does |
| MapViews.MapView.ContainsValueFixed | src/main/java/eluvio/lmdb/map/LMDBMapView.java:352-361 | corrected: some pair of the view holds v |
| MapViews.HigherBelowViewScenario | src/main/java/eluvio/lmdb/map/LMDBMapView.java:508-513 | over {5}, the view [5, 10] answers higherEntry(3) with null where the corrected view answers 5 |
| MapViews.CeilingAboveViewScenario | src/main/java/eluvio/lmdb/map/LMDBMapView.java:272-286 | over {10}, the view up to 10 answers ceilingEntry(15) with 10 where the corrected view answers null |
| MapViews.IsEmptyScenario | src/main/java/eluvio/lmdb/map/LMDBMapView.java:522-526 | over {5}, the view [5, 10] holds a pair and isEmpty() answers true |
| MapViews.HeadViewOverreachScenario | src/main/java/eluvio/lmdb/map/LMDBMapView.java:72-77 | over {20}, the empty head view below 10 answers first entry 20 and one key, against null and 0 corrected |
| MapViews.LastOnDupScenario | src/main/java/eluvio/lmdb/map/LMDBMapView.java:99-104 | over the duplicate map {20}, last() of the head view below 10 throws where the corrected one answers null |
| MapViews.FloorBelowViewScenario | src/main/java/eluvio/lmdb/map/LMDBMapView.java:445-459 | over {5}, the view [5, 10] answers floorEntry(3) with 5 where the corrected view answers null |
| MapViews.LowerAboveViewScenario | src/main/java/eluvio/lmdb/map/LMDBMapView.java:569-574 | over {10}, the view [5, 10] answers lowerEntry(15) with null where the corrected view answers 10 |
| MapViews.LastBelowBoundScenario | src/main/java/eluvio/lmdb/map/LMDBMapView.java:553-558 | over {5}, the head view below 10 answers lastEntry() with null where the corrected view answers 5 |
| MapViews.PollLastBelowBoundScenario | src/main/java/eluvio/lmdb/map/LMDBMapView.java:613-620 | over {5}, pollLastEntry() of the head view below 10 answers null and keeps 5; the corrected poll answers 5 |
| MapViews.LastBelowBoundOnDupScenario | src/main/java/eluvio/lmdb/map/LMDBMapView.java:99-104 | over the duplicate map {5}, last() of the view cursor below 10 throws NullPointerException where the corrected one answers 5 |
| Reversed.RevCompare | src/main/java/eluvio/lmdb/map/LMDBMapReversed.java:218-225 | zero exactly on equal arguments, and otherwise the sign of the wrapped map's compare with the arguments swapped |
| Reversed.RevCompareIsOrder | src/main/java/eluvio/lmdb/map/LMDBMapReversed.java:218-225 | the reversed compare is antisymmetric and transitive |
| Reversed.MapReversed.constructor | src/main/java/eluvio/lmdb/map/LMDBMapReversed.java:169-174 | a reversed map wraps a map |
| Reversed.MapReversed.CeilingEntry | src/main/java/eluvio/lmdb/map/LMDBMapReversed.java:193-195 | as written, on the wrapped map's cursor floor: null whenever no key comes at or before k in the reversed order; otherwise present exactly when some key comes at or after k in that order, and then the first such pair |
| Reversed.MapReversed.HigherEntry | src/main/java/eluvio/lmdb/map/LMDBMapReversed.java:348-350 | as written, on the wrapped map's cursor lower: null whenever no key comes at or before k in the reversed order; otherwise present exactly when some key comes after k in that order, and then the first such pair |
| Reversed.MapReversed.CeilingEntryFixed | src/main/java/eluvio/lmdb/map/LMDBMapReversed.java:193-195 | corrected: present exactly when some key comes at or after k in the reversed order, and then the first such pair in that order |
| Reversed.MapReversed.HigherEntryFixed | src/main/java/eluvio/lmdb/map/LMDBMapReversed.java:348-350 | corrected: present exactly when some key comes after k in the reversed order, and then the first such pair in that order |
| Reversed.MapReversed.FloorEntry | src/main/java/eluvio/lmdb/map/LMDBMapReversed.java:323-325 | present exactly when some key comes at or before k in the reversed order, and then the last such pair in that order |
| Reversed.MapReversed.LowerEntry | src/main/java/eluvio/lmdb/map/LMDBMapReversed.java:388-390 | present exactly when some key comes before k in the reversed order, and then the last such pair in that order |
| Reversed.MapReversed.FirstEntry | src/main/java/eluvio/lmdb/map/LMDBMapReversed.java:313-315 | null exactly on an empty map; otherwise the pair first in the reversed order |
| Reversed.MapReversed.LastEntry | src/main/java/eluvio/lmdb/map/LMDBMapReversed.java:378-380 | null exactly on an empty map; otherwise the pair last in the reversed order |
| Reversed.MapReversed.PollFirstEntry | src/main/java/eluvio/lmdb/map/LMDBMapReversed.java:408-410 | null exactly on an empty map; otherwise the wrapped map's last pair, removed and nothing else |
| Reversed.MapReversed.PollLastEntry | src/main/java/eluvio/lmdb/map/LMDBMapReversed.java:418-420 | null exactly on an empty map; otherwise the wrapped map's first pair, removed and nothing else |
| Reversed.MapReversed.Prepend | src/main/java/eluvio/lmdb/map/LMDBMapReversed.java:428-430 | true exactly when k comes before every stored key in the reversed order, and then the pair is stored; otherwise nothing changes |
| Reversed.MapReversed.Append | src/main/java/eluvio/lmdb/map/LMDBMapReversed.java:187-190 | always true, after a plain put of the pair |
| Reversed.SubMap | src/main/java/eluvio/lmdb/map/LMDBMapReversed.java:493-495 | accepted exactly when f comes before t in the reversed order; the view admits exactly the keys between them in that order, with the given inclusivities |
| Reversed.SubMapHalfOpen | src/main/java/eluvio/lmdb/map/LMDBMapReversed.java:498-502 | the two-argument subMap keeps f and drops t in the reversed order |
| Reversed.HeadMap | src/main/java/eluvio/lmdb/map/LMDBMapReversed.java:343-345 | the keys before t in the reversed order, and t itself when inclusive |
| Reversed.TailMap | src/main/java/eluvio/lmdb/map/LMDBMapReversed.java:510-512 | the keys after f in the reversed order, and f itself when inclusive |
| Reversed.HeadMapDefault | src/main/java/eluvio/lmdb/map/LMDBMapReversed.java:338-340 | the one-argument headMap keeps t itself, since the wrapped tailMap's default inclusivity carries over |
| Reversed.TailMapDefault | src/main/java/eluvio/lmdb/map/LMDBMapReversed.java:505-507 | the one-argument tailMap drops f itself, since the wrapped headMap's default inclusivity carries over |
| Reversed.ReversedCursor.constructor | src/main/java/eluvio/lmdb/map/LMDBMapReversed.java:26-28 | a reversed cursor wraps an open cursor |
| Reversed.ReversedCursor.First | src/main/java/eluvio/lmdb/map/LMDBMapReversed.java:66-68 | the store's last pair, null exactly when empty |
| Reversed.ReversedCursor.Last | src/main/java/eluvio/lmdb/map/LMDBMapReversed.java:86-88 | the store's first pair, null exactly when empty |
| Reversed.ReversedCursor.Next | src/main/java/eluvio/lmdb/map/LMDBMapReversed.java:116-118 | the parent's prev(): the pair before the current one in store order |
| Reversed.ReversedCursor.Prev | src/main/java/eluvio/lmdb/map/LMDBMapReversed.java:136-138 | the parent's next(): the pair after the current one in store order |
| Reversed.ReversedCursor.Walk | src/main/java/eluvio/lmdb/map/LMDBMapReversed.java:116-118 | first() and then next() until null yields the stored pairs in reverse |
| Reversed.ReversedNavigationScenario | src/main/java/eluvio/lmdb/map/LMDBMapReversed.java:353-395 | on the reversed map of {-1, 0, 1}, higherKey(0) is -1 and lowerKey(0) is 1 |
| Reversed.ReversedCeilingScenario | src/main/java/eluvio/lmdb/map/LMDBMapReversed.java:193-195 | on the reversed map of {1}, ceilingEntry(5) is null as written and 1 corrected |
| MultiSets.Values | src/main/java/eluvio/lmdb/map/LMDBMultiSetImpl.java:96-98 | the set of a key holds v exactly when the pair (k, v) is stored |
| MultiSets.MultiSetImpl.constructor | src/main/java/eluvio/lmdb/map/LMDBMultiSetImpl.java:31-39 | the set of one key over a duplicate map |
| MultiSets.MultiSetImpl.Add | src/main/java/eluvio/lmdb/map/LMDBMultiSetImpl.java:42-44 | true exactly when v was absent; afterwards the set is the old one plus v, and no other key changed |
| MultiSets.MultiSetImpl.AddAll | src/main/java/eluvio/lmdb/map/LMDBMultiSetImpl.java:47-57 | true exactly when some value was new; afterwards the set is the old one plus every value, and no other key changed |
| MultiSets.MultiSetImpl.Remove | src/main/java/eluvio/lmdb/map/LMDBMultiSetImpl.java:281-283 | true exactly when v was present; afterwards the set is the old one minus v, and no other key changed |
| MultiSets.MultiSetImpl.RemoveAll | src/main/java/eluvio/lmdb/map/LMDBMultiSetImpl.java:286-296 | true exactly when some value was present; afterwards the set is the old one minus every value, and no other key changed |
| MultiSets.MultiSetImpl.Clear | src/main/java/eluvio/lmdb/map/LMDBMultiSetImpl.java:70-72 | the set is empty, and no other key changed |
| MultiSets.MultiSetImpl.RetainAll | src/main/java/eluvio/lmdb/map/LMDBMultiSetImpl.java:299-301 | always UnsupportedOperationException |
| MultiSets.MultiSetImpl.Contains | src/main/java/eluvio/lmdb/map/LMDBMultiSetImpl.java:96-98 | true exactly when v is in the set |
| MultiSets.MultiSetImpl.ContainsAll | src/main/java/eluvio/lmdb/map/LMDBMultiSetImpl.java:101-109 | true exactly when every value is in the set |
| MultiSets.MultiSetImpl.First | src/main/java/eluvio/lmdb/map/LMDBMultiSetImpl.java:132-136 | the least value of the set, null exactly when it is empty |
| MultiSets.MultiSetImpl.Last | src/main/java/eluvio/lmdb/map/LMDBMultiSetImpl.java:179-183 | the greatest value of the set, null exactly when it is empty |
| MultiSets.MultiSetImpl.IsEmpty | src/main/java/eluvio/lmdb/map/LMDBMultiSetImpl.java:169-171 | true exactly when the set is empty |
| MultiSets.MultiSetImpl.Size | src/main/java/eluvio/lmdb/map/LMDBMultiSetImpl.java:304-312 | the number of values, or a RuntimeException exactly when it exceeds Integer.MAX_VALUE |
| MultiSets.MultiSetImpl.PollFirst | src/main/java/eluvio/lmdb/map/LMDBMultiSetImpl.java:201-211 | the least value, which alone leaves the set; null and no change when empty; other keys untouched |
| MultiSets.MultiSetImpl.PollLast | src/main/java/eluvio/lmdb/map/LMDBMultiSetImpl.java:214-224 | the greatest value, which alone leaves the set; null and no change when empty; other keys untouched |
| MultiSets.MultiSetImpl.Ceiling | src/main/java/eluvio/lmdb/map/LMDBMultiSetImpl.java:65-67 | the least value at least v, null when none |
| MultiSets.MultiSetImpl.Higher | src/main/java/eluvio/lmdb/map/LMDBMultiSetImpl.java:164-166 | the least value above v, null when none |
| MultiSets.MultiSetImpl.Floor | src/main/java/eluvio/lmdb/map/LMDBMultiSetImpl.java:144-146 | the greatest value at most v, null when none |
| MultiSets.MultiSetImpl.Lower | src/main/java/eluvio/lmdb/map/LMDBMultiSetImpl.java:196-198 | the greatest value below v, null when none |
| MultiSets.SubSet | src/main/java/eluvio/lmdb/map/LMDBMultiSetImpl.java:315-317 | the sub-view admits exactly the values between from and to with the given inclusivities |
| MultiSets.HeadSet | src/main/java/eluvio/lmdb/map/LMDBMultiSetImpl.java:154-156 | the head view admits exactly the values below to, and to itself when inclusive |
| MultiSets.TailSet | src/main/java/eluvio/lmdb/map/LMDBMultiSetImpl.java:330-332 | the tail view admits exactly the values above from, and from itself when inclusive |
| MultiSets.LeastOfKey | src/main/java/eluvio/lmdb/map/LMDBMultiSetImpl.java:132-136 | MDB_FIRST_DUP on a present key lands on its least value |
| MultiSets.GreatestOfKey | src/main/java/eluvio/lmdb/map/LMDBMultiSetImpl.java:179-183 | MDB_LAST_DUP on a present key lands on its greatest value |
| MultiSets.ValuesCount | src/main/java/eluvio/lmdb/map/LMDBMultiSetImpl.java:304-312 | mdb_cursor_count on a key is the size of its set |
| MultiSets.RunValues | src/main/java/eluvio/lmdb/map/LMDBMultiSetImpl.java:304-312 | a run of n pairs of one key holds n distinct values |
| MultiSetViews.AdmitValue | src/main/java/eluvio/lmdb/map/LMDBMultiSetView.java:217-219 | a set answer survives exactly when the view admits it, and then unchanged |
| MultiSetViews.InRangePrefix | src/main/java/eluvio/lmdb/map/LMDBMultiSetView.java:69-80 | the longest prefix of the values that all pass the range check |
| MultiSetViews.MultiSetView.constructor | src/main/java/eluvio/lmdb/map/LMDBMultiSetView.java:53-61 | a view over a key's set, with the bounds as given |
| MultiSetViews.MultiSetView.Add | src/main/java/eluvio/lmdb/map/LMDBMultiSetView.java:64-66 | true exactly when v is in range and new; an out-of-range v is quietly not added |
| MultiSetViews.MultiSetView.AddAll | src/main/java/eluvio/lmdb/map/LMDBMultiSetView.java:69-80 | succeeds exactly when every value is in range, answering whether one was new; on failure the values before the first out-of-range one stay added |
| MultiSetViews.MultiSetView.Remove | src/main/java/eluvio/lmdb/map/LMDBMultiSetView.java:358-361 | out of range: an exception and no change; in range: whether v was present, and v leaves |
| MultiSetViews.MultiSetView.RemoveAll | src/main/java/eluvio/lmdb/map/LMDBMultiSetView.java:365-376 | succeeds exactly when every value is in range, answering whether one was present; on failure the removals before it stay |
| MultiSetViews.MultiSetView.Clear | src/main/java/eluvio/lmdb/map/LMDBMultiSetView.java:120-122 | always UnsupportedOperationException |
| MultiSetViews.MultiSetView.RetainAll | src/main/java/eluvio/lmdb/map/LMDBMultiSetView.java:379-381 | always UnsupportedOperationException |
| MultiSetViews.MultiSetView.Contains | src/main/java/eluvio/lmdb/map/LMDBMultiSetView.java:146-148 | true exactly when v is in the view's contents |
| MultiSetViews.MultiSetView.ContainsAll | src/main/java/eluvio/lmdb/map/LMDBMultiSetView.java:152-160 | true exactly when every value is in the view's contents |
| MultiSetViews.MultiSetView.Ceiling | src/main/java/eluvio/lmdb/map/LMDBMultiSetView.java:98-111 | as written: the view's ceiling of the value clamped into the span |
| MultiSetViews.MultiSetView.Higher | src/main/java/eluvio/lmdb/map/LMDBMultiSetView.java:237-241 | as written: the view's higher value of the clamped value |
| MultiSetViews.MultiSetView.Floor | src/main/java/eluvio/lmdb/map/LMDBMultiSetView.java:196-209 | as written: the view's floor of the clamped value |
| MultiSetViews.MultiSetView.Lower | src/main/java/eluvio/lmdb/map/LMDBMultiSetView.java:314-318 | as written: the view's lower value of the clamped value |
| MultiSetViews.MultiSetView.CeilingFixed | src/main/java/eluvio/lmdb/map/LMDBMultiSetView.java:98-111 | corrected: the least admitted value at least v |
| MultiSetViews.MultiSetView.HigherFixed | src/main/java/eluvio/lmdb/map/LMDBMultiSetView.java:237-241 | corrected: the least admitted value above v |
| MultiSetViews.MultiSetView.FloorFixed | src/main/java/eluvio/lmdb/map/LMDBMultiSetView.java:196-209 | corrected: the greatest admitted value at most v |
| MultiSetViews.MultiSetView.LowerFixed | src/main/java/eluvio/lmdb/map/LMDBMultiSetView.java:314-318 | corrected: the greatest admitted value below v |
| MultiSetViews.MultiSetView.First | src/main/java/eluvio/lmdb/map/LMDBMultiSetView.java:183-188 | as written: the least admitted value under a lower bound; with none, the set's least value unchecked |
| MultiSetViews.MultiSetView.FirstFixed | src/main/java/eluvio/lmdb/map/LMDBMultiSetView.java:183-188 | corrected: the least admitted value |
| MultiSetViews.MultiSetView.Last | src/main/java/eluvio/lmdb/map/LMDBMultiSetView.java:256-261 | as written: the greatest admitted value under an upper bound; with none, the set's greatest value unchecked |
| MultiSetViews.MultiSetView.LastFixed | src/main/java/eluvio/lmdb/map/LMDBMultiSetView.java:256-261 | corrected: the greatest admitted value |
| MultiSetViews.MultiSetView.PollFirst | src/main/java/eluvio/lmdb/map/LMDBMultiSetView.java:321-328 | as written: removes and answers what first() answers, and only that value |
| MultiSetViews.MultiSetView.PollFirstFixed | src/main/java/eluvio/lmdb/map/LMDBMultiSetView.java:321-328 | corrected: removes and answers the least admitted value |
| MultiSetViews.MultiSetView.PollLast | src/main/java/eluvio/lmdb/map/LMDBMultiSetView.java:331-338 | as written: removes and answers what last() answers, and only that value |
| MultiSetViews.MultiSetView.PollLastFixed | src/main/java/eluvio/lmdb/map/LMDBMultiSetView.java:331-338 | corrected: removes and answers the greatest admitted value |
| MultiSetViews.MultiSetView.IsEmpty | src/main/java/eluvio/lmdb/map/LMDBMultiSetView.java:244-248 | as written: true exactly when nothing is in range and the unchecked first() does not overreach |
| MultiSetViews.MultiSetView.IsEmptyFixed | src/main/java/eluvio/lmdb/map/LMDBMultiSetView.java:244-248 | corrected: true exactly when nothing is in range |
| MultiSetViews.MultiSetView.Size | src/main/java/eluvio/lmdb/map/LMDBMultiSetView.java:384-395 | as written: the admitted values, or 1 on overreach, narrowed to an int |
| MultiSetViews.MultiSetView.SizeFixed | src/main/java/eluvio/lmdb/map/LMDBMultiSetView.java:384-395 | corrected: the admitted values, narrowed to an int |
| MultiSetViews.MultiSetView.CountFrom | src/main/java/eluvio/lmdb/map/LMDBMultiSetView.java:384-395 | the adapter's walk from its first answer counts the admitted values, or just the overreached one |
| MultiSetViews.NoneIffEmpty | src/main/java/eluvio/lmdb/map/LMDBMultiSetView.java:272-282 | a first or last answer is null exactly when nothing is admitted |
| MultiSetViews.FirstAnswer | src/main/java/eluvio/lmdb/map/LMDBMultiSetView.java:183-188 | the unchecked first() overreaches to a value outside the view, or else is the view's least value; null exactly when the view is empty and nothing overreaches |
| MultiSetViews.CountStart | src/main/java/eluvio/lmdb/map/LMDBMultiSetView.java:384-395 | the count starts at the first admitted value with nothing counted |
| MultiSetViews.WalkStep | src/main/java/eluvio/lmdb/map/LMDBMultiSetView.java:284-287 | each filtered next() keeps the walk's invariant and shortens what is left |
| MultiSetViews.StepInView | src/main/java/eluvio/lmdb/map/LMDBMultiSetView.java:284-287 | a step inside the range adds exactly the current value to those counted |
| MultiSetViews.StepPastOverreach | src/main/java/eluvio/lmdb/map/LMDBMultiSetView.java:284-287 | past an out-of-range first value every later value is out of range too |
| MultiSetViews.AtLeastShrinks | src/main/java/eluvio/lmdb/map/LMDBMultiSetView.java:284-287 | the values from the next one up are fewer |
| MultiSetViews.SubSet | src/main/java/eluvio/lmdb/map/LMDBMultiSetView.java:398-401 | fails exactly on out-of-order arguments; with both given, the sub-view admits only what the view admits |
| MultiSetViews.HeadSetOfView | src/main/java/eluvio/lmdb/map/LMDBMultiSetView.java:227-229 | fails exactly when to is not above the view's lower bound; the head view admits only values below to (or to, inclusive) |
| MultiSetViews.TailSetOfView | src/main/java/eluvio/lmdb/map/LMDBMultiSetView.java:414-416 | fails exactly when from is not below the view's upper bound; with no upper bound, the new upper bound becomes the view's from |
| MultiSetViews.TailOfTailSetEmpty | src/main/java/eluvio/lmdb/map/LMDBMultiSetView.java:414-416 | tailSet(7) of the tail set from 5 admits nothing, though 8 lies above both; the corrected tail keeps 8 |
| MultiSetViews.HeadSetDropsInteriorInclusive | src/main/java/eluvio/lmdb/map/LMDBMultiSetView.java:227-229 | headSet(5, true) of a view below 10 exclusive drops 5; the corrected sub-view keeps it |
| MultiSetViews.ViewIsInterval | src/main/java/eluvio/lmdb/map/LMDBMultiSetView.java:435-451 | the admitted values form an interval |
| MultiSetViews.CeilingAfterHigher | src/main/java/eluvio/lmdb/map/LMDBMultiSetView.java:98-111 | at an excluded lower bound, the set's higher, filtered, is the view's ceiling |
| MultiSetViews.CeilingAfterCeiling | src/main/java/eluvio/lmdb/map/LMDBMultiSetView.java:98-111 | the set's ceiling of the clamped value, filtered, is the view's ceiling of it |
| MultiSetViews.HigherAfterHigher | src/main/java/eluvio/lmdb/map/LMDBMultiSetView.java:237-241 | the set's higher of the clamped value, filtered, is the view's higher of it |
| MultiSetViews.FloorAfterLower | src/main/java/eluvio/lmdb/map/LMDBMultiSetView.java:196-209 | at an excluded upper bound, the set's lower, filtered, is the view's floor |
| MultiSetViews.FloorAfterFloor | src/main/java/eluvio/lmdb/map/LMDBMultiSetView.java:196-209 | the set's floor of the clamped value, filtered, is the view's floor of it |
| MultiSetViews.LowerAfterLower | src/main/java/eluvio/lmdb/map/LMDBMultiSetView.java:314-318 | the set's lower of the clamped value, filtered, is the view's lower of it |
| MultiSetViews.HeadSetOverreachScenario | src/main/java/eluvio/lmdb/map/LMDBMultiSetView.java:183-188 | over {20}, the empty head set below 10 answers first 20, size 1 and isEmpty false, against null, 0 and true corrected |
| MultiSetViews.CeilingAboveViewScenario | src/main/java/eluvio/lmdb/map/LMDBMultiSetView.java:98-111 | over {10}, the head set up to 10 answers ceiling(15) with 10 where the corrected view answers null |
| MultiSetViews.HigherBelowViewScenario | src/main/java/eluvio/lmdb/map/LMDBMultiSetView.java:237-241 | over {5}, the view [5, 10] answers higher(3) with null where the corrected view answers 5 |
| MultiSetViews.FloorBelowViewScenario | src/main/java/eluvio/lmdb/map/LMDBMultiSetView.java:196-209 | over {5}, the view [5, 10] answers floor(3) with 5 where the corrected view answers null |
| MultiSetViews.LowerAboveViewScenario | src/main/java/eluvio/lmdb/map/LMDBMultiSetView.java:314-318 | over {10}, the view [5, 10] answers lower(15) with null where the corrected view answers 10 |
| MultiSetsReversed.RevIsDescending | src/main/java/eluvio/lmdb/map/LMDBMultiSetReversed.java:67-74 | in the reversed order a value comes at or after k exactly when it is at most k, and strictly after exactly when it is below k |
| MultiSetsReversed.MultiSetReversed.constructor | src/main/java/eluvio/lmdb/map/LMDBMultiSetReversed.java:27-29 | a reversed set wraps a key's set |
| MultiSetsReversed.MultiSetReversed.Ceiling | src/main/java/eluvio/lmdb/map/LMDBMultiSetReversed.java:47-49 | the greatest value at most v, null when none |
| MultiSetsReversed.MultiSetReversed.Higher | src/main/java/eluvio/lmdb/map/LMDBMultiSetReversed.java:137-139 | the greatest value below v, null when none |
| MultiSetsReversed.MultiSetReversed.Floor | src/main/java/eluvio/lmdb/map/LMDBMultiSetReversed.java:117-119 | the least value at least v, null when none |
| MultiSetsReversed.MultiSetReversed.Lower | src/main/java/eluvio/lmdb/map/LMDBMultiSetReversed.java:167-169 | the least value above v, null when none |
| MultiSetsReversed.MultiSetReversed.First | src/main/java/eluvio/lmdb/map/LMDBMultiSetReversed.java:107-109 | the greatest value, null exactly when empty |
| MultiSetsReversed.MultiSetReversed.Last | src/main/java/eluvio/lmdb/map/LMDBMultiSetReversed.java:152-154 | the least value, null exactly when empty |
| MultiSetsReversed.MultiSetReversed.PollFirst | src/main/java/eluvio/lmdb/map/LMDBMultiSetReversed.java:172-174 | removes and answers the greatest value, and only it |
| MultiSetsReversed.MultiSetReversed.PollLast | src/main/java/eluvio/lmdb/map/LMDBMultiSetReversed.java:177-179 | removes and answers the least value, and only it |
| MultiSetsReversed.MultiSetReversed.CeilingBufAsWritten | src/main/java/eluvio/lmdb/map/LMDBMultiSetReversed.java:42-44 | as written, the ByteBuffer ceiling calls this set's own floor, which calls back: a StackOverflowError on every input |
| MultiSetsReversed.MultiSetReversed.FloorBufAsWritten | src/main/java/eluvio/lmdb/map/LMDBMultiSetReversed.java:112-114 | as written, the ByteBuffer floor recurses through ceiling: a StackOverflowError on every input |
| MultiSetsReversed.MultiSetReversed.HigherBufAsWritten | src/main/java/eluvio/lmdb/map/LMDBMultiSetReversed.java:132-134 | as written, the ByteBuffer higher recurses through lower: a StackOverflowError on every input |
| MultiSetsReversed.MultiSetReversed.LowerBufAsWritten | src/main/java/eluvio/lmdb/map/LMDBMultiSetReversed.java:162-164 | as written, the ByteBuffer lower recurses through higher: a StackOverflowError on every input |
| MultiSetsReversed.SubSet | src/main/java/eluvio/lmdb/map/LMDBMultiSetReversed.java:202-204 | a descending range admitting exactly the values between f and t in the reversed order, with the given inclusivities |
| MultiSetsReversed.SubSetHalfOpen | src/main/java/eluvio/lmdb/map/LMDBMultiSetReversed.java:207-209 | the two-argument subSet keeps f and drops t in the reversed order |
| MultiSetsReversed.TailSet | src/main/java/eluvio/lmdb/map/LMDBMultiSetReversed.java:217-219 | a descending range admitting the values after f in the reversed order, and f itself when inclusive |
| MultiSetsReversed.TailSetDefault | src/main/java/eluvio/lmdb/map/LMDBMultiSetReversed.java:212-214 | the one-argument tailSet drops f itself |
| MultiSetsReversed.HeadSetAsWritten | src/main/java/eluvio/lmdb/map/LMDBMultiSetReversed.java:127-129 | as written: the right values (before t in the reversed order) but iterated upward, not descending |
| MultiSetsReversed.HeadSetDefaultAsWritten | src/main/java/eluvio/lmdb/map/LMDBMultiSetReversed.java:122-124 | the one-argument headSet keeps t itself, and is not descending either |
| MultiSetsReversed.HeadSetFixed | src/main/java/eluvio/lmdb/map/LMDBMultiSetReversed.java:127-129 | corrected: the same values, iterated descending like every other range of the reversed set |
| MultiSetsReversed.HeadSetNotReversed | src/main/java/eluvio/lmdb/map/LMDBMultiSetReversed.java:127-129 | over {3, 4}, the reversed headSet(2) admits both values yet starts at 3, while the reversed set and the corrected head set start at 4 |
| Iteration.Swap | src/main/java/eluvio/lmdb/map/LMDBCursorAdapter.java:30-40 | reversing trades first with last and next with prev, and nothing else |
| Iteration.ProjectAll | src/main/java/eluvio/lmdb/map/LMDBCursorAdapter.java:42-94 | the elements handed out for a sequence of pairs: one per pair, in order |
| Iteration.Ordered | src/main/java/eluvio/lmdb/map/LMDBCursorAdapter.java:30-40 | the pairs in walking order: element j of a reversed walk is element n-1-j |
| Iteration.FetchFirst | src/main/java/eluvio/lmdb/map/LMDBCursorAdapter.java:42-94 | the first move of an adapter lands on the first pair of its span, or finds nothing when the span is empty |
| Iteration.FetchStep | src/main/java/eluvio/lmdb/map/LMDBCursorAdapter.java:42-94 | from the j-th pair of the span, the next move lands on the (j+1)-th, or finds nothing past the end |
| Iteration.Adapter.constructor | src/main/java/eluvio/lmdb/map/LMDBCursorAdapter.java:42-76 | an adapter over an open cursor: not reversed, read-only as its transaction is |
| Iteration.Adapter.Empty | src/main/java/eluvio/lmdb/map/LMDBCursorAdapter.java:96-104 | the empty adapter: no cursor, read-only |
| Iteration.Adapter.Around | src/main/java/eluvio/lmdb/map/LMDBCursorAdapter.java:30-40 | an adapter with the given cursor, kind and direction |
| Iteration.Adapter.Move | src/main/java/eluvio/lmdb/map/LMDBCursorAdapter.java:42-94 | a move answers the element the cursor operation yields and leaves the cursor where that operation does |
| Iteration.Adapter.Reversed | src/main/java/eluvio/lmdb/map/LMDBCursorAdapter.java:30-40 | the reversed adapter shares the cursor, flips the direction, and each of its moves answers what the swapped move of the original would |
| Iteration.Adapter.Delete | src/main/java/eluvio/lmdb/map/LMDBCursorAdapter.java:26-101 | the cursor's delete of the pair it stands on; the empty adapter does nothing |
| Iteration.Adapter.Close | src/main/java/eluvio/lmdb/map/LMDBCursorAdapter.java:28-103 | the cursor is closed, its contents and place kept; the empty adapter does nothing |
| Iteration.ForDupValues | src/main/java/eluvio/lmdb/map/LMDBCursorAdapter.java:79-94 | for a present key, an adapter over its values with the cursor on its first pair; for an absent key, the cursor closed and the empty adapter |
| Iteration.DupValuesIterator | src/main/java/eluvio/lmdb/map/LMDBIteratorImpl.java:56-66 | a fresh iterator over the key's values, ascending or descending, empty when the key is absent |
| Iteration.RunMembers | src/main/java/eluvio/lmdb/map/LMDBCursorAdapter.java:79-94 | the values walked over a key's run are exactly that key's values |
| Iteration.RunAscending | src/main/java/eluvio/lmdb/map/LMDBCursorAdapter.java:79-94 | and they come in ascending order |
| Iteration.Iterator.constructor | src/main/java/eluvio/lmdb/map/LMDBIteratorImpl.java:68-70 | a new iterator has nothing cached and has not fetched yet |
| Iteration.Iterator.HasNext | src/main/java/eluvio/lmdb/map/LMDBIteratorImpl.java:72-82 | true exactly when an element is coming; it is cached, and the iterator closes exactly at the end |
| Iteration.Iterator.Next | src/main/java/eluvio/lmdb/map/LMDBIteratorImpl.java:84-89 | the coming element, or NoSuchElementException at the end; the cache is emptied |
| Iteration.Iterator.Remove | src/main/java/eluvio/lmdb/map/LMDBIteratorImpl.java:91-97 | UnsupportedOperationException on a read-only cursor; otherwise the pair under the cursor is deleted, whichever it is |
| Iteration.Iterator.RemoveFixed | src/main/java/eluvio/lmdb/map/LMDBIteratorImpl.java:91-97 | corrected: when hasNext() has moved ahead, it steps back onto the returned pair, deletes it and steps forward; IllegalStateException when there is none |
| Iteration.Iterator.Close | src/main/java/eluvio/lmdb/map/LMDBIteratorImpl.java:99-103 | the iterator is closed, keeping its cache; closing twice closes the cursor once |
| Iteration.Round | src/main/java/eluvio/lmdb/map/LMDBIteratorImpl.java:72-89 | one next() answers the cached element and the following hasNext() makes the next move |
| Iteration.Advance | src/main/java/eluvio/lmdb/map/LMDBIteratorImpl.java:72-89 | one round answers the j-th pair of the span, projected, and moves on exactly when more remain; otherwise the iterator closes |
| Iteration.StepBack | src/main/java/eluvio/lmdb/map/LMDBCursorAdapter.java:42-94 | from the j-th pair of the span the previous move lands on the (j-1)-th, or finds nothing at the start |
| Iteration.ResumeAfterDelete | src/main/java/eluvio/lmdb/map/LMDBCursorAdapter.java:42-94 | after the (j-1)-th pair is deleted, the next move from the gap lands on what was the j-th |
| Iteration.RemoveAhead | src/main/java/eluvio/lmdb/map/LMDBIteratorImpl.java:91-97 | as written, after next() returned pair j-1 and hasNext() fetched pair j, remove() deletes pair j |
| Iteration.RemoveAheadFixed | src/main/java/eluvio/lmdb/map/LMDBIteratorImpl.java:91-97 | corrected, in the same state it deletes pair j-1 and keeps pair j cached; before any next() it is IllegalStateException |
| Iteration.Start | src/main/java/eluvio/lmdb/map/LMDBIteratorImpl.java:72-82 | the first hasNext() stands on the first pair of the span exactly when it is non-empty, otherwise closes |
| Iteration.Drain | src/main/java/eluvio/lmdb/map/LMDBIteratorImpl.java:72-89 | iterating to the end yields the span's pairs, projected, in the adapter's walking order, and leaves the iterator closed |
| Iteration.WalkOrder | src/main/java/eluvio/lmdb/map/LMDBCursorAdapter.java:30-40 | the pairs taken one by one in walking order are the span in walking order |
| Iteration.KeyStep | src/main/java/eluvio/lmdb/map/LMDBCursorAdapter.java:54-64 | from the first pair of a key, MDB_NEXT_NODUP lands on the first pair of the next key |
| Iteration.NextNoDupStep | src/main/java/eluvio/lmdb/map/LMDBCursorAdapter.java:54-64 | MDB_NEXT_NODUP from a pair moves to the end of its key's run |
| Iteration.KeysOfKeyRun | src/main/java/eluvio/lmdb/map/LMDBCursorAdapter.java:54-64 | taking in the run of one key adds exactly that key |
| Iteration.NextKeyBefore | src/main/java/eluvio/lmdb/map/LMDBCursorAdapter.java:54-64 | the next key's first pair stands where the key walk's invariant asks, with one more key taken |
| Iteration.LastKeyTaken | src/main/java/eluvio/lmdb/map/LMDBCursorAdapter.java:54-64 | once the last run is taken, the keys handed out are exactly the stored keys |
| Iteration.AscendingAppend | src/main/java/eluvio/lmdb/map/LMDBCursorAdapter.java:54-64 | appending a key above all taken keys keeps them strictly ascending |
| Iteration.StartKeys | src/main/java/eluvio/lmdb/map/LMDBIteratorImpl.java:72-82 | the first hasNext() of a key iterator stands on the first key exactly when the store is non-empty |
| Iteration.AdvanceKeys | src/main/java/eluvio/lmdb/map/LMDBIteratorImpl.java:72-89 | one round of the key loop answers the current key and moves to the next key's first pair |
| Iteration.DrainKeys | src/main/java/eluvio/lmdb/map/LMDBIteratorImpl.java:36-42 | iterating the keys to the end yields every stored key once, in strictly ascending order |
| Iteration.KeySetIsHasKey | src/main/java/eluvio/lmdb/map/LMDBIteratorImpl.java:36-42 | the key set of a store holds exactly the keys it has |
| Iteration.EntryIterator | src/main/java/eluvio/lmdb/map/LMDBIteratorImpl.java:68-70 | a fresh entry iterator over a fresh read-write cursor on the store |
| Iteration.RemoveAfterHasNextScenario | src/main/java/eluvio/lmdb/map/LMDBIteratorImpl.java:91-97 | over the entries 1 and 2: next() answers 1, hasNext() fetches 2, and remove() leaves only 1 |
| Iteration.RemoveFixedAfterHasNextScenario | src/main/java/eluvio/lmdb/map/LMDBIteratorImpl.java:91-97 | the same calls with the corrected remove() leave only 2 |
| Collections.Padded | src/main/java/eluvio/lmdb/map/LMDBKeySet.java:201-213 | an array of n slots: the items that fit from slot 0, null after them |
| Collections.Filled | src/main/java/eluvio/lmdb/map/LMDBKeySet.java:201-213 | what a caller reads back from an array: no more than its slots |
| Collections.FilledPadded | src/main/java/eluvio/lmdb/map/LMDBKeySet.java:201-213 | reading back an array filled from the items gives the items that fitted |
| Collections.NewArray | src/main/java/eluvio/lmdb/map/LMDBKeySet.java:183-197 | NegativeArraySizeException for a negative size, ArrayIndexOutOfBoundsException when more elements come than slots; otherwise a fresh array holding the elements, then nulls |
| Collections.FillArray | src/main/java/eluvio/lmdb/map/LMDBKeySet.java:201-213 | the caller's array itself when it has room for size elements, otherwise a fresh one of size slots with the caller's untouched; either way the elements, then nulls |
| Collections.AscendingCount | src/main/java/eluvio/lmdb/map/LMDBKeySet.java:154-156 | a strictly ascending walk meets each number once, so it is as long as the set of them |
| Collections.KeyWalkCount | src/main/java/eluvio/lmdb/map/LMDBKeySet.java:154-156 | an ascending walk over exactly the stored keys is as long as the key set |
| Collections.NoPairNoKey | src/main/java/eluvio/lmdb/map/LMDBKeySet.java:96-98 | a map holds no key exactly when it holds no pair |
| Collections.KeyOf | src/main/java/eluvio/lmdb/map/LMDBKeySet.java:71-78 | the key of an answered entry, null exactly when the entry is null |
| Collections.OpenIterator | src/main/java/eluvio/lmdb/map/LMDBKeySet.java:111-113 | a fresh forward iterator of the given kind over a fresh read-only cursor on the map |
| Collections.WalkAll | src/main/java/eluvio/lmdb/map/LMDBEntrySet.java:77-79 | walking an entry or value iterator to the end yields every pair, projected, in the map's order |
| Collections.RemoveKeys | src/main/java/eluvio/lmdb/map/LMDBKeySet.java:136-146 | removing keys one after another keeps the store sorted (and unique-keyed) and leaves exactly the pairs of the other keys |
| Collections.HasKeyAfterRemoveKeys | src/main/java/eluvio/lmdb/map/LMDBKeySet.java:136-146 | after the removals a key is present exactly when it was and is not among those removed |
| Collections.RemoveAllStep | src/main/java/eluvio/lmdb/map/LMDBKeySet.java:136-146 | each removal finds its key exactly when the key was there and not removed before, and is one more key removal |
| Collections.KeySet.constructor | src/main/java/eluvio/lmdb/map/LMDBKeySet.java:11-13 | a key set over a map |
| Collections.KeySet.Add | src/main/java/eluvio/lmdb/map/LMDBKeySet.java:16-18 | always UnsupportedOperationException |
| Collections.KeySet.AddAll | src/main/java/eluvio/lmdb/map/LMDBKeySet.java:21-23 | always UnsupportedOperationException |
| Collections.KeySet.RetainAll | src/main/java/eluvio/lmdb/map/LMDBKeySet.java:149-151 | always UnsupportedOperationException |
| Collections.KeySet.Ceiling | src/main/java/eluvio/lmdb/map/LMDBKeySet.java:26-28 | the least stored key at least k, null exactly when there is none |
| Collections.KeySet.Higher | src/main/java/eluvio/lmdb/map/LMDBKeySet.java:91-93 | the least stored key above k, null exactly when there is none |
| Collections.KeySet.Floor | src/main/java/eluvio/lmdb/map/LMDBKeySet.java:76-78 | as written, on the cursor floor: the greatest stored key at most k, present exactly when there is one and some key is at least k |
| Collections.KeySet.Lower | src/main/java/eluvio/lmdb/map/LMDBKeySet.java:116-118 | as written, on the cursor lower: the greatest stored key below k, present exactly when there is one and some key is at least k |
| Collections.KeySet.FloorFixed | src/main/java/eluvio/lmdb/map/LMDBKeySet.java:76-78 | corrected: the greatest stored key at most k, null exactly when there is none |
| Collections.KeySet.LowerFixed | src/main/java/eluvio/lmdb/map/LMDBKeySet.java:116-118 | corrected: the greatest stored key below k, null exactly when there is none |
| Collections.KeySet.First | src/main/java/eluvio/lmdb/map/LMDBKeySet.java:71-73 | the least stored key, null exactly on an empty map |
| Collections.KeySet.Last | src/main/java/eluvio/lmdb/map/LMDBKeySet.java:106-108 | the greatest stored key, null exactly on an empty map |
| Collections.KeySet.Clear | src/main/java/eluvio/lmdb/map/LMDBKeySet.java:31-33 | no key is left |
| Collections.KeySet.Contains | src/main/java/eluvio/lmdb/map/LMDBKeySet.java:41-43 | true exactly when k is a stored key |
| Collections.KeySet.ContainsAll | src/main/java/eluvio/lmdb/map/LMDBKeySet.java:46-54 | true exactly when every given key is stored |
| Collections.KeySet.IsEmpty | src/main/java/eluvio/lmdb/map/LMDBKeySet.java:96-98 | true exactly when there is no key, failing where the map's size fails |
| Collections.KeySet.Remove | src/main/java/eluvio/lmdb/map/LMDBKeySet.java:131-133 | true exactly when k was present; every pair of k goes |
| Collections.KeySet.RemoveAll | src/main/java/eluvio/lmdb/map/LMDBKeySet.java:136-146 | true exactly when some given key was present; every pair of every given key goes |
| Collections.KeySet.PollFirst | src/main/java/eluvio/lmdb/map/LMDBKeySet.java:121-123 | as written: the first pair's key, with only that pair removed |
| Collections.KeySet.PollLast | src/main/java/eluvio/lmdb/map/LMDBKeySet.java:126-128 | as written: the last pair's key, with only that pair removed |
| Collections.KeySet.PollFirstFixed | src/main/java/eluvio/lmdb/map/LMDBKeySet.java:121-123 | corrected: the least key, which leaves the key set, null exactly on an empty map |
| Collections.KeySet.PollLastFixed | src/main/java/eluvio/lmdb/map/LMDBKeySet.java:126-128 | corrected: the greatest key, which leaves the key set, null exactly on an empty map |
| Collections.KeySet.SizeLong | src/main/java/eluvio/lmdb/map/LMDBKeySet.java:158-160 | the number of distinct keys |
| Collections.KeySet.Size | src/main/java/eluvio/lmdb/map/LMDBKeySet.java:154-156 | the number of distinct keys narrowed to an int: exact when it fits |
| Collections.KeySet.LmdbIterator | src/main/java/eluvio/lmdb/map/LMDBKeySet.java:101-113 | a fresh forward key iterator over the map |
| Collections.KeySet.ToArray | src/main/java/eluvio/lmdb/map/LMDBKeySet.java:183-197 | every key once, ascending; an array exactly when the key count fits an int |
| Collections.KeySet.ToArrayInto | src/main/java/eluvio/lmdb/map/LMDBKeySet.java:201-213 | every key once, ascending, in the caller's array when it has room for the narrowed count, otherwise in a fresh one; null after the last |
| Collections.RemoveKeyKeys | src/main/java/eluvio/lmdb/map/LMDBKeySet.java:131-133 | removing a key takes exactly that key out of the key set |
| Collections.PollFirstKeepsKeyScenario | src/main/java/eluvio/lmdb/map/LMDBKeySet.java:121-123 | over the duplicate map 1 -> 0, 1 -> 1, pollFirst() answers 1 and the key set still holds 1 |
| Collections.PollFirstFixedScenario | src/main/java/eluvio/lmdb/map/LMDBKeySet.java:121-123 | the corrected pollFirst() answers 1 and the key set no longer holds it |
| Collections.LowerKeyScenario | src/main/java/eluvio/lmdb/map/LMDBKeySet.java:116-118 | over the map {1}, lower(5) is null as written and 1 corrected |
| Collections.EntrySet.constructor | src/main/java/eluvio/lmdb/map/LMDBEntrySet.java:26-28 | an entry set over a map |
| Collections.EntrySet.Add | src/main/java/eluvio/lmdb/map/LMDBEntrySet.java:31-33 | always UnsupportedOperationException |
| Collections.EntrySet.AddAll | src/main/java/eluvio/lmdb/map/LMDBEntrySet.java:36-38 | always UnsupportedOperationException |
| Collections.EntrySet.Clear | src/main/java/eluvio/lmdb/map/LMDBEntrySet.java:41-43 | always UnsupportedOperationException |
| Collections.EntrySet.RemoveAll | src/main/java/eluvio/lmdb/map/LMDBEntrySet.java:89-91 | always UnsupportedOperationException |
| Collections.EntrySet.RetainAll | src/main/java/eluvio/lmdb/map/LMDBEntrySet.java:94-96 | always UnsupportedOperationException |
| Collections.EntrySet.Contains | src/main/java/eluvio/lmdb/map/LMDBEntrySet.java:47-50 | true exactly when the pair is stored |
| Collections.EntrySet.ContainsAll | src/main/java/eluvio/lmdb/map/LMDBEntrySet.java:54-64 | true exactly when every given pair is stored |
| Collections.EntrySet.IsEmpty | src/main/java/eluvio/lmdb/map/LMDBEntrySet.java:67-69 | true exactly on an empty map, failing where its size fails |
| Collections.EntrySet.Remove | src/main/java/eluvio/lmdb/map/LMDBEntrySet.java:83-86 | true exactly when the pair was stored; exactly that pair goes |
| Collections.EntrySet.Size | src/main/java/eluvio/lmdb/map/LMDBEntrySet.java:99-101 | the pair count when it fits an int, otherwise a RuntimeException |
| Collections.EntrySet.LmdbIterator | src/main/java/eluvio/lmdb/map/LMDBEntrySet.java:72-79 | a fresh forward entry iterator over the map |
| Collections.EntrySet.ToArray | src/main/java/eluvio/lmdb/map/LMDBEntrySet.java:104-118 | every pair in the map's order, in a fresh array, failing where size fails |
| Collections.EntrySet.ToArrayInto | src/main/java/eluvio/lmdb/map/LMDBEntrySet.java:122-134 | every pair in order, in the caller's array when it has room, otherwise a fresh one; null after the last |
| Collections.ValuesCollection.constructor | src/main/java/eluvio/lmdb/map/LMDBValuesCollection.java:9-11 | a values collection over a map |
| Collections.ValuesCollection.Add | src/main/java/eluvio/lmdb/map/LMDBValuesCollection.java:14-16 | always UnsupportedOperationException |
| Collections.ValuesCollection.AddAll | src/main/java/eluvio/lmdb/map/LMDBValuesCollection.java:19-21 | always UnsupportedOperationException |
| Collections.ValuesCollection.Clear | src/main/java/eluvio/lmdb/map/LMDBValuesCollection.java:24-26 | always UnsupportedOperationException |
| Collections.ValuesCollection.Remove | src/main/java/eluvio/lmdb/map/LMDBValuesCollection.java:60-62 | always UnsupportedOperationException |
| Collections.ValuesCollection.RemoveAll | src/main/java/eluvio/lmdb/map/LMDBValuesCollection.java:65-67 | always UnsupportedOperationException |
| Collections.ValuesCollection.RetainAll | src/main/java/eluvio/lmdb/map/LMDBValuesCollection.java:70-72 | always UnsupportedOperationException |
| Collections.ValuesCollection.Contains | src/main/java/eluvio/lmdb/map/LMDBValuesCollection.java:29-31 | true exactly when some pair holds v |
| Collections.ValuesCollection.ContainsAll | src/main/java/eluvio/lmdb/map/LMDBValuesCollection.java:34-42 | true exactly when every given value is held by some pair |
| Collections.ValuesCollection.IsEmpty | src/main/java/eluvio/lmdb/map/LMDBValuesCollection.java:45-47 | true exactly on an empty map, failing where its size fails |
| Collections.ValuesCollection.Size | src/main/java/eluvio/lmdb/map/LMDBValuesCollection.java:75-77 | one value per pair, when the count fits an int |
| Collections.ValuesCollection.LmdbIterator | src/main/java/eluvio/lmdb/map/LMDBValuesCollection.java:50-57 | a fresh forward value iterator over the map |
| Collections.ValuesCollection.ToArray | src/main/java/eluvio/lmdb/map/LMDBValuesCollection.java:80-94 | the value of every pair in key order, in a fresh array, failing where size fails |
| Collections.ValuesCollection.ToArrayInto | src/main/java/eluvio/lmdb/map/LMDBValuesCollection.java:98-110 | the values in key order, in the caller's array when it has room, otherwise a fresh one; null after the last |
| Collections.WalkRun | src/main/java/eluvio/lmdb/map/LMDBMultiSetInternal.java:65-79 | walking a multiset's iterator yields the run of its key, or nothing when absent |
| Collections.RunIsContents | src/main/java/eluvio/lmdb/map/LMDBMultiSetInternal.java:65-79 | the walked run of a key is that key's set of values: ascending, each once |
| Collections.ValuesWalked | src/main/java/eluvio/lmdb/map/LMDBMultiSetInternal.java:65-79 | a walk meeting exactly a set of values has them as its numbers |
| Collections.WalkValues | src/main/java/eluvio/lmdb/map/LMDBMultiSetInternal.java:65-79 | a multiset's walk yields its values, ascending, each once |
| Collections.MultiSetToArray | src/main/java/eluvio/lmdb/map/LMDBMultiSetInternal.java:65-79 | a multiset's values ascending, each once, in a fresh array, failing where size fails |
| Collections.MultiSetToArrayInto | src/main/java/eluvio/lmdb/map/LMDBMultiSetInternal.java:83-95 | a multiset's values ascending, in the caller's array when it has room, otherwise a fresh one; null after the last |
| Serializers.CachedBufferSize | src/main/java/eluvio/lmdb/map/LMDBSerializer.java:98-102 | the value width (4 or 8) for the numeric serializers, -1 for byte arrays |
| Serializers.IntegerKeys | src/main/java/eluvio/lmdb/map/LMDBSerializer.java:98-102 | MDB_INTEGERKEY exactly for the numeric serializers |
| Serializers.WrapLong | src/main/java/eluvio/lmdb/map/LMDBSerializer.java:133-136 | Java long arithmetic: the result is a long congruent to the exact value modulo 2^64 |
| Serializers.Wrap | src/main/java/eluvio/lmdb/map/LMDBSerializer.java:82-85 | Java arithmetic at the serializer's width: a value of its type congruent to the exact one |
| Serializers.AsUnsigned | src/main/java/eluvio/lmdb/map/LMDBSerializer.java:93-96 | the stored bits read unsigned: in [0, 2^width), congruent to the value |
| Serializers.Write | src/main/java/eluvio/lmdb/map/LMDBSerializer.java:82-85 | signed serializers subtract MIN_VALUE with wrap-around, unsigned ones store the value; the result is of the type |
| Serializers.Read | src/main/java/eluvio/lmdb/map/LMDBSerializer.java:82-85 | signed serializers add MIN_VALUE back with wrap-around, unsigned ones read the value; the result is of the type |
| Serializers.UnsignedWrap | src/main/java/eluvio/lmdb/map/LMDBSerializer.java:93-96 | two values of the type with the same unsigned reading are equal |
| Serializers.RoundTrip | src/main/java/eluvio/lmdb/map/LMDBSerializer.java:82-96 | read(write(i)) == i and write(read(j)) == j for every value of the type |
| Serializers.ReadAfterWrite | src/main/java/eluvio/lmdb/map/LMDBSerializer.java:133-147 | read undoes write for every value of the type |
| Serializers.WriteAfterRead | src/main/java/eluvio/lmdb/map/LMDBSerializer.java:133-147 | write undoes read for every value of the type |
| Serializers.SignedOffset | src/main/java/eluvio/lmdb/map/LMDBSerializer.java:75-85 | the signed serializers store i - MIN_VALUE as an unsigned number |
| Serializers.SignedOrder | src/main/java/eluvio/lmdb/map/LMDBSerializer.java:126-136 | signed serializers keep order: a < b exactly when the stored unsigned a is below the stored b |
| Serializers.UnsignedOrder | src/main/java/eluvio/lmdb/map/LMDBSerializer.java:87-96 | unsigned serializers store every negative above every non-negative, so MIN_VALUE sorts after MAX_VALUE |
| Serializers.Decode | src/main/java/eluvio/lmdb/map/LMDBSerializer.java:115-118 | the unsigned number a byte string holds, least significant first, below 256^length |
| Serializers.Encode | src/main/java/eluvio/lmdb/map/LMDBSerializer.java:107-113 | n bytes that decode back to x when x < 256^n |
| Serializers.EncodeDecode | src/main/java/eluvio/lmdb/map/LMDBSerializer.java:107-118 | every byte string is the encoding of the number it decodes to |
| Serializers.Encoded | src/main/java/eluvio/lmdb/map/LMDBSerializer.java:107-113 | the width's bytes serialize writes, decoding to the stored unsigned number |
| Serializers.Decoded | src/main/java/eluvio/lmdb/map/LMDBSerializer.java:115-118 | the value deserialize reads from the width's bytes, of the serializer's type |
| Serializers.DecodedEncoded | src/main/java/eluvio/lmdb/map/LMDBSerializer.java:107-118 | deserialize(serialize(i)) == i through the bytes |
| Serializers.EncodedDecoded | src/main/java/eluvio/lmdb/map/LMDBSerializer.java:107-118 | every byte string of the width is the serialization of the value it decodes to |
| Serializers.IntegerKeyCompare | src/main/java/eluvio/lmdb/map/LMDBSerializer.java:75-81 | MDB_INTEGERKEY's comparison of two serialized keys: the sign of the difference of their unsigned numbers |
| Serializers.SignedKeyOrder | src/main/java/eluvio/lmdb/map/LMDBSerializer.java:75-85 | under the signed serializers the stored key order is the numeric order |
| Serializers.UnsignedMinAfterMax | src/main/java/eluvio/lmdb/map/LMDBSerializer.java:87-96 | under the unsigned serializers MIN_VALUE compares above MAX_VALUE |
| Serializers.ByteBuffer.constructor | src/main/java/eluvio/lmdb/map/LMDBSerializer.java:108 | allocateDirect(n): position 0, limit n, n bytes |
| Serializers.ByteBuffer.Put | src/main/java/eluvio/lmdb/map/LMDBSerializer.java:186 | put(bytes): the bytes at the position, which moves past them; nothing else changes |
| Serializers.ByteBuffer.Flip | src/main/java/eluvio/lmdb/map/LMDBSerializer.java:187 | flip(): limit to the position, position to 0, so Contents is what was written |
| Serializers.ByteBuffer.Take | src/main/java/eluvio/lmdb/map/LMDBSerializer.java:191-195 | get(n): the next n bytes and the position past them, or BufferUnderflowException when fewer remain |
| Serializers.PutFlipped | src/main/java/eluvio/lmdb/map/LMDBSerializer.java:184-189 | put then flip into buf when it has room, after what it already held, else into a fresh buffer of exactly the bytes, whose Contents are the bytes |
| Serializers.SerializeNumber | src/main/java/eluvio/lmdb/map/LMDBSerializer.java:107-113 | the numeric serialize: reuses buf exactly when it has the width remaining, otherwise a fresh buffer; the readable bytes are Encoded |
| Serializers.DeserializeNumber | src/main/java/eluvio/lmdb/map/LMDBSerializer.java:115-118 | the numeric deserialize: Decoded of the next width bytes, or BufferUnderflowException |
| Serializers.NumberRoundTrip | src/main/java/eluvio/lmdb/map/LMDBSerializer.java:107-118 | a value serialized into a cleared (or no) buffer deserializes to itself |
| Serializers.SerializeBytes | src/main/java/eluvio/lmdb/map/LMDBSerializer.java:184-189 | ByteArray.serialize: reuses buf exactly when it has room; the readable bytes are b |
| Serializers.DeserializeBytes | src/main/java/eluvio/lmdb/map/LMDBSerializer.java:191-195 | ByteArray.deserialize: every remaining byte, leaving none |
| Serializers.BytesRoundTrip | src/main/java/eluvio/lmdb/map/LMDBSerializer.java:184-195 | a byte array serialized into a cleared (or no) buffer deserializes to itself |
| ReusableBufs.ReusableBuf.constructor | src/main/java/eluvio/lmdb/map/ReusableBuf.java:23-29 | a new reusable buffer is not in use |
| ReusableBufs.ReusableBuf.Open | src/main/java/eluvio/lmdb/map/ReusableBuf.java:31-34 | marks the buffer in use; AssertionError exactly when it already was |
| ReusableBufs.ReusableBuf.Close | src/main/java/eluvio/lmdb/map/ReusableBuf.java:36-39 | clears the buffer (position 0, limit at capacity, bytes kept) and marks it free |
| ReusableBufs.OpenCloseOpenScenario | src/main/java/eluvio/lmdb/map/ReusableBuf.java:31-39 | open, close, open: both opens succeed |
| ReusableBufs.NestedOpenScenario | src/main/java/eluvio/lmdb/map/ReusableBuf.java:31-34 | a second open without close fails with AssertionError |
| ReusableBufs.CloseTwiceScenario | src/main/java/eluvio/lmdb/map/ReusableBuf.java:36-39 | closing twice leaves the buffer free and cleared as closing once |
| Deques.ValuesOf | src/main/java/eluvio/lmdb/map/LMDBBlockingDeque.java:580-582 | the values of the stored pairs, one per pair, in key order |
| Deques.Present | src/main/java/eluvio/lmdb/map/LMDBBlockingDeque.java:492-507 | the elements of a collection with the nulls dropped, no more of them than the collection holds |
| Deques.FirstNull | src/main/java/eluvio/lmdb/map/LMDBBlockingDeque.java:492-507 | the index of the first null, every element before it present |
| Deques.Reverse | src/main/java/eluvio/lmdb/map/LMDBBlockingDeque.java:539-549 | the sequence back to front |
| Deques.FirstIndex | src/main/java/eluvio/lmdb/map/LMDBBlockingDeque.java:448-467 | the first position holding o, none before it does |
| Deques.LastIndex | src/main/java/eluvio/lmdb/map/LMDBBlockingDeque.java:470-489 | the last position holding o, none after it does |
| Deques.Without | src/main/java/eluvio/lmdb/map/LMDBBlockingDeque.java:448-489 | the sequence with the element at i taken out and the rest kept in order |
| Deques.ValuesOfConcat | src/main/java/eluvio/lmdb/map/LMDBBlockingDeque.java:580-582 | the values of two joined stores are the two value lists joined |
| Deques.ValuesOfSlice | src/main/java/eluvio/lmdb/map/LMDBBlockingDeque.java:580-582 | the values of a slice of the store are that slice of its values |
| Deques.ValueMember | src/main/java/eluvio/lmdb/map/LMDBBlockingDeque.java:426-428 | a value is an element exactly when some stored pair holds it |
| Deques.HeadIsLeast | src/main/java/eluvio/lmdb/map/LMDBBlockingDeque.java:79-84 | the first pair of a sorted store holds its least key |
| Deques.LastIsGreatest | src/main/java/eluvio/lmdb/map/LMDBBlockingDeque.java:93-98 | the last pair of a sorted store holds its greatest key |
| Deques.LeastIsFirst | src/main/java/eluvio/lmdb/map/LMDBBlockingDeque.java:204-209 | the least pair of a sorted store is its first |
| Deques.GreatestIsLast | src/main/java/eluvio/lmdb/map/LMDBBlockingDeque.java:215-220 | the greatest pair of a sorted store is its last |
| Deques.RemoveKeyIsRemoveAt | src/main/java/eluvio/lmdb/map/LMDBBlockingDeque.java:448-467 | with unique keys, deleting the key of the pair at j deletes exactly that pair and its value |
| Deques.BlockingDeque.constructor | src/main/java/eluvio/lmdb/map/LMDBBlockingDeque.java:63-70 | a deque over the map with the given capacity and permit counts |
| Deques.BlockingDeque.TryAcquireWrites | src/main/java/eluvio/lmdb/map/LMDBBlockingDeque.java:119-122 | succeeds exactly when unbounded or n write permits remain, taking them when bounded |
| Deques.BlockingDeque.TryAcquireWrite | src/main/java/eluvio/lmdb/map/LMDBBlockingDeque.java:114-117 | succeeds exactly when unbounded or a write permit remains, taking it when bounded |
| Deques.BlockingDeque.ReleaseWrites | src/main/java/eluvio/lmdb/map/LMDBBlockingDeque.java:109-112 | gives back n write permits when bounded, nothing when unbounded |
| Deques.BlockingDeque.TryAcquireRead | src/main/java/eluvio/lmdb/map/LMDBBlockingDeque.java:141-143 | succeeds exactly when a read permit remains, taking it |
| Deques.BlockingDeque.ReleaseRead | src/main/java/eluvio/lmdb/map/LMDBBlockingDeque.java:137-139 | gives back one read permit |
| Deques.BlockingDeque.NextHeadKey | src/main/java/eluvio/lmdb/map/LMDBBlockingDeque.java:79-84 | a long below every stored key (the starting key when empty); AssertionError exactly when the least key is Long.MIN_VALUE |
| Deques.BlockingDeque.NextTailKey | src/main/java/eluvio/lmdb/map/LMDBBlockingDeque.java:93-98 | a long above every stored key (the starting key when empty); AssertionError exactly when the greatest key is Long.MAX_VALUE |
| Deques.BlockingDeque.MapAddFirst | src/main/java/eluvio/lmdb/map/LMDBBlockingDeque.java:158-173 | a null element gives its write permit back and throws NullPointerException; otherwise the element goes in front under the next head key and a read permit is released |
| Deques.BlockingDeque.MapAddLast | src/main/java/eluvio/lmdb/map/LMDBBlockingDeque.java:179-194 | as mapAddFirst, at the tail under the next tail key |
| Deques.BlockingDeque.MapTakeFirst | src/main/java/eluvio/lmdb/map/LMDBBlockingDeque.java:204-209 | holding a read permit: removes and answers the head, releasing a write permit |
| Deques.BlockingDeque.MapTakeLast | src/main/java/eluvio/lmdb/map/LMDBBlockingDeque.java:215-220 | holding a read permit: removes and answers the tail, releasing a write permit |
| Deques.BlockingDeque.OfferFirst | src/main/java/eluvio/lmdb/map/LMDBBlockingDeque.java:243-247 | false when full, NullPointerException for null, otherwise the element becomes the head; the permits stay accounted |
| Deques.BlockingDeque.OfferLast | src/main/java/eluvio/lmdb/map/LMDBBlockingDeque.java:250-254 | false when full, NullPointerException for null, otherwise the element becomes the tail |
| Deques.BlockingDeque.AddFirst | src/main/java/eluvio/lmdb/map/LMDBBlockingDeque.java:233-235 | as offerFirst: IllegalStateException when full, NullPointerException for null, AssertionError with the store unchanged when the head keys run out, otherwise the element becomes the head (push as well, src/main/java/eluvio/lmdb/map/LMDBBlockingDeque.java:298-300) |
| Deques.BlockingDeque.AddLast | src/main/java/eluvio/lmdb/map/LMDBBlockingDeque.java:238-240 | as offerLast: IllegalStateException when full, NullPointerException for null, AssertionError with the store unchanged when the tail keys run out, otherwise the element becomes the tail (add and offer as well, src/main/java/eluvio/lmdb/map/LMDBBlockingDeque.java:227-230) |
| Deques.BlockingDeque.PollFirst | src/main/java/eluvio/lmdb/map/LMDBBlockingDeque.java:316-319 | the head, removed, or null exactly when empty (poll as well, src/main/java/eluvio/lmdb/map/LMDBBlockingDeque.java:306-308) |
| Deques.BlockingDeque.PollLast | src/main/java/eluvio/lmdb/map/LMDBBlockingDeque.java:328-331 | the tail, removed, or null exactly when empty |
| Deques.BlockingDeque.RemoveFirst | src/main/java/eluvio/lmdb/map/LMDBBlockingDeque.java:350-354 | the head, removed; NoSuchElementException exactly when empty (pop and remove as well, src/main/java/eluvio/lmdb/map/LMDBBlockingDeque.java:340-347) |
| Deques.BlockingDeque.RemoveLast | src/main/java/eluvio/lmdb/map/LMDBBlockingDeque.java:357-361 | the tail, removed; NoSuchElementException exactly when empty |
| Deques.BlockingDeque.PeekFirst | src/main/java/eluvio/lmdb/map/LMDBBlockingDeque.java:409-412 | the head, null exactly when empty (peek as well, src/main/java/eluvio/lmdb/map/LMDBBlockingDeque.java:390-392) |
| Deques.BlockingDeque.PeekLast | src/main/java/eluvio/lmdb/map/LMDBBlockingDeque.java:415-418 | the tail, null exactly when empty |
| Deques.BlockingDeque.GetFirst | src/main/java/eluvio/lmdb/map/LMDBBlockingDeque.java:395-399 | the head; NoSuchElementException exactly when empty (element as well, src/main/java/eluvio/lmdb/map/LMDBBlockingDeque.java:385-387) |
| Deques.BlockingDeque.GetLast | src/main/java/eluvio/lmdb/map/LMDBBlockingDeque.java:402-406 | the tail; NoSuchElementException exactly when empty |
| Deques.BlockingDeque.Contains | src/main/java/eluvio/lmdb/map/LMDBBlockingDeque.java:426-428 | true exactly when o is an element |
| Deques.BlockingDeque.ContainsAll | src/main/java/eluvio/lmdb/map/LMDBBlockingDeque.java:431-433 | true exactly when every given value is an element |
| Deques.BlockingDeque.RemainingCapacity | src/main/java/eluvio/lmdb/map/LMDBBlockingDeque.java:436-440 | Integer.MAX_VALUE when unbounded, otherwise capacity minus size, which is the write permits; positive exactly when one more fits |
| Deques.BlockingDeque.Size | src/main/java/eluvio/lmdb/map/LMDBBlockingDeque.java:565-567 | the element count when it fits an int, otherwise a RuntimeException |
| Deques.BlockingDeque.IsEmpty | src/main/java/eluvio/lmdb/map/LMDBBlockingDeque.java:570-572 | true exactly when there is no element, failing where size fails |
| Deques.BlockingDeque.ToArray | src/main/java/eluvio/lmdb/map/LMDBBlockingDeque.java:580-582 | a fresh array of the elements, head first |
| Deques.BlockingDeque.RemoveAll | src/main/java/eluvio/lmdb/map/LMDBBlockingDeque.java:510-512 | always UnsupportedOperationException |
| Deques.BlockingDeque.RetainAll | src/main/java/eluvio/lmdb/map/LMDBBlockingDeque.java:515-517 | always UnsupportedOperationException |
| Deques.BlockingDeque.RemoveFirstOccurrence | src/main/java/eluvio/lmdb/map/LMDBBlockingDeque.java:443-467 | true exactly when o is an element; then exactly its first occurrence goes, otherwise nothing changes |
| Deques.BlockingDeque.DeleteAt | src/main/java/eluvio/lmdb/map/LMDBBlockingDeque.java:455-458 | holding a read permit: deletes the element at the index and releases a write permit |
| Deques.BlockingDeque.RemoveLastOccurrence | src/main/java/eluvio/lmdb/map/LMDBBlockingDeque.java:470-489 | true exactly when o is an element; then exactly its last occurrence goes, otherwise nothing changes |
| Deques.BlockingDeque.Clear | src/main/java/eluvio/lmdb/map/LMDBBlockingDeque.java:520-524 | no element is left and the permits stay accounted |
| Deques.BlockingDeque.AddAll | src/main/java/eluvio/lmdb/map/LMDBBlockingDeque.java:492-507 | as written: IllegalStateException for a collection of Integer.MAX_VALUE or more, false when the elements do not all fit, otherwise the present elements in front in reverse order; a null stops it with NullPointerException |
| Deques.BlockingDeque.AddAllRound | src/main/java/eluvio/lmdb/map/LMDBBlockingDeque.java:502-504 | one round of addAll as written: mapAddFirst of the next element, keeping the added prefix reversed in front |
| Deques.BlockingDeque.AddAllFixed | src/main/java/eluvio/lmdb/map/LMDBBlockingDeque.java:492-507 | corrected: the elements go to the tail in order, and a null gives back the permits of itself and every later element |
| Deques.BlockingDeque.AddAllFixedRound | src/main/java/eluvio/lmdb/map/LMDBBlockingDeque.java:502-504 | one round of the corrected addAll: mapAddLast of the next element, keeping the added prefix in order at the tail |
| Deques.BlockingDeque.PollLastDraining | src/main/java/eluvio/lmdb/map/LMDBBlockingDeque.java:543-546 | one round of drainTo: takes the tail while any element is left |
| Deques.BlockingDeque.DrainTo | src/main/java/eluvio/lmdb/map/LMDBBlockingDeque.java:539-549 | as written: every element moves out, tail first, and the count is the old size |
| Deques.BlockingDeque.DrainToMax | src/main/java/eluvio/lmdb/map/LMDBBlockingDeque.java:552-562 | as written: min(max, size) elements (none when max <= 0) move out from the tail, tail first; the rest stay |
| Deques.BlockingDeque.DrainToFixed | src/main/java/eluvio/lmdb/map/LMDBBlockingDeque.java:539-549 | corrected: every element moves out head first, as poll() gives them |
| Deques.BlockingDeque.DrainToMaxFixed | src/main/java/eluvio/lmdb/map/LMDBBlockingDeque.java:552-562 | corrected: the first min(max, size) elements move out head first; the rest stay |
| Deques.AddedAtHeadStep | src/main/java/eluvio/lmdb/map/LMDBBlockingDeque.java:502-504 | one more head insert extends the reversed prefix in front by the next element |
| Deques.AddedAtTailStep | src/main/java/eluvio/lmdb/map/LMDBBlockingDeque.java:502-504 | one more tail insert extends the in-order prefix at the tail by the next element |
| Deques.IndexOfFirst | src/main/java/eluvio/lmdb/map/LMDBBlockingDeque.java:448-467 | the index of the first element equal to o, the length exactly when there is none |
| Deques.IndexOfLast | src/main/java/eluvio/lmdb/map/LMDBBlockingDeque.java:470-489 | the index of the last element equal to o, the length exactly when there is none |
| Deques.DrainedFromTailStep | src/main/java/eluvio/lmdb/map/LMDBBlockingDeque.java:543-546 | taking the tail extends what was drained by it |
| Deques.DrainedTail | src/main/java/eluvio/lmdb/map/LMDBBlockingDeque.java:539-549 | taking the element before an already reversed tail extends the reversal by one |
| Deques.PresentSnoc | src/main/java/eluvio/lmdb/map/LMDBBlockingDeque.java:492-507 | one more present element of the collection adds it at the end of the present ones (at the front of their reversal) |
| Deques.NewDeque | src/main/java/eluvio/lmdb/map/LMDBBlockingDeque.java:63-70 | as written: IllegalArgumentException exactly for unsigned long keys or a capacity other than -1 or positive; no read permit and capacity write permits, so the permits are consistent exactly when the map is empty |
| Deques.NewDequeFixed | src/main/java/eluvio/lmdb/map/LMDBBlockingDeque.java:63-70 | corrected: the permits start from what is stored, and a bounded map already over capacity is refused |
| Deques.OrdersLongs | src/main/java/eluvio/lmdb/map/LMDBBlockingDeque.java:63-70 | the comparator check passes exactly for the signed Long serializer |
| Deques.KeyOrderCheck | src/main/java/eluvio/lmdb/map/LMDBBlockingDeque.java:63-70 | under MDB_INTEGERKEY, Long.MIN_VALUE compares at or above Long.MAX_VALUE exactly for UnsignedLong |
| Deques.UnsignedKeysRejectedScenario | src/test/java/eluvio/lmdb/map/TestLMDBBlockingDeque.java:28-34 | a deque over an unsigned-long keyed map is refused with IllegalArgumentException |
| Deques.UnboundedEmptyScenario | src/test/java/eluvio/lmdb/map/TestLMDBBlockingDeque.java:37-50 | an empty unbounded deque: removeFirst fails, pollLast and peekFirst give null, size 0, remaining capacity Integer.MAX_VALUE |
| Deques.UnboundedBasicsScenario | src/test/java/eluvio/lmdb/map/TestLMDBBlockingDeque.java:37-94 | addFirst(1), addLast(2): head 1, tail 2, size 2 |
| Deques.UnboundedRemoveScenario | src/test/java/eluvio/lmdb/map/TestLMDBBlockingDeque.java:37-94 | holding 1 then 2, removeFirst answers 1, which is then not contained, leaving [2] |
| Deques.BoundedBasicsScenario | src/test/java/eluvio/lmdb/map/TestLMDBBlockingDeque.java:97-126 | capacity 1: room 1 then 0, add fails with IllegalStateException, offer gives false, removal frees the slot |
| Deques.DrainToTakesTailScenario | src/main/java/eluvio/lmdb/map/LMDBBlockingDeque.java:552-562 | after add(1), add(2), drainTo(c, 1) moves 2 and leaves [1] |
| Deques.DrainToFixedScenario | src/main/java/eluvio/lmdb/map/LMDBBlockingDeque.java:552-562 | the corrected drainTo(c, 1) moves 1 and leaves [2] |
| Deques.AddAllReversesScenario | src/main/java/eluvio/lmdb/map/LMDBBlockingDeque.java:492-507 | addAll([1, 2]) on an empty deque leaves [2, 1] |
| Deques.AddAllFixedScenario | src/main/java/eluvio/lmdb/map/LMDBBlockingDeque.java:492-507 | the corrected addAll([1, 2]) leaves [1, 2] |
| Deques.AddAllLeaksPermitScenario | src/main/java/eluvio/lmdb/map/LMDBBlockingDeque.java:492-507 | addAll([1, null, 2]) at capacity 3 throws NullPointerException holding [1] with a single write permit left, so two more no longer fit |
| Deques.AddAllReleasesPermitsScenario | src/main/java/eluvio/lmdb/map/LMDBBlockingDeque.java:492-507 | the corrected addAll([1, null, 2]) throws holding [1] with two slots free |
| Deques.ReopenedDequeScenario | src/main/java/eluvio/lmdb/map/LMDBBlockingDeque.java:63-70 | over a map already holding 7, the new deque has no read permit, so nothing can be taken |
| Deques.ReopenedDequeFixedScenario | src/main/java/eluvio/lmdb/map/LMDBBlockingDeque.java:63-70 | the corrected constructor counts the stored element: pollFirst answers 7 |

## Left out

- Foreign calls into LMDB (JNR-FFI), library loading and file I/O: the store is the abstract sorted sequence in `Store`. Its return codes are method parameters where the code branches on them (`Api.Txn.Begin`, `Environment.Env.Open`).
- Thread identity (`threadCheck`), the `ThreadLocal` transaction slot and buffer caches, and the process-wide open-transaction lock: these are concurrency, and a single thread is assumed.
- Each cursor holds its own snapshot of the store. Sharing one database between several cursors of a transaction is not modelled, because every operation opens and closes its own transaction and cursor.
- The blocking and timed deque paths (`put*`, `take*`, timed `offer`/`poll`), semaphore fairness, `iterator()`, `descendingIterator()`, `toArray(T[])`, `equals` and `hashCode`: these are suspension, interruption or plain delegation, and only the try-acquire paths are modelled.
- Deques.BlockingDeque.AddAll: the state after head keys run out part-way is stated only as well-formed, because the keys never run out below 2^63 elements.
- Deques.BlockingDeque.DrainTo: the `int` count is not wrapped at 2^31, because draining that many elements needs as many stored pairs.
- Deques.BlockingDeque.RemoveFirstOccurrence: the walk over the values is a loop over the element sequence rather than through an iterator object; the deletion is the same.
- The `String` serializer and UTF-8 are Java library behaviour. `ByteBuffer` byte order is fixed little-endian (the native order of the usual platforms). An overflowing `ByteBuffer.put` is excluded by the callers' own room checks.
- The `ByteBuffer` overloads of navigation elsewhere than `LMDBMultiSetReversed`: they are the same operations as the typed ones on serialized keys.
- The iterators of views and reversed views: a view's iterator is its cursor adapter filtered to the range, and those adapters are modelled as `MapViews.ViewCursor` and `Reversed.ReversedCursor`.
- Iteration.DrainKeys: only the forward key walk is proved to yield each key once; the backward walk mirrors it.
- `LMDBMultiSetInternal.readOnly` and its `beginTxn`/`commitTxn`/`abortTxn`/`with*Txn` forwarding: they hand the call to the environment unchanged, and the environment's transaction handling is `Reusable.ReusableTxn`.
- Api.Txn.Begin: the map-size refresh on MDB_MAP_RESIZED is modelled through its return codes (`resizeRc`, `retryRc`) rather than the size LMDB reports.
- The reversed map's `append` is a plain put that always answers true, mirroring the map's own `prepend`; it is modelled as written.
- The one-argument `headMap(k)` of the reversed map keeps k and its `tailMap(k)` drops k, the opposite of `NavigableMap`'s defaults. The tests expect this, so it is modelled as written (`Reversed.HeadMapDefault`, `Reversed.TailMapDefault`) and not reported as a finding. The reversed multiset's one-argument `headSet(t)` keeps t and its `tailSet(f)` drops f in the same way (src/main/java/eluvio/lmdb/map/LMDBMultiSetReversed.java:122-123 and 212-213); these are modelled as written too (`MultiSetsReversed.HeadSetDefaultAsWritten`, `MultiSetsReversed.TailSetDefault`).
- The remaining files of the repository (the standalone maps and deque, the proxy, the environment templates, the interfaces, `DB.java`, the benchmark) are plumbing or declarations and are not part of this model.

## Findings

| source | as written | input that shows it | evidently intended | confidence | as-written member | corrected member |
|---|---|---|---|---|---|---|
| src/main/java/eluvio/lmdb/api/Cursor.java:218-222 | `floor(k)` starts from `ceiling(k)` and answers null when no key is at least k; the map's `floorEntry`, the view cursor's `last()` under an inclusive bound, the view's `floorEntry` and the reversed map's `ceilingEntry` and the key set's `floor` inherit the null | the single pair (1, 0): `floor(5)`, the map's `floorEntry(5)` and the reversed map's `ceilingEntry(5)` are null | the pair with the greatest key at most k, here (1, 0) | not executed | Api.Cursor.Floor, Api.FloorScenario, Maps.MapImpl.FloorEntry, Maps.FloorEntryScenario, MapViews.ViewCursor.TowardTo, MapViews.MapView.FloorEntry, Reversed.MapReversed.CeilingEntry, Reversed.ReversedCeilingScenario, Collections.KeySet.Floor | Api.Cursor.FloorFixed, Maps.MapImpl.FloorEntryFixed, MapViews.ViewCursor.TowardToFixed, MapViews.MapView.FloorEntryFixed, Reversed.MapReversed.CeilingEntryFixed, Collections.KeySet.FloorFixed |
| src/main/java/eluvio/lmdb/api/Cursor.java:231-235 | `lower(k)` goes through `floor(k)` and inherits its null, and so do the map's `lowerEntry`, the view cursor's `last()` and `lastKey()` under an exclusive bound, the view's `lowerEntry`, `lastEntry` and `pollLastEntry`, the reversed map's `higherEntry` and the key set's `lower` | the single pair (1, 0): `lower(5)` and the key set's `lower(5)` are null; over {5}, the head view below 10 answers `lastEntry()` with null and `pollLastEntry()` removes nothing | the pair with the greatest key below k, here (1, 0); and 5 for the view | not executed | Api.Cursor.Lower, Maps.MapImpl.LowerEntry, MapViews.ViewCursor.LastKey, MapViews.MapView.LowerEntry, MapViews.MapView.LastEntry, MapViews.MapView.PollLastEntry, MapViews.LastBelowBoundScenario, MapViews.PollLastBelowBoundScenario, Reversed.MapReversed.HigherEntry, Collections.KeySet.Lower, Collections.LowerKeyScenario | Api.Cursor.LowerFixed, Maps.MapImpl.LowerEntryFixed, MapViews.ViewCursor.LastKeyFixed, MapViews.MapView.LowerEntryFixed, MapViews.MapView.LastEntryFixed, MapViews.MapView.PollLastEntryFixed, Reversed.MapReversed.HigherEntryFixed, Collections.KeySet.LowerFixed |
| src/main/java/eluvio/lmdb/api/Cursor.java:355-357 | the two-argument `put` calls itself | any `put(key, data)` ends in StackOverflowError | `put(key, data, 0)` | not executed | Api.Cursor.PutRecursive | Api.Cursor.PutDefault |
| src/main/java/eluvio/lmdb/api/Cursor.java:458-474 | `renew` rebinds the cursor to the new transaction but leaves it registered with the old one | renew a cursor onto a second read-only transaction, then close it: IllegalStateException (missing cursor) | the registration moves with the cursor, and close succeeds | not executed | Api.Cursor.Renew, Api.RenewThenCloseScenario | Api.Cursor.RenewFixed, Api.RenewFixedThenCloseScenario |
| src/main/java/eluvio/lmdb/map/ReusableTxn.java:108-111 | `beginTxn` refuses whenever the slot holds a read-only transaction, even one that was reset | a read-only use that has ended, then `beginTxn(false)` | refuse only while a read-only transaction is OPEN | not executed | Reusable.ReusableTxn.BeginTxn, Reusable.BeginAfterResetScenario | Reusable.ReusableTxn.BeginTxnFixed |
| src/main/java/eluvio/lmdb/map/LMDBMapImpl.java:1132-1135 | `prepend` is a plain put and always answers true; the view's `prepend` forwards to it | prepend(5, 0) on a map holding key 1 stores the pair after 1 and answers true | the interface (src/main/java/eluvio/lmdb/map/LMDBMap.java:122-126) allows an unoptimised `prepend` to be a plain `putNoPrev`, so the put itself is as documented; but the result should be true only when the key was new and below every other key (src/main/java/eluvio/lmdb/map/LMDBMap.java:130), here false | not executed | Maps.MapImpl.Prepend, Maps.PrependScenario, MapViews.MapView.Prepend | Maps.MapImpl.PrependFixed, MapViews.MapView.PrependFixed |
| src/main/java/eluvio/lmdb/map/LMDBMapView.java:522-526 | `isEmpty` answers `hasNext()` | a view holding one pair answers true | true exactly when the view holds no pair | not executed | MapViews.MapView.IsEmpty, MapViews.IsEmptyScenario | MapViews.MapView.IsEmptyFixed |
| src/main/java/eluvio/lmdb/map/LMDBMapView.java:429-434 | with no lower bound, the first entry (and the key count, value count and containsValue walks that start from it) is not range-checked | over {20}, the empty view below 10 answers first entry 20 and one key | null and zero keys | not executed | MapViews.MapView.FirstEntry, MapViews.MapView.KeyCount, MapViews.MapView.ValueCount, MapViews.MapView.ContainsValue, MapViews.HeadViewOverreachScenario | MapViews.MapView.FirstEntryFixed, MapViews.MapView.KeyCountFixed, MapViews.MapView.ValueCountFixed, MapViews.MapView.ContainsValueFixed |
| src/main/java/eluvio/lmdb/map/LMDBMapView.java:553-558 | with no upper bound, the last entry is not range-checked | over {5}, the empty view from 10 upward answers last entry 5 | null | not executed | MapViews.MapView.LastEntry | MapViews.MapView.LastEntryFixed |
| src/main/java/eluvio/lmdb/map/LMDBMapView.java:445-459 | `floorEntry` clamps a key below the view up to the lower bound | over {5}, the view [5, 10] answers `floorEntry(3)` with 5 | null: no key of the view is at most 3 | not executed | MapViews.MapView.FloorEntry, MapViews.FloorBelowViewScenario | MapViews.MapView.FloorEntryFixed |
| src/main/java/eluvio/lmdb/map/LMDBMapView.java:569-574 | `lowerEntry` clamps a key above the view down to the upper bound, then skips an inclusive bound key | over {10}, the view [5, 10] answers `lowerEntry(15)` with null | the greatest key of the view below 15, here 10 | not executed | MapViews.MapView.LowerEntry, MapViews.LowerAboveViewScenario | MapViews.MapView.LowerEntryFixed |
| src/main/java/eluvio/lmdb/map/LMDBMapView.java:508-513 | `higherEntry` clamps a key below the view to the lower bound, then skips an inclusive bound key | over {5}, the view [5, 10] answers `higherEntry(3)` with null | the least key of the view above 3, here 5 | not executed | MapViews.MapView.HigherEntry, MapViews.HigherBelowViewScenario | MapViews.MapView.HigherEntryFixed |
| src/main/java/eluvio/lmdb/map/LMDBMapView.java:272-286 | `ceilingEntry` clamps a key above the view to the upper bound | over {10}, the view up to 10 answers `ceilingEntry(15)` with 10 | null: no key of the view is at least 15 | not executed | MapViews.MapView.CeilingEntry, MapViews.CeilingAboveViewScenario | MapViews.MapView.CeilingEntryFixed |
| src/main/java/eluvio/lmdb/map/LMDBMapView.java:99-104 | the view cursor's `last()` under an upper bound dereferences a null entry on a duplicate database whenever nothing of the store is under the bound or no stored key is at least the bound; on other databases it answers null in those cases | over the duplicate map {20}, `last()` of the view below 10 throws NullPointerException; over the duplicate map {5}, the same call throws too, though 5 is in the view | null for {20}, the pair of 5 for {5} | not executed | MapViews.ViewCursor.Last, MapViews.ViewCursor.LastBelowTo, MapViews.LastOnDupScenario, MapViews.LastBelowBoundOnDupScenario | MapViews.ViewCursor.LastFixed, MapViews.ViewCursor.LastCheckedBelowTo |
| src/main/java/eluvio/lmdb/map/LMDBMapView.java:748-750 | `tailMap` of a view open above turns the missing upper bound into the view's lower one (`adjustKey(null)` gives `fromKey`), so the order check fails | `tailMap(7)` of the view from 5 upward throws | the view from 7 upward | not executed | ViewBounds.TailMap, ViewBounds.TailOfTailViewFails | ViewBounds.TailMapFixed |
| src/main/java/eluvio/lmdb/map/LMDBMapView.java:732-735 | `subMap` ANDs the new inclusive flags with the view's, even for a bound strictly inside the view | on the view (0, 10) exclusive, `subMap(5, true, 8, false)` drops key 5 | keep 5, which both the view and the request admit | not executed | ViewBounds.SubMap, ViewBounds.SubMapDropsInteriorInclusive | ViewBounds.SubMapFixed |
| src/main/java/eluvio/lmdb/map/LMDBMultiSetView.java:98-111 | value navigation clamps a value outside the view to its bound | over {10}, the head set up to 10 answers `ceiling(15)` with 10; over {5}, the view [5, 10] answers `higher(3)` with null | null, and 5 | not executed | MultiSetViews.MultiSetView.Ceiling, MultiSetViews.MultiSetView.Higher, MultiSetViews.CeilingAboveViewScenario, MultiSetViews.HigherBelowViewScenario | MultiSetViews.MultiSetView.CeilingFixed, MultiSetViews.MultiSetView.HigherFixed |
| src/main/java/eluvio/lmdb/map/LMDBMultiSetView.java:196-209 | `floor` clamps a value below the view up to the lower bound | over {5}, the view [5, 10] answers `floor(3)` with 5 | null | not executed | MultiSetViews.MultiSetView.Floor, MultiSetViews.FloorBelowViewScenario | MultiSetViews.MultiSetView.FloorFixed |
| src/main/java/eluvio/lmdb/map/LMDBMultiSetView.java:314-318 | `lower` clamps a value above the view down to the upper bound, then skips an inclusive bound value | over {10}, the view [5, 10] answers `lower(15)` with null | 10 | not executed | MultiSetViews.MultiSetView.Lower, MultiSetViews.LowerAboveViewScenario | MultiSetViews.MultiSetView.LowerFixed |
| src/main/java/eluvio/lmdb/map/LMDBMultiSetView.java:183-188 | with no lower bound, `first` (and `size`, `isEmpty` built on it) is not range-checked | over {20}, the empty head set below 10 answers first 20, size 1, isEmpty false | null, 0, true | not executed | MultiSetViews.MultiSetView.First, MultiSetViews.MultiSetView.Size, MultiSetViews.MultiSetView.IsEmpty, MultiSetViews.HeadSetOverreachScenario | MultiSetViews.MultiSetView.FirstFixed, MultiSetViews.MultiSetView.SizeFixed, MultiSetViews.MultiSetView.IsEmptyFixed |
| src/main/java/eluvio/lmdb/map/LMDBMultiSetView.java:414-416 | `tailSet` of a view open above takes the view's lower bound as the new upper one | `tailSet(7)` of the tail set from 5 admits nothing, though 8 is above both | the values from 7 upward | not executed | MultiSetViews.TailSetOfView, MultiSetViews.TailOfTailSetEmpty | ViewBounds.TailMapFixed |
| src/main/java/eluvio/lmdb/map/LMDBMultiSetView.java:227-229 | `headSet` ANDs the inclusive flag with the view's | `headSet(5, true)` of the view below 10 exclusive drops 5 | keep 5 | not executed | MultiSetViews.HeadSetOfView, MultiSetViews.HeadSetDropsInteriorInclusive | ViewBounds.SubMapFixed |
| src/main/java/eluvio/lmdb/map/LMDBMultiSetReversed.java:42-44 | the ByteBuffer `ceiling` and `floor` (and `higher` and `lower`, 132-134 and 162-164) call each other on the same object | any `ceiling(buf)` ends in StackOverflowError | the wrapped set's `floor(buf)` | not executed | MultiSetsReversed.MultiSetReversed.CeilingBufAsWritten, MultiSetsReversed.MultiSetReversed.FloorBufAsWritten, MultiSetsReversed.MultiSetReversed.HigherBufAsWritten, MultiSetsReversed.MultiSetReversed.LowerBufAsWritten | MultiSetsReversed.MultiSetReversed.Ceiling, MultiSetsReversed.MultiSetReversed.Floor, MultiSetsReversed.MultiSetReversed.Higher, MultiSetsReversed.MultiSetReversed.Lower |
| src/main/java/eluvio/lmdb/map/LMDBMultiSetReversed.java:127-129 | `headSet` returns the wrapped `tailSet` without reversing it | over {3, 4}, the reversed `headSet(2)` iterates from 3 | iterate descending from 4, like every other range of the reversed set | not executed | MultiSetsReversed.HeadSetAsWritten, MultiSetsReversed.HeadSetNotReversed | MultiSetsReversed.HeadSetFixed |
| src/main/java/eluvio/lmdb/map/LMDBIteratorImpl.java:91-97 | `remove()` deletes at the cursor, which `hasNext()` may already have moved to the next pair | over {1, 2}: `next()`, `hasNext()`, `remove()` deletes 2 | delete 1, the pair `next()` returned | not executed | Iteration.RemoveAhead, Iteration.RemoveAfterHasNextScenario | Iteration.RemoveAheadFixed, Iteration.RemoveFixedAfterHasNextScenario |
| src/main/java/eluvio/lmdb/map/LMDBKeySet.java:121-128 | `pollFirst`/`pollLast` remove only the first/last pair | over the duplicate map 1 -> 0, 1 -> 1, `pollFirst()` answers 1 and 1 stays a key | the key leaves the key set | not executed | Collections.KeySet.PollFirst, Collections.KeySet.PollLast, Collections.PollFirstKeepsKeyScenario | Collections.KeySet.PollFirstFixed, Collections.KeySet.PollLastFixed, Collections.PollFirstFixedScenario |
| src/main/java/eluvio/lmdb/map/LMDBBlockingDeque.java:539-562 | `drainTo` takes each element from the tail | after add(1), add(2), `drainTo(c, 1)` moves 2 | the head first, as `poll()` gives them: 1 | not executed | Deques.BlockingDeque.DrainTo, Deques.BlockingDeque.DrainToMax, Deques.DrainToTakesTailScenario | Deques.BlockingDeque.DrainToFixed, Deques.BlockingDeque.DrainToMaxFixed, Deques.DrainToFixedScenario |
| src/main/java/eluvio/lmdb/map/LMDBBlockingDeque.java:492-507 | `addAll` inserts each element at the head | `addAll([1, 2])` on an empty deque leaves [2, 1] | append in order: [1, 2] | not executed | Deques.BlockingDeque.AddAll, Deques.AddAllReversesScenario | Deques.BlockingDeque.AddAllFixed, Deques.AddAllFixedScenario |
| src/main/java/eluvio/lmdb/map/LMDBBlockingDeque.java:492-507 | a null element stops `addAll` holding the write permits of the elements not yet added | `addAll([1, null, 2])` at capacity 3 leaves [1] with one free slot | every unused permit goes back: two free slots | not executed | Deques.BlockingDeque.AddAll, Deques.AddAllLeaksPermitScenario | Deques.BlockingDeque.AddAllFixed, Deques.AddAllReleasesPermitsScenario |
| src/main/java/eluvio/lmdb/map/LMDBBlockingDeque.java:63-70 | the constructor starts the permits as for an empty map | over a map already holding 7, `pollFirst()` finds no read permit | the permits count what is stored: `pollFirst()` answers 7 | not executed | Deques.NewDeque, Deques.ReopenedDequeScenario | Deques.NewDequeFixed, Deques.ReopenedDequeFixedScenario |
