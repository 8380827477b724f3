// eluvio.lmdb.api.Env: the environment handle and its INIT/OPEN/CLOSED guard.
// The native calls' return codes are parameters; the number of live readers
// (what `info()` reports) is a parameter too.

module Environment {
  import opened Common
  import ApiErrors

  datatype EnvState = INIT | OPEN | CLOSED

  class Env {
    var state: EnvState
    var mapSize: int
    var maxReaders: int
    var maxDbs: int

    /** A freshly created handle: not yet opened. */
    constructor ()
      ensures state == INIT
    {
      state := INIT;
    }

    /**
     * `setMapSize`: refused on a closed environment, and on an open one
     * while read transactions are live; otherwise the native result decides.
     */
    method SetMapSize(size: int, numReaders: nat, rc: int) returns (r: Outcome<()>)
      modifies this
      ensures state == old(state)
      ensures old(state) == CLOSED ==> r == Fail(Runtime)
      ensures old(state) == OPEN && numReaders > 0 ==> r == Fail(Runtime)
      ensures old(state) == INIT || (old(state) == OPEN && numReaders == 0) ==> r == ApiErrors.CheckError(rc)
      ensures mapSize == if r.Ok? then size else old(mapSize)
      ensures maxReaders == old(maxReaders) && maxDbs == old(maxDbs)
    {
      if state == CLOSED { return Fail(Runtime); }
      if state == OPEN && numReaders > 0 { return Fail(Runtime); }
      r := ApiErrors.CheckError(rc);
      if r.Ok? { mapSize := size; }
    }

    /** `setMaxReaders`: only before the environment is opened. */
    method SetMaxReaders(readers: int, rc: int) returns (r: Outcome<()>)
      modifies this
      ensures state == old(state) && mapSize == old(mapSize) && maxDbs == old(maxDbs)
      ensures old(state) != INIT ==> r == Fail(Runtime)
      ensures old(state) == INIT ==> r == ApiErrors.CheckError(rc)
      ensures maxReaders == if r.Ok? then readers else old(maxReaders)
    {
      if state != INIT { return Fail(Runtime); }
      r := ApiErrors.CheckError(rc);
      if r.Ok? { maxReaders := readers; }
    }

    /** `setMaxDBs`: only before the environment is opened. */
    method SetMaxDbs(dbs: int, rc: int) returns (r: Outcome<()>)
      modifies this
      ensures state == old(state) && mapSize == old(mapSize) && maxReaders == old(maxReaders)
      ensures old(state) != INIT ==> r == Fail(Runtime)
      ensures old(state) == INIT ==> r == ApiErrors.CheckError(rc)
      ensures maxDbs == if r.Ok? then dbs else old(maxDbs)
    {
      if state != INIT { return Fail(Runtime); }
      r := ApiErrors.CheckError(rc);
      if r.Ok? { maxDbs := dbs; }
    }

    /**
     * `open`: only from INIT. A failing native open discards the handle
     * (the environment ends CLOSED) and the error is thrown.
     */
    method Open(rc: int) returns (r: Outcome<()>)
      modifies this
      ensures old(state) != INIT ==> r == Fail(Runtime) && state == old(state)
      ensures old(state) == INIT ==> r == ApiErrors.CheckError(rc)
      ensures old(state) == INIT ==> state == if rc == ApiErrors.MDB_SUCCESS then OPEN else CLOSED
      ensures mapSize == old(mapSize) && maxReaders == old(maxReaders) && maxDbs == old(maxDbs)
    {
      if state != INIT { return Fail(Runtime); }
      if rc != ApiErrors.MDB_SUCCESS { Close(); }
      r := ApiErrors.CheckError(rc);
      if r.Ok? { state := OPEN; }
    }

    /** `close`: idempotent; any other state ends CLOSED. */
    method Close()
      modifies this
      ensures state == CLOSED
      ensures mapSize == old(mapSize) && maxReaders == old(maxReaders) && maxDbs == old(maxDbs)
    {
      if state == CLOSED { return; }
      state := CLOSED;
    }
  }

  /** Once closed, an environment refuses every configuration call and cannot reopen. */
  method ClosedIsFinal(e: Env, size: int, rc: int) returns (r1: Outcome<()>, r2: Outcome<()>, r3: Outcome<()>)
    requires e.state == CLOSED
    modifies e
    ensures r1 == Fail(Runtime) && r2 == Fail(Runtime) && r3 == Fail(Runtime)
    ensures e.state == CLOSED
  {
    r1 := e.SetMapSize(size, 0, rc);
    r2 := e.SetMaxReaders(1, rc);
    r3 := e.Open(rc);
  }
}
