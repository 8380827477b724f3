// The table from LMDB return codes to the exception classes of
// eluvio.lmdb.api.LMDBException, and the `checkError` guard that every
// native call goes through.

module ApiErrors {
  import opened Common

  const MDB_SUCCESS: int := 0
  const MDB_KEYEXIST: int := -30799
  const MDB_NOTFOUND: int := -30798
  const MDB_PAGE_NOTFOUND: int := -30797
  const MDB_CORRUPTED: int := -30796
  const MDB_PANIC: int := -30795
  const MDB_VERSION_MISMATCH: int := -30794
  const MDB_INVALID: int := -30793
  const MDB_MAP_FULL: int := -30792
  const MDB_DBS_FULL: int := -30791
  const MDB_READERS_FULL: int := -30790
  const MDB_TLS_FULL: int := -30789
  const MDB_TXN_FULL: int := -30788
  const MDB_CURSOR_FULL: int := -30787
  const MDB_PAGE_FULL: int := -30786
  const MDB_MAP_RESIZED: int := -30785
  const MDB_INCOMPATIBLE: int := -30784
  const MDB_BAD_RSLOT: int := -30783
  const MDB_BAD_TXN: int := -30782
  const MDB_BAD_VALSIZE: int := -30781
  const MDB_BAD_DBI: int := -30780

  /** errno EINVAL, returned by the store for a cursor that is not positioned. */
  const EINVAL: int := 22

  /** The subclasses of LMDBException; `Generic` is LMDBException itself. */
  datatype ErrorKind =
    | KeyExists | NotFound | PageNotFound | Corrupted | Panic | VersionMismatch
    | Invalid | MapFull | DBSFull | ReadersFull | TLSFull | TxnFull | CursorFull
    | PageFull | MapResized | Incompatible | BadRSlot | BadTxn | BadValSize | BadDBI
    | Generic

  /** The code a dedicated exception class stands for. */
  function CodeOf(k: ErrorKind): (rc: int)
    requires !k.Generic?
    ensures MDB_KEYEXIST <= rc <= MDB_BAD_DBI
  {
    match k
    case KeyExists => MDB_KEYEXIST
    case NotFound => MDB_NOTFOUND
    case PageNotFound => MDB_PAGE_NOTFOUND
    case Corrupted => MDB_CORRUPTED
    case Panic => MDB_PANIC
    case VersionMismatch => MDB_VERSION_MISMATCH
    case Invalid => MDB_INVALID
    case MapFull => MDB_MAP_FULL
    case DBSFull => MDB_DBS_FULL
    case ReadersFull => MDB_READERS_FULL
    case TLSFull => MDB_TLS_FULL
    case TxnFull => MDB_TXN_FULL
    case CursorFull => MDB_CURSOR_FULL
    case PageFull => MDB_PAGE_FULL
    case MapResized => MDB_MAP_RESIZED
    case Incompatible => MDB_INCOMPATIBLE
    case BadRSlot => MDB_BAD_RSLOT
    case BadTxn => MDB_BAD_TXN
    case BadValSize => MDB_BAD_VALSIZE
    case BadDBI => MDB_BAD_DBI
  }

  /**
   * `toException`: the exception class for a non-zero code. A zero code is a
   * programming error and raises an AssertionError instead.
   */
  function ToException(rc: int): (r: Outcome<ErrorKind>)
    ensures r.Fail? <==> rc == MDB_SUCCESS
    ensures r.Fail? ==> r.error == AssertionFailed
    ensures r.Ok? && r.value.Generic? <==> rc != MDB_SUCCESS && !(MDB_KEYEXIST <= rc <= MDB_BAD_DBI)
  {
    if rc == MDB_SUCCESS then Fail(AssertionFailed)
    else if rc == MDB_KEYEXIST then Ok(KeyExists)
    else if rc == MDB_NOTFOUND then Ok(NotFound)
    else if rc == MDB_PAGE_NOTFOUND then Ok(PageNotFound)
    else if rc == MDB_CORRUPTED then Ok(Corrupted)
    else if rc == MDB_PANIC then Ok(Panic)
    else if rc == MDB_VERSION_MISMATCH then Ok(VersionMismatch)
    else if rc == MDB_INVALID then Ok(Invalid)
    else if rc == MDB_MAP_FULL then Ok(MapFull)
    else if rc == MDB_DBS_FULL then Ok(DBSFull)
    else if rc == MDB_READERS_FULL then Ok(ReadersFull)
    else if rc == MDB_TLS_FULL then Ok(TLSFull)
    else if rc == MDB_TXN_FULL then Ok(TxnFull)
    else if rc == MDB_CURSOR_FULL then Ok(CursorFull)
    else if rc == MDB_PAGE_FULL then Ok(PageFull)
    else if rc == MDB_MAP_RESIZED then Ok(MapResized)
    else if rc == MDB_INCOMPATIBLE then Ok(Incompatible)
    else if rc == MDB_BAD_RSLOT then Ok(BadRSlot)
    else if rc == MDB_BAD_TXN then Ok(BadTxn)
    else if rc == MDB_BAD_VALSIZE then Ok(BadValSize)
    else if rc == MDB_BAD_DBI then Ok(BadDBI)
    else Ok(Generic)
  }

  /** Every dedicated class is chosen for exactly its own code. */
  lemma ToExceptionRoundTrip(k: ErrorKind, rc: int)
    requires !k.Generic?
    ensures ToException(rc) == Ok(k) <==> rc == CodeOf(k)
  {
  }

  /** `checkError`: success passes, any other code throws LMDBException(rc). */
  function CheckError(rc: int): (r: Outcome<()>)
    ensures r.Ok? <==> rc == MDB_SUCCESS
    ensures r.Fail? ==> r.error == Lmdb(rc) && ToException(rc).Ok?
  {
    if rc == MDB_SUCCESS then Ok(()) else Fail(Lmdb(rc))
  }
}
