// eluvio.lmdb.map.ReusableTxn: the per-thread transaction slot. It hands out
// one of four handle objects, simulates nested read-only transactions with a
// depth counter and supports truly nested write transactions.
//
// The slot's chain of transactions (`txn`, `txn.parent`, ...) is a stack whose
// last element is `txn`; each transaction is seen through its kind and its
// lifecycle state, which change by the rules of `Txn.commit`/`abort`/`reset`/
// `renew` (see the `*Agrees` methods, which tie those rules to `Api.Txn`).
// Beginning a transaction is taken to succeed.

module Reusable {
  import opened Common
  import Api
  import ApiErrors

  /** A transaction as the slot sees it. */
  datatype TxnBox = TxnBox(readOnly: bool, state: Api.State)

  /** `Txn.commit`: only an OPEN transaction commits. */
  function CommitBox(t: TxnBox): (r: Outcome<TxnBox>)
    ensures r.Ok? <==> t.state == Api.OPEN
    ensures r.Ok? ==> r.value == TxnBox(t.readOnly, Api.CLOSED)
    ensures r.Fail? ==> r.error == Runtime
  {
    if t.state == Api.OPEN then Ok(t.(state := Api.CLOSED)) else Fail(Runtime)
  }

  /** `Txn.abort`: anything but a CLOSED transaction aborts. */
  function AbortBox(t: TxnBox): (r: Outcome<TxnBox>)
    ensures r.Ok? <==> t.state != Api.CLOSED
    ensures r.Ok? ==> r.value == TxnBox(t.readOnly, Api.CLOSED)
    ensures r.Fail? ==> r.error == Runtime
  {
    if t.state != Api.CLOSED then Ok(t.(state := Api.CLOSED)) else Fail(Runtime)
  }

  /** `Txn.reset`: an OPEN read-only transaction goes back to INIT. */
  function ResetBox(t: TxnBox): (r: Outcome<TxnBox>)
    ensures r.Ok? <==> t.state == Api.OPEN && t.readOnly
    ensures r.Ok? ==> r.value == TxnBox(true, Api.INIT)
    ensures r.Fail? ==> r.error == Runtime
  {
    if t.state == Api.OPEN && t.readOnly then Ok(t.(state := Api.INIT)) else Fail(Runtime)
  }

  /** `Txn.renew`: a reset read-only transaction opens again. */
  function RenewBox(t: TxnBox): (r: Outcome<TxnBox>)
    ensures r.Ok? <==> t.state == Api.INIT && t.readOnly
    ensures r.Ok? ==> r.value == TxnBox(true, Api.OPEN)
    ensures r.Fail? ==> r.error == Runtime
  {
    if t.state == Api.INIT && t.readOnly then Ok(t.(state := Api.OPEN)) else Fail(Runtime)
  }

  /** `Txn.commit` (with a successful native commit) moves the state as `CommitBox` says. */
  method CommitAgrees(t: Api.Txn) returns (r: Outcome<()>)
    requires t.Valid()
    modifies t, t.Registered()
    ensures var b := CommitBox(TxnBox(t.readOnly, old(t.state)));
            (r.Ok? <==> b.Ok?) && t.state == (if b.Ok? then b.value.state else old(t.state))
  {
    r := t.Commit(ApiErrors.MDB_SUCCESS);
  }

  /** `Txn.abort` moves the state as `AbortBox` says. */
  method AbortAgrees(t: Api.Txn) returns (r: Outcome<()>)
    requires t.Valid()
    modifies t, t.Registered()
    ensures var b := AbortBox(TxnBox(t.readOnly, old(t.state)));
            (r.Ok? <==> b.Ok?) && t.state == (if b.Ok? then b.value.state else old(t.state))
  {
    r := t.Abort();
  }

  /** `Txn.reset` moves the state as `ResetBox` says. */
  method ResetAgrees(t: Api.Txn) returns (r: Outcome<()>)
    requires t.Valid()
    modifies t, t.Registered()
    ensures var b := ResetBox(TxnBox(t.readOnly, old(t.state)));
            (r.Ok? <==> b.Ok?) && t.state == (if b.Ok? then b.value.state else old(t.state))
  {
    r := t.Reset();
  }

  /** `Txn.renew` moves the state as `RenewBox` says. */
  method RenewAgrees(t: Api.Txn) returns (r: Outcome<()>)
    modifies t
    ensures var b := RenewBox(TxnBox(t.readOnly, old(t.state)));
            (r.Ok? <==> b.Ok?) && t.state == (if b.Ok? then b.value.state else old(t.state))
  {
    r := t.Renew();
  }

  /** The four handle objects `withTxn` returns. */
  datatype Handle = ReadWriteHandle | ReadOnlyHandle | NopHandle | NonNestedHandle

  /** The flag bits of `withTxn`. */
  datatype Flags = Flags(readOnly: bool, allowNested: bool, requireExisting: bool, useExisting: bool)

  const WITH_EXISTING_READ_ONLY := Flags(true, false, true, false)
  const WITH_EXISTING_READ_WRITE := Flags(false, false, true, false)
  const WITH_EXISTING := Flags(false, false, false, true)
  const WITH_NESTED_READ_WRITE := Flags(false, true, false, false)
  const WITH_READ_ONLY := Flags(true, false, false, false)
  const WITH_READ_WRITE := Flags(false, false, false, false)

  /**
   * The slot's invariant: a read-only transaction is only ever alone in the
   * slot, never CLOSED there, and is OPEN exactly when the depth counter is
   * positive; with no read-only transaction the depth is 0; a write
   * transaction is never in INIT.
   */
  ghost predicate SlotOk(stack: seq<TxnBox>, depth: int) {
    && depth >= 0
    && (forall i :: 0 <= i < |stack| && stack[i].readOnly ==> |stack| == 1)
    && (forall i :: 0 <= i < |stack| && !stack[i].readOnly ==> stack[i].state != Api.INIT)
    && (|stack| == 1 && stack[0].readOnly ==> stack[0].state != Api.CLOSED && (stack[0].state == Api.OPEN <==> depth > 0))
    && (!(|stack| == 1 && stack[0].readOnly) ==> depth == 0)
  }

  class ReusableTxn {
    /** `txn` and its parent chain: `txn` is the last element. */
    var stack: seq<TxnBox>
    var readOnlyDepth: int

    ghost predicate Valid()
      reads this
    {
      SlotOk(stack, readOnlyDepth)
    }

    function Top(): (t: TxnBox)
      requires stack != []
      reads this
      ensures t in stack
    {
      stack[|stack| - 1]
    }

    /** A new slot holds no transaction. */
    constructor ()
      ensures stack == [] && readOnlyDepth == 0 && Valid()
    {
      stack, readOnlyDepth := [], 0;
    }

    /** Replaces `txn` by a new state of itself. */
    method SetTop(t: TxnBox)
      requires stack != []
      modifies this
      ensures stack == old(stack)[..|old(stack)| - 1] + [t] && readOnlyDepth == old(readOnlyDepth)
    {
      stack := stack[..|stack| - 1] + [t];
    }

    /** `withTxn(flags)`: the decision table. */
    method WithTxn(f: Flags) returns (r: Outcome<Handle>)
      requires f.useExisting ==> f == WITH_EXISTING
      modifies this
      ensures old(Valid()) ==> Valid()
      ensures old(stack) == [] && (f.requireExisting || f.useExisting) ==>
                r == Fail(IllegalState) && stack == [] && readOnlyDepth == old(readOnlyDepth)
      ensures old(stack) == [] && !(f.requireExisting || f.useExisting) ==>
                r == Ok(if f.readOnly then ReadOnlyHandle else ReadWriteHandle) &&
                stack == [TxnBox(f.readOnly, Api.OPEN)] && readOnlyDepth == (if f.readOnly then 1 else 0)
      ensures old(stack) != [] && f.useExisting ==>
                r == (if old(Top()).state == Api.OPEN then Ok(NopHandle) else Fail(IllegalState)) &&
                stack == old(stack) && readOnlyDepth == old(readOnlyDepth)
      ensures old(stack) != [] && !f.useExisting && f.readOnly && old(Top()).readOnly && f.requireExisting ==>
                r == (if old(Top()).state == Api.OPEN then Ok(NopHandle) else Fail(IllegalState)) &&
                stack == old(stack) && readOnlyDepth == old(readOnlyDepth)
      ensures old(stack) != [] && !f.useExisting && f.readOnly && old(Top()).readOnly && !f.requireExisting ==>
                r == Ok(ReadOnlyHandle) && readOnlyDepth == old(readOnlyDepth) + 1 &&
                stack == (if old(Top()).state == Api.INIT
                          then old(stack)[..|old(stack)| - 1] + [TxnBox(true, Api.OPEN)] else old(stack))
      ensures old(stack) != [] && !f.useExisting && f.readOnly && !old(Top()).readOnly ==>
                r == Ok(NopHandle) && stack == old(stack) && readOnlyDepth == old(readOnlyDepth)
      ensures old(stack) != [] && !f.useExisting && !f.readOnly && old(Top()).readOnly ==>
                r == (match old(Top()).state
                      case OPEN => Fail(IllegalState)
                      case INIT => Ok(ReadWriteHandle)
                      case CLOSED => Fail(Runtime)) &&
                stack == (if r.Ok? then [TxnBox(false, Api.OPEN)] else old(stack)) &&
                readOnlyDepth == old(readOnlyDepth)
      ensures old(stack) != [] && !f.useExisting && !f.readOnly && !old(Top()).readOnly ==>
                r == Ok(if f.allowNested then ReadWriteHandle else NonNestedHandle) &&
                stack == (if f.allowNested then old(stack) + [TxnBox(false, Api.OPEN)] else old(stack)) &&
                readOnlyDepth == old(readOnlyDepth)
    {
      if stack == [] {
        if f.requireExisting || f.useExisting { return Fail(IllegalState); }
        stack := [TxnBox(f.readOnly, Api.OPEN)];
        readOnlyDepth := if f.readOnly then 1 else 0;
        return Ok(if f.readOnly then ReadOnlyHandle else ReadWriteHandle);
      }
      var top := Top();
      if f.useExisting {
        if top.state != Api.OPEN { return Fail(IllegalState); }
        return Ok(NopHandle);
      }
      if f.readOnly {
        if top.readOnly {
          if f.requireExisting {
            if top.state != Api.OPEN { return Fail(IllegalState); }
            return Ok(NopHandle);
          }
          readOnlyDepth := readOnlyDepth + 1;
          if top.state == Api.INIT {
            var renewed := RenewBox(top);
            SetTop(renewed.value);
          }
          return Ok(ReadOnlyHandle);
        }
        return Ok(NopHandle);
      }
      if top.readOnly {
        if top.state == Api.OPEN { return Fail(IllegalState); }
        var aborted := AbortBox(top);
        if aborted.Fail? { return Fail(aborted.error); }
        stack := [TxnBox(false, Api.OPEN)];
        return Ok(ReadWriteHandle);
      }
      if f.allowNested {
        stack := stack + [TxnBox(false, Api.OPEN)];
        return Ok(ReadWriteHandle);
      }
      return Ok(NonNestedHandle);
    }

    /**
     * `close()` of a handle. ReadWrite: commit `txn` if OPEN, pop to its
     * parent, and restore a read-only transaction if the chain ran out while
     * the depth is positive. ReadOnly: decrement the depth and reset at 0.
     * Nop and NonNested: nothing.
     */
    method CloseHandle(h: Handle) returns (r: Outcome<()>)
      modifies this
      ensures h.NopHandle? || h.NonNestedHandle? ==>
                r == Ok(()) && stack == old(stack) && readOnlyDepth == old(readOnlyDepth)
      ensures h.ReadWriteHandle? && old(stack) == [] ==> r == Fail(NullPointer) && stack == []
      ensures h.ReadWriteHandle? && old(stack) != [] ==>
                var popped := old(stack)[..|old(stack)| - 1];
                r == Ok(()) && readOnlyDepth == old(readOnlyDepth) &&
                stack == (if popped == [] && old(readOnlyDepth) > 0 then [TxnBox(true, Api.OPEN)] else popped)
      ensures h.ReadOnlyHandle? && (old(stack) == [] || old(Top()).state != Api.OPEN) ==>
                r == Fail(IllegalState) && stack == old(stack) && readOnlyDepth == old(readOnlyDepth)
      ensures h.ReadOnlyHandle? && old(stack) != [] && old(Top()).state == Api.OPEN ==>
                readOnlyDepth == old(readOnlyDepth) - 1 &&
                r == (if readOnlyDepth < 0 then Fail(IllegalState)
                      else if readOnlyDepth > 0 then Ok(())
                      else if old(Top()).readOnly then Ok(()) else Fail(Runtime)) &&
                stack == (if readOnlyDepth == 0 && old(Top()).readOnly
                          then old(stack)[..|old(stack)| - 1] + [TxnBox(true, Api.INIT)] else old(stack))
      ensures old(Valid()) && !(h.ReadOnlyHandle? && (old(stack) == [] || !old(Top()).readOnly)) ==> Valid()
    {
      match h {
        case NopHandle => r := Ok(());
        case NonNestedHandle => r := Ok(());
        case ReadWriteHandle =>
          if stack == [] { return Fail(NullPointer); }
          var top := Top();
          // the committed transaction is dropped from the slot right after
          stack := stack[..|stack| - 1];
          if stack == [] && readOnlyDepth > 0 {
            stack := [TxnBox(true, Api.OPEN)];
          }
          r := Ok(());
        case ReadOnlyHandle =>
          if stack == [] { return Fail(IllegalState); }
          var top := Top();
          if top.state != Api.OPEN { return Fail(IllegalState); }
          readOnlyDepth := readOnlyDepth - 1;
          if readOnlyDepth < 0 { return Fail(IllegalState); }
          if readOnlyDepth == 0 {
            var reset := ResetBox(top);
            if reset.Fail? { return Fail(reset.error); }
            SetTop(reset.value);
          }
          r := Ok(());
      }
    }

    /**
     * `commit()` and `abort()` of a handle. ReadWrite: commit or abort
     * `txn` in place (it stays in the slot until the handle is closed).
     * ReadOnly and Nop: nothing. NonNested: refused.
     */
    method FinishHandle(h: Handle, commit: bool) returns (r: Outcome<()>)
      modifies this
      ensures readOnlyDepth == old(readOnlyDepth)
      ensures h.ReadOnlyHandle? || h.NopHandle? ==> r == Ok(()) && stack == old(stack)
      ensures h.NonNestedHandle? ==> r == Fail(IllegalState) && stack == old(stack)
      ensures h.ReadWriteHandle? && old(stack) == [] ==> r == Fail(NullPointer) && stack == []
      ensures h.ReadWriteHandle? && old(stack) != [] ==>
                var b := if commit then CommitBox(old(Top())) else AbortBox(old(Top()));
                (r.Ok? <==> b.Ok?) && (r.Fail? ==> r.error == Runtime) &&
                stack == (if b.Ok? then old(stack)[..|old(stack)| - 1] + [b.value] else old(stack))
      ensures old(Valid()) && (h.ReadWriteHandle? ==> old(stack) == [] || !old(Top()).readOnly) ==> Valid()
    {
      match h {
        case ReadOnlyHandle => r := Ok(());
        case NopHandle => r := Ok(());
        case NonNestedHandle => r := Fail(IllegalState);
        case ReadWriteHandle =>
          if stack == [] { return Fail(NullPointer); }
          var b := if commit then CommitBox(Top()) else AbortBox(Top());
          if b.Fail? { return Fail(b.error); }
          SetTop(b.value);
          r := Ok(());
      }
    }

    /** `abort()`: aborts `txn` in place when it is an OPEN write transaction. */
    method Abort() returns (r: Outcome<()>)
      modifies this
      ensures readOnlyDepth == old(readOnlyDepth)
      ensures old(stack) == [] ==> r == Fail(NullPointer) && stack == []
      ensures old(stack) != [] ==> r == Ok(())
      ensures old(stack) != [] ==>
                stack == (if !old(Top()).readOnly && old(Top()).state == Api.OPEN
                          then old(stack)[..|old(stack)| - 1] + [TxnBox(false, Api.CLOSED)] else old(stack))
      ensures old(Valid()) ==> Valid()
    {
      if stack == [] { return Fail(NullPointer); }
      var top := Top();
      if !top.readOnly && top.state == Api.OPEN {
        SetTop(TxnBox(false, Api.CLOSED));
      }
      r := Ok(());
    }

    /**
     * `commitTxn()` (commit) and `abortTxn()` (abort): a read-only `txn` is
     * reset and the depth must then be 0; a write `txn` ends and the slot
     * pops to its parent.
     */
    method EndTxn(commit: bool) returns (r: Outcome<()>)
      modifies this
      ensures old(stack) == [] ==> r == Fail(IllegalState) && stack == [] && readOnlyDepth == old(readOnlyDepth)
      ensures old(stack) != [] && old(Top()).readOnly ==>
                if old(Top()).state != Api.OPEN
                then r == Fail(Runtime) && stack == old(stack) && readOnlyDepth == old(readOnlyDepth)
                else stack == old(stack)[..|old(stack)| - 1] + [TxnBox(true, Api.INIT)] &&
                     readOnlyDepth == old(readOnlyDepth) - 1 &&
                     r == (if readOnlyDepth == 0 then Ok(()) else Fail(IllegalState))
      ensures old(stack) != [] && !old(Top()).readOnly ==>
                var b := if commit then CommitBox(old(Top())) else AbortBox(old(Top()));
                readOnlyDepth == old(readOnlyDepth) &&
                (r.Ok? <==> b.Ok?) && (r.Fail? ==> r.error == Runtime) &&
                stack == (if b.Ok? then old(stack)[..|old(stack)| - 1] else old(stack))
      ensures old(Valid()) && r.Ok? ==> Valid()
    {
      if stack == [] { return Fail(IllegalState); }
      var top := Top();
      if top.readOnly {
        var reset := ResetBox(top);
        if reset.Fail? { return Fail(reset.error); }
        SetTop(reset.value);
        readOnlyDepth := readOnlyDepth - 1;
        if readOnlyDepth != 0 { return Fail(IllegalState); }
        return Ok(());
      }
      var b := if commit then CommitBox(top) else AbortBox(top);
      if b.Fail? { return Fail(b.error); }
      stack := stack[..|stack| - 1];
      r := Ok(());
    }

    /**
     * `beginTxn(readOnly)` as written: refused whenever `txn` is read-only,
     * even when it has been reset and nothing is open.
     */
    method BeginTxn(readOnly: bool) returns (r: Outcome<Handle>)
      modifies this
      ensures old(stack) != [] && old(Top()).readOnly ==>
                r == Fail(IllegalState) && stack == old(stack) && readOnlyDepth == old(readOnlyDepth)
      ensures old(stack) == [] ==>
                r == Ok(if readOnly then ReadOnlyHandle else ReadWriteHandle) &&
                stack == [TxnBox(readOnly, Api.OPEN)] && readOnlyDepth == (if readOnly then 1 else 0)
      ensures old(stack) != [] && !old(Top()).readOnly ==>
                r == Ok(if readOnly then NopHandle else ReadWriteHandle) &&
                stack == (if readOnly then old(stack) else old(stack) + [TxnBox(false, Api.OPEN)]) &&
                readOnlyDepth == old(readOnlyDepth)
      ensures old(Valid()) ==> Valid()
    {
      if stack != [] && Top().readOnly { return Fail(IllegalState); }
      r := WithTxn(Flags(readOnly, true, false, false));
    }

    /**
     * `beginTxn(readOnly)` corrected: refused only while a read-only
     * transaction is OPEN; a reset one is handled by `withTxn` (renewed for
     * a read-only request, replaced for a write request).
     */
    method BeginTxnFixed(readOnly: bool) returns (r: Outcome<Handle>)
      modifies this
      ensures old(stack) != [] && old(Top()).readOnly && old(Top()).state == Api.OPEN ==>
                r == Fail(IllegalState) && stack == old(stack) && readOnlyDepth == old(readOnlyDepth)
      ensures old(Valid()) && old(stack) != [] && old(Top()).readOnly && old(Top()).state != Api.OPEN ==>
                r == Ok(if readOnly then ReadOnlyHandle else ReadWriteHandle) &&
                stack == [TxnBox(readOnly, Api.OPEN)] && readOnlyDepth == (if readOnly then 1 else 0)
      ensures old(stack) == [] ==>
                r == Ok(if readOnly then ReadOnlyHandle else ReadWriteHandle) &&
                stack == [TxnBox(readOnly, Api.OPEN)] && readOnlyDepth == (if readOnly then 1 else 0)
      ensures old(stack) != [] && !old(Top()).readOnly ==>
                r == Ok(if readOnly then NopHandle else ReadWriteHandle) &&
                stack == (if readOnly then old(stack) else old(stack) + [TxnBox(false, Api.OPEN)]) &&
                readOnlyDepth == old(readOnlyDepth)
      ensures old(Valid()) ==> Valid()
    {
      if stack != [] && Top().readOnly && Top().state == Api.OPEN { return Fail(IllegalState); }
      r := WithTxn(Flags(readOnly, true, false, false));
    }

    /**
     * `close()`: abort `txn` and every parent down the chain, then zero the
     * depth. Aborting a CLOSED transaction throws and stops the walk there.
     */
    method Close() returns (r: Outcome<()>)
      modifies this
      ensures r.Ok? <==> forall i :: 0 <= i < |old(stack)| ==> old(stack)[i].state != Api.CLOSED
      ensures r.Ok? ==> stack == [] && readOnlyDepth == 0
      ensures r.Fail? ==>
                r.error == Runtime && readOnlyDepth == old(readOnlyDepth) &&
                0 < |stack| <= |old(stack)| && stack == old(stack)[..|stack|] &&
                Top().state == Api.CLOSED &&
                forall i :: |stack| <= i < |old(stack)| ==> old(stack)[i].state != Api.CLOSED
      ensures old(Valid()) && r.Ok? ==> Valid()
    {
      while stack != []
        invariant readOnlyDepth == old(readOnlyDepth)
        invariant |stack| <= |old(stack)| && stack == old(stack)[..|stack|]
        invariant forall i :: |stack| <= i < |old(stack)| ==> old(stack)[i].state != Api.CLOSED
        decreases |stack|
      {
        var aborted := AbortBox(Top());
        if aborted.Fail? { return Fail(aborted.error); }
        stack := stack[..|stack| - 1];
      }
      readOnlyDepth := 0;
      r := Ok(());
    }
  }

  /**
   * A reset read-only transaction blocks `beginTxn`: after a read-only
   * `withTxn` and the close of its handle nothing is open, yet `beginTxn`
   * refuses; the corrected version begins a write transaction.
   */
  method BeginAfterResetScenario() returns (asWritten: Outcome<Handle>, fixed: Outcome<Handle>)
    ensures asWritten == Fail(IllegalState)
    ensures fixed == Ok(ReadWriteHandle)
  {
    var slot := new ReusableTxn();
    var h := slot.WithTxn(WITH_READ_ONLY);
    var c := slot.CloseHandle(h.value);
    assert slot.stack == [TxnBox(true, Api.INIT)];
    asWritten := slot.BeginTxn(false);
    fixed := slot.BeginTxnFixed(false);
  }

  /**
   * Two nested read-only uses share one transaction: it stays OPEN until
   * the outer handle closes, and is then reset.
   */
  method NestedReadOnlyScenario() returns (inner: Api.State, outer: Api.State)
    ensures inner == Api.OPEN && outer == Api.INIT
  {
    var slot := new ReusableTxn();
    var h1 := slot.WithTxn(WITH_READ_ONLY);
    var h2 := slot.WithTxn(WITH_READ_ONLY);
    var c2 := slot.CloseHandle(h2.value);
    inner := slot.Top().state;
    var c1 := slot.CloseHandle(h1.value);
    outer := slot.Top().state;
  }
}
