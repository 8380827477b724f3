// ReusableBuf: a per-thread cached ByteBuffer with an in-use flag that
// catches a second, nested use of the same cache.

module ReusableBufs {
  import opened Common
  import opened Serializers

  class ReusableBuf {
    /** The cached buffer; null when the serializer asks for no cache. */
    const buf: ByteBuffer?
    var inUse: bool

    ghost predicate Valid()
      reads this, buf
    {
      buf != null ==> buf.Valid()
    }

    /** A new ReusableBuf is not in use. */
    constructor(b: ByteBuffer?)
      requires b != null ==> b.Valid()
      ensures Valid() && buf == b && !inUse
    {
      buf := b;
      inUse := false;
    }

    /** `open()`: marks the buffer in use; AssertionError when it already is. */
    method Open() returns (r: Outcome<()>)
      requires Valid()
      modifies this
      ensures Valid() && inUse
      ensures r == if old(inUse) then Fail(AssertionFailed) else Ok(())
    {
      if inUse {
        return Fail(AssertionFailed);
      }
      inUse := true;
      r := Ok(());
    }

    /** `close()`: clears the buffer (when there is one) and marks it free. */
    method Close()
      requires Valid()
      modifies this, buf
      ensures Valid() && !inUse
      ensures buf != null ==> buf.position == 0 && buf.limit == buf.capacity && buf.data == old(buf.data)
    {
      if buf != null {
        buf.Clear();
      }
      inUse := false;
    }
  }

  /** open, close, open succeeds: closing releases the buffer for the next user. */
  method OpenCloseOpenScenario() returns (first: Outcome<()>, second: Outcome<()>)
    ensures first == Ok(()) && second == Ok(())
  {
    var b := new ByteBuffer.Allocate(8);
    var rb := new ReusableBuf(b);
    first := rb.Open();
    rb.Close();
    second := rb.Open();
  }

  /** A nested open of a buffer already in use fails with AssertionError. */
  method NestedOpenScenario() returns (first: Outcome<()>, second: Outcome<()>)
    ensures first == Ok(()) && second == Fail(AssertionFailed)
  {
    var rb := new ReusableBuf(null);
    first := rb.Open();
    second := rb.Open();
  }

  /** `close` is idempotent: closing twice leaves the same state as closing once. */
  method CloseTwiceScenario(b: ByteBuffer?) returns (freeAfterOne: bool, freeAfterTwo: bool)
    requires b != null ==> b.Valid()
    modifies b
    ensures freeAfterOne && freeAfterTwo
    ensures b != null ==> b.position == 0 && b.limit == b.capacity && b.data == old(b.data)
  {
    var rb := new ReusableBuf(b);
    var _ := rb.Open();
    rb.Close();
    freeAfterOne := !rb.inUse;
    rb.Close();
    freeAfterTwo := !rb.inUse;
  }
}
