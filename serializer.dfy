// The key/value serializers of the map layer (LMDBSerializer): the numeric
// serializers that turn Java `int`/`long` values into the fixed-width unsigned
// integers LMDB compares under MDB_INTEGERKEY, the byte-array serializer, and
// the part of java.nio.ByteBuffer they use (put, flip, clear, get).

module Serializers {
  import opened Common

  /** An unsigned byte as stored in a buffer. */
  type Byte = b: int | 0 <= b < 256

  const TWO32: nat := 0x1_0000_0000
  const TWO64: nat := 0x1_0000_0000_0000_0000

  /** The serializers of LMDBSerializer with a fixed format (the String one is not modelled). */
  datatype Format = Int | UnsignedInt | Long | UnsignedLong | ByteArray

  predicate IsNumeric(f: Format) { !f.ByteArray? }

  /** `size` of the numeric serializers: bytes per value. */
  function Width(f: Format): nat
    requires IsNumeric(f)
  {
    if f.Int? || f.UnsignedInt? then 4 else 8
  }

  /** 2 to the power of the numeric width in bits. */
  function Modulus(f: Format): nat
    requires IsNumeric(f)
  {
    if f.Int? || f.UnsignedInt? then TWO32 else TWO64
  }

  /** The Java values of the serializer's type: `int` or `long`. */
  predicate InRange(f: Format, x: int)
    requires IsNumeric(f)
  {
    if f.Int? || f.UnsignedInt? then INT_MIN <= x <= INT_MAX else IsLong(x)
  }

  /** `cachedBufferSize()`: the width for the numeric serializers, -1 (no cache) for byte arrays. */
  function CachedBufferSize(f: Format): (r: int)
    ensures r > 0 <==> IsNumeric(f)
    ensures IsNumeric(f) ==> r == Width(f)
    ensures !IsNumeric(f) ==> r == -1
  {
    match f
    case Int => 4
    case UnsignedInt => 4
    case Long => 8
    case UnsignedLong => 8
    case ByteArray => -1
  }

  /** `integerKeys()`: whether the MDB_INTEGERKEY flag is requested. */
  function IntegerKeys(f: Format): (r: bool)
    ensures r <==> CachedBufferSize(f) > 0
  {
    !f.ByteArray?
  }

  // ---------------------------------------------------------------------
  // Two's-complement arithmetic
  // ---------------------------------------------------------------------

  /** Java `long` arithmetic: keep the low 64 bits, signed. */
  function WrapLong(x: int): (r: int)
    ensures IsLong(r)
    ensures IsLong(x) ==> r == x
    ensures (r - x) % TWO64 == 0
    ensures x == LONG_MAX + 1 ==> r == LONG_MIN
    ensures x == LONG_MIN - 1 ==> r == LONG_MAX
  {
    var m := x % TWO64;
    if m <= LONG_MAX then m else m - TWO64
  }

  /** Java arithmetic at the serializer's width. */
  function Wrap(f: Format, x: int): (r: int)
    requires IsNumeric(f)
    ensures InRange(f, r)
    ensures InRange(f, x) ==> r == x
    ensures MaxValue(f) < x < Modulus(f) ==> r == x - Modulus(f)
  {
    if f.Int? || f.UnsignedInt? then NarrowToInt(x) else WrapLong(x)
  }

  /** The bits of a Java value read as an unsigned number: what `putInt`/`putLong` store. */
  function AsUnsigned(f: Format, x: int): (u: nat)
    requires IsNumeric(f)
    ensures u < Modulus(f)
    ensures InRange(f, x) ==> u == if x >= 0 then x else x + Modulus(f)
  {
    x % Modulus(f)
  }

  /** The least value of the serializer's Java type. */
  function MinValue(f: Format): int
    requires IsNumeric(f)
  {
    if f.Int? || f.UnsignedInt? then INT_MIN else LONG_MIN
  }

  /** The greatest value of the serializer's Java type. */
  function MaxValue(f: Format): int
    requires IsNumeric(f)
  {
    if f.Int? || f.UnsignedInt? then INT_MAX else LONG_MAX
  }

  /**
   * `write`: the signed serializers subtract MIN_VALUE (wrapping), the
   * unsigned ones are the identity.
   */
  function Write(f: Format, i: int): (r: int)
    requires IsNumeric(f) && InRange(f, i)
    ensures InRange(f, r)
  {
    if f.Int? || f.Long? then Wrap(f, i - MinValue(f)) else i
  }

  /** `read`: the signed serializers add MIN_VALUE back (wrapping). */
  function Read(f: Format, j: int): (r: int)
    requires IsNumeric(f) && InRange(f, j)
    ensures InRange(f, r)
  {
    if f.Int? || f.Long? then Wrap(f, j + MinValue(f)) else j
  }

  /** A value of the Java type and its unsigned reading determine each other. */
  lemma UnsignedWrap(f: Format, x: int)
    requires IsNumeric(f) && InRange(f, x)
    ensures Wrap(f, AsUnsigned(f, x)) == x
  {
  }

  /** read(write(i)) == i and write(read(j)) == j for every value of the type. */
  lemma RoundTrip(f: Format, i: int)
    requires IsNumeric(f) && InRange(f, i)
    ensures Read(f, Write(f, i)) == i
    ensures Write(f, Read(f, i)) == i
  {
    if f.Int? || f.Long? {
      ReadAfterWrite(f, i);
      WriteAfterRead(f, i);
    }
  }

  lemma ReadAfterWrite(f: Format, i: int)
    requires (f.Int? || f.Long?) && InRange(f, i)
    ensures Read(f, Write(f, i)) == i
  {
    var w := i - MinValue(f);
    assert 0 <= w < Modulus(f);
    if i < 0 {
      assert Write(f, i) == w;
    } else {
      assert Write(f, i) == w - Modulus(f);
      assert Write(f, i) + MinValue(f) == i - Modulus(f);
    }
  }

  lemma WriteAfterRead(f: Format, j: int)
    requires (f.Int? || f.Long?) && InRange(f, j)
    ensures Write(f, Read(f, j)) == j
  {
    var w := j + MinValue(f);
    if j >= 0 {
      assert Read(f, j) == w;
    } else {
      assert Read(f, j) == w + Modulus(f);
    }
  }

  /** For the signed serializers the stored unsigned number is `i - MIN_VALUE`. */
  lemma SignedOffset(f: Format, i: int)
    requires (f.Int? || f.Long?) && InRange(f, i)
    ensures AsUnsigned(f, Write(f, i)) == i - MinValue(f)
  {
  }

  /** The signed serializers preserve order: signed a < b iff the stored unsigned a < b. */
  lemma SignedOrder(f: Format, a: int, b: int)
    requires (f.Int? || f.Long?) && InRange(f, a) && InRange(f, b)
    ensures a < b <==> AsUnsigned(f, Write(f, a)) < AsUnsigned(f, Write(f, b))
  {
    SignedOffset(f, a);
    SignedOffset(f, b);
  }

  /** The unsigned serializers store negatives above every non-negative: MIN_VALUE sorts after MAX_VALUE. */
  lemma UnsignedOrder(f: Format, a: int, b: int)
    requires (f.UnsignedInt? || f.UnsignedLong?) && InRange(f, a) && InRange(f, b)
    ensures a < 0 <= b ==> AsUnsigned(f, Write(f, b)) < AsUnsigned(f, Write(f, a))
    ensures AsUnsigned(f, Write(f, MaxValue(f))) < AsUnsigned(f, Write(f, MinValue(f)))
  {
    UnsignedWrap(f, a);
    UnsignedWrap(f, b);
    UnsignedWrap(f, MaxValue(f));
    UnsignedWrap(f, MinValue(f));
  }

  // ---------------------------------------------------------------------
  // Bytes
  // ---------------------------------------------------------------------

  function Pow256(n: nat): (r: nat)
    ensures r > 0
  {
    if n == 0 then 1 else 256 * Pow256(n - 1)
  }

  lemma ModulusIsWidth(f: Format)
    requires IsNumeric(f)
    ensures Pow256(Width(f)) == Modulus(f)
  {
    assert Pow256(2) == 0x1_0000;
    assert Pow256(4) == TWO32;
    assert Pow256(6) == 0x1_0000_0000_0000;
    assert Pow256(8) == TWO64;
  }

  /** The unsigned number held by a byte string, least significant byte first. */
  function Decode(bs: seq<Byte>): (x: nat)
    ensures x < Pow256(|bs|)
  {
    if bs == [] then 0 else bs[0] + 256 * Decode(bs[1..])
  }

  /** `n` bytes holding `x`, least significant first; decoding gives `x` back. */
  function Encode(x: nat, n: nat): (bs: seq<Byte>)
    requires x < Pow256(n)
    ensures |bs| == n
    ensures Decode(bs) == x
  {
    if n == 0 then []
    else
      assert x / 256 < Pow256(n - 1);
      var bs := [(x % 256) as Byte] + Encode(x / 256, n - 1);
      assert bs[1..] == Encode(x / 256, n - 1);
      bs
  }

  /** Encoding is also a left inverse: a byte string is the encoding of its number. */
  lemma {:induction false} EncodeDecode(bs: seq<Byte>)
    ensures Encode(Decode(bs), |bs|) == bs
  {
    if bs != [] {
      var rest := Decode(bs[1..]);
      assert Decode(bs) % 256 == bs[0] && Decode(bs) / 256 == rest;
      EncodeDecode(bs[1..]);
    }
  }

  /** The bytes `serialize(i)` writes for a numeric serializer. */
  function Encoded(f: Format, i: int): (bs: seq<Byte>)
    requires IsNumeric(f) && InRange(f, i)
    ensures |bs| == Width(f)
    ensures Decode(bs) == AsUnsigned(f, Write(f, i))
  {
    ModulusIsWidth(f);
    Encode(AsUnsigned(f, Write(f, i)), Width(f))
  }

  /** The value `deserialize` reads from `Width(f)` bytes (getInt/getLong, then `read`). */
  function Decoded(f: Format, bs: seq<Byte>): (i: int)
    requires IsNumeric(f) && |bs| == Width(f)
    ensures InRange(f, i)
  {
    Read(f, Wrap(f, Decode(bs)))
  }

  /** Serialization round trip through the bytes: deserialize(serialize(i)) == i. */
  lemma DecodedEncoded(f: Format, i: int)
    requires IsNumeric(f) && InRange(f, i)
    ensures Decoded(f, Encoded(f, i)) == i
  {
    UnsignedWrap(f, Write(f, i));
    RoundTrip(f, i);
  }

  /** Every byte string of the right width is the serialization of the value it decodes to. */
  lemma EncodedDecoded(f: Format, bs: seq<Byte>)
    requires IsNumeric(f) && |bs| == Width(f)
    ensures Encoded(f, Decoded(f, bs)) == bs
  {
    ModulusIsWidth(f);
    var u := Decode(bs);
    var w := Wrap(f, u);
    assert AsUnsigned(f, w) == u;
    RoundTrip(f, w);
    EncodeDecode(bs);
  }

  /**
   * The comparison MDB_INTEGERKEY applies to two serialized keys: the stored
   * unsigned numbers, as the sign of a Comparator result.
   */
  function IntegerKeyCompare(f: Format, a: int, b: int): (r: int)
    requires IsNumeric(f) && InRange(f, a) && InRange(f, b)
    ensures r < 0 <==> Decode(Encoded(f, a)) < Decode(Encoded(f, b))
    ensures r == 0 <==> a == b
  {
    RoundTrip(f, a);
    RoundTrip(f, b);
    UnsignedWrap(f, Write(f, a));
    UnsignedWrap(f, Write(f, b));
    var ua := Decode(Encoded(f, a));
    var ub := Decode(Encoded(f, b));
    if ua < ub then -1 else if ua == ub then 0 else 1
  }

  /** Under the signed serializers the stored key order is the numeric order. */
  lemma SignedKeyOrder(f: Format, a: int, b: int)
    requires (f.Int? || f.Long?) && InRange(f, a) && InRange(f, b)
    ensures IntegerKeyCompare(f, a, b) < 0 <==> a < b
  {
    SignedOrder(f, a, b);
  }

  /** Under the unsigned serializers MIN_VALUE compares above MAX_VALUE. */
  lemma UnsignedMinAfterMax(f: Format)
    requires f.UnsignedInt? || f.UnsignedLong?
    ensures IntegerKeyCompare(f, MinValue(f), MaxValue(f)) > 0
  {
    UnsignedOrder(f, MinValue(f), MaxValue(f));
  }

  // ---------------------------------------------------------------------
  // ByteBuffer
  // ---------------------------------------------------------------------

  /** The part of java.nio.ByteBuffer the serializers use. */
  class ByteBuffer {
    const capacity: nat
    var data: seq<Byte>
    var position: nat
    var limit: nat

    ghost predicate Valid()
      reads this
    {
      |data| == capacity && position <= limit <= capacity
    }

    /** `remaining()` */
    function Remaining(): nat
      reads this
      requires Valid()
    {
      limit - position
    }

    /** The bytes between position and limit: what a reader of the buffer gets. */
    function Contents(): (s: seq<Byte>)
      reads this
      requires Valid()
      ensures |s| == Remaining()
    {
      data[position..limit]
    }

    /** `ByteBuffer.allocateDirect(n)`: position 0, limit n. */
    constructor Allocate(n: nat)
      ensures Valid() && capacity == n && position == 0 && limit == n
    {
      capacity := n;
      data := seq(n, _ => 0);
      position := 0;
      limit := n;
    }

    /** `put(bytes)` when the bytes fit: written at the position, which moves past them. */
    method Put(bs: seq<Byte>)
      requires Valid() && |bs| <= Remaining()
      modifies this
      ensures Valid() && limit == old(limit)
      ensures position == old(position) + |bs|
      ensures data == old(data[..position]) + bs + old(data[position + |bs|..])
    {
      data := data[..position] + bs + data[position + |bs|..];
      position := position + |bs|;
    }

    /** `flip()`: the limit moves to the position and the position to 0. */
    method Flip()
      requires Valid()
      modifies this
      ensures Valid() && limit == old(position) && position == 0 && data == old(data)
    {
      limit := position;
      position := 0;
    }

    /** `clear()`: position 0, limit at capacity; the bytes stay. */
    method Clear()
      requires Valid()
      modifies this
      ensures Valid() && position == 0 && limit == capacity && data == old(data)
    {
      position := 0;
      limit := capacity;
    }

    /** `get(byte[n])`, `getInt()`, `getLong()`: the next `n` bytes, or BufferUnderflowException. */
    method Take(n: nat) returns (r: Outcome<seq<Byte>>)
      requires Valid()
      modifies this
      ensures Valid() && limit == old(limit) && data == old(data)
      ensures old(Remaining()) < n ==> r == Fail(BufferUnderflow) && position == old(position)
      ensures old(Remaining()) >= n ==> r == Ok(old(Contents())[..n]) && position == old(position) + n
    {
      if limit - position < n {
        return Fail(BufferUnderflow);
      }
      assert data[position..position + n] == Contents()[..n];
      r := Ok(data[position..position + n]);
      position := position + n;
    }
  }

  /** Whether `serialize` writes into the buffer it was handed rather than allocating one. */
  ghost predicate Reuses(buf: ByteBuffer?, n: nat)
    reads buf
  {
    buf != null && buf.Valid() && buf.Remaining() >= n
  }

  /**
   * `put` then `flip` into `buf` when it has `|bs|` bytes remaining, else into
   * a fresh buffer of exactly `|bs|` bytes: the body every serializer shares.
   */
  method PutFlipped(bs: seq<Byte>, buf: ByteBuffer?) returns (r: ByteBuffer)
    requires buf != null ==> buf.Valid()
    modifies buf
    ensures r.Valid() && r.position == 0
    ensures old(Reuses(buf, |bs|)) ==> r == buf && r.limit == old(buf.position) + |bs|
    ensures old(Reuses(buf, |bs|)) ==> r.Contents() == old(buf.data[..buf.position]) + bs
    ensures !old(Reuses(buf, |bs|)) ==> fresh(r) && r.capacity == |bs| && r.Contents() == bs
  {
    if buf == null || buf.Remaining() < |bs| {
      r := new ByteBuffer.Allocate(|bs|);
    } else {
      r := buf;
    }
    ghost var start := r.position;
    r.Put(bs);
    r.Flip();
    assert r.Contents() == r.data[..start + |bs|];
  }

  /**
   * The numeric `serialize(i, buf)`: reuses `buf` when it has room for the
   * value, else allocates a buffer of exactly the width. Handed a cleared (or
   * no) buffer, the result holds exactly the value's bytes.
   */
  method SerializeNumber(f: Format, i: int, buf: ByteBuffer?) returns (r: ByteBuffer)
    requires IsNumeric(f) && InRange(f, i)
    requires buf != null ==> buf.Valid()
    modifies buf
    ensures r.Valid() && r.position == 0
    ensures old(Reuses(buf, Width(f))) ==> r == buf
    ensures !old(Reuses(buf, Width(f))) ==> fresh(r) && r.capacity == CachedBufferSize(f)
    ensures buf == null || old(buf.position) == 0 || !old(Reuses(buf, Width(f))) ==> r.Contents() == Encoded(f, i)
  {
    r := PutFlipped(Encoded(f, i), buf);
  }

  /** The numeric `deserialize(buf)`: reads the width's bytes and undoes the offset. */
  method DeserializeNumber(f: Format, buf: ByteBuffer) returns (r: Outcome<int>)
    requires IsNumeric(f) && buf.Valid()
    modifies buf
    ensures buf.Valid()
    ensures old(buf.Remaining()) < Width(f) ==> r == Fail(BufferUnderflow)
    ensures old(buf.Remaining()) >= Width(f) ==> r == Ok(Decoded(f, old(buf.Contents())[..Width(f)]))
  {
    var bytes := buf.Take(Width(f));
    if bytes.Fail? {
      return Fail(bytes.error);
    }
    r := Ok(Decoded(f, bytes.value));
  }

  /** A value serialized into a cleared (or no) buffer deserializes to itself. */
  method NumberRoundTrip(f: Format, i: int, buf: ByteBuffer?) returns (r: Outcome<int>)
    requires IsNumeric(f) && InRange(f, i)
    requires buf != null ==> buf.Valid() && buf.position == 0
    modifies buf
    ensures r == Ok(i)
  {
    var out := SerializeNumber(f, i, buf);
    assert out.Contents()[..Width(f)] == Encoded(f, i);
    r := DeserializeNumber(f, out);
    DecodedEncoded(f, i);
  }

  /** `ByteArray.serialize(b, buf)`: reuses `buf` when it has room for `b`. */
  method SerializeBytes(b: seq<Byte>, buf: ByteBuffer?) returns (r: ByteBuffer)
    requires buf != null ==> buf.Valid()
    modifies buf
    ensures r.Valid() && r.position == 0
    ensures old(Reuses(buf, |b|)) ==> r == buf
    ensures !old(Reuses(buf, |b|)) ==> fresh(r) && r.capacity == |b|
    ensures buf == null || old(buf.position) == 0 || !old(Reuses(buf, |b|)) ==> r.Contents() == b
  {
    r := PutFlipped(b, buf);
  }

  /** `ByteArray.deserialize(buf)`: every remaining byte. */
  method DeserializeBytes(buf: ByteBuffer) returns (b: seq<Byte>)
    requires buf.Valid()
    modifies buf
    ensures buf.Valid() && buf.position == buf.limit
    ensures b == old(buf.Contents())
  {
    var got := buf.Take(buf.Remaining());
    b := got.value;
  }

  /** A byte array serialized into a cleared (or no) buffer deserializes to itself. */
  method BytesRoundTrip(b: seq<Byte>, buf: ByteBuffer?) returns (r: seq<Byte>)
    requires buf != null ==> buf.Valid() && buf.position == 0
    modifies buf
    ensures r == b
  {
    var out := SerializeBytes(b, buf);
    r := DeserializeBytes(out);
  }
}
