/** Host/network byte order for 16-bit values (go/lib/common/order.go).
    The host's endianness, which the Go code probes through an unsafe pointer,
    is a parameter here. */
module ByteOrder {

  datatype Endianness = BigEndian | LittleEndian

  /** byteSwap16: the low byte moves to the high position and the high byte to
      the low position. */
  function ByteSwap16(v: bv16): (r: bv16)
    ensures r >> 8 == v & 0xFF
    ensures r & 0xFF == v >> 8
  {
    ((v >> 8) & 0xFF) | ((v & 0xFF) << 8)
  }

  /** byteSwap16Noop: the conversion used on a big-endian host. */
  function ByteSwap16Noop(v: bv16): bv16
  {
    v
  }

  lemma ByteSwap16Involution(v: bv16)
    ensures ByteSwap16(ByteSwap16(v)) == v
  {
  }

  /** Which of the two conversion functions a function variable holds. */
  datatype Conversion = Noop | Swap

  function Apply(c: Conversion, v: bv16): bv16
  {
    match c
    case Noop => ByteSwap16Noop(v)
    case Swap => ByteSwap16(v)
  }

  /** The package variables Htons and Ntohs after `init` has run. */
  datatype HostOrder = HostOrder(htons: Conversion, ntohs: Conversion)

  /** `init`: both variables start as the no-op and are switched to the swap
      together on a little-endian host. */
  function Init(e: Endianness): (o: HostOrder)
    ensures o.htons == o.ntohs
    ensures o.htons == Swap <==> e == LittleEndian
    ensures forall v: bv16 :: Apply(o.ntohs, Apply(o.htons, v)) == v
  {
    if e == LittleEndian then HostOrder(Swap, Swap) else HostOrder(Noop, Noop)
  }

  /** The two bytes of `v` in network (big-endian) order, the layout of
      `binary.BigEndian`. */
  function NetworkBytes(v: bv16): seq<bv8>
  {
    [(v >> 8) as bv8, (v & 0xFF) as bv8]
  }

  /** The two bytes of `v` as a host of the given endianness lays them out in memory. */
  function HostBytes(e: Endianness, v: bv16): seq<bv8>
  {
    match e
    case BigEndian => [(v >> 8) as bv8, (v & 0xFF) as bv8]
    case LittleEndian => [(v & 0xFF) as bv8, (v >> 8) as bv8]
  }

  /** Whatever the host, the value Htons returns is stored in memory in network
      byte order, and Ntohs reads a value stored in network order back. */
  lemma HtonsStoresNetworkOrder(e: Endianness, v: bv16)
    ensures HostBytes(e, Apply(Init(e).htons, v)) == NetworkBytes(v)
    ensures HostBytes(e, v) == NetworkBytes(Apply(Init(e).ntohs, v))
  {
    if e == LittleEndian {
      assert Init(e).htons == Swap && Init(e).ntohs == Swap;
      SwapReversesBytes(v);
    }
  }

  /** On a little-endian host, the swapped value's memory bytes are the
      value's network bytes, and the other way round. */
  lemma SwapReversesBytes(v: bv16)
    ensures HostBytes(LittleEndian, ByteSwap16(v)) == NetworkBytes(v)
    ensures HostBytes(LittleEndian, v) == NetworkBytes(ByteSwap16(v))
  {
    var s := ByteSwap16(v);
    assert HostBytes(LittleEndian, s) == [(s & 0xFF) as bv8, (s >> 8) as bv8];
    assert NetworkBytes(s) == [(s >> 8) as bv8, (s & 0xFF) as bv8];
  }
}
