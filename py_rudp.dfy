/** The Python RUDP header (python/lib/rudp.py). Python integers are unbounded;
    `struct` format "!b7s" is a signed byte followed by a 7-byte string. */
module PyRudp {
  import opened Wrappers
  import Rudp

  const LEN: nat := 8
  const FLAG_NONE: int := 0x0
  const FLAG_NEED_ACK: int := 0x1
  const FLAG_ACK: int := 0x2

  datatype RUDPHdr = RUDPHdr(flags: int, id: seq<bv8>)

  /** The exceptions the constructor can raise. */
  datatype PyError =
    | TypeError            // struct.unpack called without a buffer
    | StructError          // struct.unpack on a buffer of the wrong size

  /** RUDPHdr(raw): fields start at 0 and b""; a truthy `raw` goes to _parse,
      which calls struct.unpack("!b7s") without passing the buffer and so always
      raises. */
  function Init(raw: Option<seq<bv8>>): (r: Result<RUDPHdr, PyError>)
    ensures r.Success? <==> raw == None || raw == Some([])
    ensures r.Success? ==> r.value.flags == FLAG_NONE && r.value.id == []
  {
    if raw.Some? && raw.value != [] then Parse(raw.value) else Success(RUDPHdr(0, []))
  }

  /** _parse as written. */
  function Parse(raw: seq<bv8>): Result<RUDPHdr, PyError>
  {
    Failure(TypeError)
  }

  /** Python's `x & (1 << k)` for an unbounded (two's complement) integer x. */
  function BitAnd(x: int, k: nat): (r: int)
    ensures r == 0 || r == Pow2(k)
  {
    if (x / Pow2(k)) % 2 == 1 then Pow2(k) else 0
  }

  function Pow2(k: nat): (p: nat)
    ensures p >= 1
  {
    if k == 0 then 1 else 2 * Pow2(k - 1)
  }

  /** is_ack: `flags & FLAG_ACK`, non-zero exactly when bit 1 is set. */
  function IsAck(h: RUDPHdr): (r: int)
    ensures r == 0 || r == FLAG_ACK
    ensures r != 0 <==> (h.flags / 2) % 2 == 1
  {
    BitAnd(h.flags, 1)
  }

  /** is_need_ack: `flags & FLAG_NEED_ACK`, non-zero exactly when bit 0 is set. */
  function IsNeedAck(h: RUDPHdr): (r: int)
    ensures r == 0 || r == FLAG_NEED_ACK
    ensures r != 0 <==> h.flags % 2 == 1
  {
    BitAnd(h.flags, 0)
  }

  /** struct's "Ns" field: the bytes truncated or zero-padded to exactly n. */
  function PackString(s: seq<bv8>, n: nat): (r: seq<bv8>)
    ensures |r| == n
    ensures forall i :: 0 <= i < n ==> r[i] == if i < |s| then s[i] else 0
    decreases n
  {
    if n == 0 then []
    else if s == [] then [0] + PackString([], n - 1)
    else [s[0]] + PackString(s[1..], n - 1)
  }

  /** struct's "b" field: a signed byte in two's complement. */
  function PackSignedByte(v: int): bv8
    requires -128 <= v < 128
  {
    (if v < 0 then v + 256 else v) as bv8
  }

  /** ack_pld: the packed acknowledgement for this header, "!b7s" of FLAG_ACK
      and the id. */
  function AckPld(h: RUDPHdr): (r: seq<bv8>)
    ensures |r| == LEN
    ensures r[0] == FLAG_ACK as bv8
    ensures r[1..] == PackString(h.id, LEN - 1)
  {
    [PackSignedByte(FLAG_ACK)] + PackString(h.id, LEN - 1)
  }

  /** _parse as evidently intended: struct.unpack("!b7s", raw), which needs
      exactly LEN bytes and reads the first as a signed byte. */
  function ParseCorrected(raw: seq<bv8>): (r: Result<RUDPHdr, PyError>)
    ensures r.Success? <==> |raw| == LEN
    ensures r.Success? ==> -128 <= r.value.flags < 128 && PackSignedByte(r.value.flags) == raw[0]
                           && r.value.id == raw[1..]
  {
    if |raw| != LEN then Failure(StructError)
    else
      var b := raw[0] as int;
      Success(RUDPHdr(if b >= 128 then b - 256 else b, raw[1..]))
  }

  /** The corrected parser reads an acknowledgement payload back as an ACK
      (and not a NEED_ACK) carrying the id cut or padded to 7 bytes. */
  lemma AckPldParses(h: RUDPHdr)
    ensures ParseCorrected(AckPld(h)) == Success(RUDPHdr(FLAG_ACK, PackString(h.id, LEN - 1)))
    ensures IsAck(ParseCorrected(AckPld(h)).value) != 0
    ensures IsNeedAck(ParseCorrected(AckPld(h)).value) == 0
  {
    var raw := AckPld(h);
    assert raw[0] as int == 2;
  }

  /** The Go side reads the same 8 bytes as a header whose IsAck holds, whose
      IsNeedAck does not, and whose Id is the padded id. */
  lemma AckPldReadByGo(h: RUDPHdr)
    ensures var g := Rudp.NewHdrFromRaw(AckPld(h));
            && g.Success? && Rudp.IsAck(g.value) && !Rudp.IsNeedAck(g.value)
            && g.value.id == PackString(h.id, LEN - 1)
  {
    var raw := AckPld(h);
    assert raw[0] == 2;
    assert raw[1..Rudp.HdrLen] == raw[1..];
  }
}
