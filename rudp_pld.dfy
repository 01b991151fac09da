/** The border router's RUDP payload (go/border/rcmn/rudp_pld.go): an RUDP
    header followed by raw payload bytes. */
module RudpPld {
  import opened Wrappers
  import opened Rudp

  datatype RUdpPld = RUdpPld(hdr: Hdr, pld: seq<bv8>)

  /** NewRUdpPldFromRaw: the header from b[:HdrLen], the payload b[HdrLen:].
      A buffer shorter than a header panics on the first slice expression. */
  function NewRUdpPldFromRaw(b: seq<bv8>): (r: Result<RUdpPld, Panic>)
    ensures r.Success? <==> |b| >= HdrLen
    ensures r.Success? ==> r.value.pld == b[HdrLen..] && NewHdrFromRaw(b[..HdrLen]) == Success(r.value.hdr)
  {
    if |b| < HdrLen then Failure(SliceBoundsOutOfRange(HdrLen, |b|))
    else
      match NewHdrFromRaw(b[..HdrLen])
      case Success(h) => Success(RUdpPld(h, b[HdrLen..]))
      case Failure(p) => Failure(p)
  }

  /** Len: the header plus the payload. */
  function Len(r: RUdpPld): nat
  {
    HdrLen + |r.pld|
  }

  /** The basic error WritePld returns for a short buffer, with its "min" and
      "actual" context values. */
  datatype WriteError = BufferTooSmall(min: nat, actual: nat)

  /** A Go call either returns `(n, err)` or panics. */
  datatype WriteOutcome =
    | Returned(n: nat, err: Option<WriteError>)
    | Panicked(p: Panic)

  /** What WritePld does to buffer `b`: the outcome and the buffer afterwards. */
  function WritePldSpec(r: RUdpPld, b: seq<bv8>): (WriteOutcome, seq<bv8>)
  {
    if |b| < Len(r) then (Returned(0, Some(BufferTooSmall(Len(r), |b|))), b)
    else
      match WriteSpec(r.hdr, b)
      case Failure(p) => (Panicked(p), b)
      case Success(w) => (Returned(HdrLen + CopyCount(|w| - HdrLen, |r.pld|), None), CopyAt(w, HdrLen, r.pld))
  }

  /** WritePld on a caller's buffer. */
  method WritePld(r: RUdpPld, b: array<bv8>) returns (o: WriteOutcome)
    modifies b
    ensures (o, b[..]) == WritePldSpec(r, old(b[..]))
  {
    if b.Length < Len(r) {
      return Returned(0, Some(BufferTooSmall(Len(r), b.Length)));
    }
    var p := Write(r.hdr, b);
    if p.Some? {
      return Panicked(p.value);
    }
    var n := CopyInto(b, HdrLen, r.pld);
    o := Returned(HdrLen + n, None);
  }

  /** A buffer shorter than Len() is refused with (0, error) and left as it was. */
  lemma WritePldTooSmall(r: RUdpPld, b: seq<bv8>)
    requires |b| < Len(r)
    ensures WritePldSpec(r, b) == (Returned(0, Some(BufferTooSmall(Len(r), |b|))), b)
  {
  }

  /** On success WritePld returns Len(); the flags are at byte 0, the first
      seven id bytes after them, the payload at b[HdrLen : Len()], and the
      bytes after Len() hold either what was there or id bytes that did not
      fit in the header. */
  lemma WritePldSuccess(r: RUdpPld, b: seq<bv8>)
    requires |b| >= Len(r) && |b| > HdrLen
    ensures var (o, w) := WritePldSpec(r, b);
            && o == Returned(Len(r), None)
            && |w| == |b| && w[0] == r.hdr.flags
            && (forall i :: 1 <= i < HdrLen && i - 1 < |r.hdr.id| ==> w[i] == r.hdr.id[i - 1])
            && (forall i :: 1 + |r.hdr.id| <= i < HdrLen ==> w[i] == b[i])
            && w[HdrLen..Len(r)] == r.pld
            && (forall i :: Len(r) <= i < |b| ==>
                  w[i] == (if i - 1 < |r.hdr.id| then r.hdr.id[i - 1] else b[i]))
  {
    WriteSpecContract(r.hdr, b);
    var h := WriteSpec(r.hdr, b).value;
    var (o, w) := WritePldSpec(r, b);
    assert w == CopyAt(h, HdrLen, r.pld);
    WritePldKeepsHeaderTail(r, b);
    forall i | Len(r) <= i < |b|
      ensures w[i] == (if i - 1 < |r.hdr.id| then r.hdr.id[i - 1] else b[i])
    {
      assert w[i] == h[i];
    }
    assert w[HdrLen..Len(r)] == r.pld;
  }

  /** With an id shorter than 7 bytes, the header bytes past the id keep the
      values they had in the buffer. */
  lemma WritePldKeepsHeaderTail(r: RUdpPld, b: seq<bv8>)
    requires |b| >= Len(r) && |b| > HdrLen
    ensures forall i :: 1 + |r.hdr.id| <= i < HdrLen ==> WritePldSpec(r, b).1[i] == b[i]
  {
    WriteSpecContract(r.hdr, b);
    var h := WriteSpec(r.hdr, b).value;
    var w := WritePldSpec(r, b).1;
    assert w == CopyAt(h, HdrLen, r.pld);
    forall i | 1 + |r.hdr.id| <= i < HdrLen ensures w[i] == b[i] {
      assert w[i] == h[i];
    }
  }

  /** With an empty payload an 8-byte buffer passes WritePld's size check, but
      the header's bounds probe at index 8 panics. */
  lemma WritePldEmptyPayloadPanics(r: RUdpPld, b: seq<bv8>)
    requires r.pld == [] && |b| == HdrLen
    ensures WritePldSpec(r, b).0 == Panicked(IndexOutOfRange(HdrLen, HdrLen))
    ensures |b| >= Len(r)
  {
  }

  /** Round trip: parsing the first Len() bytes written by WritePld gives the
      payload back with the header's flags and 7-byte id. */
  lemma WritePldRoundTrip(r: RUdpPld, b: seq<bv8>)
    requires |r.hdr.id| == HdrLen - 1
    requires WritePldSpec(r, b).0.Returned? && WritePldSpec(r, b).0.err.None?
    ensures var (o, w) := WritePldSpec(r, b);
            o.n == Len(r) && o.n <= |w| && NewRUdpPldFromRaw(w[..o.n]) == Success(r)
  {
    WritePldSuccess(r, b);
    var (o, w) := WritePldSpec(r, b);
    var f := w[..Len(r)];
    assert f[..HdrLen][1..HdrLen] == r.hdr.id by {
      forall i | 0 <= i < HdrLen - 1 ensures f[..HdrLen][1..HdrLen][i] == r.hdr.id[i] {
        assert f[..HdrLen][1..HdrLen][i] == w[1 + i];
      }
    }
    assert f[HdrLen..] == r.pld;
  }
}
