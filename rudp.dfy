/** The RUDP (reliable UDP) header of go/lib/infra/rudp/rudp.go: one flags byte
    followed by a 7-byte packet id, 8 bytes in all. Go slices are sequences of
    bytes; a runtime panic is a `Failure(Panic)`. */
module Rudp {
  import opened Wrappers

  const FlagNeedAck: bv8 := 0x01
  const FlagAck: bv8 := 0x02
  const HdrLen: nat := 8

  /** The header; `NewHdr(flags, id)` is the constructor `Hdr(flags, id)`. */
  datatype Hdr = Hdr(flags: bv8, id: seq<bv8>)

  /** The Go runtime panics the header code can raise. */
  datatype Panic =
    | IndexOutOfRange(index: int, length: int)
    | SliceBoundsOutOfRange(bound: int, capacity: int)

  /** NewHdrFromRaw: flags from b[0], id from b[1:HdrLen]. Indexing an empty
      slice panics first; a shorter slice panics on the slice expression. */
  function NewHdrFromRaw(b: seq<bv8>): (r: Result<Hdr, Panic>)
    ensures r.Success? <==> |b| >= HdrLen
    ensures r.Success? ==> r.value.flags == b[0] && |r.value.id| == HdrLen - 1
                           && (forall i :: 1 <= i < HdrLen ==> r.value.id[i - 1] == b[i])
  {
    if |b| == 0 then Failure(IndexOutOfRange(0, 0))
    else if |b| < HdrLen then Failure(SliceBoundsOutOfRange(HdrLen, |b|))
    else Success(Hdr(b[0], b[1..HdrLen]))
  }

  /** Bit 0 of the flags byte: the packet asks for an acknowledgement. */
  function IsNeedAck(h: Hdr): (r: bool)
    ensures r <==> (h.flags as int) % 2 == 1
  {
    (h.flags & FlagNeedAck) > 0
  }

  /** Bit 1 of the flags byte: the packet is an acknowledgement. */
  function IsAck(h: Hdr): (r: bool)
    ensures r <==> ((h.flags as int) / 2) % 2 == 1
  {
    var g := h.flags >> 1;
    assert g as int == h.flags as int / 2;
    assert (h.flags & FlagAck > 0) <==> (g & 1 == 1);
    assert (g & 1 == 1) <==> (g as int) % 2 == 1;
    (h.flags & FlagAck) > 0
  }

  /** The two predicates read separate bits: a flags byte can carry any
      combination of them, and 0x03 carries both. */
  lemma FlagsIndependent(needAck: bool, ack: bool, id: seq<bv8>)
    ensures var f: bv8 := (if needAck then FlagNeedAck else 0) | (if ack then FlagAck else 0);
            IsNeedAck(Hdr(f, id)) == needAck && IsAck(Hdr(f, id)) == ack
    ensures IsNeedAck(Hdr(0x03, id)) && IsAck(Hdr(0x03, id))
  {
  }

  /** Go's built-in `copy(dst[off:], src)`: copies min(len(dst) - off, len(src))
      elements and leaves every other element of dst as it was. */
  function CopyAt(dst: seq<bv8>, off: nat, src: seq<bv8>): (r: seq<bv8>)
    requires off <= |dst|
    ensures |r| == |dst|
    ensures forall i :: 0 <= i < |dst| ==>
              r[i] == if off <= i < off + CopyCount(|dst| - off, |src|) then src[i - off] else dst[i]
  {
    seq(|dst|, i requires 0 <= i < |dst| =>
      if off <= i < off + CopyCount(|dst| - off, |src|) then src[i - off] else dst[i])
  }

  /** Go's `copy(dst[off:], src)` on an array: returns the number of elements
      copied and leaves dst as CopyAt describes. */
  method CopyInto(dst: array<bv8>, off: nat, src: seq<bv8>) returns (n: nat)
    requires off <= dst.Length
    modifies dst
    ensures n == CopyCount(dst.Length - off, |src|)
    ensures dst[..] == CopyAt(old(dst[..]), off, src)
  {
    ghost var d0 := dst[..];
    n := CopyCount(dst.Length - off, |src|);
    var i := 0;
    while i < n
      invariant 0 <= i <= n
      invariant forall j :: 0 <= j < off ==> dst[j] == d0[j]
      invariant forall j :: 0 <= j < i ==> dst[off + j] == src[j]
      invariant forall j :: off + i <= j < dst.Length ==> dst[j] == d0[j]
    {
      dst[off + i] := src[i];
      i := i + 1;
    }
    ghost var c := CopyAt(d0, off, src);
    forall j | 0 <= j < dst.Length ensures dst[j] == c[j] {
      if off <= j < off + n {
        assert dst[off + (j - off)] == src[j - off];
      }
    }
    assert dst[..] == c;
  }

  /** The number of elements Go's `copy` transfers. */
  function CopyCount(dstLen: nat, srcLen: nat): nat
  {
    if dstLen < srcLen then dstLen else srcLen
  }

  /** What Hdr.Write does to a buffer: the bounds probe `_ = b[HdrLen]` panics
      unless the buffer has at least HdrLen + 1 bytes; otherwise byte 0 gets the
      flags and the id is copied from byte 1 on. */
  function WriteSpec(h: Hdr, b: seq<bv8>): (r: Result<seq<bv8>, Panic>)
  {
    if |b| <= HdrLen then Failure(IndexOutOfRange(HdrLen, |b|))
    else Success(CopyAt(b[0 := h.flags], 1, h.id))
  }

  /** The contract of Write: it needs at least 9 bytes, sets the flags byte,
      copies as much of the id as fits and touches nothing else. */
  lemma WriteSpecContract(h: Hdr, b: seq<bv8>)
    ensures WriteSpec(h, b).Success? <==> |b| >= HdrLen + 1
    ensures WriteSpec(h, b).Success? ==>
              var w := WriteSpec(h, b).value;
              var n := CopyCount(|b| - 1, |h.id|);
              && |w| == |b| && w[0] == h.flags
              && (forall i :: 0 <= i < n ==> w[1 + i] == h.id[i])
              && (forall i :: 1 + n <= i < |b| ==> w[i] == b[i])
  {
    if |b| > HdrLen {
      var w := WriteSpec(h, b).value;
      var n := CopyCount(|b| - 1, |h.id|);
      forall i | 0 <= i < n ensures w[1 + i] == h.id[i] {
        assert w[1 + i] == CopyAt(b[0 := h.flags], 1, h.id)[1 + i];
      }
    }
  }

  /** Hdr.Write on a caller's buffer. A panic happens before anything is written. */
  method Write(h: Hdr, b: array<bv8>) returns (p: Option<Panic>)
    modifies b
    ensures p.Some? <==> WriteSpec(h, old(b[..])).Failure?
    ensures p.Some? ==> p.value == WriteSpec(h, old(b[..])).error && b[..] == old(b[..])
    ensures p.None? ==> b[..] == WriteSpec(h, old(b[..])).value
  {
    if b.Length <= HdrLen {
      return Some(IndexOutOfRange(HdrLen, b.Length));
    }
    b[0] := h.flags;
    var _ := CopyInto(b, 1, h.id);
    p := None;
  }

  /** Hdr.Pack as written: it allocates exactly HdrLen bytes and hands them to
      Write, whose bounds probe reads index HdrLen, so every call panics. */
  method Pack(h: Hdr) returns (r: Result<seq<bv8>, Panic>)
    ensures r == Failure(IndexOutOfRange(HdrLen, HdrLen))
  {
    var b := new bv8[HdrLen];
    var p := Write(h, b);
    if p.Some? {
      r := Failure(p.value);
    } else {
      // Write cannot succeed on HdrLen bytes.
      assert false;
      r := Failure(IndexOutOfRange(HdrLen, HdrLen));
    }
  }

  /** Write with the bounds probe at the last header byte, `_ = b[HdrLen-1]`,
      which is what an 8-byte Pack needs. */
  function WriteCorrected(h: Hdr, b: seq<bv8>): (r: Result<seq<bv8>, Panic>)
  {
    if |b| < HdrLen then Failure(IndexOutOfRange(HdrLen - 1, |b|))
    else Success(CopyAt(b[0 := h.flags], 1, h.id))
  }

  /** Pack over the corrected Write: never panics and returns HdrLen bytes. */
  function PackCorrected(h: Hdr): (r: Result<seq<bv8>, Panic>)
    ensures r.Success? && |r.value| == HdrLen
  {
    WriteCorrected(h, seq(HdrLen, _ => 0))
  }

  /** The corrected Pack and NewHdrFromRaw are inverse on headers with a
      7-byte id. */
  lemma PackCorrectedRoundTrip(h: Hdr)
    requires |h.id| == HdrLen - 1
    ensures NewHdrFromRaw(PackCorrected(h).value) == Success(h)
  {
    var b := PackCorrected(h).value;
    assert b[1..HdrLen] == h.id by {
      forall i | 0 <= i < HdrLen - 1 ensures b[1..HdrLen][i] == h.id[i] {
        assert b[1 + i] == CopyAt(seq(HdrLen, _ => 0)[0 := h.flags], 1, h.id)[1 + i];
      }
    }
  }

  /** Round trip: after Write of a header with a 7-byte id into a buffer of at
      least 9 bytes, NewHdrFromRaw on that buffer gives the header back. */
  lemma WriteRoundTrip(h: Hdr, b: seq<bv8>)
    requires |h.id| == HdrLen - 1 && |b| > HdrLen
    ensures WriteSpec(h, b).Success?
    ensures NewHdrFromRaw(WriteSpec(h, b).value) == Success(h)
  {
    var w := WriteSpec(h, b).value;
    WriteSpecContract(h, b);
    assert w[1..HdrLen] == h.id;
  }

  /** Two lower-case hexadecimal digits, as `%02x` prints a byte: both are
      digits `0-9a-f`, high nibble first, and they read back as the byte. */
  function Hex2(b: bv8): (s: string)
    ensures |s| == 2
    ensures HexValue(s[0]) < 16 && HexValue(s[1]) < 16
    ensures 16 * HexValue(s[0]) + HexValue(s[1]) == b as int
  {
    HexDigitValue(b as int / 16);
    HexDigitValue(b as int % 16);
    [HexDigit(b as int / 16), HexDigit(b as int % 16)]
  }

  function HexDigit(d: nat): char
    requires d < 16
  {
    if d < 10 then ('0' as int + d) as char else ('a' as int + d - 10) as char
  }

  /** The value of a lower-case hexadecimal digit, or 16 for any other character. */
  function HexValue(c: char): (d: nat)
    ensures d <= 16
  {
    if '0' <= c <= '9' then c as int - '0' as int
    else if 'a' <= c <= 'f' then c as int - 'a' as int + 10
    else 16
  }

  lemma HexDigitValue(d: nat)
    requires d < 16
    ensures HexValue(HexDigit(d)) == d
  {
  }

  /** %02x loses nothing: the byte can be read back from its two digits. */
  lemma Hex2Injective(a: bv8, b: bv8)
    requires Hex2(a) == Hex2(b)
    ensures a == b
  {
    HexPairInjective(a as int, b as int);
  }

  lemma HexPairInjective(x: int, y: int)
    requires 0 <= x < 256 && 0 <= y < 256
    requires [HexDigit(x / 16), HexDigit(x % 16)] == [HexDigit(y / 16), HexDigit(y % 16)]
    ensures x == y
  {
    HexDigitInjective(x / 16, y / 16);
    HexDigitInjective(x % 16, y % 16);
    DivModUnique(x, y, 16);
  }

  lemma HexDigitInjective(d: nat, e: nat)
    requires d < 16 && e < 16 && HexDigit(d) == HexDigit(e)
    ensures d == e
  {
    HexDigitValue(d);
    HexDigitValue(e);
  }

  lemma DivModUnique(x: int, y: int, d: int)
    requires d > 0 && x / d == y / d && x % d == y % d
    ensures x == y
  {
    assert x == d * (x / d) + x % d;
    assert y == d * (y / d) + y % d;
  }

  /** FlagsStr: the three defined flag values by name, anything else as
      "UNKNOWN (xx)". */
  function FlagsStr(h: Hdr): string
  {
    match h.flags
    case 0x00 => "None (0x00)"
    case 0x01 => "NEED_ACK (0x01)"
    case 0x02 => "ACK (0x02)"
    case _ => "UNKNOWN (" + Hex2(h.flags) + ")"
  }

  /** FlagsStr names exactly the three defined values (0x03, both bits, is
      unknown), agrees with the bit predicates on them, and distinct flag bytes
      always print differently. */
  lemma FlagsStrContract(h: Hdr, g: Hdr)
    ensures FlagsStr(h) == "None (0x00)" <==> h.flags == 0
    ensures FlagsStr(h) == "NEED_ACK (0x01)" <==> IsNeedAck(h) && !IsAck(h) && h.flags == 1
    ensures FlagsStr(h) == "ACK (0x02)" <==> IsAck(h) && !IsNeedAck(h) && h.flags == 2
    ensures h.flags > 2 <==> FlagsStr(h)[..9] == "UNKNOWN ("
    ensures h.flags > 2 ==>
              && |FlagsStr(h)| == 12 && FlagsStr(h)[11] == ')'
              && HexValue(FlagsStr(h)[9]) < 16 && HexValue(FlagsStr(h)[10]) < 16
              && 16 * HexValue(FlagsStr(h)[9]) + HexValue(FlagsStr(h)[10]) == h.flags as int
    ensures FlagsStr(h) == FlagsStr(g) ==> h.flags == g.flags
  {
    if h.flags <= 2 {
      assert FlagsStr(h)[..9][0] != 'U';
    }
    if g.flags <= 2 {
      assert FlagsStr(g)[..9][0] != 'U';
    }
    if FlagsStr(h) == FlagsStr(g) {
      if h.flags > 2 && g.flags > 2 {
        assert FlagsStr(h)[9..11] == Hex2(h.flags);
        assert FlagsStr(g)[9..11] == Hex2(g.flags);
        Hex2Injective(h.flags, g.flags);
      } else if h.flags <= 2 && g.flags <= 2 {
        assert FlagsStr(h)[0] == FlagsStr(g)[0];
        assert |FlagsStr(h)| == |FlagsStr(g)|;
      }
    }
  }
}
