/**
 * The fixed header `struct fanotify_event_metadata` that starts every record
 * the kernel writes into the read buffer: its C layout, and little-endian
 * decoding and encoding of its fields at their fixed offsets.
 */
module EventMetadata {

  /** The C field types the header is declared with. */
  datatype FieldType = U8 | U16 | U32 | S32 | AlignedU64

  function SizeOf(t: FieldType): nat {
    match t
    case U8 => 1
    case U16 => 2
    case U32 => 4
    case S32 => 4
    case AlignedU64 => 8
  }

  function AlignOf(t: FieldType): (a: nat)
    ensures a >= 1
  {
    match t
    case U8 => 1
    case U16 => 2
    case U32 => 4
    case S32 => 4
    case AlignedU64 => 8
  }

  /** The smallest multiple of `a` that is at least `x`. */
  function RoundUp(x: nat, a: nat): (r: nat)
    requires a >= 1
    ensures x <= r < x + a
  {
    if x % a == 0 then x else x + (a - x % a)
  }

  /** Offset of field `i` under the C rule: it starts at the first offset after field `i - 1` aligned for its type. */
  function FieldOffset(fields: seq<FieldType>, i: nat): nat
    requires i < |fields|
  {
    var at := if i == 0 then 0 else FieldOffset(fields, i - 1) + SizeOf(fields[i - 1]);
    RoundUp(at, AlignOf(fields[i]))
  }

  /** The strictest alignment among the first `n` fields. */
  function MaxAlign(fields: seq<FieldType>, n: nat): (a: nat)
    requires n <= |fields|
    ensures a >= 1
  {
    if n == 0 then 1
    else
      var rest := MaxAlign(fields, n - 1);
      if AlignOf(fields[n - 1]) > rest then AlignOf(fields[n - 1]) else rest
  }

  /** `sizeof` of a struct with these fields: the end of the last one, rounded up to the strictest alignment. */
  function StructSize(fields: seq<FieldType>): nat
    requires |fields| > 0
  {
    var last := |fields| - 1;
    RoundUp(FieldOffset(fields, last) + SizeOf(fields[last]), MaxAlign(fields, |fields|))
  }

  /** event_len, vers, reserved, metadata_len, mask, fd, pid, in declaration order. */
  const HeaderFields: seq<FieldType> := [U32, U8, U8, U16, AlignedU64, S32, S32]

  /** `FAN_EVENT_METADATA_LEN`, that is `sizeof(struct fanotify_event_metadata)`. */
  const MetadataLen: nat := 24

  const OffEventLen: nat := 0
  const OffVers: nat := 4
  const OffReserved: nat := 5
  const OffMetadataLen: nat := 6
  const OffMask: nat := 8
  const OffFd: nat := 16
  const OffPid: nat := 20

  /** The decoder's offsets are those the C layout rule gives the declared fields: no padding. */
  lemma HeaderOffsets()
    ensures FieldOffset(HeaderFields, 0) == OffEventLen
    ensures FieldOffset(HeaderFields, 1) == OffVers
    ensures FieldOffset(HeaderFields, 2) == OffReserved
    ensures FieldOffset(HeaderFields, 3) == OffMetadataLen
    ensures FieldOffset(HeaderFields, 4) == OffMask
    ensures FieldOffset(HeaderFields, 5) == OffFd
    ensures FieldOffset(HeaderFields, 6) == OffPid
  {
    var f := HeaderFields;
    assert FieldOffset(f, 0) == 0;
    assert FieldOffset(f, 1) == RoundUp(4, 1) == 4;
    assert FieldOffset(f, 2) == RoundUp(5, 1) == 5;
    assert FieldOffset(f, 3) == RoundUp(6, 2) == 6;
    assert FieldOffset(f, 4) == RoundUp(8, 8) == 8;
    assert FieldOffset(f, 5) == RoundUp(16, 4) == 16;
    assert FieldOffset(f, 6) == RoundUp(20, 4) == 20;
  }

  /** `sizeof(struct fanotify_event_metadata)` under the C layout rule is 24. */
  lemma HeaderSize()
    ensures StructSize(HeaderFields) == MetadataLen
  {
    var f := HeaderFields;
    HeaderOffsets();
    assert MaxAlign(f, 1) == 4;
    assert MaxAlign(f, 4) == 4;
    assert MaxAlign(f, 5) == 8;
    assert MaxAlign(f, 7) == 8;
    assert StructSize(f) == RoundUp(24, 8) == 24;
  }

  /** The decoded header. `fd` and `pid` are the raw bits of the `__s32` fields. */
  datatype Metadata = Metadata(
    eventLen: bv32,
    vers: bv8,
    reserved: bv8,
    metadataLen: bv16,
    mask: bv64,
    fd: bv32,
    pid: bv32)

  function U16At(buf: seq<bv8>, off: nat): bv16
    requires off + 2 <= |buf|
  {
    (buf[off] as bv16) | ((buf[off + 1] as bv16) << 8)
  }

  function U32At(buf: seq<bv8>, off: nat): bv32
    requires off + 4 <= |buf|
  {
    (buf[off] as bv32) | ((buf[off + 1] as bv32) << 8)
    | ((buf[off + 2] as bv32) << 16) | ((buf[off + 3] as bv32) << 24)
  }

  function U64At(buf: seq<bv8>, off: nat): bv64
    requires off + 8 <= |buf|
  {
    (U32At(buf, off) as bv64) | ((U32At(buf, off + 4) as bv64) << 32)
  }

  /** The `event_len` field of the record starting at `off`, widened to an integer as `(long)` does. */
  function EventLenAt(buf: seq<bv8>, off: nat): (n: nat)
    requires off + 4 <= |buf|
    ensures n < 0x1_0000_0000
  {
    U32At(buf, off + OffEventLen) as nat
  }

  /** The header held by the 24 bytes `h`, each field read little-endian at its offset. */
  function DecodeHeader(h: seq<bv8>): (m: Metadata)
    requires |h| == MetadataLen
    ensures m.vers == h[OffVers] && m.reserved == h[OffReserved]
    ensures Le32(m.eventLen) == h[OffEventLen..OffEventLen + 4]
    ensures Le16(m.metadataLen) == h[OffMetadataLen..OffMetadataLen + 2]
    ensures Le64(m.mask) == h[OffMask..OffMask + 8]
    ensures Le32(m.fd) == h[OffFd..OffFd + 4] && Le32(m.pid) == h[OffPid..OffPid + 4]
  {
    Le32OfU32(h, OffEventLen);
    Le16OfU16(h, OffMetadataLen);
    Le64OfU64(h, OffMask);
    Le32OfU32(h, OffFd);
    Le32OfU32(h, OffPid);
    Metadata(
      U32At(h, OffEventLen),
      h[OffVers],
      h[OffReserved],
      U16At(h, OffMetadataLen),
      U64At(h, OffMask),
      U32At(h, OffFd),
      U32At(h, OffPid))
  }

  /** The header of the record starting at `off`: what `meta->...` reads there. */
  function DecodeMetadata(buf: seq<bv8>, off: nat): (m: Metadata)
    requires off + MetadataLen <= |buf|
    ensures m.eventLen as nat == EventLenAt(buf, off)
  {
    var h := buf[off..off + MetadataLen];
    assert h[..4] == buf[off..off + 4];
    DecodeHeader(h)
  }

  function Le16(x: bv16): (b: seq<bv8>)
    ensures |b| == 2
  {
    [(x & 0xFF) as bv8, (x >> 8) as bv8]
  }

  function Le32(x: bv32): (b: seq<bv8>)
    ensures |b| == 4
  {
    [(x & 0xFF) as bv8, ((x >> 8) & 0xFF) as bv8, ((x >> 16) & 0xFF) as bv8, (x >> 24) as bv8]
  }

  function Le64(x: bv64): (b: seq<bv8>)
    ensures |b| == 8
  {
    Le32((x & 0xFFFF_FFFF) as bv32) + Le32((x >> 32) as bv32)
  }

  /** The 24 bytes the kernel writes for a header, little-endian. */
  function EncodeMetadata(m: Metadata): (b: seq<bv8>)
    ensures |b| == MetadataLen
  {
    Le32(m.eventLen) + [m.vers, m.reserved] + Le16(m.metadataLen)
    + Le64(m.mask) + Le32(m.fd) + Le32(m.pid)
  }

  lemma U32OfLe32(buf: seq<bv8>, off: nat, x: bv32)
    requires off + 4 <= |buf| && buf[off..off + 4] == Le32(x)
    ensures U32At(buf, off) == x
  {
    assert buf[off] == Le32(x)[0] && buf[off + 1] == Le32(x)[1];
    assert buf[off + 2] == Le32(x)[2] && buf[off + 3] == Le32(x)[3];
  }

  lemma Le32OfU32(buf: seq<bv8>, off: nat)
    requires off + 4 <= |buf|
    ensures Le32(U32At(buf, off)) == buf[off..off + 4]
  {
  }

  lemma Le16OfU16(buf: seq<bv8>, off: nat)
    requires off + 2 <= |buf|
    ensures Le16(U16At(buf, off)) == buf[off..off + 2]
  {
  }

  lemma U64Halves(x: bv64)
    ensures (((x & 0xFFFF_FFFF) as bv32) as bv64) | ((((x >> 32) as bv32) as bv64) << 32) == x
  {
  }

  lemma U64Parts(buf: seq<bv8>, off: nat)
    requires off + 8 <= |buf|
    ensures (U64At(buf, off) & 0xFFFF_FFFF) as bv32 == U32At(buf, off)
    ensures (U64At(buf, off) >> 32) as bv32 == U32At(buf, off + 4)
  {
  }

  lemma Le64OfU64(buf: seq<bv8>, off: nat)
    requires off + 8 <= |buf|
    ensures Le64(U64At(buf, off)) == buf[off..off + 8]
  {
    var x := U64At(buf, off);
    U64Parts(buf, off);
    Le32OfU32(buf, off);
    Le32OfU32(buf, off + 4);
    assert Le64(x) == Le32(U32At(buf, off)) + Le32(U32At(buf, off + 4));
  }

  /** Where each field's bytes sit in the encoding. */
  lemma EncodeParts(m: Metadata)
    ensures var b := EncodeMetadata(m);
      && b[0..4] == Le32(m.eventLen) && b[4] == m.vers && b[5] == m.reserved
      && b[6..8] == Le16(m.metadataLen)
      && b[8..12] == Le32((m.mask & 0xFFFF_FFFF) as bv32)
      && b[12..16] == Le32((m.mask >> 32) as bv32)
      && b[16..20] == Le32(m.fd) && b[20..24] == Le32(m.pid)
  {
    var b := EncodeMetadata(m);
    var p0, p3 := Le32(m.eventLen), Le16(m.metadataLen);
    var p4, p5 := Le64(m.mask), Le32(m.fd);
    var p6 := Le32(m.pid);
    assert b == p0 + [m.vers, m.reserved] + p3 + p4 + p5 + p6;
    assert b[0..4] == p0;
    assert b[6..8] == p3;
    assert b[8..16] == p4;
    assert b[8..12] == p4[..4];
    assert b[12..16] == p4[4..];
    assert b[16..20] == p5;
    assert b[20..24] == p6;
  }

  /** Decoding what was encoded gives back the header. */
  lemma {:induction false} DecodeEncode(m: Metadata)
    ensures DecodeHeader(EncodeMetadata(m)) == m
    ensures DecodeMetadata(EncodeMetadata(m), 0) == m
  {
    var b := EncodeMetadata(m);
    EncodeParts(m);
    assert U32At(b, 0) == m.eventLen by { U32OfLe32(b, 0, m.eventLen); }
    assert U16At(b, 6) == m.metadataLen by {
      assert b[6] == Le16(m.metadataLen)[0] && b[7] == Le16(m.metadataLen)[1];
    }
    assert U64At(b, 8) == m.mask by {
      U32OfLe32(b, 8, (m.mask & 0xFFFF_FFFF) as bv32);
      U32OfLe32(b, 12, (m.mask >> 32) as bv32);
      U64Halves(m.mask);
    }
    assert U32At(b, 16) == m.fd by { U32OfLe32(b, 16, m.fd); }
    assert U32At(b, 20) == m.pid by { U32OfLe32(b, 20, m.pid); }
    assert b[0..MetadataLen] == b;
  }

  lemma SlicesJoin(h: seq<bv8>)
    requires |h| == MetadataLen
    ensures h[0..4] + [h[4], h[5]] + h[6..8] + h[8..16] + h[16..20] + h[20..24] == h
  {
    var j := h[0..4] + [h[4], h[5]] + h[6..8] + h[8..16] + h[16..20] + h[20..24];
    assert |j| == |h|;
    forall i | 0 <= i < |h|
      ensures j[i] == h[i]
    {
    }
  }

  lemma EncodeFromParts(m: Metadata, h: seq<bv8>)
    requires |h| == MetadataLen
    requires Le32(m.eventLen) == h[0..4] && m.vers == h[4] && m.reserved == h[5]
    requires Le16(m.metadataLen) == h[6..8] && Le64(m.mask) == h[8..16]
    requires Le32(m.fd) == h[16..20] && Le32(m.pid) == h[20..24]
    ensures EncodeMetadata(m) == h
  {
    SlicesJoin(h);
  }

  /** Every 24 bytes are the encoding of the header they decode to: decoding loses nothing. */
  lemma {:induction false} EncodeDecode(h: seq<bv8>)
    requires |h| == MetadataLen
    ensures EncodeMetadata(DecodeHeader(h)) == h
  {
    EncodeFromParts(DecodeHeader(h), h);
  }

  /** How a 32-bit signed field reads as an integer (two's complement). */
  function Signed32(x: bv32): (v: int)
    ensures -0x8000_0000 <= v < 0x8000_0000
    ensures v == x as int || v == x as int - 0x1_0000_0000
  {
    var u := x as int;
    if u < 0x8000_0000 then u else u - 0x1_0000_0000
  }

  /** The signed reading loses nothing: different bit patterns read as different values. */
  lemma Signed32Injective(a: bv32, b: bv32)
    requires Signed32(a) == Signed32(b)
    ensures a == b
  {
    Signed32Unsigned(a);
    Signed32Unsigned(b);
    Bits32OfInt(a, b);
  }

  /** The unsigned value of the bits, recovered from the signed reading. */
  lemma Signed32Unsigned(x: bv32)
    ensures x as int == (if Signed32(x) < 0 then Signed32(x) + 0x1_0000_0000 else Signed32(x))
  {
  }

  /** Two 32-bit patterns with the same unsigned value are the same pattern. */
  lemma Bits32OfInt(a: bv32, b: bv32)
    requires a as int == b as int
    ensures a == b
  {
    assert (a as int) as bv32 == a && (b as int) as bv32 == b;
  }

  /** `FAN_NOFD`, the descriptor an overflow record carries. */
  const FanNoFd: int := -1

  lemma NoFdBits()
    ensures Signed32(0xFFFF_FFFF) == FanNoFd
    ensures Signed32(0x7FFF_FFFF) == 0x7FFF_FFFF
  {
  }
}
