/**
 * The fanotify "is valid / get next" cursor contract over a buffer of
 * back-to-back variable-length records. The C macros walk a pointer `meta` and
 * a signed byte count `len`; here the pointer is the integer offset `cursor`
 * into the buffer and `len` is `remaining`.
 */
module Framing {
  import opened EventMetadata

  /**
   * `FAN_EVENT_OK(meta, len)`. The `event_len` field is read only once at least a
   * whole header remains, exactly as the `&&` chain does in C; the precondition
   * says the filled region of the buffer ends at `cursor + remaining`.
   */
  predicate EventOk(buf: seq<bv8>, cursor: nat, remaining: int)
    requires cursor + remaining <= |buf|
  {
    remaining >= MetadataLen
    && EventLenAt(buf, cursor) >= MetadataLen
    && EventLenAt(buf, cursor) <= remaining
  }

  /** A valid record and its header lie wholly inside the filled region. */
  lemma EventOkInBounds(buf: seq<bv8>, cursor: nat, remaining: int)
    requires cursor + remaining <= |buf| && EventOk(buf, cursor, remaining)
    ensures cursor + MetadataLen <= cursor + EventLenAt(buf, cursor) <= cursor + remaining <= |buf|
  {
  }

  /**
   * `FAN_EVENT_OK` where `long` is 32 bits wide: `(long)event_len` is then the signed
   * reading of the field, negative from 2^31 on.
   */
  predicate EventOkLong32(buf: seq<bv8>, cursor: nat, remaining: int)
    requires cursor + remaining <= |buf|
  {
    remaining >= MetadataLen
    && Signed32(U32At(buf, cursor + OffEventLen)) >= MetadataLen
    && Signed32(U32At(buf, cursor + OffEventLen)) <= remaining
  }

  /**
   * On a target with a 32-bit `long` the test gives the same verdict, for any count
   * below 2^31 (the loop's count is at most the 4800 bytes of its buffer).
   */
  lemma EventOkLongWidth(buf: seq<bv8>, cursor: nat, remaining: int)
    requires cursor + remaining <= |buf| && remaining < 0x8000_0000
    ensures EventOkLong32(buf, cursor, remaining) == EventOk(buf, cursor, remaining)
  {
  }

  /**
   * `FAN_EVENT_NEXT(meta, len)`: subtract the record's `event_len` from the count
   * and advance the cursor by the same amount. The sum of the two is unchanged,
   * and the count drops by at least one header without going negative.
   */
  function Next(buf: seq<bv8>, cursor: nat, remaining: int): (r: (nat, int))
    requires cursor + remaining <= |buf| && EventOk(buf, cursor, remaining)
    ensures r.0 + r.1 == cursor + remaining
    ensures 0 <= r.1 <= remaining - MetadataLen
    ensures r.0 == cursor + EventLenAt(buf, cursor)
  {
    var n := EventLenAt(buf, cursor);
    (cursor + n, remaining - n)
  }

  /** One framed record: where it starts in the buffer and its decoded header. */
  datatype Record = Record(offset: nat, header: Metadata)

  function Len(r: Record): nat {
    r.header.eventLen as nat
  }

  /** The records the `for (meta = ...; FAN_EVENT_OK; meta = FAN_EVENT_NEXT)` loop visits from this cursor. */
  function FrameFrom(buf: seq<bv8>, cursor: nat, remaining: int): (rs: seq<Record>)
    requires cursor + remaining <= |buf|
    ensures rs == [] <==> !EventOk(buf, cursor, remaining)
    decreases if remaining < 0 then 0 else remaining
  {
    if EventOk(buf, cursor, remaining) then
      var next := Next(buf, cursor, remaining);
      [Record(cursor, DecodeMetadata(buf, cursor))] + FrameFrom(buf, next.0, next.1)
    else []
  }

  /** The records of a buffer whose first `len` bytes were filled by `read`. */
  function Frame(buf: seq<bv8>, len: int): (rs: seq<Record>)
    requires len <= |buf|
    ensures len < MetadataLen ==> rs == []
  {
    FrameFrom(buf, 0, len)
  }

  /** Each record takes at least a header's worth of the count, so at most `remaining / 24` records are visited. */
  lemma {:induction false} FrameFromCount(buf: seq<bv8>, cursor: nat, remaining: int)
    requires cursor + remaining <= |buf|
    ensures MetadataLen * |FrameFrom(buf, cursor, remaining)| <= (if remaining < 0 then 0 else remaining)
    decreases if remaining < 0 then 0 else remaining
  {
    if EventOk(buf, cursor, remaining) {
      var next := Next(buf, cursor, remaining);
      FrameFromCount(buf, next.0, next.1);
      var rest := FrameFrom(buf, next.0, next.1);
      assert |FrameFrom(buf, cursor, remaining)| == |rest| + 1;
      assert MetadataLen * (|rest| + 1) == MetadataLen * |rest| + MetadataLen;
    }
  }

  /** The bytes the records cover, in total. */
  function Span(rs: seq<Record>): nat {
    if rs == [] then 0 else Len(rs[0]) + Span(rs[1..])
  }

  /** Every record has a legal length, ends inside the filled region, and carries the header decoded at its offset. */
  predicate Legal(buf: seq<bv8>, limit: int, r: Record) {
    MetadataLen <= Len(r)
    && r.offset + Len(r) <= limit <= |buf|
    && r.header == DecodeMetadata(buf, r.offset)
  }

  /** Records follow each other with no gap and no overlap, the first at `cursor`. */
  predicate Contiguous(rs: seq<Record>, cursor: nat) {
    (rs != [] ==> rs[0].offset == cursor)
    && forall i :: 0 <= i < |rs| - 1 ==> rs[i + 1].offset == rs[i].offset + Len(rs[i])
  }

  predicate AllLegal(buf: seq<bv8>, limit: int, rs: seq<Record>) {
    forall i :: 0 <= i < |rs| ==> Legal(buf, limit, rs[i])
  }

  lemma {:induction false} FrameFromLegal(buf: seq<bv8>, cursor: nat, remaining: int)
    requires cursor + remaining <= |buf|
    ensures AllLegal(buf, cursor + remaining, FrameFrom(buf, cursor, remaining))
    decreases if remaining < 0 then 0 else remaining
  {
    if EventOk(buf, cursor, remaining) {
      var next := Next(buf, cursor, remaining);
      FrameFromLegal(buf, next.0, next.1);
      var rest := FrameFrom(buf, next.0, next.1);
      var rs := FrameFrom(buf, cursor, remaining);
      assert rs == [rs[0]] + rest;
      assert AllLegal(buf, cursor + remaining, rest);
    }
  }

  lemma {:induction false} FrameFromContiguous(buf: seq<bv8>, cursor: nat, remaining: int)
    requires cursor + remaining <= |buf|
    ensures Contiguous(FrameFrom(buf, cursor, remaining), cursor)
    decreases if remaining < 0 then 0 else remaining
  {
    if EventOk(buf, cursor, remaining) {
      var next := Next(buf, cursor, remaining);
      FrameFromContiguous(buf, next.0, next.1);
      var rest := FrameFrom(buf, next.0, next.1);
      var rs := FrameFrom(buf, cursor, remaining);
      assert rs[1..] == rest;
      forall i | 0 <= i < |rs| - 1
        ensures rs[i + 1].offset == rs[i].offset + Len(rs[i])
      {
        if i > 0 { assert rs[i] == rest[i - 1] && rs[i + 1] == rest[i]; }
      }
    }
  }

  /** Framing stops exactly at the first position that fails `FAN_EVENT_OK`, after covering at most the filled bytes. */
  lemma FrameFromStops(buf: seq<bv8>, cursor: nat, remaining: int)
    requires cursor + remaining <= |buf|
    ensures var s := Span(FrameFrom(buf, cursor, remaining));
      && (remaining >= 0 ==> s <= remaining)
      && (remaining < 0 ==> s == 0)
      && !EventOk(buf, cursor + s, remaining - s)
  {
    FrameFromSpan(buf, cursor, remaining);
    FrameFromEnd(buf, cursor, remaining);
  }

  lemma {:induction false} FrameFromSpan(buf: seq<bv8>, cursor: nat, remaining: int)
    requires cursor + remaining <= |buf|
    ensures Span(FrameFrom(buf, cursor, remaining)) <= (if remaining < 0 then 0 else remaining)
    decreases if remaining < 0 then 0 else remaining
  {
    var rs := FrameFrom(buf, cursor, remaining);
    if EventOk(buf, cursor, remaining) {
      var next := Next(buf, cursor, remaining);
      FrameFromSpan(buf, next.0, next.1);
      assert rs[1..] == FrameFrom(buf, next.0, next.1);
      assert Span(rs) == EventLenAt(buf, cursor) + Span(rs[1..]);
    }
  }

  lemma {:induction false} FrameFromEnd(buf: seq<bv8>, cursor: nat, remaining: int)
    requires cursor + remaining <= |buf|
    ensures var s := Span(FrameFrom(buf, cursor, remaining));
      cursor + s + (remaining - s) <= |buf| && !EventOk(buf, cursor + s, remaining - s)
    decreases if remaining < 0 then 0 else remaining
  {
    if EventOk(buf, cursor, remaining) {
      var next := Next(buf, cursor, remaining);
      var head, rest := Record(cursor, DecodeMetadata(buf, cursor)), FrameFrom(buf, next.0, next.1);
      FrameFromEnd(buf, next.0, next.1);
      assert FrameFrom(buf, cursor, remaining) == [head] + rest;
      SpanCons(head, rest);
    }
  }

  lemma SpanCons(r: Record, rest: seq<Record>)
    ensures Span([r] + rest) == Len(r) + Span(rest)
  {
    assert ([r] + rest)[1..] == rest;
  }

  /**
   * The records of a buffer: they start at offset 0, follow each other in buffer
   * order, each is legal, together they cover at most the `len` filled bytes, and
   * the first position after them fails `FAN_EVENT_OK` (the tail is discarded).
   */
  lemma FrameSpec(buf: seq<bv8>, len: int)
    requires len <= |buf|
    ensures var rs := Frame(buf, len);
      && Contiguous(rs, 0)
      && AllLegal(buf, len, rs)
      && Span(rs) <= (if len < 0 then 0 else len)
      && !EventOk(buf, Span(rs), len - Span(rs))
  {
    var rs := FrameFrom(buf, 0, len);
    assert Frame(buf, len) == rs;
    FrameFromLegal(buf, 0, len);
    FrameFromContiguous(buf, 0, len);
    FrameFromSpan(buf, 0, len);
    FrameFromEnd(buf, 0, len);
    var s := Span(rs);
    assert !EventOk(buf, 0 + s, len - s);
  }

  /** A read of zero or fewer bytes frames no record. */
  lemma FrameNonPositive(buf: seq<bv8>, len: int)
    requires len <= 0 && len <= |buf|
    ensures Frame(buf, len) == []
  {
  }

  /** Bytes past the filled region (stale data from an earlier read) never influence framing. */
  lemma {:induction false} FrameFromIgnoresTail(buf: seq<bv8>, other: seq<bv8>, cursor: nat, remaining: int)
    requires 0 <= cursor + remaining <= |buf| && cursor + remaining <= |other|
    requires buf[..cursor + remaining] == other[..cursor + remaining]
    ensures FrameFrom(buf, cursor, remaining) == FrameFrom(other, cursor, remaining)
    decreases if remaining < 0 then 0 else remaining
  {
    if remaining >= MetadataLen {
      SameHeader(buf, other, cursor, cursor + remaining);
      assert EventOk(buf, cursor, remaining) == EventOk(other, cursor, remaining);
      if EventOk(buf, cursor, remaining) {
        var next := Next(buf, cursor, remaining);
        assert next == Next(other, cursor, remaining);
        FrameFromIgnoresTail(buf, other, next.0, next.1);
      }
    }
  }

  lemma SameHeader(buf: seq<bv8>, other: seq<bv8>, cursor: nat, limit: nat)
    requires cursor + MetadataLen <= limit <= |buf| && limit <= |other|
    requires buf[..limit] == other[..limit]
    ensures DecodeMetadata(buf, cursor) == DecodeMetadata(other, cursor)
    ensures EventLenAt(buf, cursor) == EventLenAt(other, cursor)
  {
    var end := cursor + MetadataLen;
    assert buf[cursor..end] == buf[..limit][cursor..end];
    assert other[cursor..end] == other[..limit][cursor..end];
  }

  /** Framing a buffer reads only its filled bytes. */
  lemma FrameIgnoresTail(buf: seq<bv8>, len: int)
    requires 0 <= len <= |buf|
    ensures Frame(buf, len) == Frame(buf[..len], len)
  {
    assert buf[..len][..len] == buf[..len];
    FrameFromIgnoresTail(buf, buf[..len], 0, len);
  }

  /** One record of declared length 32 followed by 10 trailing bytes frames as exactly that record. */
  lemma OneRecordAndShortTail(buf: seq<bv8>)
    requires |buf| == 42
    requires buf[0] == 32 && buf[1] == 0 && buf[2] == 0 && buf[3] == 0
    ensures Frame(buf, 42) == [Record(0, DecodeMetadata(buf, 0))]
  {
    assert EventLenAt(buf, 0) == 32;
    assert FrameFrom(buf, 32, 10) == [];
  }

  /** A record claiming fewer bytes than a header ends framing there, so no cursor can stall. */
  lemma ShortLengthStops(buf: seq<bv8>, cursor: nat, remaining: int)
    requires cursor + remaining <= |buf| && remaining >= MetadataLen
    requires EventLenAt(buf, cursor) < MetadataLen
    ensures FrameFrom(buf, cursor, remaining) == []
  {
  }

  /** A record claiming more bytes than remain (a truncated tail) ends framing there. */
  lemma OverlongLengthStops(buf: seq<bv8>, cursor: nat, remaining: int)
    requires cursor + remaining <= |buf| && remaining >= MetadataLen
    requires EventLenAt(buf, cursor) > remaining
    ensures FrameFrom(buf, cursor, remaining) == []
  {
  }
}
