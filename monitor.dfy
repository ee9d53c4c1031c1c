/**
 * The body of the monitor loop: the per-buffer processing the framing loop
 * drives, and the start/stop flag around it.
 *
 * The side effects the loop performs on each record (the `readlink` of its
 * descriptor path, the `close` of its descriptor, the open of the process's
 * `cmdline`, the callback into the host) are recorded as a trace of `Effect`s.
 * What `/proc` answers is an oracle: a function of the record's offset in the
 * buffer (which fixes the moment of the lookup) and of the path looked up.
 */
module Monitor {
  import opened FanotifyMasks
  import opened EventMetadata
  import opened Framing
  import opened Resolution

  /** What the host's `onFanotifyEvent(pid, process name, path, mask)` receives. */
  datatype Event = Event(pid: bv32, processName: seq<bv8>, path: seq<bv8>, mask: bv64)

  datatype Effect =
    | ReadLink(linkPath: string)     // readlink of /proc/self/fd/<fd>
    | CloseFd(fd: bv32)              // close(meta->fd)
    | OpenCmdline(procPath: string)  // fopen of /proc/<pid>/cmdline
    | Dispatch(event: Event)         // the callback into the host
    | CloseChannel(channel: int)     // close(fanFd)

  /** The loop reads into an array of 200 headers: 4800 bytes. */
  const EventBufferSize: nat := 200 * MetadataLen

  /** What a `/proc` lookup made while handling the record at a given offset finds. */
  type Oracle = (nat, string) -> Option<seq<bv8>>

  /** The `linkPath` buffer after `snprintf(linkPath, sizeof(linkPath), "/proc/self/fd/%d", fd)`. */
  function LinkPathOf(fd: bv32): (p: string)
    ensures p == FdLinkPath(fd)
  {
    LinkPathsFit(fd, 0);
    Snprintf(FdLinkPath(fd), LinkPathSize)
  }

  /** The same 64-byte buffer reused for `"/proc/%d/cmdline"`. */
  function ProcPathOf(pid: bv32): (p: string)
    ensures p == CmdlinePath(pid)
  {
    LinkPathsFit(0, pid);
    Snprintf(CmdlinePath(pid), LinkPathSize)
  }

  /**
   * The event a non-overflow record is turned into: its own pid and raw mask, and two
   * strings without NUL, so the host receives every byte of them.
   */
  function EventFor(r: Record, links: Oracle, cmdlines: Oracle): (e: Event)
    ensures e.pid == r.header.pid && e.mask == r.header.mask
    ensures Nul !in e.path && Nul !in e.processName
  {
    var linkPath := LinkPathOf(r.header.fd);
    var procPath := ProcPathOf(r.header.pid);
    Event(r.header.pid,
          ProcessName(cmdlines(r.offset, procPath)),
          ResolvedPath(links(r.offset, linkPath)),
          r.header.mask)
  }

  /**
   * The event carries the record's own pid and unmodified mask, and the C strings left in
   * the `path` and `procCmd` buffers, which are what `NewStringUTF` reads. A resolved link
   * target that is short and NUL-free arrives whole; a failed lookup degrades to an empty
   * path or name instead of dropping the event; both strings fit their zero-initialised
   * buffers with a terminating NUL to spare.
   */
  lemma EventForSpec(r: Record, links: Oracle, cmdlines: Oracle)
    ensures var e := EventFor(r, links, cmdlines);
      && e.pid == r.header.pid && e.mask == r.header.mask
      && |e.path| <= PathMax - 1 && Nul !in e.path
      && |e.processName| <= ProcCmdSize - 1 && Nul !in e.processName
      && e.path == CString(PathBuffer(links(r.offset, LinkPathOf(r.header.fd))))
      && e.processName == CString(ProcCmdBuffer(cmdlines(r.offset, ProcPathOf(r.header.pid))))
      && (links(r.offset, LinkPathOf(r.header.fd)).None? ==> e.path == [])
      && (cmdlines(r.offset, ProcPathOf(r.header.pid)).None? ==> e.processName == [])
    ensures var link := links(r.offset, LinkPathOf(r.header.fd));
      link.Some? && |link.value| <= PathMax - 1 && Nul !in link.value
      ==> EventFor(r, links, cmdlines).path == link.value
  {
    ResolvedPathSpec(links(r.offset, LinkPathOf(r.header.fd)));
    ProcessNameSpec(cmdlines(r.offset, ProcPathOf(r.header.pid)));
  }

  /**
   * What one iteration of the framing loop does with a record: nothing for an overflow
   * marker, otherwise four effects, each close and dispatch right after its lookup.
   */
  function RecordEffects(r: Record, links: Oracle, cmdlines: Oracle): (t: seq<Effect>)
    ensures |t| == (if IsOverflow(r.header.mask) then 0 else 4)
    ensures Ordered(t) && (t != [] ==> t[0].ReadLink?)
  {
    if IsOverflow(r.header.mask) then []
    else
      QuadOrdered(r.header.fd, EventFor(r, links, cmdlines));
      [ReadLink(LinkPathOf(r.header.fd))]
      + [CloseFd(r.header.fd)]
      + [OpenCmdline(ProcPathOf(r.header.pid))]
      + [Dispatch(EventFor(r, links, cmdlines))]
  }

  function EffectsOf(rs: seq<Record>, links: Oracle, cmdlines: Oracle): seq<Effect> {
    if rs == [] then [] else RecordEffects(rs[0], links, cmdlines) + EffectsOf(rs[1..], links, cmdlines)
  }

  /**
   * Everything the loop body does with a buffer after `read` returned `len`: nothing for
   * a read of fewer bytes than a header, and an ordered trace starting with a lookup.
   */
  function BufferEffects(buf: seq<bv8>, len: int, links: Oracle, cmdlines: Oracle): (t: seq<Effect>)
    requires len <= |buf|
    ensures len < MetadataLen ==> t == []
    ensures Ordered(t) && (t != [] ==> t[0].ReadLink?)
  {
    TraceOrdered(Frame(buf, len), links, cmdlines);
    if len <= 0 then [] else EffectsOf(Frame(buf, len), links, cmdlines)
  }

  /** A read into the loop's buffer of 200 headers frames at most 200 records. */
  lemma BufferRecordCount(buf: seq<bv8>, len: int)
    requires |buf| == EventBufferSize && len <= |buf|
    ensures |Frame(buf, len)| <= 200
  {
    FrameFromCount(buf, 0, len);
  }

  // ------------------------------------------------------------ the loop

  /**
   * The body of `while (gRunning)` after `read` filled `buf` with `len` bytes:
   * `if (len <= 0) continue;` and then the framing `for` loop.
   */
  method ProcessBuffer(buf: array<bv8>, len: int, links: Oracle, cmdlines: Oracle)
    returns (effects: seq<Effect>)
    requires len <= buf.Length
    ensures effects == BufferEffects(buf[..], len, links, cmdlines)
  {
    effects := [];
    if len <= 0 {
      return;
    }
    var data := buf[..];
    var cursor: nat, remaining: int := 0, len;
    while EventOk(data, cursor, remaining)
      invariant cursor + remaining == len
      invariant effects + EffectsOf(FrameFrom(data, cursor, remaining), links, cmdlines)
             == BufferEffects(data, len, links, cmdlines)
      decreases remaining
    {
      var step := HandleRecord(Record(cursor, DecodeMetadata(data, cursor)), links, cmdlines);
      StepEffects(data, cursor, remaining, links, cmdlines);
      var next := Next(data, cursor, remaining);
      AppendAssoc(effects, step, EffectsOf(FrameFrom(data, next.0, next.1), links, cmdlines));
      effects := effects + step;
      cursor, remaining := next.0, next.1;
    }
    StepEffects(data, cursor, remaining, links, cmdlines);
  }

  /**
   * The body of the framing loop for one record: skip an overflow marker; otherwise
   * resolve the descriptor's path, close the descriptor, read the process name, and
   * hand the event to the host. It is the imperative rendering of `RecordEffects`, one
   * statement per step of the loop body; the view and order lemmas are proved about that
   * function.
   */
  method HandleRecord(r: Record, links: Oracle, cmdlines: Oracle) returns (effects: seq<Effect>)
    ensures effects == RecordEffects(r, links, cmdlines)
  {
    effects := [];
    var meta := r.header;
    if IsOverflow(meta.mask) {
      return;
    }
    var linkPath := LinkPathOf(meta.fd);
    effects := effects + [ReadLink(linkPath)];
    var path := ResolvedPath(links(r.offset, linkPath));
    effects := effects + [CloseFd(meta.fd)];
    var procPath := ProcPathOf(meta.pid);
    effects := effects + [OpenCmdline(procPath)];
    var name := ProcessName(cmdlines(r.offset, procPath));
    effects := effects + [Dispatch(Event(meta.pid, name, path, meta.mask))];
  }

  /**
   * One turn of the framing loop: the effects of the record at the cursor come first,
   * then those of the rest; and once the cursor fails `FAN_EVENT_OK` nothing is left.
   */
  lemma StepEffects(buf: seq<bv8>, cursor: nat, remaining: int, links: Oracle, cmdlines: Oracle)
    requires cursor + remaining <= |buf|
    ensures EventOk(buf, cursor, remaining) ==>
      var next := Next(buf, cursor, remaining);
      EffectsOf(FrameFrom(buf, cursor, remaining), links, cmdlines)
      == RecordEffects(Record(cursor, DecodeMetadata(buf, cursor)), links, cmdlines)
         + EffectsOf(FrameFrom(buf, next.0, next.1), links, cmdlines)
    ensures !EventOk(buf, cursor, remaining) ==> EffectsOf(FrameFrom(buf, cursor, remaining), links, cmdlines) == []
  {
    if EventOk(buf, cursor, remaining) {
      var next := Next(buf, cursor, remaining);
      var rest := FrameFrom(buf, next.0, next.1);
      var rec := Record(cursor, DecodeMetadata(buf, cursor));
      assert FrameFrom(buf, cursor, remaining) == [rec] + rest;
      assert ([rec] + rest)[1..] == rest;
    }
  }

  lemma AppendAssoc<T>(a: seq<T>, b: seq<T>, c: seq<T>)
    ensures (a + b) + c == a + (b + c)
  {
  }

  // ------------------------------------------------------- trace views

  /** The descriptors closed, in order. */
  function Closes(t: seq<Effect>): seq<bv32> {
    if t == [] then []
    else (if t[0].CloseFd? then [t[0].fd] else []) + Closes(t[1..])
  }

  /** The events handed to the host, in order. */
  function Dispatches(t: seq<Effect>): seq<Event> {
    if t == [] then []
    else (if t[0].Dispatch? then [t[0].event] else []) + Dispatches(t[1..])
  }

  /** The `/proc` lookups made, in order. */
  function Lookups(t: seq<Effect>): seq<string> {
    if t == [] then []
    else
      (if t[0].ReadLink? then [t[0].linkPath] else if t[0].OpenCmdline? then [t[0].procPath] else [])
      + Lookups(t[1..])
  }

  /** The records that are not overflow markers, in order. */
  function Delivered(rs: seq<Record>): seq<Record> {
    if rs == [] then []
    else (if IsOverflow(rs[0].header.mask) then [] else [rs[0]]) + Delivered(rs[1..])
  }

  function FdsOf(rs: seq<Record>): seq<bv32> {
    if rs == [] then [] else [rs[0].header.fd] + FdsOf(rs[1..])
  }

  function EventsOf(rs: seq<Record>, links: Oracle, cmdlines: Oracle): seq<Event> {
    if rs == [] then [] else [EventFor(rs[0], links, cmdlines)] + EventsOf(rs[1..], links, cmdlines)
  }

  function LookupsOf(rs: seq<Record>): seq<string> {
    if rs == [] then []
    else
      [LinkPathOf(rs[0].header.fd),
       ProcPathOf(rs[0].header.pid)] + LookupsOf(rs[1..])
  }

  lemma {:induction false} ClosesAppend(a: seq<Effect>, b: seq<Effect>)
    ensures Closes(a + b) == Closes(a) + Closes(b)
  {
    if a != [] {
      assert (a + b)[0] == a[0];
      assert (a + b)[1..] == a[1..] + b;
      ClosesAppend(a[1..], b);
      AppendAssoc((if a[0].CloseFd? then [a[0].fd] else []), Closes(a[1..]), Closes(b));
    } else {
      assert a + b == b;
    }
  }

  lemma {:induction false} DispatchesAppend(a: seq<Effect>, b: seq<Effect>)
    ensures Dispatches(a + b) == Dispatches(a) + Dispatches(b)
  {
    if a != [] {
      assert (a + b)[0] == a[0];
      assert (a + b)[1..] == a[1..] + b;
      DispatchesAppend(a[1..], b);
      AppendAssoc((if a[0].Dispatch? then [a[0].event] else []), Dispatches(a[1..]), Dispatches(b));
    } else {
      assert a + b == b;
    }
  }

  lemma {:induction false} LookupsAppend(a: seq<Effect>, b: seq<Effect>)
    ensures Lookups(a + b) == Lookups(a) + Lookups(b)
  {
    if a != [] {
      assert (a + b)[0] == a[0];
      assert (a + b)[1..] == a[1..] + b;
      LookupsAppend(a[1..], b);
      AppendAssoc((if a[0].ReadLink? then [a[0].linkPath] else if a[0].OpenCmdline? then [a[0].procPath] else []), Lookups(a[1..]), Lookups(b));
    } else {
      assert a + b == b;
    }
  }

  /** The views of the four effects a delivered record causes. */
  lemma QuadViews(linkPath: string, fd: bv32, procPath: string, e: Event)
    ensures var t := [ReadLink(linkPath)] + [CloseFd(fd)] + [OpenCmdline(procPath)] + [Dispatch(e)];
      && Closes(t) == [fd]
      && Dispatches(t) == [e]
      && Lookups(t) == [linkPath, procPath]
  {
    var a, b, c, d := [ReadLink(linkPath)], [CloseFd(fd)], [OpenCmdline(procPath)], [Dispatch(e)];
    SingleViews(a[0]);
    SingleViews(b[0]);
    SingleViews(c[0]);
    SingleViews(d[0]);
    ClosesAppend(a, b);
    ClosesAppend(a + b, c);
    ClosesAppend(a + b + c, d);
    DispatchesAppend(a, b);
    DispatchesAppend(a + b, c);
    DispatchesAppend(a + b + c, d);
    LookupsAppend(a, b);
    LookupsAppend(a + b, c);
    LookupsAppend(a + b + c, d);
  }

  lemma SingleViews(x: Effect)
    ensures Closes([x]) == (if x.CloseFd? then [x.fd] else [])
    ensures Dispatches([x]) == (if x.Dispatch? then [x.event] else [])
    ensures Lookups([x]) == (if x.ReadLink? then [x.linkPath] else if x.OpenCmdline? then [x.procPath] else [])
  {
    assert [x][1..] == [];
  }

  /** What one record contributes to each view of the trace. */
  lemma RecordViews(r: Record, links: Oracle, cmdlines: Oracle)
    ensures var e := RecordEffects(r, links, cmdlines);
      && Closes(e) == FdsOf(Delivered([r]))
      && Dispatches(e) == EventsOf(Delivered([r]), links, cmdlines)
      && Lookups(e) == LookupsOf(Delivered([r]))
  {
    assert [r][1..] == [];
    if !IsOverflow(r.header.mask) {
      var lp := LinkPathOf(r.header.fd);
      var cp := ProcPathOf(r.header.pid);
      QuadViews(lp, r.header.fd, cp, EventFor(r, links, cmdlines));
      assert Delivered([r]) == [r];
    }
  }

  lemma DeliveredCons(rs: seq<Record>)
    requires rs != []
    ensures Delivered(rs) == Delivered([rs[0]]) + Delivered(rs[1..])
  {
    assert [rs[0]][1..] == [];
  }

  /** The delivered records are exactly the framed records without the overflow bit, in their order. */
  lemma {:induction false} DeliveredSpec(rs: seq<Record>)
    ensures forall r :: r in Delivered(rs) <==> r in rs && !IsOverflow(r.header.mask)
    ensures |Delivered(rs)| <= |rs|
  {
    if rs != [] {
      DeliveredSpec(rs[1..]);
      DeliveredCons(rs);
      assert [rs[0]][1..] == [];
      assert rs == [rs[0]] + rs[1..];
    }
  }

  /** One event per record, each carrying that record's pid and mask. */
  lemma {:induction false} EventsOfSpec(rs: seq<Record>, links: Oracle, cmdlines: Oracle)
    ensures |EventsOf(rs, links, cmdlines)| == |rs|
    ensures forall i :: 0 <= i < |rs| ==>
      EventsOf(rs, links, cmdlines)[i].pid == rs[i].header.pid
      && EventsOf(rs, links, cmdlines)[i].mask == rs[i].header.mask
  {
    if rs != [] {
      var tail := EventsOf(rs[1..], links, cmdlines);
      EventsOfSpec(rs[1..], links, cmdlines);
      var e := EventFor(rs[0], links, cmdlines);
      assert e.pid == rs[0].header.pid && e.mask == rs[0].header.mask;
      EventsCons(e, tail, rs);
    }
  }

  lemma EventsCons(e: Event, es: seq<Event>, rs: seq<Record>)
    requires rs != [] && e.pid == rs[0].header.pid && e.mask == rs[0].header.mask
    requires |es| == |rs| - 1
    requires forall i :: 0 <= i < |es| ==> es[i].pid == rs[i + 1].header.pid && es[i].mask == rs[i + 1].header.mask
    ensures forall i :: 0 <= i < |rs| ==> ([e] + es)[i].pid == rs[i].header.pid && ([e] + es)[i].mask == rs[i].header.mask
  {
    forall i | 0 <= i < |rs|
      ensures ([e] + es)[i].pid == rs[i].header.pid && ([e] + es)[i].mask == rs[i].header.mask
    {
      if i > 0 {
        assert ([e] + es)[i] == es[i - 1];
      }
    }
  }

  lemma {:induction false} FdsOfAppend(a: seq<Record>, b: seq<Record>)
    ensures FdsOf(a + b) == FdsOf(a) + FdsOf(b)
  {
    if a != [] {
      assert (a + b)[0] == a[0];
      assert (a + b)[1..] == a[1..] + b;
      FdsOfAppend(a[1..], b);
      AppendAssoc([a[0].header.fd], FdsOf(a[1..]), FdsOf(b));
    } else {
      assert a + b == b;
    }
  }

  lemma {:induction false} EventsOfAppend(a: seq<Record>, b: seq<Record>, links: Oracle, cmdlines: Oracle)
    ensures EventsOf(a + b, links, cmdlines) == EventsOf(a, links, cmdlines) + EventsOf(b, links, cmdlines)
  {
    if a != [] {
      assert (a + b)[0] == a[0];
      assert (a + b)[1..] == a[1..] + b;
      EventsOfAppend(a[1..], b, links, cmdlines);
      AppendAssoc([EventFor(a[0], links, cmdlines)], EventsOf(a[1..], links, cmdlines), EventsOf(b, links, cmdlines));
    } else {
      assert a + b == b;
    }
  }

  lemma {:induction false} LookupsOfAppend(a: seq<Record>, b: seq<Record>)
    ensures LookupsOf(a + b) == LookupsOf(a) + LookupsOf(b)
  {
    if a != [] {
      assert (a + b)[0] == a[0];
      assert (a + b)[1..] == a[1..] + b;
      LookupsOfAppend(a[1..], b);
      AppendAssoc([LinkPathOf(a[0].header.fd), ProcPathOf(a[0].header.pid)], LookupsOf(a[1..]), LookupsOf(b));
    } else {
      assert a + b == b;
    }
  }

  /**
   * Exactly-once close: the descriptors closed while handling a run of records are
   * those of its non-overflow records, each once, in framing order, and nothing else.
   */
  lemma {:induction false} ClosesExactlyOnce(rs: seq<Record>, links: Oracle, cmdlines: Oracle)
    ensures Closes(EffectsOf(rs, links, cmdlines)) == FdsOf(Delivered(rs))
  {
    if rs != [] {
      ClosesExactlyOnce(rs[1..], links, cmdlines);
      ClosesAppend(RecordEffects(rs[0], links, cmdlines), EffectsOf(rs[1..], links, cmdlines));
      RecordViews(rs[0], links, cmdlines);
      DeliveredCons(rs);
      FdsOfAppend(Delivered([rs[0]]), Delivered(rs[1..]));
    }
  }

  /** One dispatch per non-overflow record, in framing order, carrying that record's pid and mask. */
  lemma {:induction false} DispatchesInOrder(rs: seq<Record>, links: Oracle, cmdlines: Oracle)
    ensures Dispatches(EffectsOf(rs, links, cmdlines)) == EventsOf(Delivered(rs), links, cmdlines)
  {
    if rs != [] {
      DispatchesInOrder(rs[1..], links, cmdlines);
      DispatchesAppend(RecordEffects(rs[0], links, cmdlines), EffectsOf(rs[1..], links, cmdlines));
      RecordViews(rs[0], links, cmdlines);
      DeliveredCons(rs);
      EventsOfAppend(Delivered([rs[0]]), Delivered(rs[1..]), links, cmdlines);
    }
  }

  /** Overflow markers are never looked up: the `/proc` lookups are exactly those of the delivered records. */
  lemma {:induction false} LookupsOnlyDelivered(rs: seq<Record>, links: Oracle, cmdlines: Oracle)
    ensures Lookups(EffectsOf(rs, links, cmdlines)) == LookupsOf(Delivered(rs))
  {
    if rs != [] {
      LookupsOnlyDelivered(rs[1..], links, cmdlines);
      LookupsAppend(RecordEffects(rs[0], links, cmdlines), EffectsOf(rs[1..], links, cmdlines));
      RecordViews(rs[0], links, cmdlines);
      DeliveredCons(rs);
      LookupsOfAppend(Delivered([rs[0]]), Delivered(rs[1..]));
    }
  }

  /**
   * Order within a trace: every close is immediately preceded by the `readlink` of
   * that same descriptor's path, and every dispatch immediately follows the open of
   * the `cmdline` of the pid it carries.
   */
  predicate Ordered(t: seq<Effect>) {
    && (forall j :: 0 <= j < |t| && t[j].CloseFd? ==> 1 <= j && t[j - 1] == ReadLink(LinkPathOf(t[j].fd)))
    && (forall j :: 0 <= j < |t| && t[j].Dispatch? ==> 1 <= j && t[j - 1] == OpenCmdline(ProcPathOf(t[j].event.pid)))
  }

  /** Two ordered traces stay ordered when joined, if the second starts with neither a close nor a dispatch. */
  lemma OrderedAppend(a: seq<Effect>, b: seq<Effect>)
    requires Ordered(a) && Ordered(b)
    requires b != [] ==> !b[0].CloseFd? && !b[0].Dispatch?
    ensures Ordered(a + b)
  {
    var t := a + b;
    forall j | |a| <= j < |t|
      ensures t[j] == b[j - |a|]
    {
    }
  }

  lemma QuadOrdered(fd: bv32, e: Event)
    ensures Ordered([ReadLink(LinkPathOf(fd))] + [CloseFd(fd)] + [OpenCmdline(ProcPathOf(e.pid))] + [Dispatch(e)])
  {
    var t := [ReadLink(LinkPathOf(fd))] + [CloseFd(fd)] + [OpenCmdline(ProcPathOf(e.pid))] + [Dispatch(e)];
    assert t[0].ReadLink? && t[1] == CloseFd(fd) && t[2].OpenCmdline? && t[3] == Dispatch(e);
    assert forall j :: 0 <= j < |t| && t[j].CloseFd? ==> j == 1;
    assert forall j :: 0 <= j < |t| && t[j].Dispatch? ==> j == 3;
  }

  lemma RecordOrdered(r: Record, links: Oracle, cmdlines: Oracle)
    ensures Ordered(RecordEffects(r, links, cmdlines))
    ensures RecordEffects(r, links, cmdlines) != [] ==> RecordEffects(r, links, cmdlines)[0].ReadLink?
  {
    if !IsOverflow(r.header.mask) {
      QuadOrdered(r.header.fd, EventFor(r, links, cmdlines));
    }
  }

  lemma {:induction false} TraceOrdered(rs: seq<Record>, links: Oracle, cmdlines: Oracle)
    ensures Ordered(EffectsOf(rs, links, cmdlines))
    ensures EffectsOf(rs, links, cmdlines) != [] ==> EffectsOf(rs, links, cmdlines)[0].ReadLink?
  {
    if rs != [] {
      TraceOrdered(rs[1..], links, cmdlines);
      RecordOrdered(rs[0], links, cmdlines);
      OrderedAppend(RecordEffects(rs[0], links, cmdlines), EffectsOf(rs[1..], links, cmdlines));
    }
  }

  /**
   * The per-buffer guarantees together: a non-positive read does nothing; otherwise the
   * closes, dispatches and lookups are those of the framed non-overflow records, in order.
   */
  lemma BufferSpec(buf: seq<bv8>, len: int, links: Oracle, cmdlines: Oracle)
    requires len <= |buf|
    ensures len <= 0 ==> BufferEffects(buf, len, links, cmdlines) == []
    ensures var t := BufferEffects(buf, len, links, cmdlines);
      var rs := Delivered(Frame(buf, len));
      && Closes(t) == FdsOf(rs)
      && Dispatches(t) == EventsOf(rs, links, cmdlines)
      && Lookups(t) == LookupsOf(rs)
      && Ordered(t)
    ensures var t := BufferEffects(buf, len, links, cmdlines);
      var rs := Delivered(Frame(buf, len));
      && |Dispatches(t)| == |rs|
      && forall i :: 0 <= i < |rs| ==>
           Dispatches(t)[i].pid == rs[i].header.pid && Dispatches(t)[i].mask == rs[i].header.mask
  {
    TraceOrdered(Frame(buf, len), links, cmdlines);
    if len > 0 {
      ClosesExactlyOnce(Frame(buf, len), links, cmdlines);
      DispatchesInOrder(Frame(buf, len), links, cmdlines);
      LookupsOnlyDelivered(Frame(buf, len), links, cmdlines);
    }
    EventsOfSpec(Delivered(Frame(buf, len)), links, cmdlines);
  }

  /**
   * FAN_NOFD is never closed: when the kernel attaches it only to overflow markers, no
   * descriptor the loop closes reads as FAN_NOFD.
   */
  lemma NoFdNeverClosed(rs: seq<Record>, links: Oracle, cmdlines: Oracle)
    requires forall r :: r in rs && Signed32(r.header.fd) == FanNoFd ==> IsOverflow(r.header.mask)
    ensures forall fd :: fd in Closes(EffectsOf(rs, links, cmdlines)) ==> Signed32(fd) != FanNoFd
  {
    ClosesExactlyOnce(rs, links, cmdlines);
    DeliveredSpec(rs);
    var ds := Delivered(rs);
    FdsOfSpec(ds);
    forall fd | fd in FdsOf(ds)
      ensures Signed32(fd) != FanNoFd
    {
      var i :| 0 <= i < |ds| && FdsOf(ds)[i] == fd;
      assert ds[i] in ds;
    }
  }

  lemma {:induction false} FdsOfSpec(rs: seq<Record>)
    ensures |FdsOf(rs)| == |rs|
    ensures forall i :: 0 <= i < |rs| ==> FdsOf(rs)[i] == rs[i].header.fd
  {
    if rs != [] {
      FdsOfSpec(rs[1..]);
    }
  }

  /** A failed path lookup still produces an event, with an empty path, and the descriptor is still closed. */
  lemma FailedLookupStillDispatched(r: Record, links: Oracle, cmdlines: Oracle)
    requires !IsOverflow(r.header.mask)
    requires links(r.offset, LinkPathOf(r.header.fd)).None?
    ensures CloseFd(r.header.fd) in RecordEffects(r, links, cmdlines)
    ensures var e := RecordEffects(r, links, cmdlines)[3];
      e.Dispatch? && e.event.path == [] && e.event.pid == r.header.pid
  {
    assert RecordEffects(r, links, cmdlines)[1] == CloseFd(r.header.fd);
    ResolvedPathSpec(links(r.offset, LinkPathOf(r.header.fd)));
  }

  // ------------------------------------------------------- lifecycle

  /**
   * The `gRunning` flag and the monitor loops it controls, run one step at a time.
   * `loops` holds the channel descriptor of every loop still alive; `trace` is every
   * effect so far.
   */
  class MonitorState {
    var running: bool
    var loops: seq<int>
    ghost var trace: seq<Effect>

    /**
     * The flag is only ever set by a loop that then stays alive until it sees it cleared,
     * and every live loop holds a channel `fanotify_init` really opened.
     */
    ghost predicate Valid()
      reads this
    {
      && (running ==> |loops| > 0)
      && forall k :: 0 <= k < |loops| ==> loops[k] >= 0
    }

    constructor ()
      ensures Valid() && !running && loops == [] && trace == []
    {
      running := false;
      loops := [];
      trace := [];
    }

    /**
     * `startMonitor` followed by the acquisition at the top of the loop it spawns.
     * `initFd` is what `fanotify_init` returned and `markResult` what `fanotify_mark`
     * returned.
     */
    method Start(initFd: int, markResult: int)
      requires Valid()
      modifies this
      ensures Valid()
      ensures old(running) ==> running && loops == old(loops) && trace == old(trace)
      ensures !old(running) && initFd < 0 ==>
        !running && loops == old(loops) && trace == old(trace)
      ensures !old(running) && initFd >= 0 && markResult != 0 ==>
        !running && loops == old(loops) && trace == old(trace) + [CloseChannel(initFd)]
      ensures !old(running) && initFd >= 0 && markResult == 0 ==>
        running && loops == old(loops) + [initFd] && trace == old(trace)
      ensures running <==> old(running) || (initFd >= 0 && markResult == 0)
    {
      if running {
        return;
      }
      if initFd < 0 {
        return;
      }
      if markResult != 0 {
        trace := trace + [CloseChannel(initFd)];
        return;
      }
      running := true;
      loops := loops + [initFd];
    }

    /** `stopMonitor`: clears the flag and nothing else. */
    method Stop()
      requires Valid()
      modifies this
      ensures Valid()
      ensures !running && loops == old(loops) && trace == old(trace)
    {
      running := false;
    }

    /**
     * The `while (gRunning)` test of live loop `i`. While the flag is set the loop
     * carries on; otherwise it leaves and closes its channel, exactly once.
     */
    method Check(i: nat) returns (alive: bool)
      requires Valid() && i < |loops|
      modifies this
      ensures Valid()
      ensures alive == running && running == old(running)
      ensures alive ==> loops == old(loops) && trace == old(trace)
      ensures !alive ==>
        loops == old(loops)[..i] + old(loops)[i + 1..]
        && trace == old(trace) + [CloseChannel(old(loops)[i])]
        && old(loops)[i] >= 0
    {
      alive := running;
      if !alive {
        trace := trace + [CloseChannel(loops[i])];
        loops := loops[..i] + loops[i + 1..];
      }
    }

    /**
     * One pass of live loop `i` after its test: `read` returned `len` bytes into
     * `buf`, which are then processed. The flag may have been cleared meanwhile;
     * the loop only notices at its next test.
     */
    method Iterate(i: nat, buf: array<bv8>, len: int, links: Oracle, cmdlines: Oracle)
      requires Valid() && i < |loops| && buf.Length == EventBufferSize && len <= buf.Length
      modifies this
      ensures Valid()
      ensures running == old(running) && loops == old(loops)
      ensures trace == old(trace) + BufferEffects(buf[..], len, links, cmdlines)
    {
      var effects := ProcessBuffer(buf, len, links, cmdlines);
      trace := trace + effects;
    }
  }

  /** A start that fails, a start that succeeds, a second start, a stop and the loop's exit. */
  method LifecycleScenario()
  {
    var m := new MonitorState();
    m.Start(-1, 0);
    assert !m.running && m.loops == [];
    m.Start(7, -1);
    assert !m.running && m.trace == [CloseChannel(7)];
    m.Start(8, 0);
    assert m.running && m.loops == [8];
    m.Start(9, 0);
    assert m.loops == [8];
    m.Stop();
    m.Stop();
    assert !m.running && m.loops == [8];
    var alive := m.Check(0);
    assert !alive && m.loops == [];
    assert m.trace == [CloseChannel(7), CloseChannel(8)];
  }

  /**
   * A stop followed by a start before the old loop wakes: the old loop finds the flag
   * set again and carries on beside the new one, so two channels stay open.
   */
  method RestartScenario()
  {
    var m := new MonitorState();
    m.Start(3, 0);
    m.Stop();
    m.Start(4, 0);
    assert m.running && m.loops == [3, 4];
    var oldAlive := m.Check(0);
    assert oldAlive && m.loops == [3, 4] && m.trace == [];
  }
}
