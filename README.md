# Fanotify monitor: a Dafny model of its event framing and processing

The monitor is a native library for an Android app. It opens a fanotify channel on the
root mount, reads batches of event records, and turns each non-overflow record into a callback
`onFanotifyEvent(pid, processName, path, mask)` on the host side. Each record starts with a
24-byte `fanotify_event_metadata` header and is `event_len` bytes long. The loop gets its `path` by resolving the record's
descriptor through `/proc/self/fd/<fd>` and its process name by reading
`/proc/<pid>/cmdline`. A global flag starts and stops the loop.

This project models that core and proves properties of it:

- `masks.dfy` (module `FanotifyMasks`): the event-mask bits and the composite masks, as
  `bv64` constants.
- `metadata.dfy` (module `EventMetadata`): the header layout, with field offsets derived
  from C alignment rules. It also has little-endian decoding and encoding of a header and
  the signed view of the `fd`/`pid` fields.
- `framing.dfy` (module `Framing`): the `FAN_EVENT_OK` / `FAN_EVENT_NEXT` cursor contract
  over a byte buffer. `Frame` is the sequence of records the `for` loop visits.
- `resolve.dfy` (module `Resolution`): the Linux and libc parts of per-record processing,
  written as functions.
  - `snprintf` of the two `/proc` paths, with exact `%d` formatting.
  - `readlink` into the zero-filled `path[PATH_MAX]` buffer.
  - `fgets` into the zero-filled `procCmd[256]` buffer.
  - How each buffer is read back as a C string.
- `monitor.dfy` (module `Monitor`), in three parts:
  - the loop body as imperative methods: `ProcessBuffer` (the framing loop over an
    `array<bv8>`) and `HandleRecord` (one record);
  - the specification functions those methods are proved against, with lemmas on the
    trace they produce: which descriptors are closed, which events are dispatched, which
    lookups are made, and in what order;
  - the `gRunning` lifecycle as a class, `MonitorState`.

Side effects become a trace of `Effect` values: `ReadLink`, `CloseFd`, `OpenCmdline`,
`Dispatch` and `CloseChannel`. What `/proc` answers is an oracle parameter, a function of:

- the record's offset in the buffer, which pins down when the lookup happens;
- the formatted path that is looked up.

`None` stands for a failed `readlink` or `fopen`.

One lifecycle behaviour is shown by `Monitor.RestartScenario`. A stop followed by a start,
before the old loop comes back from `read`, can leave two loops alive. The old loop finds the
flag set again and carries on beside the new one. In the source this depends on timing: the
old loop goes on only if the new thread has already run `gRunning = true`
(fanotify_monitor.cpp:32) when the old loop tests the flag again (fanotify_monitor.cpp:34);
otherwise it exits. The model merges `startMonitor`'s flag test and that assignment into one
step (see `Monitor.MonitorState.Start` under "## Left out"), so there the flag is already set.

## Model

| member | source | states |
|---|---|---|
| FanotifyMasks.IsOverflow | fanotify_monitor.cpp:41 | the `meta->mask & FAN_Q_OVERFLOW` test holds exactly when the mask carries the whole overflow bit |
| FanotifyMasks.FlagIsSingleBit | fanotify_compat.h:15-60 | each single-event flag is exactly one bit, at the position the fanotify ABI assigns |
| FanotifyMasks.FlagsDisjoint | fanotify_compat.h:15-60 | two flags share a bit exactly when they are the same flag, in both directions |
| FanotifyMasks.CompositeValues | fanotify_compat.h:45-128 | FAN_CLOSE = 0x18, FAN_MOVE = 0xC0, FAN_ALL_EVENTS = 0x3B, FAN_ALL_PERM_EVENTS = 0x30000, FAN_ALL_OUTGOING_EVENTS = 0x3403B; the mask the monitor registers at fanotify_monitor.cpp:25-26 is 0x22B |
| FanotifyMasks.OverflowMembership | fanotify_compat.h:126-128 | FAN_ALL_OUTGOING_EVENTS includes the queue-overflow bit; FAN_ALL_EVENTS and the registered mask do not |
| FanotifyMasks.OverflowIsBit14 | fanotify_compat.h:30-32 | a mask tests as overflow exactly when bit 14 is set, whatever other bits it carries |
| EventMetadata.HeaderOffsets | fanotify_compat.h:135-143 | C layout rules put event_len at 0, vers at 4, reserved at 5, metadata_len at 6, the aligned mask at 8, fd at 16 and pid at 20 |
| EventMetadata.HeaderSize | fanotify_compat.h:161-162 | the header's size, padding included, is 24 bytes (FAN_EVENT_METADATA_LEN) |
| EventMetadata.EventLenAt | fanotify_compat.h:171-173 | event_len read little-endian at the record's offset, widened as `(long)` does where `long` is 64 bits: an integer below 2^32 (the 32-bit reading is `Framing.EventOkLongWidth`) |
| EventMetadata.DecodeHeader | fanotify_compat.h:135-143 | the `meta->` field reads: each field is the value whose little-endian bytes sit at that field's offset in the 24 header bytes |
| EventMetadata.DecodeMetadata | fanotify_compat.h:135-143 | the header read at an offset has the event_len that the framing test reads there |
| EventMetadata.DecodeEncode | fanotify_compat.h:135-143 | decoding the little-endian encoding of any header gives that header back |
| EventMetadata.EncodeDecode | fanotify_compat.h:135-143 | encoding the decoding of any 24 bytes gives the same bytes: every bit pattern is a header |
| EventMetadata.Signed32 | fanotify_compat.h:141-142 | an `__s32` field reads as the two's-complement value of its bits: the unsigned value or that value minus 2^32, in the 32-bit signed range |
| EventMetadata.Signed32Injective | fanotify_compat.h:141-142 | two bit patterns that read as the same signed value are the same pattern |
| EventMetadata.NoFdBits | fanotify_compat.h:156-158 | all-ones fd bits read as FAN_NOFD (-1); 0x7FFFFFFF stays positive |
| Resolution.ValueOfDigits | fanotify_monitor.cpp:45 | the `%d` digits of a natural number read back as that number |
| Resolution.DecimalInt32Length | fanotify_monitor.cpp:44-45 | `%d` of any 32-bit signed value has at most 11 characters |
| Resolution.Decimal | fanotify_monitor.cpp:45 | `%d` of an integer: non-empty, starting with '-' exactly when the value is negative, and digits everywhere else |
| Resolution.DecimalInjective | fanotify_monitor.cpp:45 | different integers print differently under `%d` |
| Resolution.FdLinkPath | fanotify_monitor.cpp:45 | the `"/proc/self/fd/%d"` format: the prefix `/proc/self/fd/` then the descriptor, 15 to 25 characters in all |
| Resolution.CmdlinePath | fanotify_monitor.cpp:51 | the `"/proc/%d/cmdline"` format: `/proc/`, the pid, then `/cmdline`, 15 to 25 characters in all |
| Resolution.Snprintf | fanotify_monitor.cpp:45 | snprintf keeps at most size-1 characters, as a prefix: all of a shorter string, and exactly the first size-1 characters of a longer one |
| Resolution.LinkPathsFit | fanotify_monitor.cpp:44-51 | both formatted `/proc` paths have at most 25 characters, so the 64-byte linkPath never truncates them |
| Resolution.FdLinkPathInjective | fanotify_monitor.cpp:45 | equal `/proc/self/fd/` paths come from the same descriptor (same bits, so same signed value), so each record's own descriptor is resolved |
| Resolution.CString | fanotify_monitor.cpp:62-63 | the C string of a buffer is its prefix before the first NUL |
| Resolution.Readlink | fanotify_monitor.cpp:46 | readlink copies at most bufsiz bytes, as a prefix of the target: all of a target that fits, and exactly the first bufsiz bytes of a longer one |
| Resolution.PathBuffer | fanotify_monitor.cpp:43-46 | after readlink into the zeroed buffer of PATH_MAX bytes, the last byte is still NUL |
| Resolution.CStringOfFilled | fanotify_monitor.cpp:43-46 | what a call wrote at the start of a zeroed buffer, with room to spare, reads back as the C string of that write |
| Resolution.ResolvedPath | fanotify_monitor.cpp:43-46 | the path handed on: empty after a failed lookup, otherwise a prefix of the link target, at most 4095 bytes and without NUL |
| Resolution.ResolvedPathSpec | fanotify_monitor.cpp:43-46 | the path is the C string in `path`: empty after a failed lookup, otherwise a NUL-free prefix of the target of at most 4095 bytes, the whole target if it is short and NUL-free, and exactly its first 4095 bytes if it is longer and they hold no NUL |
| Resolution.FgetsLine | fanotify_monitor.cpp:54 | fgets stores at most n-1 bytes, as a prefix of the file |
| Resolution.FgetsLineShape | fanotify_monitor.cpp:54 | fgets stops only after a newline, at end of file or at the size limit |
| Resolution.ProcCmdBuffer | fanotify_monitor.cpp:50-56 | the zeroed procCmd buffer of 256 bytes still ends in NUL after fgets |
| Resolution.ProcessName | fanotify_monitor.cpp:50-56 | the name handed on: empty if the file cannot be opened, otherwise a prefix of its contents, at most 255 bytes and without NUL |
| Resolution.ProcessNameSpec | fanotify_monitor.cpp:50-56 | the name is the C string in procCmd: empty if the file cannot be opened, otherwise a NUL-free prefix of at most 255 bytes that stops early only at a NUL or after a newline |
| Framing.EventOk | fanotify_compat.h:170-174 | FAN_EVENT_OK: at least a header remains, and event_len is at least a header and at most what remains; event_len is read only once a whole header remains |
| Framing.EventOkInBounds | fanotify_compat.h:170-174 | a record that passes FAN_EVENT_OK, header included, lies wholly inside the filled bytes |
| Framing.EventOkLong32 | fanotify_compat.h:171-173 | FAN_EVENT_OK with event_len read through `(long)` where `long` is 32 bits: a full header remains and the signed length is at least a header and at most what remains |
| Framing.EventOkLongWidth | fanotify_compat.h:170-174 | where `long` is 32 bits, so that event_len reads as a signed value, FAN_EVENT_OK gives the same verdict for every count below 2^31 |
| Framing.Next | fanotify_compat.h:165-168 | FAN_EVENT_NEXT keeps cursor + len unchanged, advances by event_len and leaves len at least 0 and at least 24 smaller, so the loop terminates |
| Framing.FrameFrom | fanotify_monitor.cpp:40 | the records the `for` loop visits from a cursor: none exactly when FAN_EVENT_OK fails there |
| Framing.Frame | fanotify_monitor.cpp:40 | the records the `for` loop visits in a buffer of `len` filled bytes: none for a read shorter than a header |
| Framing.FrameFromCount | fanotify_monitor.cpp:40 | every visited record takes at least 24 bytes of the count, so at most len / 24 records are visited |
| Framing.FrameFromLegal | fanotify_monitor.cpp:40 | every visited record has event_len >= 24, ends inside the filled bytes, and carries the header decoded at its offset |
| Framing.FrameFromContiguous | fanotify_monitor.cpp:40 | visited records follow one another with no gap and no overlap |
| Framing.FrameFromStops | fanotify_monitor.cpp:40 | the records cover at most the filled bytes, and the first position after them fails FAN_EVENT_OK |
| Framing.FrameFromSpan | fanotify_monitor.cpp:40 | the visited records cover at most the remaining bytes |
| Framing.FrameFromEnd | fanotify_monitor.cpp:40 | FAN_EVENT_OK fails at the first position after the visited records |
| Framing.FrameSpec | fanotify_monitor.cpp:40 | records of a read start at offset 0, are contiguous and legal, and stop at the first position that fails FAN_EVENT_OK, dropping the tail |
| Framing.FrameNonPositive | fanotify_compat.h:171 | a length of zero or less frames no record |
| Framing.FrameIgnoresTail | fanotify_monitor.cpp:35-40 | bytes past the filled length, left over from earlier reads, never affect framing |
| Framing.OneRecordAndShortTail | fanotify_monitor.cpp:40 | a 32-byte record followed by 10 more bytes frames as exactly that one record |
| Framing.ShortLengthStops | fanotify_compat.h:172 | a record that claims fewer than 24 bytes ends framing, so the cursor cannot stall |
| Framing.OverlongLengthStops | fanotify_compat.h:173 | a record that claims more bytes than remain ends framing |
| Monitor.LinkPathOf | fanotify_monitor.cpp:44-45 | the 64-byte `linkPath` buffer after the descriptor's `snprintf` holds the whole `/proc/self/fd/<fd>` path, never a truncated one |
| Monitor.ProcPathOf | fanotify_monitor.cpp:51 | the same buffer after the pid's `snprintf` holds the whole `/proc/<pid>/cmdline` path, never a truncated one |
| Monitor.EventFor | fanotify_monitor.cpp:43-67 | the four callback arguments of a record: its own pid and raw mask, and path and name strings without NUL, so the host receives all of their bytes |
| Monitor.EventForSpec | fanotify_monitor.cpp:43-67 | the event carries its record's own pid and unmodified mask, and as path and name the C strings left in the `path` and `procCmd` buffers, which NewStringUTF reads; a short NUL-free link target arrives whole; a failed lookup leaves an empty path or name rather than dropping the event |
| Monitor.RecordEffects | fanotify_monitor.cpp:41-67 | what one iteration does with a record: nothing for an overflow marker, otherwise four effects, each close and dispatch right after its lookup, starting with the readlink |
| Monitor.BufferEffects | fanotify_monitor.cpp:36-71 | everything the loop body does with one read: nothing for a read shorter than a header; the trace is ordered and, when non-empty, starts with a lookup |
| Monitor.BufferRecordCount | fanotify_monitor.cpp:35-40 | a read into the buffer of 200 headers frames at most 200 records |
| Monitor.HandleRecord | fanotify_monitor.cpp:41-67 | one record's effects in source order: none for an overflow record, otherwise readlink, close(fd), open of cmdline, dispatch |
| Monitor.ProcessBuffer | fanotify_monitor.cpp:36-71 | the framing loop's effects are those of each framed record in buffer order; a non-positive read does nothing |
| Monitor.StepEffects | fanotify_monitor.cpp:40 | one loop turn handles the record at the cursor, then the rest; nothing is left once FAN_EVENT_OK fails |
| Monitor.DeliveredSpec | fanotify_monitor.cpp:41 | the records handled are exactly the framed records without the overflow bit |
| Monitor.ClosesExactlyOnce | fanotify_monitor.cpp:41-47 | the descriptors closed are the fds of the non-overflow records, each once, in framing order, and no other |
| Monitor.DispatchesInOrder | fanotify_monitor.cpp:58-67 | one dispatch per non-overflow record, in framing order, carrying that record's event |
| Monitor.LookupsOnlyDelivered | fanotify_monitor.cpp:41-52 | `/proc` is consulted only for non-overflow records, two lookups each, link path before cmdline path |
| Monitor.EventsOfSpec | fanotify_monitor.cpp:64-67 | one event per record, each carrying that record's pid and mask |
| Monitor.TraceOrdered | fanotify_monitor.cpp:45-52 | every close comes straight after the readlink of that descriptor's path, and every dispatch straight after the open of that pid's cmdline, whether or not the lookups succeeded |
| Monitor.BufferSpec | fanotify_monitor.cpp:36-71 | for a whole read: no effects when len <= 0; otherwise closes, dispatches and lookups as above, each dispatch carrying its record's pid and mask, all in order |
| Monitor.FailedLookupStillDispatched | fanotify_monitor.cpp:43-47 | when readlink fails, the descriptor is still closed and the event is still dispatched, with an empty path |
| Monitor.NoFdNeverClosed | fanotify_monitor.cpp:41-47 | if the kernel gives FAN_NOFD only to overflow markers, no descriptor the loop closes reads as FAN_NOFD |
| Monitor.MonitorState.constructor | fanotify_monitor.cpp:18 | the flag starts false, with no loop running and nothing done |
| Monitor.MonitorState.Start | fanotify_monitor.cpp:20-32 | start, with the flag test of fanotify_monitor.cpp:80, does nothing while the flag is set; a failed init changes nothing; a failed mark closes the channel and leaves the flag clear; else the flag is set and a loop holds the channel |
| Monitor.MonitorState.Stop | fanotify_monitor.cpp:94-96 | stop clears the flag and changes nothing else |
| Monitor.MonitorState.Check | fanotify_monitor.cpp:34-74 | a loop carries on while the flag is set; otherwise it leaves and closes, exactly once, the channel `fanotify_init` opened for it (a descriptor, never negative) |
| Monitor.MonitorState.Iterate | fanotify_monitor.cpp:35-71 | one pass of a live loop adds the buffer's effects and leaves the flag and the loops alone |

## Left out

- JNI glue is left out as foreign runtime calls: `JNI_OnLoad`, the global callback reference, `GetMethodID`, `AttachCurrentThread`, `NewStringUTF`, `DeleteLocalRef`. The callback is modelled as a `Dispatch` effect carrying the four arguments.
- NewStringUTF's decoding of the path and name bytes as modified UTF-8 is left out: the bytes are handed on as they are.
- The threads are left out: the spawn and `detach` in `startMonitor`, and the atomic access to `gRunning`. Steps are modelled one at a time.
- Monitor.MonitorState.Start: runs the flag test of `startMonitor` (fanotify_monitor.cpp:80) and the acquisition at the top of the spawned loop (fanotify_monitor.cpp:21-32) as one step. So it does not model two things the source allows. Two starts can both pass the flag test before either loop sets the flag, which launches two loops. A stop can run between the flag test and the loop's `gRunning = true`, which overwrites it, so the loop runs anyway.
- The syscall wrappers and per-architecture syscall numbers are left out, as a kernel entry point. What `fanotify_init` and `fanotify_mark` return is a parameter of `Start`.
- The `fanotify_init` and `fanotify_mark` flag constants are left out, because the model never passes them to the kernel.
- `read` is left out, as a kernel call: its result is the buffer contents and the length passed to `ProcessBuffer`. The buffer is the loop's 4800-byte array.
- What `/proc` answers is left out, as operating-system state. Two oracle parameters stand in for it: one for `readlink` targets, one for `cmdline` contents.
- `readlink`'s return value is ignored by the source, and the model ignores it too.
- A `readlink` or `fopen` that fails leaves its buffer untouched. That is the `None` case.
- The `fclose` of the cmdline file is not a trace effect. It follows the `fgets` of every successful `fopen`, and nothing after it depends on it.
- `struct fanotify_response`, FAN_ALLOW and FAN_DENY are left out, because the monitor never uses them. The permission-event bits are kept as constants only.
- The header's `vers` and `metadata_len` fields are decoded but never checked, because the source does not check them either.
- EventMetadata.EventLenAt: reads event_len as `(long)` does where `long` is 64 bits. Where it is 32 bits (`__arm__`, `__i386__`), Framing.EventOkLongWidth shows that FAN_EVENT_OK gives the same verdict for the loop's counts.
- Only little-endian decoding is modelled, matching the targets the header supports.
- Monitor.ProcessBuffer: reads the filled bytes through a snapshot `buf[..]` of the array. Nothing writes the array while the loop runs.

## Findings

None.
