/**
 * Event-mask bits of the fanotify ABI as the compatibility header defines
 * them, and the composite masks built from them. A record's `mask` field is a
 * 64-bit value, so every constant here is a `bv64`.
 */
module FanotifyMasks {

  const FanAccess: bv64 := 0x0000_0001
  const FanModify: bv64 := 0x0000_0002
  const FanCloseWrite: bv64 := 0x0000_0008
  const FanCloseNoWrite: bv64 := 0x0000_0010
  const FanOpen: bv64 := 0x0000_0020
  const FanMovedFrom: bv64 := 0x0000_0040
  const FanMovedTo: bv64 := 0x0000_0080
  const FanCreate: bv64 := 0x0000_0100
  const FanDelete: bv64 := 0x0000_0200
  const FanQOverflow: bv64 := 0x0000_4000
  const FanOpenPerm: bv64 := 0x0001_0000
  const FanAccessPerm: bv64 := 0x0002_0000
  const FanEventOnChild: bv64 := 0x0800_0000
  const FanOnDir: bv64 := 0x4000_0000

  /** Composite masks, written as the header writes them: unions of the bits above. */
  const FanClose: bv64 := FanCloseWrite | FanCloseNoWrite
  const FanMove: bv64 := FanMovedFrom | FanMovedTo
  const FanAllEvents: bv64 := FanAccess | FanModify | FanClose | FanOpen
  const FanAllPermEvents: bv64 := FanOpenPerm | FanAccessPerm
  const FanAllOutgoingEvents: bv64 := FanAllEvents | FanAllPermEvents | FanQOverflow

  /** The events the monitor registers for on the root mount. */
  const MonitoredEvents: bv64 := FanOpen | FanAccess | FanModify | FanCloseWrite | FanDelete

  /** The single-event flags, by name. */
  datatype Flag =
    | Access | Modify | CloseWrite | CloseNoWrite | Open
    | MovedFrom | MovedTo | Create | Delete | QOverflow
    | OpenPerm | AccessPerm | EventOnChild | OnDir

  /** The header's constant for each flag. */
  function Value(f: Flag): bv64 {
    match f
    case Access => FanAccess
    case Modify => FanModify
    case CloseWrite => FanCloseWrite
    case CloseNoWrite => FanCloseNoWrite
    case Open => FanOpen
    case MovedFrom => FanMovedFrom
    case MovedTo => FanMovedTo
    case Create => FanCreate
    case Delete => FanDelete
    case QOverflow => FanQOverflow
    case OpenPerm => FanOpenPerm
    case AccessPerm => FanAccessPerm
    case EventOnChild => FanEventOnChild
    case OnDir => FanOnDir
  }

  /** The bit position the fanotify ABI assigns to each flag. */
  function BitIndex(f: Flag): (k: nat)
    ensures k < 64
  {
    match f
    case Access => 0
    case Modify => 1
    case CloseWrite => 3
    case CloseNoWrite => 4
    case Open => 5
    case MovedFrom => 6
    case MovedTo => 7
    case Create => 8
    case Delete => 9
    case QOverflow => 14
    case OpenPerm => 16
    case AccessPerm => 17
    case EventOnChild => 27
    case OnDir => 30
  }

  /** True when `mask` carries the bit(s) of `flag`, as `mask & FLAG` tests it in C. */
  predicate HasBits(mask: bv64, flag: bv64) {
    mask & flag != 0
  }

  /** A record is an overflow marker when its mask carries the queue-overflow bit. */
  predicate IsOverflow(mask: bv64)
    ensures IsOverflow(mask) <==> mask & FanQOverflow == FanQOverflow
  {
    HasBits(mask, FanQOverflow)
  }

  /** Each flag is exactly one bit, at the position the ABI assigns it. */
  lemma FlagIsSingleBit(f: Flag)
    ensures Value(f) == (1 as bv64) << BitIndex(f)
    ensures Value(f) != 0 && Value(f) & (Value(f) - 1) == 0
  {
  }

  /** Different flags occupy different bits, so they are pairwise disjoint. */
  lemma FlagsDisjoint(f: Flag, g: Flag)
    ensures f != g <==> Value(f) & Value(g) == 0
    ensures f != g <==> BitIndex(f) != BitIndex(g)
  {
  }

  /** The composite masks have the values the fanotify ABI documents. */
  lemma CompositeValues()
    ensures FanClose == 0x18
    ensures FanMove == 0xC0
    ensures FanAllEvents == 0x3B
    ensures FanAllPermEvents == 0x3_0000
    ensures FanAllOutgoingEvents == 0x3_403B
    ensures MonitoredEvents == 0x22B
  {
  }

  /** The outgoing-events union includes the queue-overflow marker; the monitored set does not. */
  lemma OverflowMembership()
    ensures IsOverflow(FanAllOutgoingEvents)
    ensures !IsOverflow(MonitoredEvents)
    ensures !IsOverflow(FanAllEvents)
  {
  }

  /** A mask tests as overflow exactly when its bit 14 is set, whatever other bits it carries. */
  lemma OverflowIsBit14(mask: bv64)
    ensures IsOverflow(mask) <==> (mask >> 14) & 1 == 1
    ensures IsOverflow(mask) <==> IsOverflow(mask | FanAllEvents)
  {
  }
}
