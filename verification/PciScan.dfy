/** The recursive bus scan and the list it records. */
module PciScan {
  import opened Bits
  import opened Wrappers
  import opened PciTopology

  const DEVICE_CAPACITY: nat := 32

  /** The fields the scan reads, each by bus, device and function. */
  datatype Registers = Registers(vendorId: (Byte, Byte, Byte) -> nat, headerType: (Byte, Byte, Byte) -> Byte,
                                 classCode: (Byte, Byte, Byte) -> ClassCode, secondaryBus: (Byte, Byte, Byte) -> Byte)

  /** header_type & 0b10000000 == 0 */
  predicate IsSingleFunctionDevice(headerType: Byte) {
    headerType / 0x80 % 2 == 0
  }

  function DeviceAt(regs: Registers, bus: Byte, d: Byte, f: Byte): Device {
    Device(bus, d, f, regs.headerType(bus, d, f), regs.classCode(bus, d, f))
  }

  /** A function as scan_function treats it. */
  function FunctionSlot(regs: Registers, bus: Byte, d: Byte, f: Byte): (s: Slot)
    ensures !s.Absent?
  {
    var self := DeviceAt(regs, bus, d, f);
    if self.classCode.base == 0x06 && self.classCode.sub == 0x04
    then Bridge(self, regs.secondaryBus(bus, d, f))
    else Endpoint(self)
  }

  /** Function f of device d is visited: the device answers, and for f > 0 it is a
      multi-function device whose function answers. */
  predicate Found(regs: Registers, bus: Byte, d: Byte, f: Byte) {
    && regs.vendorId(bus, d, 0) != 0xffff
    && (f == 0 || (!IsSingleFunctionDevice(regs.headerType(bus, d, 0)) && regs.vendorId(bus, d, f) != 0xffff))
  }

  function SlotAt(regs: Registers, bus: Byte, d: Byte, f: Byte): Slot {
    if Found(regs, bus, d, f) then FunctionSlot(regs, bus, d, f) else Absent
  }

  function TopologyOf(regs: Registers): Topology {
    (bus: Byte, k: nat) => if k < SLOTS then SlotAt(regs, bus, k / 8, k % 8) else Absent
  }

  /** The topology gives, at slot 8 * d + f, what the registers say of function f of device d. */
  ghost predicate Reflects(t: Topology, regs: Registers) {
    forall bus: Byte, d: Byte, f: Byte {:trigger SlotAt(regs, bus, d, f)} :: d < 32 && f < 8 ==>
      t(bus, 8 * d + f) == SlotAt(regs, bus, d, f)
  }

  lemma TopologyIsLabelled(regs: Registers)
    ensures Labelled(TopologyOf(regs))
  {
  }

  lemma TopologyReflects(regs: Registers)
    ensures Reflects(TopologyOf(regs), regs)
  {
    forall bus: Byte, d: Byte, f: Byte | d < 32 && f < 8
      ensures TopologyOf(regs)(bus, 8 * d + f) == SlotAt(regs, bus, d, f)
    {
      assert (8 * d + f) / 8 == d && (8 * d + f) % 8 == f;
    }
  }

  /** A scan that set out to record `l`: it ends normally exactly when `l` exists and fits, having
      appended it; otherwise the push on a full list panics. */
  ghost predicate Outcome(was: seq<Device>, l: Listing, now: seq<Device>, ok: bool) {
    && |was| <= |now| <= DEVICE_CAPACITY
    && (ok <==> Fits(l, DEVICE_CAPACITY - |was|))
    && (ok ==> now == was + l.value)
    && (!ok ==> |now| == DEVICE_CAPACITY && was <= now)
  }

  /** Two scans in a row record the two listings in a row. */
  lemma OutcomeOfTwo(t: Topology, bus: Byte, k: nat, mid: nat, end: nat, depth: nat, was: seq<Device>,
                     between: seq<Device>, now: seq<Device>, ok: bool)
    requires k <= mid <= end && |was| <= DEVICE_CAPACITY && depth == DEVICE_CAPACITY - |was|
    requires Outcome(was, BusListing(t, bus, k, mid, depth), between, true)
    requires Outcome(between, BusListing(t, bus, mid, end, DEVICE_CAPACITY - |between|), now, ok)
    ensures Outcome(was, BusListing(t, bus, k, end, depth), now, ok)
  {
    ListingSplits(t, bus, k, mid, end, depth);
    FitsAtAnyDepth(t, bus, mid, end, DEVICE_CAPACITY - |between|, depth);
    var l := BusListing(t, bus, mid, end, depth);
    if l.Some? {
      assert was + BusListing(t, bus, k, mid, depth).value + l.value == was + (BusListing(t, bus, k, mid, depth).value + l.value);
    }
  }

  /** What a panic half way means for the whole. */
  lemma OutcomeOfPanic(t: Topology, bus: Byte, k: nat, mid: nat, end: nat, depth: nat, was: seq<Device>, now: seq<Device>)
    requires k <= mid <= end && |was| <= DEVICE_CAPACITY && depth == DEVICE_CAPACITY - |was|
    requires Outcome(was, BusListing(t, bus, k, mid, depth), now, false)
    ensures Outcome(was, BusListing(t, bus, k, end, depth), now, false)
  {
    ListingSplits(t, bus, k, mid, end, depth);
  }

  /** Either of the two: the second scan runs only when the first has ended normally. */
  lemma OutcomeInSequence(t: Topology, bus: Byte, k: nat, mid: nat, end: nat, depth: nat, was: seq<Device>,
                          between: seq<Device>, first: bool, now: seq<Device>, ok: bool)
    requires k <= mid <= end && |was| <= DEVICE_CAPACITY && depth == DEVICE_CAPACITY - |was|
    requires Outcome(was, BusListing(t, bus, k, mid, depth), between, first)
    requires if first then Outcome(between, BusListing(t, bus, mid, end, DEVICE_CAPACITY - |between|), now, ok)
             else now == between && !ok
    ensures Outcome(was, BusListing(t, bus, k, end, depth), now, ok)
  {
    if first {
      OutcomeOfTwo(t, bus, k, mid, end, depth, was, between, now, ok);
    } else {
      OutcomeOfPanic(t, bus, k, mid, end, depth, was, now);
    }
  }

  /** One slot is a listing of its own. */
  lemma OneSlot(t: Topology, bus: Byte, k: nat, depth: nat)
    ensures BusListing(t, bus, k, k + 1, depth) == SlotListing(t, t(bus, k), depth)
  {
    var l := SlotListing(t, t(bus, k), depth);
    assert BusListing(t, bus, k + 1, k + 1, depth) == Some([]);
    if l.Some? {
      assert l.value + [] == l.value;
    }
  }

  lemma VisitedSlot(t: Topology, regs: Registers, bus: Byte, d: Byte, f: Byte, depth: nat)
    requires Reflects(t, regs) && d < 32 && f < 8 && Found(regs, bus, d, f)
    ensures BusListing(t, bus, 8 * d + f, 8 * d + f + 1, depth) == SlotListing(t, FunctionSlot(regs, bus, d, f), depth)
  {
    assert SlotAt(regs, bus, d, f) == FunctionSlot(regs, bus, d, f);
    OneSlot(t, bus, 8 * d + f, depth);
  }

  lemma SkippedSlot(t: Topology, regs: Registers, bus: Byte, d: Byte, f: Byte, depth: nat)
    requires Reflects(t, regs) && d < 32 && f < 8 && !Found(regs, bus, d, f)
    ensures BusListing(t, bus, 8 * d + f, 8 * d + f + 1, depth) == Some([])
  {
    assert SlotAt(regs, bus, d, f) == Absent;
    OneSlot(t, bus, 8 * d + f, depth);
  }

  /** From function f on, the device contributes nothing. */
  lemma {:induction false} EmptySlots(t: Topology, regs: Registers, bus: Byte, d: Byte, f: nat, depth: nat)
    requires Reflects(t, regs) && d < 32 && f <= 8
    requires forall g: nat :: f <= g < 8 ==> !Found(regs, bus, d, g)
    ensures BusListing(t, bus, 8 * d + f, 8 * d + 8, depth) == Some([])
    decreases 8 - f
  {
    if f < 8 {
      SkippedSlot(t, regs, bus, d, f, depth);
      EmptySlots(t, regs, bus, d, f + 1, depth);
      ListingSplits(t, bus, 8 * d + f, 8 * d + f + 1, 8 * d + 8, depth);
      var none: seq<Device> := [];
      assert none + none == none;
    }
  }

  class Devices {
    const regs: Registers
    var list: seq<Device>

    /** What the registers describe. */
    ghost const t: Topology

    ghost predicate Valid()
      reads this
    {
      |list| <= DEVICE_CAPACITY && Reflects(t, regs)
    }

    constructor (regs: Registers)
      ensures Valid() && list == [] && this.regs == regs && t == TopologyOf(regs)
    {
      this.regs := regs;
      list := [];
      t := TopologyOf(regs);
      TopologyReflects(regs);
    }

    /** The push of a fixed-capacity vector; `ok` is false where it panics. */
    method AddDevice(device: Device) returns (ok: bool)
      requires |list| <= DEVICE_CAPACITY
      modifies this
      ensures ok <==> |old(list)| < 32
      ensures list == if ok then old(list) + [device] else old(list)
    {
      if |list| == DEVICE_CAPACITY {
        return false;
      }
      list := list + [device];
      return true;
    }

    /** The bounds on d and f, met at every call, are those that make its configuration addresses
        decode to what they were made from. */
    method ScanFunction(bus: Byte, d: Byte, f: Byte) returns (ok: bool)
      requires Valid() && d < 32 && f < 8
      modifies this
      ensures Valid()
      ensures Outcome(old(list), SlotListing(t, FunctionSlot(regs, bus, d, f), DEVICE_CAPACITY - |old(list)|), list, ok)
      decreases DEVICE_CAPACITY - |list|, 0
    {
      var headerType := regs.headerType(bus, d, f);
      var classCode := regs.classCode(bus, d, f);
      ok := AddDevice(Device(bus, d, f, headerType, classCode));
      if !ok {
        return;
      }
      if classCode.base == 0x06 && classCode.sub == 0x04 {
        var secondaryBus := regs.secondaryBus(bus, d, f);
        ok := ScanBus(secondaryBus);
      }
    }

    /** One round of the function loop. */
    method VisitFunction(bus: Byte, d: Byte, f: Byte) returns (ok: bool)
      requires Valid() && d < 32 && 0 < f < 8
      requires regs.vendorId(bus, d, 0) != 0xffff && !IsSingleFunctionDevice(regs.headerType(bus, d, 0))
      modifies this
      ensures Valid()
      ensures Outcome(old(list), BusListing(t, bus, 8 * d + f, 8 * d + f + 1, DEVICE_CAPACITY - |old(list)|), list, ok)
      decreases DEVICE_CAPACITY - |list|, 1
    {
      if regs.vendorId(bus, d, f) == 0xffff {
        SkippedSlot(t, regs, bus, d, f, DEVICE_CAPACITY - |list|);
        return true;
      }
      VisitedSlot(t, regs, bus, d, f, DEVICE_CAPACITY - |list|);
      ok := ScanFunction(bus, d, f);
    }

    method ScanDevice(bus: Byte, d: Byte) returns (ok: bool)
      requires Valid() && d < 32 && regs.vendorId(bus, d, 0) != 0xffff
      modifies this
      ensures Valid()
      ensures Outcome(old(list), BusListing(t, bus, 8 * d, 8 * d + 8, DEVICE_CAPACITY - |old(list)|), list, ok)
      decreases DEVICE_CAPACITY - |list|, 3
    {
      ghost var was, depth := list, DEVICE_CAPACITY - |list|;
      VisitedSlot(t, regs, bus, d, 0, depth);
      ok := ScanFunction(bus, d, 0);
      ghost var between, visited := list, ok;
      if ok {
        if IsSingleFunctionDevice(regs.headerType(bus, d, 0)) {
          EmptySlots(t, regs, bus, d, 1, DEVICE_CAPACITY - |list|);
        } else {
          ok := ScanOtherFunctions(bus, d);
        }
      }
      OutcomeInSequence(t, bus, 8 * d, 8 * d + 1, 8 * d + 8, depth, was, between, visited, list, ok);
    }

    /** The loop over functions 1 to 7 of a multi-function device. */
    method ScanOtherFunctions(bus: Byte, d: Byte) returns (ok: bool)
      requires Valid() && d < 32
      requires regs.vendorId(bus, d, 0) != 0xffff && !IsSingleFunctionDevice(regs.headerType(bus, d, 0))
      modifies this
      ensures Valid()
      ensures Outcome(old(list), BusListing(t, bus, 8 * d + 1, 8 * d + 8, DEVICE_CAPACITY - |old(list)|), list, ok)
      decreases DEVICE_CAPACITY - |list|, 2
    {
      ghost var was, depth, k := list, DEVICE_CAPACITY - |list|, 8 * d + 1;
      for f := 1 to 8
        invariant Outcome(was, BusListing(t, bus, k, 8 * d + f, depth), list, true)
      {
        ghost var between := list;
        ok := VisitFunction(bus, d, f);
        OutcomeOfTwo(t, bus, k, 8 * d + f, 8 * d + f + 1, depth, was, between, list, ok);
        if !ok {
          OutcomeOfPanic(t, bus, k, 8 * d + f + 1, 8 * d + 8, depth, was, list);
          return;
        }
      }
      return true;
    }

    /** One round of the device loop. */
    method VisitDevice(bus: Byte, d: Byte) returns (ok: bool)
      requires Valid() && d < 32
      modifies this
      ensures Valid()
      ensures Outcome(old(list), BusListing(t, bus, 8 * d, 8 * d + 8, DEVICE_CAPACITY - |old(list)|), list, ok)
      decreases DEVICE_CAPACITY - |list|, 4
    {
      if regs.vendorId(bus, d, 0) == 0xffff {
        EmptySlots(t, regs, bus, d, 0, DEVICE_CAPACITY - |list|);
        return true;
      }
      ok := ScanDevice(bus, d);
    }

    method ScanBus(bus: Byte) returns (ok: bool)
      requires Valid()
      modifies this
      ensures Valid()
      ensures Outcome(old(list), BusListing(t, bus, 0, SLOTS, DEVICE_CAPACITY - |old(list)|), list, ok)
      decreases DEVICE_CAPACITY - |list|, 5
    {
      ghost var was, depth := list, DEVICE_CAPACITY - |list|;
      for d := 0 to 32
        invariant Outcome(was, BusListing(t, bus, 0, 8 * d, depth), list, true)
      {
        ghost var between := list;
        ok := VisitDevice(bus, d);
        OutcomeOfTwo(t, bus, 0, 8 * d, 8 * d + 8, depth, was, between, list, ok);
        if !ok {
          OutcomeOfPanic(t, bus, 0, 8 * d + 8, SLOTS, depth, was, list);
          return;
        }
      }
      return true;
    }

    /** Scans bus 0, or one bus per function of a multi-function host bridge. It ends normally
        exactly when no bridge loop lies behind a root bus and the enumeration of the machine fits
        the room left; anything else ends in the panic on a full list. */
    method ScanAllBus() returns (ok: bool)
      requires Valid()
      modifies this
      ensures Valid()
      ensures ok <==> !LoopBehindARoot(t, regs) && |old(list)| + |Enumeration(t, regs)| <= 32
      ensures LoopBehindARoot(t, regs) <==> exists p :: Route(regs, p) && Revisits(p)
      ensures ok ==> list == old(list) + Enumeration(t, regs)
      ensures ok ==> forall x :: x in list <==> x in old(list) || IsFunction(regs, x)
      ensures !ok ==> |list| == 32 && old(list) <= list
    {
      ghost var was := list;
      if IsSingleFunctionDevice(regs.headerType(0, 0, 0)) {
        ok := ScanBus(0);
      } else {
        ok := ScanRoots();
      }
      MachineOutcome(t, regs, was, list, ok);
      LoopsIff(t, regs);
      if ok {
        forall x
          ensures x in list <==> x in was || IsFunction(regs, x)
        {
          EnumeratesTheFunctions(t, regs, x);
        }
      }
    }

    /** The loop over the functions of a multi-function host bridge. */
    method ScanRoots() returns (ok: bool)
      requires Valid()
      modifies this
      ensures Valid()
      ensures Outcome(old(list), RootsBelow(t, regs, 8, DEVICE_CAPACITY - |old(list)|), list, ok)
    {
      ghost var was, depth := list, DEVICE_CAPACITY - |list|;
      for func := 0 to 8
        invariant Outcome(was, RootsBelow(t, regs, func, depth), list, true)
      {
        if regs.vendorId(0, 0, func) == 0xffff {
          RootsSkip(t, regs, func, depth);
          continue;
        }
        ghost var between := list;
        ok := ScanBus(func);
        RootsStep(t, regs, func, depth, was, between, list, ok);
        if !ok {
          RootsPanic(t, regs, func + 1, 8, depth);
          return;
        }
      }
      return true;
    }
  }

  /** The listings of the first `n` root buses of a multi-function host bridge, in order. */
  function RootsBelow(t: Topology, regs: Registers, n: nat, depth: nat): Listing
    requires n <= 8
  {
    if n == 0 then Some([])
    else if regs.vendorId(0, 0, n - 1) == 0xffff then RootsBelow(t, regs, n - 1, depth)
    else Append(RootsBelow(t, regs, n - 1, depth), BusListing(t, n - 1, 0, SLOTS, depth))
  }

  /** Everything the scan of a machine is meant to record. */
  function RootListing(t: Topology, regs: Registers, depth: nat): Listing {
    if IsSingleFunctionDevice(regs.headerType(0, 0, 0))
    then BusListing(t, 0, 0, SLOTS, depth)
    else RootsBelow(t, regs, 8, depth)
  }

  /** The scan starts at this bus. */
  predicate IsRoot(regs: Registers, bus: Byte) {
    if IsSingleFunctionDevice(regs.headerType(0, 0, 0)) then bus == 0
    else bus < 8 && regs.vendorId(0, 0, bus) != 0xffff
  }

  ghost predicate LoopBehindARoot(t: Topology, regs: Registers) {
    exists bus: Byte :: IsRoot(regs, bus) && LoopBehind(t, bus)
  }

  /** The whole machine, depth first: its listing at any depth that is enough. */
  ghost function Enumeration(t: Topology, regs: Registers): seq<Device>
    requires !LoopBehindARoot(t, regs)
  {
    EnumeratedIff(t, regs);
    var depth: nat :| RootListing(t, regs, depth).Some?;
    RootListing(t, regs, depth).value
  }

  ghost predicate LoopBehindRootBelow(t: Topology, regs: Registers, n: nat)
    requires n <= 8
  {
    exists bus: Byte :: bus < n && regs.vendorId(0, 0, bus) != 0xffff && LoopBehind(t, bus)
  }

  lemma {:induction false} RootsListedIff(t: Topology, regs: Registers, n: nat, depth: nat)
    requires n <= 8
    ensures RootsBelow(t, regs, n, depth).Some? ==> !LoopBehindRootBelow(t, regs, n)
    ensures depth == BUSES && !LoopBehindRootBelow(t, regs, n) ==> RootsBelow(t, regs, n, depth).Some?
  {
    if n > 0 {
      RootsListedIff(t, regs, n - 1, depth);
      BusListedIff(t, n - 1, depth);
      LoopBehindRootStep(t, regs, n - 1);
    }
  }

  lemma LoopBehindRootStep(t: Topology, regs: Registers, n: nat)
    requires n < 8
    ensures LoopBehindRootBelow(t, regs, n + 1) <==>
            LoopBehindRootBelow(t, regs, n) || (regs.vendorId(0, 0, n) != 0xffff && LoopBehind(t, n))
  {
  }

  lemma BusListedIff(t: Topology, bus: Byte, depth: nat)
    ensures BusListing(t, bus, 0, SLOTS, depth).Some? ==> !LoopBehind(t, bus)
    ensures depth == BUSES && !LoopBehind(t, bus) ==> BusListing(t, bus, 0, SLOTS, depth).Some?
  {
    ListedIffNoLoop(t, bus);
    if BusListing(t, bus, 0, SLOTS, depth).Some? {
      assert exists d: nat :: BusListing(t, bus, 0, SLOTS, d).Some?;
    } else if depth == BUSES && !LoopBehind(t, bus) {
      NoLoopIsListed(t, bus, depth);
    }
  }

  lemma RootListedIff(t: Topology, regs: Registers, depth: nat)
    ensures RootListing(t, regs, depth).Some? ==> !LoopBehindARoot(t, regs)
    ensures depth == BUSES && !LoopBehindARoot(t, regs) ==> RootListing(t, regs, depth).Some?
  {
    if IsSingleFunctionDevice(regs.headerType(0, 0, 0)) {
      BusListedIff(t, 0, depth);
      assert IsRoot(regs, 0);
    } else {
      RootsListedIff(t, regs, 8, depth);
      assert forall bus: Byte :: IsRoot(regs, bus) <==> bus < 8 && regs.vendorId(0, 0, bus) != 0xffff;
    }
  }

  /** The enumeration of the machine exists exactly when no bridge loop lies behind a root. */
  lemma EnumeratedIff(t: Topology, regs: Registers)
    ensures (exists depth: nat :: RootListing(t, regs, depth).Some?) <==> !LoopBehindARoot(t, regs)
  {
    RootListedIff(t, regs, BUSES);
    forall depth: nat
      ensures RootListing(t, regs, depth).Some? ==> !LoopBehindARoot(t, regs)
    {
      RootListedIff(t, regs, depth);
    }
  }

  /** As for one bus, room decides: the depth allowed makes no difference to what fits. */
  lemma {:induction false} RootsFitAtAnyDepth(t: Topology, regs: Registers, n: nat, room: nat, depth: nat)
    requires n <= 8 && room <= depth
    ensures Fits(RootsBelow(t, regs, n, room), room) <==> Fits(RootsBelow(t, regs, n, depth), room)
    ensures Fits(RootsBelow(t, regs, n, room), room) ==> RootsBelow(t, regs, n, room) == RootsBelow(t, regs, n, depth)
  {
    if n > 0 {
      RootsFitAtAnyDepth(t, regs, n - 1, room, depth);
      FitsAtAnyDepth(t, n - 1, 0, SLOTS, room, depth);
    }
  }

  lemma RootFitsAtAnyDepth(t: Topology, regs: Registers, room: nat, depth: nat)
    requires room <= depth
    ensures Fits(RootListing(t, regs, room), room) <==> Fits(RootListing(t, regs, depth), room)
    ensures Fits(RootListing(t, regs, room), room) ==> RootListing(t, regs, room) == RootListing(t, regs, depth)
  {
    if IsSingleFunctionDevice(regs.headerType(0, 0, 0)) {
      FitsAtAnyDepth(t, 0, 0, SLOTS, room, depth);
    } else {
      RootsFitAtAnyDepth(t, regs, 8, room, depth);
    }
  }

  lemma {:induction false} RootsDepthIsMonotone(t: Topology, regs: Registers, n: nat, d: nat, e: nat)
    requires n <= 8 && d <= e && RootsBelow(t, regs, n, d).Some?
    ensures RootsBelow(t, regs, n, e) == RootsBelow(t, regs, n, d)
  {
    if n > 0 {
      RootsDepthIsMonotone(t, regs, n - 1, d, e);
      if regs.vendorId(0, 0, n - 1) != 0xffff {
        DepthIsMonotone(t, n - 1, 0, SLOTS, d, e);
      }
    }
  }

  lemma RootDepthIsMonotone(t: Topology, regs: Registers, d: nat, e: nat)
    requires d <= e && RootListing(t, regs, d).Some?
    ensures RootListing(t, regs, e) == RootListing(t, regs, d)
  {
    if IsSingleFunctionDevice(regs.headerType(0, 0, 0)) {
      DepthIsMonotone(t, 0, 0, SLOTS, d, e);
    } else {
      RootsDepthIsMonotone(t, regs, 8, d, e);
    }
  }

  /** What the scan can record in the room it has, against the enumeration of the machine. */
  lemma RootFitsIff(t: Topology, regs: Registers, room: nat)
    ensures Fits(RootListing(t, regs, room), room) <==>
            !LoopBehindARoot(t, regs) && |Enumeration(t, regs)| <= room
    ensures Fits(RootListing(t, regs, room), room) ==> RootListing(t, regs, room).value == Enumeration(t, regs)
  {
    RootListedIff(t, regs, room);
    if !LoopBehindARoot(t, regs) {
      EnumeratedIff(t, regs);
      var depth: nat :| RootListing(t, regs, depth).Some? && RootListing(t, regs, depth).value == Enumeration(t, regs);
      if depth <= room {
        RootDepthIsMonotone(t, regs, depth, room);
      } else {
        RootFitsAtAnyDepth(t, regs, room, depth);
      }
    }
  }

  lemma MachineOutcome(t: Topology, regs: Registers, was: seq<Device>, now: seq<Device>, ok: bool)
    requires |was| <= DEVICE_CAPACITY && Outcome(was, RootListing(t, regs, DEVICE_CAPACITY - |was|), now, ok)
    ensures ok <==> !LoopBehindARoot(t, regs) && |was| + |Enumeration(t, regs)| <= DEVICE_CAPACITY
    ensures ok ==> now == was + Enumeration(t, regs)
  {
    RootFitsIff(t, regs, DEVICE_CAPACITY - |was|);
  }

  /** Bridges numbered as firmware numbers them, away from the root, leave only the room to
      decide. */
  lemma UpwardBridgesAreEnumerated(t: Topology, regs: Registers)
    requires forall b: Byte, k: nat :: k < SLOTS && t(b, k).Bridge? ==> b < t(b, k).secondary
    ensures !LoopBehindARoot(t, regs)
  {
    forall bus: Byte
      ensures !LoopBehind(t, bus)
    {
      UpwardBridgesMakeNoLoop(t, bus);
    }
  }

  /** The buses entered for the first `n` roots, and for the machine. */
  function RootsEntered(t: Topology, regs: Registers, n: nat, depth: nat): seq<Byte>
    requires n <= 8
  {
    if n == 0 then []
    else if regs.vendorId(0, 0, n - 1) == 0xffff then RootsEntered(t, regs, n - 1, depth)
    else RootsEntered(t, regs, n - 1, depth) + ([n - 1] + Entered(t, n - 1, 0, depth))
  }

  function RootEntered(t: Topology, regs: Registers, depth: nat): seq<Byte> {
    if IsSingleFunctionDevice(regs.headerType(0, 0, 0)) then [0] + Entered(t, 0, 0, depth)
    else RootsEntered(t, regs, 8, depth)
  }

  lemma {:induction false} RootsAccount(t: Topology, regs: Registers, n: nat, depth: nat)
    requires Labelled(t) && n <= 8 && RootsBelow(t, regs, n, depth).Some?
    ensures Accounts(t, RootsBelow(t, regs, n, depth).value, RootsEntered(t, regs, n, depth))
  {
    if n > 0 {
      RootsAccount(t, regs, n - 1, depth);
      if regs.vendorId(0, 0, n - 1) != 0xffff {
        OneMoreRoot(t, n - 1, depth, RootsBelow(t, regs, n - 1, depth).value, RootsEntered(t, regs, n - 1, depth));
      }
    } else {
      NothingAccounts(t);
    }
  }

  lemma NothingAccounts(t: Topology)
    ensures Accounts(t, [], [])
  {
  }

  lemma OneMoreRoot(t: Topology, bus: Byte, depth: nat, l: seq<Device>, entered: seq<Byte>)
    requires Labelled(t) && BusListing(t, bus, 0, SLOTS, depth).Some? && Accounts(t, l, entered)
    ensures Accounts(t, l + BusListing(t, bus, 0, SLOTS, depth).value, entered + ([bus] + Entered(t, bus, 0, depth)))
  {
    ListingAccounts(t, bus, depth);
    AccountsAppend(t, l, entered, BusListing(t, bus, 0, SLOTS, depth).value, [bus] + Entered(t, bus, 0, depth));
  }

  /** What ScanAllBus appends holds no function twice exactly when no populated bus is entered
      twice. */
  lemma ScanRecordsNoDuplicatesIff(t: Topology, regs: Registers, depth: nat)
    requires t == TopologyOf(regs) && !LoopBehindARoot(t, regs)
    requires depth == BUSES || RootListing(t, regs, depth).Some?
    ensures NoDuplicates(Enumeration(t, regs)) <==>
            forall b: Byte :: Populated(t, b) ==> Times(RootEntered(t, regs, depth), b) <= 1
  {
    TopologyIsLabelled(regs);
    RootListedIff(t, regs, depth);
    EnumeratedAtDepth(t, regs, depth);
    if IsSingleFunctionDevice(regs.headerType(0, 0, 0)) {
      ListingAccounts(t, 0, depth);
    } else {
      RootsAccount(t, regs, 8, depth);
    }
    NoDuplicatesIff(t, Enumeration(t, regs), RootEntered(t, regs, depth));
  }

  /** Every listing of the machine is its enumeration. */
  lemma EnumeratedAtDepth(t: Topology, regs: Registers, depth: nat)
    requires RootListing(t, regs, depth).Some?
    ensures !LoopBehindARoot(t, regs) && RootListing(t, regs, depth).value == Enumeration(t, regs)
  {
    RootListedIff(t, regs, depth);
    EnumeratedIff(t, regs);
    var d: nat :| RootListing(t, regs, d).Some? && RootListing(t, regs, d).value == Enumeration(t, regs);
    if d <= depth {
      RootDepthIsMonotone(t, regs, d, depth);
    } else {
      RootDepthIsMonotone(t, regs, depth, d);
    }
  }

  lemma RootsSkip(t: Topology, regs: Registers, n: nat, depth: nat)
    requires n < 8 && regs.vendorId(0, 0, n) == 0xffff
    ensures RootsBelow(t, regs, n + 1, depth) == RootsBelow(t, regs, n, depth)
  {
  }

  lemma RootsStep(t: Topology, regs: Registers, n: nat, depth: nat, was: seq<Device>, between: seq<Device>, now: seq<Device>, ok: bool)
    requires n < 8 && regs.vendorId(0, 0, n) != 0xffff
    requires |was| <= DEVICE_CAPACITY && depth == DEVICE_CAPACITY - |was|
    requires Outcome(was, RootsBelow(t, regs, n, depth), between, true)
    requires Outcome(between, BusListing(t, n, 0, SLOTS, DEVICE_CAPACITY - |between|), now, ok)
    ensures Outcome(was, RootsBelow(t, regs, n + 1, depth), now, ok)
  {
    FitsAtAnyDepth(t, n, 0, SLOTS, DEVICE_CAPACITY - |between|, depth);
    var l, m := RootsBelow(t, regs, n, depth), BusListing(t, n, 0, SLOTS, depth);
    if m.Some? {
      assert was + l.value + m.value == was + (l.value + m.value);
    }
  }

  /** A root that does not fit keeps the whole from fitting. */
  lemma {:induction false} RootsPanic(t: Topology, regs: Registers, n: nat, m: nat, room: nat)
    requires n <= m <= 8 && !Fits(RootsBelow(t, regs, n, room), room)
    ensures !Fits(RootsBelow(t, regs, m, room), room)
  {
    if n < m {
      RootsPanic(t, regs, n, m - 1, room);
    }
  }

  // What is enumerated, in terms of the registers alone

  /** A function answers: its device does, at function 0, and for f > 0 the device is a
      multi-function device (bit 7 of the header type) whose function f answers. */
  predicate Answers(regs: Registers, b: Byte, d: Byte, f: Byte) {
    && d < 32 && f < 8 && regs.vendorId(b, d, 0) != 0xffff
    && (f == 0 || (regs.headerType(b, d, 0) >= 0x80 && regs.vendorId(b, d, f) != 0xffff))
  }

  /** A function of bus b that answers is a PCI-to-PCI bridge (class 06.04) to bus s. */
  ghost predicate BridgedTo(regs: Registers, b: Byte, s: Byte) {
    exists d: Byte, f: Byte ::
      && Answers(regs, b, d, f)
      && regs.classCode(b, d, f).base == 0x06 && regs.classCode(b, d, f).sub == 0x04
      && regs.secondaryBus(b, d, f) == s
  }

  /** The scan starts at bus 0 of a single-function host bridge, or at one bus for each function of
      a multi-function one that answers. */
  predicate StartsAt(regs: Registers, b: Byte) {
    if regs.headerType(0, 0, 0) < 0x80 then b == 0 else b < 8 && regs.vendorId(0, 0, b) != 0xffff
  }

  /** A way from a start through bridges. */
  ghost predicate Route(regs: Registers, p: seq<Byte>) {
    && |p| > 0 && StartsAt(regs, p[0])
    && forall i {:trigger p[i]} :: 0 <= i < |p| - 1 ==> BridgedTo(regs, p[i], p[i + 1])
  }

  ghost predicate Reached(regs: Registers, b: Byte) {
    exists p :: Route(regs, p) && p[|p| - 1] == b
  }

  /** A function of a bus that is reached, with its registers. */
  ghost predicate IsFunction(regs: Registers, x: Device) {
    && Reached(regs, x.bus) && Answers(regs, x.bus, x.device, x.func)
    && x.headerType == regs.headerType(x.bus, x.device, x.func) && x.classCode == regs.classCode(x.bus, x.device, x.func)
  }

  lemma StartIsRoot(regs: Registers, b: Byte)
    ensures StartsAt(regs, b) <==> IsRoot(regs, b)
  {
  }

  lemma SlotOfFunction(t: Topology, regs: Registers, b: Byte, d: Byte, f: Byte)
    requires Reflects(t, regs) && d < 32 && f < 8
    ensures t(b, 8 * d + f).Absent? <==> !Answers(regs, b, d, f)
    ensures Answers(regs, b, d, f) ==> t(b, 8 * d + f).self == Device(b, d, f, regs.headerType(b, d, f), regs.classCode(b, d, f))
    ensures t(b, 8 * d + f).Bridge? <==>
            Answers(regs, b, d, f) && regs.classCode(b, d, f).base == 0x06 && regs.classCode(b, d, f).sub == 0x04
    ensures t(b, 8 * d + f).Bridge? ==> t(b, 8 * d + f).secondary == regs.secondaryBus(b, d, f)
  {
    assert t(b, 8 * d + f) == SlotAt(regs, b, d, f);
  }

  lemma SlotParts(k: nat)
    requires k < SLOTS
    ensures k / 8 < 32 && k % 8 < 8 && 8 * (k / 8) + k % 8 == k
  {
  }

  lemma BridgedIff(t: Topology, regs: Registers, b: Byte, s: Byte)
    requires Reflects(t, regs)
    ensures Leads(t, b, s) <==> BridgedTo(regs, b, s)
  {
    if Leads(t, b, s) {
      var k :| 0 <= k < SLOTS && t(b, k).Bridge? && t(b, k).secondary == s;
      SlotParts(k);
      SlotOfFunction(t, regs, b, k / 8, k % 8);
    }
    if BridgedTo(regs, b, s) {
      var d: Byte, f: Byte :| Answers(regs, b, d, f) && regs.classCode(b, d, f).base == 0x06 && regs.classCode(b, d, f).sub == 0x04
                              && regs.secondaryBus(b, d, f) == s;
      SlotOfFunction(t, regs, b, d, f);
      assert 8 * d + f < SLOTS;
    }
  }

  lemma RouteIff(t: Topology, regs: Registers, p: seq<Byte>)
    requires Reflects(t, regs) && |p| > 0
    ensures Route(regs, p) <==> IsRoot(regs, p[0]) && Chain(t, p)
  {
    StartIsRoot(regs, p[0]);
    forall i | 0 <= i < |p| - 1
      ensures Leads(t, p[i], p[i + 1]) <==> BridgedTo(regs, p[i], p[i + 1])
    {
      BridgedIff(t, regs, p[i], p[i + 1]);
    }
  }

  lemma ReachedIff(t: Topology, regs: Registers, b: Byte)
    requires Reflects(t, regs)
    ensures Reached(regs, b) <==> exists root: Byte :: IsRoot(regs, root) && LeadsOn(t, root, b)
  {
    if Reached(regs, b) {
      var p :| Route(regs, p) && p[|p| - 1] == b;
      RouteIff(t, regs, p);
      assert LeadsOn(t, p[0], b);
    }
    if root: Byte :| IsRoot(regs, root) && LeadsOn(t, root, b) {
      var p :| Chain(t, p) && p[0] == root && p[|p| - 1] == b;
      RouteIff(t, regs, p);
    }
  }

  lemma {:induction false} RootsEnteredIff(t: Topology, regs: Registers, n: nat, depth: nat, b: Byte)
    requires n <= 8 && RootsBelow(t, regs, n, depth).Some?
    ensures b in RootsEntered(t, regs, n, depth) <==>
            exists root: Byte :: root < n && regs.vendorId(0, 0, root) != 0xffff && LeadsOn(t, root, b)
  {
    if n > 0 {
      RootsEnteredIff(t, regs, n - 1, depth, b);
      if regs.vendorId(0, 0, n - 1) != 0xffff {
        EnteredIff(t, n - 1, depth, b);
      }
    }
  }

  lemma RootEnteredIff(t: Topology, regs: Registers, depth: nat, b: Byte)
    requires RootListing(t, regs, depth).Some?
    ensures b in RootEntered(t, regs, depth) <==> exists root: Byte :: IsRoot(regs, root) && LeadsOn(t, root, b)
  {
    if IsSingleFunctionDevice(regs.headerType(0, 0, 0)) {
      EnteredIff(t, 0, depth, b);
      assert IsRoot(regs, 0);
    } else {
      RootsEnteredIff(t, regs, 8, depth, b);
      assert forall root: Byte :: IsRoot(regs, root) <==> root < 8 && regs.vendorId(0, 0, root) != 0xffff;
    }
  }

  lemma ReflectedIsLabelled(t: Topology, regs: Registers)
    requires Reflects(t, regs)
    ensures Labelled(t)
  {
    forall b: Byte, k: nat | k < SLOTS && !t(b, k).Absent?
      ensures t(b, k).self.bus == b && 8 * t(b, k).self.device + t(b, k).self.func == k
    {
      SlotParts(k);
      SlotOfFunction(t, regs, b, k / 8, k % 8);
    }
  }

  lemma RootAccounts(t: Topology, regs: Registers, depth: nat)
    requires Labelled(t) && RootListing(t, regs, depth).Some?
    ensures Accounts(t, RootListing(t, regs, depth).value, RootEntered(t, regs, depth))
  {
    if IsSingleFunctionDevice(regs.headerType(0, 0, 0)) {
      ListingAccounts(t, 0, depth);
    } else {
      RootsAccount(t, regs, 8, depth);
    }
  }

  lemma InSlotIff(t: Topology, regs: Registers, x: Device)
    requires Reflects(t, regs)
    ensures InSlot(t, x) <==>
            && Answers(regs, x.bus, x.device, x.func)
            && x.headerType == regs.headerType(x.bus, x.device, x.func) && x.classCode == regs.classCode(x.bus, x.device, x.func)
  {
    if InSlot(t, x) {
      var j: nat :| j < SLOTS && !t(x.bus, j).Absent? && t(x.bus, j).self == x;
      SlotParts(j);
      SlotOfFunction(t, regs, x.bus, j / 8, j % 8);
    }
    if Answers(regs, x.bus, x.device, x.func) {
      SlotOfFunction(t, regs, x.bus, x.device, x.func);
      assert 8 * x.device + x.func < SLOTS;
    }
  }

  /** In a list that accounts for the buses entered, the functions of those buses and nothing else. */
  lemma AccountedIff(t: Topology, l: seq<Device>, entered: seq<Byte>, x: Device)
    requires Accounts(t, l, entered)
    ensures x in l <==> InSlot(t, x) && x.bus in entered
  {
    assert x in l <==> Times(l, x) > 0;
    assert x.bus in entered <==> Times(entered, x.bus) > 0;
    if InSlot(t, x) {
      var j: nat :| j < SLOTS && !t(x.bus, j).Absent? && t(x.bus, j).self == x;
      assert Times(l, t(x.bus, j).self) == Times(entered, x.bus);
    }
  }

  /** The enumeration holds exactly the functions that answer on the buses that bridges lead to from
      a start, each with its registers. */
  lemma EnumeratesTheFunctions(t: Topology, regs: Registers, x: Device)
    requires Reflects(t, regs) && !LoopBehindARoot(t, regs)
    ensures x in Enumeration(t, regs) <==> IsFunction(regs, x)
  {
    EnumeratedIff(t, regs);
    var depth: nat :| RootListing(t, regs, depth).Some?;
    EnumeratedAtDepth(t, regs, depth);
    ReflectedIsLabelled(t, regs);
    RootAccounts(t, regs, depth);
    AccountedIff(t, Enumeration(t, regs), RootEntered(t, regs, depth), x);
    InSlotIff(t, regs, x);
    RootEnteredIff(t, regs, depth, x.bus);
    ReachedIff(t, regs, x.bus);
  }

  /** Bridges: whatever answers on the secondary bus of a bridge that is enumerated is enumerated. */
  lemma FunctionsBehindABridge(t: Topology, regs: Registers, b: Byte, d: Byte, f: Byte, d': Byte, f': Byte)
    requires Reflects(t, regs) && !LoopBehindARoot(t, regs)
    requires Device(b, d, f, regs.headerType(b, d, f), regs.classCode(b, d, f)) in Enumeration(t, regs)
    requires regs.classCode(b, d, f).base == 0x06 && regs.classCode(b, d, f).sub == 0x04
    requires Answers(regs, regs.secondaryBus(b, d, f), d', f')
    ensures
      var s := regs.secondaryBus(b, d, f);
      Device(s, d', f', regs.headerType(s, d', f'), regs.classCode(s, d', f')) in Enumeration(t, regs)
  {
    var s := regs.secondaryBus(b, d, f);
    EnumeratesTheFunctions(t, regs, Device(b, d, f, regs.headerType(b, d, f), regs.classCode(b, d, f)));
    assert BridgedTo(regs, b, s);
    var p :| Route(regs, p) && p[|p| - 1] == b;
    LongerRoute(regs, p, s);
    EnumeratesTheFunctions(t, regs, Device(s, d', f', regs.headerType(s, d', f'), regs.classCode(s, d', f')));
  }

  lemma LongerRoute(regs: Registers, p: seq<Byte>, s: Byte)
    requires Route(regs, p) && BridgedTo(regs, p[|p| - 1], s)
    ensures Route(regs, p + [s]) && Reached(regs, s)
  {
    var q := p + [s];
    forall i | 0 <= i < |q| - 1
      ensures BridgedTo(regs, q[i], q[i + 1])
    {
      if i < |p| - 1 {
        assert BridgedTo(regs, p[i], p[i + 1]);
      }
    }
    assert q[|q| - 1] == s;
  }

  /** A bridge loop, over the registers: a way from a start that comes back to a bus. */
  lemma LoopsIff(t: Topology, regs: Registers)
    requires Reflects(t, regs)
    ensures LoopBehindARoot(t, regs) <==> exists p :: Route(regs, p) && Revisits(p)
  {
    if LoopBehindARoot(t, regs) {
      var bus: Byte :| IsRoot(regs, bus) && LoopBehind(t, bus);
      var p :| Chain(t, p) && p[0] == bus && Revisits(p);
      RouteIff(t, regs, p);
    }
    if p :| Route(regs, p) && Revisits(p) {
      RouteIff(t, regs, p);
      assert LoopBehind(t, p[0]);
    }
  }
}
