/** The depth-first enumeration of the functions behind a bus, and when it exists. */
module PciTopology {
  import opened Bits
  import opened Wrappers

  const BUSES: nat := 256
  const SLOTS: nat := 32 * 8

  datatype ClassCode = ClassCode(base: Byte, sub: Byte, interface: Byte)

  datatype Device = Device(bus: Byte, device: Byte, func: Byte, headerType: Byte, classCode: ClassCode)

  /** What the scan of a bus meets at slot 8 * device + function. */
  datatype Slot = Absent | Endpoint(self: Device) | Bridge(self: Device, secondary: Byte)

  /** A topology gives the slots of every bus. */
  type Topology = (Byte, nat) -> Slot

  type Listing = Option<seq<Device>>

  function Append(l: Listing, r: Listing): Listing {
    if l.Some? && r.Some? then Some(l.value + r.value) else None
  }

  /** A slot and, for a bridge, everything behind it, through at most `depth` bridges. */
  function SlotListing(t: Topology, s: Slot, depth: nat): Listing
    decreases depth, 0
  {
    match s
    case Absent => Some([])
    case Endpoint(self) => Some([self])
    case Bridge(self, secondary) =>
      if depth == 0 then None else Append(Some([self]), BusListing(t, secondary, 0, SLOTS, depth - 1))
  }

  /** The functions of a bus in slots k to end, each followed by what is behind it. */
  function BusListing(t: Topology, bus: Byte, k: nat, end: nat, depth: nat): Listing
    requires k <= end
    decreases depth, end - k + 1
  {
    if k == end then Some([])
    else Append(SlotListing(t, t(bus, k), depth), BusListing(t, bus, k + 1, end, depth))
  }

  /** More depth changes nothing once a listing is complete. */
  lemma {:induction false} DepthIsMonotone(t: Topology, bus: Byte, k: nat, end: nat, m: nat, n: nat)
    requires k <= end && m <= n && BusListing(t, bus, k, end, m).Some?
    ensures BusListing(t, bus, k, end, n) == BusListing(t, bus, k, end, m)
    decreases m, end - k + 1
  {
    if k < end {
      DepthIsMonotone(t, bus, k + 1, end, m, n);
      SlotDepthIsMonotone(t, t(bus, k), m, n);
    }
  }

  lemma {:induction false} SlotDepthIsMonotone(t: Topology, s: Slot, m: nat, n: nat)
    requires m <= n && SlotListing(t, s, m).Some?
    ensures SlotListing(t, s, n) == SlotListing(t, s, m)
    decreases m, 0
  {
    if s.Bridge? {
      DepthIsMonotone(t, s.secondary, 0, SLOTS, m - 1, n - 1);
    }
  }

  /** Every bridge passed is itself listed, so a listing never needs more depth than entries. */
  lemma {:induction false} LengthIsEnoughDepth(t: Topology, bus: Byte, k: nat, end: nat, m: nat)
    requires k <= end && BusListing(t, bus, k, end, m).Some?
    ensures BusListing(t, bus, k, end, |BusListing(t, bus, k, end, m).value|) == BusListing(t, bus, k, end, m)
    decreases m, end - k + 1
  {
    if k < end {
      LengthIsEnoughDepth(t, bus, k + 1, end, m);
      SlotLengthIsEnough(t, t(bus, k), m);
      var first, rest := SlotListing(t, t(bus, k), m).value, BusListing(t, bus, k + 1, end, m).value;
      DepthIsMonotone(t, bus, k + 1, end, |rest|, |first + rest|);
      SlotDepthIsMonotone(t, t(bus, k), |first|, |first + rest|);
    }
  }

  lemma {:induction false} SlotLengthIsEnough(t: Topology, s: Slot, m: nat)
    requires SlotListing(t, s, m).Some?
    ensures SlotListing(t, s, |SlotListing(t, s, m).value|) == SlotListing(t, s, m)
    decreases m, 0
  {
    if s.Bridge? {
      LengthIsEnoughDepth(t, s.secondary, 0, SLOTS, m - 1);
    }
  }

  ghost predicate Fits(l: Listing, room: nat) {
    l.Some? && |l.value| <= room
  }

  /** Whether a listing has at most `room` entries is already decided at depth `room`. */
  lemma FitsAtAnyDepth(t: Topology, bus: Byte, k: nat, end: nat, room: nat, depth: nat)
    requires k <= end && room <= depth
    ensures Fits(BusListing(t, bus, k, end, room), room) <==> Fits(BusListing(t, bus, k, end, depth), room)
    ensures Fits(BusListing(t, bus, k, end, room), room) ==>
              BusListing(t, bus, k, end, room) == BusListing(t, bus, k, end, depth)
  {
    var shallow, deep := BusListing(t, bus, k, end, room), BusListing(t, bus, k, end, depth);
    if shallow.Some? {
      DepthIsMonotone(t, bus, k, end, room, depth);
    } else if Fits(deep, room) {
      LengthIsEnoughDepth(t, bus, k, end, depth);
      DepthIsMonotone(t, bus, k, end, |deep.value|, room);
    }
  }

  /** A listing can be cut at any slot. */
  lemma {:induction false} ListingSplits(t: Topology, bus: Byte, k: nat, mid: nat, end: nat, depth: nat)
    requires k <= mid <= end
    ensures BusListing(t, bus, k, end, depth)
         == Append(BusListing(t, bus, k, mid, depth), BusListing(t, bus, mid, end, depth))
    decreases mid - k
  {
    if k < mid {
      ListingSplits(t, bus, k + 1, mid, end, depth);
      AppendAssociates(SlotListing(t, t(bus, k), depth), BusListing(t, bus, k + 1, mid, depth), BusListing(t, bus, mid, end, depth));
    } else if BusListing(t, bus, mid, end, depth).Some? {
      assert [] + BusListing(t, bus, mid, end, depth).value == BusListing(t, bus, mid, end, depth).value;
    }
  }

  lemma AppendAssociates(a: Listing, b: Listing, c: Listing)
    ensures Append(Append(a, b), c) == Append(a, Append(b, c))
  {
    if a.Some? && b.Some? && c.Some? {
      assert a.value + b.value + c.value == a.value + (b.value + c.value);
    }
  }

  // Bridge loops

  ghost predicate Leads(t: Topology, a: Byte, b: Byte) {
    exists k :: 0 <= k < SLOTS && t(a, k).Bridge? && t(a, k).secondary == b
  }

  /** A chain of bridges p[0], p[1], ... */
  ghost predicate Chain(t: Topology, p: seq<Byte>) {
    |p| > 0 && forall i {:trigger p[i]} :: 0 <= i < |p| - 1 ==> Leads(t, p[i], p[i + 1])
  }

  /** Some chain of bridges from `bus` comes back to a bus it has been on. */
  ghost predicate LoopBehind(t: Topology, bus: Byte) {
    exists p :: Chain(t, p) && p[0] == bus && Revisits(p)
  }

  ghost predicate Revisits(p: seq<Byte>) {
    exists i, j :: 0 <= i < j < |p| && p[i] == p[j]
  }

  /** A listed bus has listed everything one bridge further, with less depth. */
  lemma {:induction false} BridgeIsListed(t: Topology, bus: Byte, k: nat, j: nat, depth: nat)
    requires k <= j < SLOTS && t(bus, j).Bridge? && BusListing(t, bus, k, SLOTS, depth).Some?
    ensures depth > 0 && BusListing(t, t(bus, j).secondary, 0, SLOTS, depth - 1).Some?
    decreases j - k
  {
    if k < j {
      BridgeIsListed(t, bus, k + 1, j, depth);
    }
  }

  lemma {:induction false} ChainIsListed(t: Topology, p: seq<Byte>, i: nat, depth: nat)
    requires Chain(t, p) && i < |p| && BusListing(t, p[0], 0, SLOTS, depth).Some?
    ensures i <= depth && BusListing(t, p[i], 0, SLOTS, depth - i).Some?
  {
    if i > 0 {
      ChainIsListed(t, p, i - 1, depth);
      assert Leads(t, p[i - 1], p[i]);
      var k :| 0 <= k < SLOTS && t(p[i - 1], k).Bridge? && t(p[i - 1], k).secondary == p[i];
      BridgeIsListed(t, p[i - 1], 0, k, depth - (i - 1));
    }
  }

  lemma ChainSuffix(t: Topology, p: seq<Byte>, i: nat)
    requires Chain(t, p) && i < |p|
    ensures Chain(t, p[i..])
  {
    forall k | 0 <= k < |p[i..]| - 1
      ensures Leads(t, p[i..][k], p[i..][k + 1])
    {
      assert Leads(t, p[i + k], p[i + k + 1]);
    }
  }

  lemma {:induction false} LoopIsNeverListed(t: Topology, p: seq<Byte>, j: nat, depth: nat)
    requires Chain(t, p) && 0 < j < |p| && p[0] == p[j]
    ensures BusListing(t, p[0], 0, SLOTS, depth).None?
    decreases depth
  {
    if BusListing(t, p[0], 0, SLOTS, depth).Some? {
      ChainIsListed(t, p, j, depth);
      LoopIsNeverListed(t, p, j, depth - j);
    }
  }

  /** A bus that cannot be listed has a chain of bridges longer than the depth allowed. */
  lemma {:induction false} LongChain(t: Topology, bus: Byte, k: nat, depth: nat) returns (p: seq<Byte>)
    requires k <= SLOTS && BusListing(t, bus, k, SLOTS, depth).None?
    ensures Chain(t, p) && p[0] == bus && |p| == depth + 2
    decreases depth, SLOTS - k
  {
    var s := t(bus, k);
    if SlotListing(t, s, depth).Some? {
      p := LongChain(t, bus, k + 1, depth);
    } else {
      assert Leads(t, bus, s.secondary);
      var q := [s.secondary];
      if depth > 0 {
        q := LongChain(t, s.secondary, 0, depth - 1);
      }
      p := [bus] + q;
      assert forall i :: 0 < i < |p| ==> p[i] == q[i - 1];
    }
  }

  /** More elements than values: one value comes back. */
  lemma {:induction false} Pigeonhole(p: seq<Byte>, n: nat)
    requires |p| > n && forall i :: 0 <= i < |p| ==> p[i] < n
    ensures Revisits(p)
    decreases n
  {
    var last := p[|p| - 1];
    if n > 0 {
      if i :| 0 <= i < |p| - 1 && p[i] == last {
        assert 0 <= i < |p| - 1 < |p| && p[i] == p[|p| - 1];
      } else {
        var q := seq(|p| - 1, i requires 0 <= i < |p| - 1 => if p[i] == n - 1 then last else p[i]);
        Pigeonhole(q, n - 1);
        var i, j :| 0 <= i < j < |q| && q[i] == q[j];
        assert p[i] == p[j];
      }
    }
  }

  /** The enumeration behind a bus exists exactly when no bridge loop lies behind it. */
  lemma ListedIffNoLoop(t: Topology, bus: Byte)
    ensures (exists depth: nat :: BusListing(t, bus, 0, SLOTS, depth).Some?) <==> !LoopBehind(t, bus)
  {
    if LoopBehind(t, bus) {
      forall depth: nat
        ensures BusListing(t, bus, 0, SLOTS, depth).None?
      {
        LoopBlocksListing(t, bus, depth);
      }
    } else {
      NoLoopIsListed(t, bus, BUSES);
    }
  }

  lemma NoLoopIsListed(t: Topology, bus: Byte, depth: nat)
    requires !LoopBehind(t, bus) && depth == BUSES
    ensures BusListing(t, bus, 0, SLOTS, depth).Some?
  {
    if BusListing(t, bus, 0, SLOTS, depth).None? {
      var p := LongChain(t, bus, 0, depth);
      Pigeonhole(p, BUSES);
    }
  }

  lemma LoopBlocksListing(t: Topology, bus: Byte, depth: nat)
    requires LoopBehind(t, bus)
    ensures BusListing(t, bus, 0, SLOTS, depth).None?
  {
    var p :| Chain(t, p) && p[0] == bus && Revisits(p);
    var i, j :| 0 <= i < j < |p| && p[i] == p[j];
    LoopFurtherOn(t, p, i, j, depth);
  }

  lemma LoopFurtherOn(t: Topology, p: seq<Byte>, i: nat, j: nat, depth: nat)
    requires Chain(t, p) && i < j < |p| && p[i] == p[j]
    ensures BusListing(t, p[0], 0, SLOTS, depth).None?
  {
    if BusListing(t, p[0], 0, SLOTS, depth).Some? {
      ChainIsListed(t, p, i, depth);
      LoopAtBus(t, p, i, j, depth - i);
    }
  }

  lemma LoopAtBus(t: Topology, p: seq<Byte>, i: nat, j: nat, depth: nat)
    requires Chain(t, p) && i < j < |p| && p[i] == p[j]
    ensures BusListing(t, p[i], 0, SLOTS, depth).None?
  {
    ChainSuffix(t, p, i);
    var q := p[i..];
    assert q[0] == p[i] && q[j - i] == p[j];
    LoopIsNeverListed(t, q, j - i, depth);
  }

  /** Bridges that only lead to higher bus numbers make no loop. */
  lemma UpwardBridgesMakeNoLoop(t: Topology, bus: Byte)
    requires forall b: Byte, k: nat :: k < SLOTS && t(b, k).Bridge? ==> b < t(b, k).secondary
    ensures !LoopBehind(t, bus)
  {
    forall p | Chain(t, p) && p[0] == bus
      ensures !Revisits(p)
    {
      forall i, j | 0 <= i < j < |p|
        ensures p[i] < p[j]
      {
        ChainClimbs(t, p, i, j);
      }
    }
  }

  lemma {:induction false} ChainClimbs(t: Topology, p: seq<Byte>, i: nat, j: nat)
    requires forall b: Byte, k: nat :: k < SLOTS && t(b, k).Bridge? ==> b < t(b, k).secondary
    requires Chain(t, p) && i < j < |p|
    ensures p[i] < p[j]
  {
    assert Leads(t, p[j - 1], p[j]);
    if i < j - 1 {
      ChainClimbs(t, p, i, j - 1);
    }
  }

  // How often each function is listed

  /** The buses entered through the bridges of a slot, in order, with repetitions. */
  function SlotEntered(t: Topology, s: Slot, depth: nat): seq<Byte>
    decreases depth, 0
  {
    if s.Bridge? && depth > 0 then [s.secondary] + Entered(t, s.secondary, 0, depth - 1) else []
  }

  function Entered(t: Topology, bus: Byte, k: nat, depth: nat): seq<Byte>
    requires k <= SLOTS
    decreases depth, SLOTS - k + 1
  {
    if k == SLOTS then [] else SlotEntered(t, t(bus, k), depth) + Entered(t, bus, k + 1, depth)
  }

  /** The device in a slot carries the bus, device and function numbers of the slot. */
  ghost predicate Labelled(t: Topology) {
    forall b: Byte, k: nat :: k < SLOTS && !t(b, k).Absent? ==>
      t(b, k).self.bus == b && 8 * t(b, k).self.device + t(b, k).self.func == k
  }

  /** How often an element occurs. */
  ghost function Times<T>(l: seq<T>, x: T): nat {
    multiset(l)[x]
  }

  function One(b: bool): nat {
    if b then 1 else 0
  }

  /** Conservation: a function is listed as often as its bus is entered. */
  lemma {:induction false} ListedAsOftenAsEntered(t: Topology, bus: Byte, k: nat, depth: nat, b: Byte, j: nat)
    requires Labelled(t) && k <= SLOTS && BusListing(t, bus, k, SLOTS, depth).Some?
    requires j < SLOTS && !t(b, j).Absent?
    ensures Times(BusListing(t, bus, k, SLOTS, depth).value, t(b, j).self)
         == Times(Entered(t, bus, k, depth), b) + One(b == bus && j >= k)
    decreases depth, SLOTS - k + 1
  {
    if k < SLOTS {
      ListedAsOftenAsEntered(t, bus, k + 1, depth, b, j);
      SlotListedAsOftenAsEntered(t, bus, k, depth, b, j);
    }
  }

  lemma {:induction false} SlotListedAsOftenAsEntered(t: Topology, bus: Byte, k: nat, depth: nat, b: Byte, j: nat)
    requires Labelled(t) && k < SLOTS && SlotListing(t, t(bus, k), depth).Some?
    requires j < SLOTS && !t(b, j).Absent?
    ensures Times(SlotListing(t, t(bus, k), depth).value, t(b, j).self)
         == Times(SlotEntered(t, t(bus, k), depth), b) + One(b == bus && j == k)
    decreases depth, 0
  {
    var s := t(bus, k);
    assert !s.Absent? ==> (s.self == t(b, j).self <==> b == bus && j == k);
    if s.Bridge? {
      ListedAsOftenAsEntered(t, s.secondary, 0, depth - 1, b, j);
    }
  }

  lemma {:induction false} ListedComesFromASlot(t: Topology, bus: Byte, k: nat, depth: nat, x: Device)
    requires Labelled(t) && k <= SLOTS && BusListing(t, bus, k, SLOTS, depth).Some? && x in BusListing(t, bus, k, SLOTS, depth).value
    ensures InSlot(t, x)
    decreases depth, SLOTS - k + 1
  {
    var s := t(bus, k);
    var first := SlotListing(t, s, depth).value;
    if x !in first {
      ListedComesFromASlot(t, bus, k + 1, depth, x);
    } else if x != s.self {
      ListedComesFromASlot(t, s.secondary, 0, depth - 1, x);
    }
  }

  ghost predicate NoDuplicates(l: seq<Device>) {
    forall x :: Times(l, x) <= 1
  }

  ghost predicate Populated(t: Topology, b: Byte) {
    exists j: nat :: j < SLOTS && !t(b, j).Absent?
  }

  /** Entries and entered buses agree on every function, and every entry is a function. */
  ghost predicate Accounts(t: Topology, l: seq<Device>, entered: seq<Byte>) {
    && (forall b: Byte, j: nat :: j < SLOTS && !t(b, j).Absent? ==> Times(l, t(b, j).self) == Times(entered, b))
    && (forall x <- l :: InSlot(t, x))
  }

  ghost predicate InSlot(t: Topology, x: Device) {
    exists j: nat :: j < SLOTS && !t(x.bus, j).Absent? && t(x.bus, j).self == x
  }

  lemma ListingAccounts(t: Topology, bus: Byte, depth: nat)
    requires Labelled(t) && BusListing(t, bus, 0, SLOTS, depth).Some?
    ensures Accounts(t, BusListing(t, bus, 0, SLOTS, depth).value, [bus] + Entered(t, bus, 0, depth))
  {
    forall b: Byte, j: nat | j < SLOTS && !t(b, j).Absent?
      ensures Times(BusListing(t, bus, 0, SLOTS, depth).value, t(b, j).self) == Times([bus] + Entered(t, bus, 0, depth), b)
    {
      ListedAsOftenAsEntered(t, bus, 0, depth, b, j);
    }
    forall x | x in BusListing(t, bus, 0, SLOTS, depth).value
      ensures InSlot(t, x)
    {
      ListedComesFromASlot(t, bus, 0, depth, x);
    }
  }

  lemma AccountsAppend(t: Topology, l: seq<Device>, entered: seq<Byte>, l': seq<Device>, entered': seq<Byte>)
    requires Accounts(t, l, entered) && Accounts(t, l', entered')
    ensures Accounts(t, l + l', entered + entered')
  {
  }

  /** No function is listed twice exactly when no bus that holds functions is entered twice. */
  lemma NoDuplicatesIff(t: Topology, l: seq<Device>, entered: seq<Byte>)
    requires Accounts(t, l, entered)
    ensures NoDuplicates(l) <==> forall b: Byte :: Populated(t, b) ==> Times(entered, b) <= 1
  {
    if NoDuplicates(l) {
      forall b: Byte | Populated(t, b)
        ensures Times(entered, b) <= 1
      {
        var j: nat :| j < SLOTS && !t(b, j).Absent?;
        assert Times(l, t(b, j).self) <= 1;
      }
    } else {
      var x :| Times(l, x) > 1;
      assert x in l && InSlot(t, x);
      var j: nat :| j < SLOTS && !t(x.bus, j).Absent? && t(x.bus, j).self == x;
      assert Populated(t, x.bus) && Times(entered, x.bus) > 1;
    }
  }

  // Which buses are entered

  /** Some chain of bridges leads from one bus to another, or they are the same. */
  ghost predicate LeadsOn(t: Topology, from: Byte, to: Byte) {
    exists p :: Chain(t, p) && p[0] == from && p[|p| - 1] == to
  }

  /** The buses entered behind a slot of a bus are entered behind the bus. */
  lemma {:induction false} EnteredBehindSlot(t: Topology, bus: Byte, k: nat, j: nat, depth: nat, b: Byte)
    requires k <= j < SLOTS && b in SlotEntered(t, t(bus, j), depth)
    ensures b in Entered(t, bus, k, depth)
    decreases j - k
  {
    if k < j {
      EnteredBehindSlot(t, bus, k + 1, j, depth, b);
    }
  }

  /** Every bus at the end of a chain is entered, where the listing is complete. */
  lemma {:induction false} ChainIsEntered(t: Topology, p: seq<Byte>, depth: nat)
    requires Chain(t, p) && BusListing(t, p[0], 0, SLOTS, depth).Some?
    ensures p[|p| - 1] in [p[0]] + Entered(t, p[0], 0, depth)
    decreases |p|
  {
    if |p| > 1 {
      assert Leads(t, p[0], p[1]);
      var k :| 0 <= k < SLOTS && t(p[0], k).Bridge? && t(p[0], k).secondary == p[1];
      BridgeIsListed(t, p[0], 0, k, depth);
      ChainSuffix(t, p, 1);
      ChainIsEntered(t, p[1..], depth - 1);
      EnteredBehindSlot(t, p[0], 0, k, depth, p[|p| - 1]);
    }
  }

  /** A bus entered behind another is at the end of a chain. */
  lemma {:induction false} EnteredIsLedTo(t: Topology, bus: Byte, k: nat, depth: nat, b: Byte)
    requires k <= SLOTS && b in Entered(t, bus, k, depth)
    ensures LeadsOn(t, bus, b)
    decreases depth, SLOTS - k + 1
  {
    var s := t(bus, k);
    if b !in SlotEntered(t, s, depth) {
      EnteredIsLedTo(t, bus, k + 1, depth, b);
    } else {
      assert Leads(t, bus, s.secondary);
      if b == s.secondary {
        assert Chain(t, [bus, b]);
        assert [bus, b][0] == bus && [bus, b][|[bus, b]| - 1] == b;
      } else {
        EnteredIsLedTo(t, s.secondary, 0, depth - 1, b);
        var p :| Chain(t, p) && p[0] == s.secondary && p[|p| - 1] == b;
        LongerChain(t, bus, p);
      }
    }
  }

  lemma LongerChain(t: Topology, bus: Byte, p: seq<Byte>)
    requires Chain(t, p) && Leads(t, bus, p[0])
    ensures Chain(t, [bus] + p) && LeadsOn(t, bus, p[|p| - 1])
  {
    var q := [bus] + p;
    forall i | 0 <= i < |q| - 1
      ensures Leads(t, q[i], q[i + 1])
    {
      if i > 0 {
        assert Leads(t, p[i - 1], p[i]);
      }
    }
    assert q[0] == bus && q[|q| - 1] == p[|p| - 1];
  }

  lemma LeadsToItself(t: Topology, bus: Byte)
    ensures LeadsOn(t, bus, bus)
  {
    var p := [bus];
    assert Chain(t, p) && p[0] == bus && p[|p| - 1] == bus;
  }

  /** A complete listing enters exactly the buses that chains of bridges lead to. */
  lemma EnteredIff(t: Topology, bus: Byte, depth: nat, b: Byte)
    requires BusListing(t, bus, 0, SLOTS, depth).Some?
    ensures b in [bus] + Entered(t, bus, 0, depth) <==> LeadsOn(t, bus, b)
  {
    LeadsToItself(t, bus);
    if LeadsOn(t, bus, b) {
      var p :| Chain(t, p) && p[0] == bus && p[|p| - 1] == b;
      ChainIsEntered(t, p, depth);
    } else if b in Entered(t, bus, 0, depth) {
      EnteredIsLedTo(t, bus, 0, depth, b);
    }
  }
}
