/** Whole runs of the allocator: allocations and frees of outstanding blocks, in any order. */
module AllocatorRuns {
  import opened Wrappers
  import opened FrameSets
  import opened FrameAllocator
  import opened MemoryMap

  datatype Block = Block(first: nat, count: nat) {
    function Frames(): set<nat> {
      Run(first, count)
    }
  }

  /** What Init leaves behind: the range handed out and the frames marked from the start. */
  datatype Pool = Pool(begin: nat, end: nat, reserved: set<nat>)

  datatype State = State(bits: set<nat>, owned: seq<Block>)

  datatype Step = DoAlloc(count: nat) | DoFree(index: nat)

  function Initial(p: Pool): State {
    State(p.reserved, [])
  }

  function AfterAlloc(s: State, count: nat, r: Option<nat>): State {
    match r
    case None => s
    case Some(first) => State(s.bits + Run(first, count), s.owned + [Block(first, count)])
  }

  function AfterFree(s: State, k: nat): State
    requires k < |s.owned|
  {
    State(s.bits - s.owned[k].Frames(), Without(s.owned, k))
  }

  ghost predicate Next(p: Pool, s: State, a: Step, s': State) {
    match a
    case DoAlloc(count) =>
      exists r :: IsFirstFit(s.bits, p.begin, p.end, count, r) && s' == AfterAlloc(s, count, r)
    case DoFree(k) => s' == if k < |s.owned| then AfterFree(s, k) else s
  }

  /** states[0], steps[0], states[1], ... is an execution from the state Init leaves. */
  ghost predicate IsRun(p: Pool, states: seq<State>, steps: seq<Step>) {
    && |states| == |steps| + 1
    && states[0] == Initial(p)
    && forall i :: 0 <= i < |steps| ==> Next(p, states[i], steps[i], states[i + 1])
  }

  ghost function OwnedFrames(owned: seq<Block>): set<nat> {
    if owned == [] then {} else OwnedFrames(owned[..|owned| - 1]) + owned[|owned| - 1].Frames()
  }

  ghost predicate PairwiseDisjoint(owned: seq<Block>) {
    forall i, j :: 0 <= i < j < |owned| ==> owned[i].Frames() !! owned[j].Frames()
  }

  /** Every frame of the block is in range and was not reserved. */
  ghost predicate InPool(p: Pool, b: Block) {
    forall f <- b.Frames() :: f !in p.reserved && p.begin <= f < p.end
  }

  ghost predicate Inv(p: Pool, s: State) {
    && PairwiseDisjoint(s.owned)
    && (forall i :: 0 <= i < |s.owned| ==> InPool(p, s.owned[i]))
    && s.bits == p.reserved + OwnedFrames(s.owned)
  }

  lemma {:induction false} OwnedFramesMembers(owned: seq<Block>, f: nat)
    ensures f in OwnedFrames(owned) <==> exists i :: 0 <= i < |owned| && f in owned[i].Frames()
  {
    if owned != [] {
      var front := owned[..|owned| - 1];
      OwnedFramesMembers(front, f);
      assert forall i :: 0 <= i < |front| ==> front[i] == owned[i];
    }
  }

  lemma AllocKeepsInv(p: Pool, s: State, count: nat, r: Option<nat>)
    requires Inv(p, s) && IsFirstFit(s.bits, p.begin, p.end, count, r)
    ensures Inv(p, AfterAlloc(s, count, r))
  {
    if r.Some? {
      var b := Block(r.value, count);
      var owned' := s.owned + [b];
      assert owned'[..|owned'| - 1] == s.owned;
      forall f | f in b.Frames()
        ensures f !in s.bits && p.begin <= f < p.end
      {
        assert !InTheWay(s.bits, p.end, f);
      }
      forall i | 0 <= i < |s.owned|
        ensures s.owned[i].Frames() !! b.Frames()
      {
        forall f | f in s.owned[i].Frames()
          ensures f in s.bits
        {
          OwnedFramesMembers(s.owned, f);
        }
      }
    }
  }

  function Without(owned: seq<Block>, k: nat): (rest: seq<Block>)
    requires k < |owned|
    ensures |rest| == |owned| - 1
    ensures forall i :: 0 <= i < |rest| ==> rest[i] == owned[if i < k then i else i + 1]
  {
    owned[..k] + owned[k + 1..]
  }

  lemma {:induction false} OwnedConcat(a: seq<Block>, b: seq<Block>)
    ensures OwnedFrames(a + b) == OwnedFrames(a) + OwnedFrames(b)
  {
    if b == [] {
      assert a + b == a;
    } else {
      assert (a + b)[..|a + b| - 1] == a + b[..|b| - 1];
      OwnedConcat(a, b[..|b| - 1]);
    }
  }

  lemma OwnedSingle(b: Block)
    ensures OwnedFrames([b]) == b.Frames()
  {
    assert [b][..0] == [];
  }

  lemma OwnedInParts(left: seq<Block>, b: Block, right: seq<Block>)
    ensures OwnedFrames(left + [b] + right) == OwnedFrames(left) + b.Frames() + OwnedFrames(right)
  {
    OwnedConcat(left + [b], right);
    OwnedConcat(left, [b]);
    OwnedSingle(b);
  }

  lemma FramesWithout(owned: seq<Block>, k: nat)
    requires PairwiseDisjoint(owned) && k < |owned|
    ensures OwnedFrames(Without(owned, k)) == OwnedFrames(owned) - owned[k].Frames()
  {
    CutAt(owned, k);
    ApartFromRest(owned, k);
    FramesWithoutMiddle(owned[..k], owned[k], owned[k + 1..]);
  }

  lemma CutAt(owned: seq<Block>, k: nat)
    requires k < |owned|
    ensures owned == owned[..k] + [owned[k]] + owned[k + 1..]
  {
  }

  /** No block of the list shares a frame with `b`. */
  ghost predicate Apart(owned: seq<Block>, b: Block) {
    forall i :: 0 <= i < |owned| ==> owned[i].Frames() !! b.Frames()
  }

  lemma ApartFromRest(owned: seq<Block>, k: nat)
    requires PairwiseDisjoint(owned) && k < |owned|
    ensures Apart(owned[..k], owned[k]) && Apart(owned[k + 1..], owned[k])
  {
    var right := owned[k + 1..];
    forall i | 0 <= i < |right|
      ensures right[i].Frames() !! owned[k].Frames()
    {
      assert right[i] == owned[k + 1 + i];
    }
  }

  lemma FramesWithoutMiddle(left: seq<Block>, b: Block, right: seq<Block>)
    requires Apart(left, b) && Apart(right, b)
    ensures OwnedFrames(left + right) == OwnedFrames(left + [b] + right) - b.Frames()
  {
    OwnedInParts(left, b, right);
    OwnedConcat(left, right);
    ApartFromOwned(left, b);
    ApartFromOwned(right, b);
    TakeAway(OwnedFrames(left), b.Frames(), OwnedFrames(right));
  }

  lemma TakeAway(a: set<nat>, b: set<nat>, c: set<nat>)
    requires a !! b && c !! b
    ensures a + b + c - b == a + c
  {
  }

  lemma {:induction false} ApartFromOwned(owned: seq<Block>, b: Block)
    requires Apart(owned, b)
    ensures OwnedFrames(owned) !! b.Frames()
  {
    if owned != [] {
      ApartFromOwned(owned[..|owned| - 1], b);
    }
  }

  lemma FreeKeepsInv(p: Pool, s: State, k: nat)
    requires Inv(p, s) && k < |s.owned|
    ensures Inv(p, AfterFree(s, k))
  {
    FramesWithout(s.owned, k);
    assert InPool(p, s.owned[k]);
  }

  lemma NextKeepsInv(p: Pool, s: State, a: Step, s': State)
    requires Inv(p, s) && Next(p, s, a, s')
    ensures Inv(p, s')
  {
    match a
    case DoAlloc(count) =>
      var r :| IsFirstFit(s.bits, p.begin, p.end, count, r) && s' == AfterAlloc(s, count, r);
      AllocKeepsInv(p, s, count, r);
    case DoFree(k) =>
      if k < |s.owned| {
        FreeKeepsInv(p, s, k);
      }
  }

  /** Safety of every run: at each state the outstanding blocks are disjoint, in range, clear of
      reserved frames, and the bitmap is exactly reserved plus outstanding frames. */
  lemma {:induction false} EveryRunIsSafe(p: Pool, states: seq<State>, steps: seq<Step>, i: nat)
    requires IsRun(p, states, steps) && i <= |steps|
    ensures Inv(p, states[i])
    decreases i
  {
    if i > 0 {
      EveryRunIsSafe(p, states, steps, i - 1);
      NextKeepsInv(p, states[i - 1], steps[i - 1], states[i]);
    }
  }

  /** Frame by frame: a frame of one outstanding block is in no other, in range, not reserved, and
      its bit is set. */
  lemma NoFrameIsOwnedTwice(p: Pool, states: seq<State>, steps: seq<Step>, n: nat, i: nat, j: nat, f: nat)
    requires IsRun(p, states, steps) && n <= |steps| && i < |states[n].owned| && j < |states[n].owned| && i != j
    requires states[n].owned[i].first <= f < states[n].owned[i].first + states[n].owned[i].count
    ensures !(states[n].owned[j].first <= f < states[n].owned[j].first + states[n].owned[j].count)
    ensures p.begin <= f < p.end && f !in p.reserved && f in states[n].bits
  {
    EveryRunIsSafe(p, states, steps, n);
    var owned := states[n].owned;
    assert f in owned[i].Frames() && InPool(p, owned[i]);
    assert owned[if i < j then i else j].Frames() !! owned[if i < j then j else i].Frames();
    OwnedFramesMembers(owned, f);
  }

  /** The pool Init makes of a memory map, on a fresh manager. */
  ghost function PoolOf(descs: seq<Descriptor>): Pool {
    Pool(1, FrameOf(LastAvailableEnd(descs)), Marks(descs))
  }

  /** Every frame handed out lies in an area the memory map calls available, whatever the order
      of the descriptors. */
  lemma OwnedFramesAreAvailable(descs: seq<Descriptor>, states: seq<State>, steps: seq<Step>, i: nat, f: nat)
    requires PageAligned(descs)
    requires IsRun(PoolOf(descs), states, steps) && i <= |steps|
    requires f in OwnedFrames(states[i].owned)
    ensures f != 0 && InAvailable(descs, f)
  {
    OwnedFramesAreInPool(PoolOf(descs), states, steps, i, f);
    if !InAvailable(descs, f) {
      UnavailableIsMarked(descs, f);
    }
  }

  lemma OwnedFramesAreInPool(p: Pool, states: seq<State>, steps: seq<Step>, i: nat, f: nat)
    requires IsRun(p, states, steps) && i <= |steps|
    requires f in OwnedFrames(states[i].owned)
    ensures p.begin <= f < p.end && f !in p.reserved
  {
    EveryRunIsSafe(p, states, steps, i);
    OwnedFramesMembers(states[i].owned, f);
    var j :| 0 <= j < |states[i].owned| && f in states[i].owned[j].Frames();
    assert InPool(p, states[i].owned[j]);
  }

  /** Freeing the block just allocated restores bitmap and ownership. */
  lemma FreeUndoesAlloc(p: Pool, s: State, count: nat, first: nat)
    requires IsFirstFit(s.bits, p.begin, p.end, count, Some(first))
    ensures AfterFree(AfterAlloc(s, count, Some(first)), |s.owned|) == s
  {
    var b := Block(first, count);
    assert Without(s.owned + [b], |s.owned|) == s.owned;
    forall f | f in b.Frames()
      ensures f !in s.bits
    {
      assert !InTheWay(s.bits, p.end, f);
    }
  }

  ghost function TotalCount(owned: seq<Block>): nat {
    if owned == [] then 0 else TotalCount(owned[..|owned| - 1]) + owned[|owned| - 1].count
  }

  lemma {:induction false} RunSize(first: nat, count: nat)
    ensures |Run(first, count)| == count
  {
    if count > 0 {
      RunSize(first, count - 1);
    }
  }

  lemma {:induction false} OwnedSize(owned: seq<Block>)
    requires PairwiseDisjoint(owned)
    ensures |OwnedFrames(owned)| == TotalCount(owned)
  {
    if owned != [] {
      var front, b := owned[..|owned| - 1], owned[|owned| - 1];
      OwnedSize(front);
      RunSize(b.first, b.count);
      forall f | f in b.Frames()
        ensures f !in OwnedFrames(front)
      {
        OwnedFramesMembers(front, f);
      }
    }
  }

  /** Conservation: set bits are the reserved ones plus what the outstanding blocks asked for. */
  lemma FramesAreConserved(p: Pool, states: seq<State>, steps: seq<Step>, i: nat)
    requires IsRun(p, states, steps) && i <= |steps|
    ensures |states[i].bits| == |p.reserved| + TotalCount(states[i].owned)
    ensures states[i].owned == [] ==> states[i] == Initial(p)
  {
    EveryRunIsSafe(p, states, steps, i);
    var s := states[i];
    OwnedSize(s.owned);
    forall f | f in OwnedFrames(s.owned)
      ensures f !in p.reserved
    {
      OwnedFramesMembers(s.owned, f);
    }
  }

  /** The bitmap manager refines the runs above: request by request, its frames are the bits of
      a run that takes exactly these steps. */
  method Serve(m: BitmapMemoryManager, requests: seq<Step>) returns (owned: seq<Block>, ghost states: seq<State>)
    requires m.Valid()
    modifies m.allocMap
    ensures IsRun(Pool(m.begin, m.end, old(m.Allocated())), states, requests)
    ensures states[|requests|] == State(m.Allocated(), owned)
  {
    ghost var p := Pool(m.begin, m.end, m.Allocated());
    owned, states := [], [Initial(p)];
    for k := 0 to |requests|
      invariant IsRun(p, states, requests[..k])
      invariant states[k] == State(m.Allocated(), owned)
    {
      ghost var s := states[k];
      EveryRunIsSafe(p, states, requests[..k], k);
      match requests[k] {
        case DoAlloc(count) =>
          var r := m.AllocIntended(count);
          if r.Some? {
            owned := owned + [Block(r.value, count)];
          }
        case DoFree(i) =>
          if i < |owned| {
            OwnedBlockFits(p, s, i);
            m.Free(owned[i].first, owned[i].count);
            owned := Without(owned, i);
          }
      }
      RunExtends(p, states, requests, k, State(m.Allocated(), owned));
      states := states + [State(m.Allocated(), owned)];
    }
    assert requests[..|requests|] == requests;
  }

  lemma RunExtends(p: Pool, states: seq<State>, requests: seq<Step>, k: nat, s': State)
    requires k < |requests| && IsRun(p, states, requests[..k]) && Next(p, states[k], requests[k], s')
    ensures IsRun(p, states + [s'], requests[..k + 1])
  {
    var longer, steps := states + [s'], requests[..k + 1];
    forall i | 0 <= i < |steps|
      ensures Next(p, longer[i], steps[i], longer[i + 1])
    {
      if i < k {
        assert steps[i] == requests[..k][i];
      }
    }
  }

  lemma OwnedBlockFits(p: Pool, s: State, i: nat)
    requires Inv(p, s) && i < |s.owned|
    ensures s.owned[i].count > 0 ==> s.owned[i].first + s.owned[i].count <= p.end
  {
    var b := s.owned[i];
    if b.count > 0 {
      var last: nat := b.first + b.count - 1;
      assert InPool(p, b) && last in b.Frames();
    }
  }
}
