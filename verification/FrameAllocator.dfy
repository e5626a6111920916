/** The bitmap of 64-bit words kept by the kernel, over the set of frames it stands for. */
module FrameAllocator {
  import opened Bits
  import opened Wrappers
  import opened FrameSets
  import opened MemoryMap

  /** The map line of a frame, and its bit in that line. */
  function LineOf(frame: nat): (line: nat)
    ensures frame < FRAME_COUNT ==> line < MAP_LINE_COUNT
  {
    frame / BITS_PER_MAP_LINE
  }

  function BitOf(frame: nat): (bit: nat)
    ensures bit < BITS_PER_MAP_LINE
  {
    frame % BITS_PER_MAP_LINE
  }

  /** A map line with one of its bits written. */
  function WithLineBit(line: U64, i: nat, on: bool): (r: U64)
    requires i < BITS_PER_MAP_LINE
  {
    SizeOfU64();
    WithBit(BITS_PER_MAP_LINE, line, i, on)
  }

  /** line & (1 << i) != 0 */
  predicate TestBit(line: U64, i: nat)
    requires i < BITS_PER_MAP_LINE
  {
    And(line, Pow2(i)) != 0
  }

  lemma {:induction false} TestingABit(line: U64, i: nat)
    requires i < BITS_PER_MAP_LINE
    ensures TestBit(line, i) <==> Bit(line, i)
  {
    MaskIsolates(line, i);
  }

  /** The bit that stands for a frame. */
  ghost predicate FrameBit(lines: seq<U64>, f: nat)
    requires |lines| == MAP_LINE_COUNT && f < FRAME_COUNT
  {
    Bit(lines[LineOf(f)], BitOf(f))
  }

  /** The frames below `n` whose bit is set. */
  ghost function FramesBelow(lines: seq<U64>, n: nat): set<nat>
    requires |lines| == MAP_LINE_COUNT && n <= FRAME_COUNT
  {
    if n == 0 then {}
    else FramesBelow(lines, n - 1) + (if FrameBit(lines, n - 1) then {n - 1} else {})
  }

  lemma {:induction false} FramesBelowMembers(lines: seq<U64>, n: nat, f: nat)
    requires |lines| == MAP_LINE_COUNT && n <= FRAME_COUNT
    ensures f in FramesBelow(lines, n) <==> f < n && FrameBit(lines, f)
  {
    if n > 0 {
      FramesBelowMembers(lines, n - 1, f);
    }
  }

  /** Line and bit together name the frame. */
  lemma LineAndBit(f: nat, g: nat)
    ensures f == g <==> LineOf(f) == LineOf(g) && BitOf(f) == BitOf(g)
  {
  }

  /** The map lines with the bit of one frame written. */
  function WithFrame(lines: seq<U64>, frame: nat, on: bool): (r: seq<U64>)
    requires |lines| == MAP_LINE_COUNT && frame < FRAME_COUNT
    ensures |r| == MAP_LINE_COUNT
  {
    lines[LineOf(frame) := WithLineBit(lines[LineOf(frame)], BitOf(frame), on)]
  }

  lemma FrameBitAfterWrite(lines: seq<U64>, frame: nat, on: bool, f: nat)
    requires |lines| == MAP_LINE_COUNT && frame < FRAME_COUNT && f < FRAME_COUNT
    ensures FrameBit(WithFrame(lines, frame, on), f) <==> if f == frame then on else FrameBit(lines, f)
  {
    LineAndBit(frame, f);
    if LineOf(frame) == LineOf(f) {
      LineBitAfterWrite(lines[LineOf(f)], BitOf(frame), on, BitOf(f));
    }
  }

  lemma LineBitAfterWrite(line: U64, i: nat, on: bool, j: nat)
    requires i < BITS_PER_MAP_LINE && j < BITS_PER_MAP_LINE
    ensures Bit(WithLineBit(line, i, on), j) <==> if j == i then on else Bit(line, j)
  {
    SizeOfU64();
    BitOfWithBit(BITS_PER_MAP_LINE, line, i, on, j);
  }

  /** The bitmap update is the set update. */
  lemma FramesAfterWrite(lines: seq<U64>, frame: nat, on: bool)
    requires |lines| == MAP_LINE_COUNT && frame < FRAME_COUNT
    ensures
      var was, now := FramesBelow(lines, FRAME_COUNT), FramesBelow(WithFrame(lines, frame, on), FRAME_COUNT);
      now == if on then was + {frame} else was - {frame}
  {
    var lines' := WithFrame(lines, frame, on);
    var was, now := FramesBelow(lines, FRAME_COUNT), FramesBelow(lines', FRAME_COUNT);
    forall f: nat
      ensures f in now <==> if on then f in was || f == frame else f in was && f != frame
    {
      FramesBelowMembers(lines, FRAME_COUNT, f);
      FramesBelowMembers(lines', FRAME_COUNT, f);
      if f < FRAME_COUNT {
        FrameBitAfterWrite(lines, frame, on, f);
      }
    }
  }

  lemma {:induction false} ZeroLinesHoldNoFrames(lines: seq<U64>, n: nat)
    requires |lines| == MAP_LINE_COUNT && n <= FRAME_COUNT
    requires forall k :: 0 <= k < |lines| ==> lines[k] == 0
    ensures FramesBelow(lines, n) == {}
  {
    if n > 0 {
      ZeroLinesHoldNoFrames(lines, n - 1);
      ZeroFrameBit(lines, n - 1);
    }
  }

  lemma ZeroFrameBit(lines: seq<U64>, f: nat)
    requires |lines| == MAP_LINE_COUNT && f < FRAME_COUNT
    requires forall k :: 0 <= k < |lines| ==> lines[k] == 0
    ensures !FrameBit(lines, f)
  {
    BitOfZero(BitOf(f));
  }

  /** The frames of [begin, end) that are not taken are those, but frame 0, in areas of type 3, 4
      and 7. */
  ghost predicate ClearByType(descs: seq<Descriptor>, taken: set<nat>, begin: nat, end: nat) {
    forall f: nat :: begin <= f < end && f !in taken <==>
                     f != 0 && exists d <- descs :: (d.ty == 3 || d.ty == 4 || d.ty == 7)
                                                    && d.physStart <= 0x1000 * f < d.physStart + 0x1000 * d.pageCount
  }

  ghost predicate ExactIn(descs: seq<Descriptor>, taken: set<nat>, begin: nat, end: nat) {
    forall f: nat :: begin <= f < end ==> (f !in taken <==> InAvailable(descs, f))
  }

  ghost predicate CompleteIn(descs: seq<Descriptor>, taken: set<nat>, begin: nat, end: nat) {
    forall f: nat :: begin <= f < end && f !in taken <==> f != 0 && InAvailable(descs, f)
  }

  /** What a pass over an aligned map leaves clear: of a sorted map, all there is; of any map, the
      available frames in range exactly when no area or gap hides one, and all of them exactly when
      besides none is stranded. */
  ghost predicate LeavesAvailable(descs: seq<Descriptor>, taken: set<nat>, begin: nat, end: nat) {
    && (SortedDisjoint(descs) ==> ClearByType(descs, taken, begin, end))
    && (ExactIn(descs, taken, begin, end) <==> forall i: nat, k: nat :: i < |descs| && k < |descs| ==> !Hides(descs, 1, i, k))
    && (CompleteIn(descs, taken, begin, end) <==>
          && (forall i: nat, k: nat :: i < |descs| && k < |descs| ==> !Hides(descs, 1, i, k))
          && (forall i: nat :: i < |descs| ==> !Stranded(descs, 1, i)))
  }

  lemma WhatInitLeaves(descs: seq<Descriptor>, taken: set<nat>, begin: nat, end: nat)
    requires PageAligned(descs) && taken == Marks(descs) && begin == 1 && end == FrameOf(LastAvailableEnd(descs))
    ensures LeavesAvailable(descs, taken, begin, end)
  {
    ExactIff(descs, 1);
    CompleteIff(descs, 1);
    SameAsExact(descs, taken, begin, end);
    SameAsComplete(descs, taken, begin, end);
    if SortedDisjoint(descs) {
      SortedIsClearByType(descs, taken, begin, end);
    }
  }

  lemma SameAsExact(descs: seq<Descriptor>, taken: set<nat>, begin: nat, end: nat)
    requires taken == Marks(descs) && begin == 1 && end == FrameOf(LastAvailableEnd(descs))
    ensures ExactIn(descs, taken, begin, end) <==> ExactFrom(descs, 1)
  {
  }

  lemma SameAsComplete(descs: seq<Descriptor>, taken: set<nat>, begin: nat, end: nat)
    requires taken == Marks(descs) && begin == 1 && end == FrameOf(LastAvailableEnd(descs))
    ensures CompleteIn(descs, taken, begin, end) <==> CompleteFrom(descs, 1)
  {
  }

  lemma SortedIsClearByType(descs: seq<Descriptor>, taken: set<nat>, begin: nat, end: nat)
    requires PageAligned(descs) && SortedDisjoint(descs)
    requires taken == Marks(descs) && begin == 1 && end == FrameOf(LastAvailableEnd(descs))
    ensures ClearByType(descs, taken, begin, end)
  {
    AvailableByType(descs);
    forall f: nat
      ensures begin <= f < end && f !in taken <==> f != 0 && InAvailable(descs, f)
    {
      ClearIffAvailable(descs, f);
    }
  }

  class BitmapMemoryManager {
    const allocMap: array<U64>
    var begin: nat
    var end: nat

    ghost predicate Valid()
      reads this
    {
      allocMap.Length == MAP_LINE_COUNT && end <= FRAME_COUNT
    }

    /** The set the bitmap stands for. */
    ghost function Allocated(): (s: set<nat>)
      requires Valid()
      reads this, allocMap
    {
      FramesBelow(allocMap[..], FRAME_COUNT)
    }

    constructor ()
      ensures Valid() && fresh(allocMap)
      ensures Allocated() == {} && begin == 0 && end == 0x200_0000 && allocMap.Length == 0x8_0000
    {
      allocMap := new U64[MAP_LINE_COUNT](_ => 0);
      begin := 0;
      end := FRAME_COUNT;
      new;
      ZeroLinesHoldNoFrames(allocMap[..], FRAME_COUNT);
    }

    method SetBit(frame: nat, on: bool)
      requires Valid() && frame < FRAME_COUNT
      modifies allocMap
      ensures Allocated() == if on then old(Allocated()) + {frame} else old(Allocated()) - {frame}
      ensures Bit(allocMap[frame / 64], frame % 64) == on
    {
      var line := LineOf(frame);
      var bit := BitOf(frame);
      allocMap[line] := WithLineBit(allocMap[line], bit, on);
      FramesAfterWrite(old(allocMap[..]), frame, on);
      LineBitAfterWrite(old(allocMap[line]), bit, on, bit);
      assert allocMap[..] == WithFrame(old(allocMap[..]), frame, on);
    }

    method GetBit(frame: nat) returns (b: bool)
      requires Valid() && frame < FRAME_COUNT
      ensures b == (frame in Allocated()) == Bit(allocMap[frame / 64], frame % 64)
    {
      var line := LineOf(frame);
      var bit := BitOf(frame);
      b := TestBit(allocMap[line], bit);
      TestingABit(allocMap[line], bit);
      FramesBelowMembers(allocMap[..], FRAME_COUNT, frame);
    }

    method MarkAllocated(first: nat, count: nat)
      requires Valid() && (count > 0 ==> first + count <= FRAME_COUNT)
      modifies allocMap
      ensures Allocated() == old(Allocated()) + Run(first, count)
    {
      for i := 0 to count
        invariant Allocated() == old(Allocated()) + Run(first, i)
      {
        SetBit(first + i, true);
        assert Run(first, i + 1) == Run(first, i) + {first + i};
      }
    }

    method Free(first: nat, count: nat)
      requires Valid() && (count > 0 ==> first + count <= FRAME_COUNT)
      modifies allocMap
      ensures Allocated() == old(Allocated()) - Run(first, count)
    {
      for i := 0 to count
        invariant Allocated() == old(Allocated()) - Run(first, i)
      {
        SetBit(first + i, false);
        assert Run(first, i + 1) == Run(first, i) + {first + i};
      }
    }

    /** Marks gaps and unavailable areas in one pass over the memory map, and sets the range. */
    method Init(descs: seq<Descriptor>)
      requires Valid() && forall d <- descs :: d.End() <= MAX_PHYSICAL_MEMORY_BYTES
      modifies this, allocMap
      ensures Valid()
      ensures Allocated() == old(Allocated()) + Marks(descs)
      ensures begin == 1 && end == FrameOf(LastAvailableEnd(descs))
      ensures old(Allocated()) == {} && PageAligned(descs) ==> LeavesAvailable(descs, Allocated(), begin, end)
    {
      ghost var was := Allocated();
      MarkAreas(descs);
      if PageAligned(descs) && was == {} {
        WhatInitLeaves(descs, Allocated(), begin, end);
      }
    }

    method MarkAreas(descs: seq<Descriptor>)
      requires Valid() && forall d <- descs :: d.End() <= MAX_PHYSICAL_MEMORY_BYTES
      modifies this, allocMap
      ensures Valid()
      ensures Allocated() == old(Allocated()) + Marks(descs)
      ensures begin == 1 && end == FrameOf(LastAvailableEnd(descs))
    {
      var lastAvailableEnd := 0;
      ghost var was := Allocated();
      for k := 0 to |descs|
        invariant Valid() && Allocated() == was + Marks(descs[..k])
        invariant lastAvailableEnd == LastAvailableEnd(descs[..k]) <= MAX_PHYSICAL_MEMORY_BYTES
      {
        assert descs[k] in descs;
        ghost var before := Allocated();
        MarkArea(lastAvailableEnd, descs[k]);
        MarksStep(descs, k, was, before, Allocated());
        if IsAvailable(descs[k].ty) {
          lastAvailableEnd := descs[k].End();
        }
      }
      assert descs[..|descs|] == descs;
      var rangeEnd := FrameOf(lastAvailableEnd);
      begin, end := 1, rangeEnd;
    }

    /** One round of Init: the gap in front of an area, then the area itself if it is in use. */
    method MarkArea(lastAvailableEnd: nat, desc: Descriptor)
      requires Valid() && desc.End() <= MAX_PHYSICAL_MEMORY_BYTES
      modifies allocMap
      ensures Allocated() == old(Allocated()) + Gap(lastAvailableEnd, desc.physStart) + Reserved(desc)
    {
      var physStart := desc.physStart;
      GapFits(lastAvailableEnd, physStart);
      if lastAvailableEnd < physStart {
        var count := (physStart - lastAvailableEnd) / BYTES_PER_FRAME;
        MarkAllocated(lastAvailableEnd / BYTES_PER_FRAME, count);
      }
      if !IsAvailable(desc.ty) {
        var count := desc.pageCount * UEFI_PAGE_SIZE / BYTES_PER_FRAME;
        MarkAllocated(physStart / BYTES_PER_FRAME, count);
      }
    }

    /** Allocation as written: the counter `i` is never advanced. */
    method Alloc(count: nat) returns (r: Option<nat>)
      requires Valid()
      modifies allocMap
      ensures Allocated() == old(Allocated())
      ensures r == AllocAsWritten(begin, count) == if count == 0 then Some(begin) else None
    {
      var start := begin;
      while true
        invariant Allocated() == old(Allocated())
        invariant count == 0 ==> start == begin
        decreases if start <= end then end - start + 1 else 0
      {
        var i := 0;
        for k := i to count
          invariant Allocated() == old(Allocated()) && (k > 0 ==> start < end)
        {
          if start + i >= end {
            return None;
          }
          var taken := GetBit(start + i);
          if taken {
            break;
          }
        }
        if i == count {
          MarkAllocated(start, count);
          return Some(start);
        }
        start := start + i + 1;
      }
    }

    /** Allocation as its comments describe it: `i` counts the free frames seen from `start`. */
    method AllocIntended(count: nat) returns (r: Option<nat>)
      requires Valid()
      modifies allocMap
      ensures IsFirstFit(old(Allocated()), begin, end, count, r)
      ensures Allocated() == if r.Some? then old(Allocated()) + Run(r.value, count) else old(Allocated())
    {
      var start := begin;
      while true
        invariant begin <= start && Allocated() == old(Allocated())
        invariant forall a: nat :: a < start ==> !RunFits(Allocated(), begin, end, a, count)
        decreases if start <= end then end - start + 1 else 0
      {
        var i := 0;
        while i < count
          invariant i <= count && Allocated() == old(Allocated())
          invariant forall f: nat :: start <= f < start + i ==> f < end && f !in Allocated()
        {
          if start + i >= end {
            TakenFrameRulesOut(Allocated(), begin, end, start, i, count);
            return None;
          }
          var taken := GetBit(start + i);
          if taken {
            break;
          }
          i := i + 1;
        }
        if i == count {
          assert count > 0 ==> start + count - 1 !in Allocated();
          MarkAllocated(start, count);
          return Some(start);
        }
        TakenFrameRulesOut(Allocated(), begin, end, start, i, count);
        start := start + i + 1;
      }
    }
  }

  /** The answer of Alloc, whatever the bitmap holds. */
  function AllocAsWritten(begin: nat, count: nat): Option<nat> {
    if count == 0 then Some(begin) else None
  }

  /** Alloc as written keeps the first-fit promise exactly when nothing is asked for or nothing fits. */
  lemma AllocAsWrittenIsFirstFitIff(taken: set<nat>, begin: nat, end: nat, count: nat)
    ensures IsFirstFit(taken, begin, end, count, AllocAsWritten(begin, count)) <==>
            count == 0 || forall a: nat :: !RunFits(taken, begin, end, a, count)
  {
    if count == 0 {
      assert RunFits(taken, begin, end, begin, count);
    }
  }

  /** One free frame is enough to see the difference. */
  lemma AllocAsWrittenMissesAFreeFrame()
    ensures RunFits({}, 1, 2, 1, 1)
    ensures IsFirstFit({}, 1, 2, 1, Some(1))
    ensures !IsFirstFit({}, 1, 2, 1, AllocAsWritten(1, 1))
  {
    assert RunFits({}, 1, 2, 1, 1);
  }
}
