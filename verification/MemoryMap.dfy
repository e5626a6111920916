/** UEFI memory map descriptors and what the one-pass initialisation makes of them. */
module MemoryMap {
  import opened FrameSets

  const UEFI_PAGE_SIZE: nat := 1024 * 4

  // Memory type codes of the UEFI Specification 2.10, section 7.2.
  type MemoryType = nat
  const BOOT_SERVICES_CODE: MemoryType := 3
  const BOOT_SERVICES_DATA: MemoryType := 4
  const CONVENTIONAL: MemoryType := 7

  predicate IsAvailable(ty: MemoryType) {
    ty == BOOT_SERVICES_CODE || ty == BOOT_SERVICES_DATA || ty == CONVENTIONAL
  }

  datatype Descriptor = Descriptor(physStart: nat, pageCount: nat, ty: MemoryType) {
    function End(): nat {
      physStart + pageCount * UEFI_PAGE_SIZE
    }
  }

  /** The memory-map format promises that every area starts on a page boundary. */
  ghost predicate PageAligned(descs: seq<Descriptor>) {
    forall d <- descs :: d.physStart % UEFI_PAGE_SIZE == 0
  }

  ghost predicate SortedDisjoint(descs: seq<Descriptor>) {
    forall i, j :: 0 <= i < j < |descs| ==> descs[i].End() <= descs[j].physStart
  }

  /** A range of byte addresses, `lo` included and `hi` not. */
  datatype Range = Range(lo: nat, hi: nat) {
    /** The first byte of a frame lies in the range. */
    ghost predicate Has(frame: nat) {
      lo <= frame * BYTES_PER_FRAME < hi
    }
  }

  ghost function AreaOf(d: Descriptor): Range {
    Range(d.physStart, d.End())
  }

  ghost predicate InAvailable(descs: seq<Descriptor>, frame: nat) {
    exists d <- descs :: IsAvailable(d.ty) && AreaOf(d).Has(frame)
  }

  /** Boot-services code and data and conventional memory are available, nothing else is. */
  lemma AvailableByType(descs: seq<Descriptor>)
    ensures forall f: nat :: InAvailable(descs, f) <==>
              exists d <- descs :: (d.ty == 3 || d.ty == 4 || d.ty == 7)
                                   && d.physStart <= 0x1000 * f < d.physStart + 0x1000 * d.pageCount
  {
  }

  /** End of the last available area seen. */
  ghost function LastAvailableEnd(descs: seq<Descriptor>): nat {
    if descs == [] then 0
    else
      var d := descs[|descs| - 1];
      if IsAvailable(d.ty) then d.End() else LastAvailableEnd(descs[..|descs| - 1])
  }

  /** The frames between the last available end and the start of the next area. */
  ghost function Gap(lastEnd: nat, physStart: nat): set<nat> {
    if lastEnd < physStart
    then Run(lastEnd / BYTES_PER_FRAME, (physStart - lastEnd) / BYTES_PER_FRAME)
    else {}
  }

  /** The frames of an area that may not be handed out. */
  ghost function Reserved(d: Descriptor): set<nat> {
    if IsAvailable(d.ty) then {}
    else Run(d.physStart / BYTES_PER_FRAME, d.pageCount * UEFI_PAGE_SIZE / BYTES_PER_FRAME)
  }

  /** Every frame marked by a pass over the map. */
  ghost function Marks(descs: seq<Descriptor>): set<nat> {
    if descs == [] then {}
    else
      var front, d := descs[..|descs| - 1], descs[|descs| - 1];
      Marks(front) + Gap(LastAvailableEnd(front), d.physStart) + Reserved(d)
  }

  /** Marking one more area keeps a set in step with the marks of the areas passed. */
  lemma MarksStep(descs: seq<Descriptor>, k: nat, initial: set<nat>, before: set<nat>, after: set<nat>)
    requires k < |descs|
    requires before == initial + Marks(descs[..k])
    requires after == before + Gap(LastAvailableEnd(descs[..k]), descs[k].physStart) + Reserved(descs[k])
    ensures after == initial + Marks(descs[..k + 1])
    ensures LastAvailableEnd(descs[..k + 1])
         == if IsAvailable(descs[k].ty) then descs[k].End() else LastAvailableEnd(descs[..k])
  {
    assert descs[..k + 1][..k] == descs[..k];
  }

  /** The frame that holds a byte address. */
  function FrameOf(bytes: nat): (f: nat)
    ensures bytes <= MAX_PHYSICAL_MEMORY_BYTES ==> f <= FRAME_COUNT
  {
    bytes / BYTES_PER_FRAME
  }

  lemma BelowFrameOf(frame: nat, bytes: nat)
    ensures frame < FrameOf(bytes) ==> frame * BYTES_PER_FRAME < bytes
    ensures bytes % BYTES_PER_FRAME == 0 && frame * BYTES_PER_FRAME < bytes ==> frame < FrameOf(bytes)
  {
  }

  lemma GapFits(lastEnd: nat, physStart: nat)
    requires physStart <= MAX_PHYSICAL_MEMORY_BYTES
    ensures lastEnd < physStart ==>
              lastEnd / BYTES_PER_FRAME + (physStart - lastEnd) / BYTES_PER_FRAME <= FRAME_COUNT
  {
  }

  lemma LastAvailableEndAligned(descs: seq<Descriptor>)
    requires PageAligned(descs)
    ensures LastAvailableEnd(descs) % BYTES_PER_FRAME == 0
  {
  }

  /** On page boundaries a gap holds exactly the frames of its byte range. */
  lemma GapFrames(lastEnd: nat, physStart: nat, frame: nat)
    requires lastEnd % BYTES_PER_FRAME == 0 && physStart % BYTES_PER_FRAME == 0
    ensures frame in Gap(lastEnd, physStart) <==> lastEnd <= frame * BYTES_PER_FRAME < physStart
  {
  }

  lemma ReservedFrames(d: Descriptor, frame: nat)
    requires d.physStart % BYTES_PER_FRAME == 0
    ensures frame in Reserved(d) <==> !IsAvailable(d.ty) && AreaOf(d).Has(frame)
  {
  }

  /** Safety in any order, overlaps included: below the last available end, a frame that no
      available area holds is always marked. */
  lemma {:induction false} UnavailableIsMarked(descs: seq<Descriptor>, frame: nat)
    requires PageAligned(descs)
    requires frame * BYTES_PER_FRAME < LastAvailableEnd(descs)
    requires !InAvailable(descs, frame)
    ensures frame in Marks(descs)
  {
    var front, d := descs[..|descs| - 1], descs[|descs| - 1];
    LastAvailableEndAligned(front);
    GapFrames(LastAvailableEnd(front), d.physStart, frame);
    assert d in descs;
    if frame * BYTES_PER_FRAME < LastAvailableEnd(front) {
      UnavailableIsMarked(front, frame);
    } else {
      assert !AreaOf(d).Has(frame);
    }
  }

  lemma {:induction false} LastAvailableEndBounds(descs: seq<Descriptor>, d: Descriptor)
    requires SortedDisjoint(descs) && d in descs && IsAvailable(d.ty)
    ensures d.End() <= LastAvailableEnd(descs)
  {
    var front, last := descs[..|descs| - 1], descs[|descs| - 1];
    if d != last {
      assert d in front;
      if IsAvailable(last.ty) {
        var i :| 0 <= i < |front| && front[i] == d;
        assert descs[i].End() <= last.physStart;
      } else {
        LastAvailableEndBounds(front, d);
      }
    } else if !IsAvailable(last.ty) {
      assert false;
    }
  }

  /** In a sorted map no pass marks a frame of an available area. */
  lemma {:induction false} AvailableIsClear(descs: seq<Descriptor>, frame: nat)
    requires PageAligned(descs) && SortedDisjoint(descs) && InAvailable(descs, frame)
    ensures frame !in Marks(descs)
  {
    var front, last := descs[..|descs| - 1], descs[|descs| - 1];
    LastLeavesClear(descs, frame);
    if AreaOf(last).Has(frame) && IsAvailable(last.ty) {
      AboveEverything(front, last.physStart, frame);
    } else {
      AvailableIsClear(front, frame);
    }
  }

  /** The last area of a sorted map makes no pass mark an available frame. */
  lemma LastLeavesClear(descs: seq<Descriptor>, frame: nat)
    requires PageAligned(descs) && SortedDisjoint(descs) && InAvailable(descs, frame)
    ensures
      var front, last := descs[..|descs| - 1], descs[|descs| - 1];
      frame !in Gap(LastAvailableEnd(front), last.physStart) && frame !in Reserved(last)
  {
    var front, last := descs[..|descs| - 1], descs[|descs| - 1];
    var i :| 0 <= i < |descs| && IsAvailable(descs[i].ty) && AreaOf(descs[i]).Has(frame);
    LastAvailableEndAligned(front);
    GapFrames(LastAvailableEnd(front), last.physStart, frame);
    ReservedFrames(last, frame);
    if i < |front| {
      assert front[i] in front && descs[i].End() <= last.physStart;
      LastAvailableEndBounds(front, front[i]);
    }
  }

  /** Nothing at or above the end of the areas passed is marked. */
  lemma {:induction false} AboveEverything(descs: seq<Descriptor>, bound: nat, frame: nat)
    requires PageAligned(descs)
    requires forall d <- descs :: d.End() <= bound
    requires bound <= frame * BYTES_PER_FRAME
    ensures frame !in Marks(descs)
  {
    if descs != [] {
      var front, last := descs[..|descs| - 1], descs[|descs| - 1];
      AboveEverything(front, bound, frame);
      LastAvailableEndAligned(front);
      GapFrames(LastAvailableEnd(front), last.physStart, frame);
      ReservedFrames(last, frame);
      assert last in descs;
      assert last.physStart <= last.End() <= frame * BYTES_PER_FRAME;
    }
  }

  // Maps in any order

  /** The addresses between the last available end before area k and its start. */
  ghost function GapBefore(descs: seq<Descriptor>, k: nat): Range
    requires k < |descs|
  {
    Range(LastAvailableEnd(descs[..k]), descs[k].physStart)
  }

  /** Area k makes the pass mark the frame: it is unavailable and holds it, or it starts past the
      frame while the last available area before it had ended. */
  ghost predicate MarkedBy(descs: seq<Descriptor>, k: nat, frame: nat)
    requires k < |descs|
  {
    || (!IsAvailable(descs[k].ty) && AreaOf(descs[k]).Has(frame))
    || GapBefore(descs, k).Has(frame)
  }

  /** The marks of a map in any order, overlaps included. */
  lemma {:induction false} MarkedIff(descs: seq<Descriptor>, frame: nat)
    requires PageAligned(descs)
    ensures frame in Marks(descs) <==> exists k: nat :: k < |descs| && MarkedBy(descs, k, frame)
  {
    if descs != [] {
      var last := |descs| - 1;
      var front := descs[..last];
      MarkedIff(front, frame);
      LastAvailableEndAligned(front);
      GapFrames(LastAvailableEnd(front), descs[last].physStart, frame);
      ReservedFrames(descs[last], frame);
      assert MarkedBy(descs, last, frame) <==>
             frame in Gap(LastAvailableEnd(front), descs[last].physStart) + Reserved(descs[last]);
      forall k: nat | k < last
        ensures MarkedBy(descs, k, frame) <==> MarkedBy(front, k, frame)
      {
        MarkedByPrefix(descs, last, k, frame);
      }
    }
  }

  lemma MarkedByPrefix(descs: seq<Descriptor>, n: nat, k: nat, frame: nat)
    requires k < n <= |descs|
    ensures MarkedBy(descs[..n], k, frame) <==> MarkedBy(descs, k, frame)
  {
    assert descs[..n][..k] == descs[..k];
  }

  /** From `begin` up to the last available end, exactly the frames of available areas stay clear. */
  ghost predicate ExactFrom(descs: seq<Descriptor>, begin: nat) {
    forall f: nat :: begin <= f < FrameOf(LastAvailableEnd(descs)) ==> (f !in Marks(descs) <==> InAvailable(descs, f))
  }

  /** Three ranges have an address in common: each starts before any of them ends. */
  predicate Meet(a: Range, b: Range, c: Range) {
    && a.lo < a.hi && a.lo < b.hi && a.lo < c.hi
    && b.lo < a.hi && b.lo < b.hi && b.lo < c.hi
    && c.lo < a.hi && c.lo < b.hi && c.lo < c.hi
  }

  /** Ranges that start on page boundaries and meet have a frame in common. */
  lemma MeetInAFrame(a: Range, b: Range, c: Range)
    requires a.lo % BYTES_PER_FRAME == 0 && b.lo % BYTES_PER_FRAME == 0 && c.lo % BYTES_PER_FRAME == 0
    ensures Meet(a, b, c) <==>
            exists f: nat :: a.Has(f) && b.Has(f) && c.Has(f)
  {
    if Meet(a, b, c) {
      var top := if a.lo >= b.lo && a.lo >= c.lo then a.lo else if b.lo >= c.lo then b.lo else c.lo;
      var f := top / BYTES_PER_FRAME;
      assert f * BYTES_PER_FRAME == top;
      assert a.Has(f) && b.Has(f) && c.Has(f);
    }
  }

  /** The addresses of the frames that may be handed out. */
  ghost function Managed(descs: seq<Descriptor>, begin: nat): Range {
    Range(begin * BYTES_PER_FRAME, LastAvailableEnd(descs))
  }

  /** Area k, if unavailable, or the gap in front of it meets the available area i. */
  ghost predicate Hides(descs: seq<Descriptor>, begin: nat, i: nat, k: nat)
    requires i < |descs| && k < |descs|
  {
    && IsAvailable(descs[i].ty)
    && (|| (!IsAvailable(descs[k].ty) && Meet(AreaOf(descs[i]), AreaOf(descs[k]), Managed(descs, begin)))
        || Meet(AreaOf(descs[i]), GapBefore(descs, k), Managed(descs, begin)))
  }

  lemma MeetManaged(a: Range, b: Range, begin: nat, end: nat)
    requires a.lo % BYTES_PER_FRAME == 0 && b.lo % BYTES_PER_FRAME == 0 && end % BYTES_PER_FRAME == 0
    ensures Meet(a, b, Range(begin * BYTES_PER_FRAME, end)) <==>
            exists f: nat :: begin <= f < FrameOf(end) && a.Has(f) && b.Has(f)
  {
    var c := Range(begin * BYTES_PER_FRAME, end);
    MeetInAFrame(a, b, c);
    forall f: nat
      ensures c.Has(f) <==> begin <= f < FrameOf(end)
    {
      BelowFrameOf(f, end);
    }
  }

  /** Frame by frame, in terms of what the pass marks. */
  lemma HidesIff(descs: seq<Descriptor>, begin: nat, i: nat, k: nat)
    requires PageAligned(descs) && i < |descs| && k < |descs|
    ensures Hides(descs, begin, i, k) <==>
            IsAvailable(descs[i].ty) && exists f: nat :: begin <= f < FrameOf(LastAvailableEnd(descs))
                                                         && AreaOf(descs[i]).Has(f) && MarkedBy(descs, k, f)
  {
    LastAvailableEndAligned(descs);
    LastAvailableEndAligned(descs[..k]);
    MeetManaged(AreaOf(descs[i]), AreaOf(descs[k]), begin, LastAvailableEnd(descs));
    MeetManaged(AreaOf(descs[i]), GapBefore(descs, k), begin, LastAvailableEnd(descs));
  }

  /** Initialisation is exact exactly when no unavailable area, and no gap, meets an available
      area within the frames managed. */
  lemma ExactIff(descs: seq<Descriptor>, begin: nat)
    requires PageAligned(descs)
    ensures ExactFrom(descs, begin) <==> forall i: nat, k: nat :: i < |descs| && k < |descs| ==> !Hides(descs, begin, i, k)
  {
    if ExactFrom(descs, begin) {
      forall i: nat, k: nat | i < |descs| && k < |descs|
        ensures !Hides(descs, begin, i, k)
      {
        HidesIff(descs, begin, i, k);
        if Hides(descs, begin, i, k) {
          var f: nat :| begin <= f < FrameOf(LastAvailableEnd(descs)) && AreaOf(descs[i]).Has(f) && MarkedBy(descs, k, f);
          assert descs[i] in descs && InAvailable(descs, f);
          MarkedIff(descs, f);
        }
      }
    } else {
      var f: nat :| begin <= f < FrameOf(LastAvailableEnd(descs)) && (f in Marks(descs) <==> InAvailable(descs, f));
      if !InAvailable(descs, f) {
        BelowFrameOf(f, LastAvailableEnd(descs));
        UnavailableIsMarked(descs, f);
      }
      MarkedIff(descs, f);
      var k: nat :| k < |descs| && MarkedBy(descs, k, f);
      var i: nat :| i < |descs| && IsAvailable(descs[i].ty) && AreaOf(descs[i]).Has(f);
      HidesIff(descs, begin, i, k);
    }
  }

  /** The available area i reaches past the last available end, which need not be the greatest. */
  ghost predicate Stranded(descs: seq<Descriptor>, begin: nat, i: nat)
    requires i < |descs|
  {
    && IsAvailable(descs[i].ty) && descs[i].pageCount > 0
    && LastAvailableEnd(descs) < descs[i].End() && begin * BYTES_PER_FRAME < descs[i].End()
  }

  lemma StrandedIff(descs: seq<Descriptor>, begin: nat, i: nat)
    requires PageAligned(descs) && i < |descs|
    ensures Stranded(descs, begin, i) <==>
            IsAvailable(descs[i].ty) && exists f: nat :: begin <= f && FrameOf(LastAvailableEnd(descs)) <= f && AreaOf(descs[i]).Has(f)
  {
    var d, end := descs[i], LastAvailableEnd(descs);
    LastAvailableEndAligned(descs);
    if Stranded(descs, begin, i) {
      LastFrame(d, begin, end);
    }
    forall f: nat | begin <= f && FrameOf(end) <= f && AreaOf(d).Has(f)
      ensures end < d.End() && d.pageCount > 0 && begin * BYTES_PER_FRAME < d.End()
    {
      BelowFrameOf(f, end);
    }
  }

  /** The last frame of an area that ends past two page boundaries lies past them. */
  lemma LastFrame(d: Descriptor, begin: nat, end: nat)
    requires d.physStart % BYTES_PER_FRAME == 0 && end % BYTES_PER_FRAME == 0 && d.pageCount > 0
    requires end < d.End() && begin * BYTES_PER_FRAME < d.End()
    ensures exists f: nat :: begin <= f && FrameOf(end) <= f && AreaOf(d).Has(f)
  {
    var f := d.physStart / BYTES_PER_FRAME + d.pageCount - 1;
    assert f * BYTES_PER_FRAME == d.End() - BYTES_PER_FRAME;
    assert AreaOf(d).Has(f) && FrameOf(end) <= f;
  }

  /** From `begin` on, the frames that can be handed out are the available ones, all of them. */
  ghost predicate CompleteFrom(descs: seq<Descriptor>, begin: nat) {
    forall f: nat :: begin <= f ==>
      (f < FrameOf(LastAvailableEnd(descs)) && f !in Marks(descs) <==> InAvailable(descs, f))
  }

  /** They are exactly when, besides, no available area reaches past the end. */
  lemma CompleteIff(descs: seq<Descriptor>, begin: nat)
    requires PageAligned(descs)
    ensures CompleteFrom(descs, begin) <==>
            ExactFrom(descs, begin) && forall i: nat :: i < |descs| ==> !Stranded(descs, begin, i)
  {
    forall i: nat | i < |descs| && Stranded(descs, begin, i)
      ensures !CompleteFrom(descs, begin)
    {
      StrandedIff(descs, begin, i);
      var f: nat :| begin <= f && FrameOf(LastAvailableEnd(descs)) <= f && AreaOf(descs[i]).Has(f);
      assert descs[i] in descs && InAvailable(descs, f);
    }
    forall f: nat | begin <= f && FrameOf(LastAvailableEnd(descs)) <= f && InAvailable(descs, f)
      ensures exists i: nat :: i < |descs| && Stranded(descs, begin, i)
    {
      var i: nat :| i < |descs| && IsAvailable(descs[i].ty) && AreaOf(descs[i]).Has(f);
      StrandedIff(descs, begin, i);
    }
  }

  /** A sorted map of disjoint areas: a frame is below the end and clear exactly when it is
      available. */
  lemma ClearIffAvailable(descs: seq<Descriptor>, frame: nat)
    requires PageAligned(descs) && SortedDisjoint(descs)
    ensures frame < FrameOf(LastAvailableEnd(descs)) && frame !in Marks(descs) <==> InAvailable(descs, frame)
  {
    if InAvailable(descs, frame) {
      AvailableIsClear(descs, frame);
      AvailableIsBelowEnd(descs, frame);
    } else if frame < FrameOf(LastAvailableEnd(descs)) {
      BelowFrameOf(frame, LastAvailableEnd(descs));
      UnavailableIsMarked(descs, frame);
    }
  }

  lemma AvailableIsBelowEnd(descs: seq<Descriptor>, frame: nat)
    requires PageAligned(descs) && SortedDisjoint(descs) && InAvailable(descs, frame)
    ensures frame < FrameOf(LastAvailableEnd(descs))
  {
    LastAvailableEndAligned(descs);
    BelowFrameOf(frame, LastAvailableEnd(descs));
    var d :| d in descs && IsAvailable(d.ty) && AreaOf(d).Has(frame);
    LastAvailableEndBounds(descs, d);
  }

  /** The same for every frame at once. */
  lemma InitIsExact(descs: seq<Descriptor>)
    requires PageAligned(descs) && SortedDisjoint(descs)
    ensures forall f: nat :: f < FrameOf(LastAvailableEnd(descs)) && f !in Marks(descs) <==> InAvailable(descs, f)
  {
    forall f: nat
      ensures f < FrameOf(LastAvailableEnd(descs)) && f !in Marks(descs) <==> InAvailable(descs, f)
    {
      ClearIffAvailable(descs, f);
    }
  }

  /** Sorting matters: here frame 8 is available and marked. */
  lemma UnsortedMapLosesFrames()
    ensures
      var descs := [Descriptor(8 * UEFI_PAGE_SIZE, 8, CONVENTIONAL),
                    Descriptor(0, 4, CONVENTIONAL),
                    Descriptor(16 * UEFI_PAGE_SIZE, 4, CONVENTIONAL)];
      PageAligned(descs) && InAvailable(descs, 8) && 8 in Marks(descs)
      && 8 < FrameOf(LastAvailableEnd(descs))
  {
    var a := Descriptor(8 * UEFI_PAGE_SIZE, 8, CONVENTIONAL);
    var b := Descriptor(0, 4, CONVENTIONAL);
    var c := Descriptor(16 * UEFI_PAGE_SIZE, 4, CONVENTIONAL);
    var descs := [a, b, c];
    assert descs[..2] == [a, b];
    assert a in descs && AreaOf(a).Has(8);
    GapFrames(b.End(), c.physStart, 8);
  }
}
