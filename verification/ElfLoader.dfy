/** Loading the PT_LOAD segments of the kernel image (chapter 5 of the System V gABI, Program
    Header). Addresses index the memory the boot loader writes to. */
module ElfLoader {
  import opened Bits

  const PT_LOAD: nat := 1
  const UEFI_PAGE_SIZE: nat := 0x1000

  datatype ProgramHeader = ProgramHeader(pType: nat, offset: nat, vaddr: nat, paddr: nat, filesz: nat, memsz: nat)

  type Headers = seq<ProgramHeader>

  /** The segment's memory lies inside memory. */
  predicate InMemory(size: nat, h: ProgramHeader) {
    h.pType == PT_LOAD ==> h.vaddr + h.memsz <= size
  }

  /** The slices taken by copy_segment exist: without this it panics. */
  predicate Loadable(src: seq<Byte>, h: ProgramHeader) {
    h.pType == PT_LOAD ==> h.filesz <= h.memsz && h.offset + h.filesz <= |src|
  }

  ghost predicate AllInMemory(size: nat, hs: Headers) {
    forall i :: 0 <= i < |hs| ==> InMemory(size, hs[i])
  }

  ghost predicate AllLoadable(src: seq<Byte>, hs: Headers) {
    forall i :: 0 <= i < |hs| ==> Loadable(src, hs[i])
  }

  predicate Covers(h: ProgramHeader, a: nat) {
    h.pType == PT_LOAD && h.vaddr <= a < h.vaddr + h.memsz
  }

  /** What the program header promises at an address: a byte of the file, then zeros. */
  function SegmentByte(src: seq<Byte>, h: ProgramHeader, a: nat): Byte
    requires Loadable(src, h) && Covers(h, a)
  {
    if a < h.vaddr + h.filesz then src[h.offset + (a - h.vaddr)] else 0
  }

  function AfterSegment(m: seq<Byte>, src: seq<Byte>, h: ProgramHeader): (r: seq<Byte>)
    requires Loadable(src, h)
    ensures |r| == |m|
  {
    seq(|m|, a requires 0 <= a < |m| => if Covers(h, a) then SegmentByte(src, h, a) else m[a])
  }

  /** Memory after the segments have been copied in header order. */
  function Image(m: seq<Byte>, src: seq<Byte>, hs: Headers): (r: seq<Byte>)
    requires AllLoadable(src, hs)
    ensures |r| == |m|
  {
    if hs == [] then m else AfterSegment(Image(m, src, hs[..|hs| - 1]), src, hs[|hs| - 1])
  }

  /** Byte by byte or as a slice: the file part of a segment. */
  lemma SliceOfFile(image: seq<Byte>, src: seq<Byte>, h: ProgramHeader)
    requires h.vaddr + h.filesz <= |image| && h.offset + h.filesz <= |src|
    requires forall a :: h.vaddr <= a < h.vaddr + h.filesz ==> image[a] == src[h.offset + (a - h.vaddr)]
    ensures image[h.vaddr..h.vaddr + h.filesz] == src[h.offset..h.offset + h.filesz]
  {
    var loaded, file := image[h.vaddr..h.vaddr + h.filesz], src[h.offset..h.offset + h.filesz];
    forall k | 0 <= k < h.filesz
      ensures loaded[k] == file[k]
    {
      assert loaded[k] == image[h.vaddr + k];
    }
  }

  /** Copies the file part and clears the rest; false where a slice is out of range. */
  method CopySegment(src: seq<Byte>, mem: array<Byte>, h: ProgramHeader) returns (ok: bool)
    requires h.pType == PT_LOAD && InMemory(mem.Length, h)
    modifies mem
    ensures ok <==> h.filesz <= h.memsz && h.offset + h.filesz <= |src|
    ensures mem[..] == if ok then AfterSegment(old(mem[..]), src, h) else old(mem[..])
    ensures ok ==>
              && mem[h.vaddr..h.vaddr + h.filesz] == src[h.offset..h.offset + h.filesz]
              && (forall a :: h.vaddr + h.filesz <= a < h.vaddr + h.memsz ==> mem[a] == 0)
              && (forall a :: 0 <= a < mem.Length && !(h.vaddr <= a < h.vaddr + h.memsz) ==> mem[a] == old(mem[a]))
  {
    if h.filesz > h.memsz || h.offset + h.filesz > |src| {
      return false;
    }
    for i := 0 to h.filesz
      invariant forall a :: 0 <= a < mem.Length ==>
                  mem[a] == if h.vaddr <= a < h.vaddr + i then src[h.offset + (a - h.vaddr)] else old(mem[a])
    {
      mem[h.vaddr + i] := src[h.offset + i];
    }
    for i := h.filesz to h.memsz
      invariant forall a :: 0 <= a < mem.Length ==>
                  mem[a] == if h.vaddr <= a < h.vaddr + h.filesz then src[h.offset + (a - h.vaddr)]
                            else if h.vaddr <= a < h.vaddr + i then 0 else old(mem[a])
    {
      mem[h.vaddr + i] := 0;
    }
    SliceOfFile(mem[..], src, h);
    assert mem[..][h.vaddr..h.vaddr + h.filesz] == mem[h.vaddr..h.vaddr + h.filesz];
    return true;
  }

  /** Copies every PT_LOAD segment, in header order, up to header `n`, the first that panics; memory
      then holds the image of the headers before it. */
  method CopyLoadSegments(src: seq<Byte>, mem: array<Byte>, hs: Headers) returns (ok: bool, ghost n: nat)
    requires AllInMemory(mem.Length, hs)
    modifies mem
    ensures ok <==> AllLoadable(src, hs)
    ensures ok <==> forall h <- hs :: h.pType == 1 ==> h.filesz <= h.memsz && h.offset + h.filesz <= |src|
    ensures n <= |hs| && (ok <==> n == |hs|) && (!ok ==> !Loadable(src, hs[n]))
    ensures AllLoadable(src, hs[..n]) && mem[..] == Image(old(mem[..]), src, hs[..n])
  {
    for k := 0 to |hs|
      invariant AllLoadable(src, hs[..k])
      invariant mem[..] == Image(old(mem[..]), src, hs[..k])
    {
      assert hs[..k + 1][..k] == hs[..k] && hs[..k + 1][k] == hs[k];
      if hs[k].pType != PT_LOAD {
        assert AfterSegment(mem[..], src, hs[k]) == mem[..];
        continue;
      }
      var copied := CopySegment(src, mem, hs[k]);
      if !copied {
        return false, k;
      }
    }
    assert hs[..|hs|] == hs;
    return true, |hs|;
  }

  /** At each address the last header that covers it decides. */
  lemma {:induction false} LastSegmentDecides(m: seq<Byte>, src: seq<Byte>, hs: Headers, i: nat, a: nat)
    requires AllLoadable(src, hs) && a < |m| && i < |hs| && Covers(hs[i], a)
    requires forall j :: i < j < |hs| ==> !Covers(hs[j], a)
    ensures Image(m, src, hs)[a] == SegmentByte(src, hs[i], a)
  {
    if i < |hs| - 1 {
      LastSegmentDecides(m, src, hs[..|hs| - 1], i, a);
    }
  }

  lemma {:induction false} UncoveredIsUnchanged(m: seq<Byte>, src: seq<Byte>, hs: Headers, a: nat)
    requires AllLoadable(src, hs) && a < |m| && forall j :: 0 <= j < |hs| ==> !Covers(hs[j], a)
    ensures Image(m, src, hs)[a] == m[a]
  {
    if hs != [] {
      UncoveredIsUnchanged(m, src, hs[..|hs| - 1], a);
    }
  }

  ghost predicate Disjoint(hs: Headers) {
    forall i, j, a: nat :: 0 <= i < j < |hs| && Covers(hs[i], a) ==> !Covers(hs[j], a)
  }

  /** Disjoint segments: each holds its file bytes followed by zeros, and the rest of memory is
      as before. */
  lemma DisjointSegmentsAreIntact(m: seq<Byte>, src: seq<Byte>, hs: Headers, a: nat)
    requires AllLoadable(src, hs) && Disjoint(hs) && a < |m|
    ensures forall i :: 0 <= i < |hs| && Covers(hs[i], a) ==> Image(m, src, hs)[a] == SegmentByte(src, hs[i], a)
    ensures (forall i :: 0 <= i < |hs| ==> !Covers(hs[i], a)) ==> Image(m, src, hs)[a] == m[a]
  {
    forall i | 0 <= i < |hs| && Covers(hs[i], a)
      ensures Image(m, src, hs)[a] == SegmentByte(src, hs[i], a)
    {
      LastSegmentDecides(m, src, hs, i, a);
    }
    if forall i :: 0 <= i < |hs| ==> !Covers(hs[i], a) {
      UncoveredIsUnchanged(m, src, hs, a);
    }
  }

  /** The bytes of a segment that shares no address with another: those of the file, then zeros. */
  lemma SegmentIsLoaded(m: seq<Byte>, src: seq<Byte>, hs: Headers, i: nat)
    requires AllLoadable(src, hs) && Disjoint(hs) && i < |hs|
    requires hs[i].pType == 1 && hs[i].vaddr + hs[i].memsz <= |m|
    ensures
      var h, image := hs[i], Image(m, src, hs);
      && h.filesz <= h.memsz && h.offset + h.filesz <= |src|
      && image[h.vaddr..h.vaddr + h.filesz] == src[h.offset..h.offset + h.filesz]
      && (forall a :: h.vaddr + h.filesz <= a < h.vaddr + h.memsz ==> image[a] == 0)
  {
    var h, image := hs[i], Image(m, src, hs);
    assert Loadable(src, h);
    forall a | h.vaddr <= a < h.vaddr + h.filesz
      ensures image[a] == src[h.offset + (a - h.vaddr)]
    {
      ByteIsLoaded(m, src, hs, i, a);
    }
    SliceOfFile(image, src, h);
    forall a | h.vaddr + h.filesz <= a < h.vaddr + h.memsz
      ensures image[a] == 0
    {
      ByteIsLoaded(m, src, hs, i, a);
    }
  }

  lemma ByteIsLoaded(m: seq<Byte>, src: seq<Byte>, hs: Headers, i: nat, a: nat)
    requires AllLoadable(src, hs) && Disjoint(hs) && i < |hs| && a < |m|
    requires hs[i].pType == 1 && hs[i].vaddr <= a < hs[i].vaddr + hs[i].memsz
    ensures Loadable(src, hs[i])
    ensures Image(m, src, hs)[a] == if a < hs[i].vaddr + hs[i].filesz then src[hs[i].offset + (a - hs[i].vaddr)] else 0
  {
    assert Covers(hs[i], a);
    DisjointSegmentsAreIntact(m, src, hs, a);
  }

  /** And no other address changes. */
  lemma RestIsKept(m: seq<Byte>, src: seq<Byte>, hs: Headers, a: nat)
    requires AllLoadable(src, hs) && a < |m|
    requires forall h <- hs :: h.pType == 1 ==> !(h.vaddr <= a < h.vaddr + h.memsz)
    ensures Image(m, src, hs)[a] == m[a]
  {
    forall j | 0 <= j < |hs|
      ensures !Covers(hs[j], a)
    {
      assert hs[j] in hs;
    }
    UncoveredIsUnchanged(m, src, hs, a);
  }

  /** Where two segments overlap they call for the same bytes. */
  ghost predicate Compatible(size: nat, src: seq<Byte>, hs: Headers)
    requires AllLoadable(src, hs)
  {
    forall p, q, a: nat :: p in hs && q in hs && a < size && Covers(p, a) && Covers(q, a) ==>
      Loadable(src, p) && Loadable(src, q) && SegmentByte(src, p, a) == SegmentByte(src, q, a)
  }

  /** Compatible headers determine each byte, whatever their order. */
  lemma CompatibleByte(m: seq<Byte>, src: seq<Byte>, hs: Headers, p: ProgramHeader, a: nat)
    requires AllLoadable(src, hs) && Compatible(|m|, src, hs) && a < |m| && p in hs && Covers(p, a)
    ensures Loadable(src, p) && Image(m, src, hs)[a] == SegmentByte(src, p, a)
  {
    var i := LastCover(hs, a);
    LastSegmentDecides(m, src, hs, i, a);
    assert hs[i] in hs;
  }

  lemma {:induction false} LastCover(hs: Headers, a: nat) returns (i: nat)
    requires exists p :: p in hs && Covers(p, a)
    ensures i < |hs| && Covers(hs[i], a) && forall j :: i < j < |hs| ==> !Covers(hs[j], a)
  {
    var front, last := hs[..|hs| - 1], hs[|hs| - 1];
    if Covers(last, a) {
      i := |hs| - 1;
    } else {
      var p :| p in hs && Covers(p, a);
      assert p in front;
      i := LastCover(front, a);
    }
  }

  lemma SameHeaders(src: seq<Byte>, hs: Headers, gs: Headers)
    requires multiset(hs) == multiset(gs)
    ensures forall p :: p in hs <==> p in gs
    ensures AllLoadable(src, hs) ==> AllLoadable(src, gs)
  {
    forall p
      ensures p in hs <==> p in gs
    {
      assert p in hs <==> p in multiset(hs);
      assert p in gs <==> p in multiset(gs);
    }
    forall i | 0 <= i < |gs| && AllLoadable(src, hs)
      ensures Loadable(src, gs[i])
    {
      assert gs[i] in hs;
    }
  }

  lemma CompatibleOrderIrrelevant(m: seq<Byte>, src: seq<Byte>, hs: Headers, gs: Headers)
    requires AllLoadable(src, hs) && AllLoadable(src, gs) && multiset(hs) == multiset(gs)
    requires Compatible(|m|, src, hs)
    ensures Image(m, src, hs) == Image(m, src, gs)
  {
    SameHeaders(src, hs, gs);
    forall a | 0 <= a < |m|
      ensures Image(m, src, hs)[a] == Image(m, src, gs)[a]
    {
      if p :| p in hs && Covers(p, a) {
        CompatibleByte(m, src, hs, p, a);
        CompatibleByte(m, src, gs, p, a);
      } else {
        NoCover(hs, a);
        NoCover(gs, a);
        UncoveredIsUnchanged(m, src, hs, a);
        UncoveredIsUnchanged(m, src, gs, a);
      }
    }
  }

  lemma NoCover(hs: Headers, a: nat)
    requires forall p :: p in hs ==> !Covers(p, a)
    ensures forall j :: 0 <= j < |hs| ==> !Covers(hs[j], a)
  {
  }

  ghost predicate OrderIrrelevant(m: seq<Byte>, src: seq<Byte>, hs: Headers)
    requires AllLoadable(src, hs)
  {
    forall gs: Headers :: multiset(gs) == multiset(hs) && AllLoadable(src, gs) ==> Image(m, src, gs) == Image(m, src, hs)
  }

  /** The same headers with one of them last: there it decides. */
  lemma MoveLast(m: seq<Byte>, src: seq<Byte>, hs: Headers, p: ProgramHeader, a: nat) returns (gs: Headers)
    requires AllLoadable(src, hs) && p in hs && a < |m| && Covers(p, a)
    ensures multiset(gs) == multiset(hs) && AllLoadable(src, gs)
    ensures Loadable(src, p) && Image(m, src, gs)[a] == SegmentByte(src, p, a)
  {
    var i :| 0 <= i < |hs| && hs[i] == p;
    gs := hs[..i] + hs[i + 1..] + [p];
    assert hs == hs[..i] + [p] + hs[i + 1..];
    SameHeaders(src, hs, gs);
    LastSegmentDecides(m, src, gs, |gs| - 1, a);
  }

  /** The image does not depend on the order of the headers exactly when overlapping segments
      agree. */
  lemma OrderIrrelevantIff(m: seq<Byte>, src: seq<Byte>, hs: Headers)
    requires AllLoadable(src, hs)
    ensures OrderIrrelevant(m, src, hs) <==> Compatible(|m|, src, hs)
  {
    if Compatible(|m|, src, hs) {
      forall gs: Headers | multiset(gs) == multiset(hs) && AllLoadable(src, gs)
        ensures Image(m, src, gs) == Image(m, src, hs)
      {
        CompatibleOrderIrrelevant(m, src, hs, gs);
      }
    }
    if OrderIrrelevant(m, src, hs) {
      forall p, q, a: nat | p in hs && q in hs && a < |m| && Covers(p, a) && Covers(q, a)
        ensures Loadable(src, p) && Loadable(src, q) && SegmentByte(src, p, a) == SegmentByte(src, q, a)
      {
        var ps := MoveLast(m, src, hs, p, a);
        var qs := MoveLast(m, src, hs, q, a);
      }
    }
  }

  // The range computed for the allocation

  /** The base address reported is the lowest physical address of a segment. */
  ghost predicate IsLowest(hs: Headers, base: nat) {
    && (forall i :: 0 <= i < |hs| && hs[i].pType == PT_LOAD ==> base <= hs[i].paddr)
    && (exists i :: 0 <= i < |hs| && hs[i].pType == PT_LOAD && hs[i].paddr == base)
  }

  /** The loop of load_elf over the headers. The minimum starts from 0, so the base is the lowest
      address exactly of a kernel that has a segment at 0. */
  method LoadRange(hs: Headers) returns (destStart: nat, destEnd: nat)
    ensures destStart == 0
    ensures IsLowest(hs, destStart) <==> exists i :: 0 <= i < |hs| && hs[i].pType == PT_LOAD && hs[i].paddr == 0
    ensures forall i :: 0 <= i < |hs| && hs[i].pType == PT_LOAD ==> hs[i].vaddr + hs[i].memsz <= destEnd
    ensures destEnd == 0 || exists i :: 0 <= i < |hs| && hs[i].pType == PT_LOAD && hs[i].vaddr + hs[i].memsz == destEnd
  {
    destStart, destEnd := 0, 0;
    for k := 0 to |hs|
      invariant destStart == 0
      invariant forall i :: 0 <= i < k && hs[i].pType == PT_LOAD ==> hs[i].vaddr + hs[i].memsz <= destEnd
      invariant destEnd == 0 || exists i :: 0 <= i < k && hs[i].pType == PT_LOAD && hs[i].vaddr + hs[i].memsz == destEnd
    {
      if hs[k].pType != PT_LOAD {
        continue;
      }
      destStart := if destStart <= hs[k].paddr then destStart else hs[k].paddr;
      destEnd := if destEnd >= hs[k].vaddr + hs[k].memsz then destEnd else hs[k].vaddr + hs[k].memsz;
    }
  }

  function PageCount(range: nat): (n: nat)
    ensures range <= n * UEFI_PAGE_SIZE < range + UEFI_PAGE_SIZE
  {
    (range + UEFI_PAGE_SIZE - 1) / UEFI_PAGE_SIZE
  }

  /** The start is always 0: a kernel of one page linked at 1 MiB is reported a megabyte too low,
      with 0x101 pages for its one. */
  lemma RaisedKernelIsReportedAtZero()
    ensures
      var hs := [ProgramHeader(PT_LOAD, 0, 0x10_0000, 0x10_0000, 0x1000, 0x1000)];
      IsLowest(hs, 0x10_0000) && !IsLowest(hs, 0) && PageCount(0x1000) == 1 && PageCount(0x10_1000) == 0x101
  {
    var hs := [ProgramHeader(PT_LOAD, 0, 0x10_0000, 0x10_0000, 0x1000, 0x1000)];
    assert hs[0].paddr == 0x10_0000;
  }
}
