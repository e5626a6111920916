/** The tables paging::init builds, and what the processor makes of them. */
module Paging {
  import opened Bits
  import opened Wrappers
  import opened PageWalk

  const MAPPED_BYTES: nat := NUMBER_OF_PAGE_DIR * PAGE_SIZE_1G

  /** address | flags of a 4 KiB aligned table */
  function TableEntry(addr: nat): (e: U64)
    requires addr % PAGE_SIZE_4K == 0 && addr < 0x10_0000_0000_0000
    ensures e == addr + 0x003
  {
    PowersOfTwo();
    OrOfAligned(12, addr / PAGE_SIZE_4K, 0x003);
    Or(addr, 0x003)
  }

  lemma LargePageOr(q: nat)
    ensures Or(q * PAGE_SIZE_2M, 0x083) == q * PAGE_SIZE_2M + 0x083
  {
    PowersOfTwo();
    OrOfAligned(21, q, 0x083);
  }

  lemma PageOffset(i: nat, j: nat)
    ensures i * PAGE_SIZE_1G + j * PAGE_SIZE_2M == (ENTRIES * i + j) * PAGE_SIZE_2M
  {
  }

  lemma LargePageEntry(i: nat, j: nat)
    requires i < NUMBER_OF_PAGE_DIR && j < ENTRIES
    ensures Or(i * PAGE_SIZE_1G + j * PAGE_SIZE_2M, 0x083) == (ENTRIES * i + j) * PAGE_SIZE_2M + 0x083
    ensures (ENTRIES * i + j) * PAGE_SIZE_2M + 0x083 < 0x1_0000_0000_0000_0000
  {
    PageOffset(i, j);
    LargePageOr(ENTRIES * i + j);
  }

  /** address | flags of a 2 MiB page */
  function PageEntry(i: nat, j: nat): (e: U64)
    requires i < NUMBER_OF_PAGE_DIR && j < ENTRIES
    ensures e == (ENTRIES * i + j) * PAGE_SIZE_2M + 0x083
  {
    LargePageEntry(i, j);
    Or(i * PAGE_SIZE_1G + j * PAGE_SIZE_2M, 0x083)
  }

  lemma DirectoryAligned(base: nat, i: nat)
    requires base % PAGE_SIZE_4K == 0
    ensures (base + i * PAGE_SIZE_4K) % PAGE_SIZE_4K == 0
  {
  }

  /** What Init leaves in zeroed tables: slot k of the page directories maps the k-th 2 MiB. */
  ghost predicate Filled(t: Tables)
    requires WellPlaced(t)
  {
    && t.pml4[0] == t.pdptAddr + 0x003
    && (forall k :: 0 < k < ENTRIES ==> t.pml4[k] == 0)
    && (forall i :: 0 <= i < NUMBER_OF_PAGE_DIR ==> t.pdpt[i] == t.pageDirAddr + i * PAGE_SIZE_4K + 0x003)
    && (forall i :: NUMBER_OF_PAGE_DIR <= i < ENTRIES ==> t.pdpt[i] == 0)
    && (forall k :: 0 <= k < NUMBER_OF_PAGE_DIR * ENTRIES ==> t.pageDirs[k] == k * PAGE_SIZE_2M + 0x083)
  }

  class PageTables {
    const pml4Addr: nat
    const pdptAddr: nat
    const pageDirAddr: nat
    const pml4: array<U64>
    const pdpt: array<U64>
    const pageDirs: array<U64>

    ghost function View(): Tables
      reads pml4, pdpt, pageDirs
    {
      Tables(pml4Addr, pml4[..], pdptAddr, pdpt[..], pageDirAddr, pageDirs[..])
    }

    ghost predicate Valid()
      reads pml4, pdpt, pageDirs
    {
      WellPlaced(View()) && pml4 != pdpt && pdpt != pageDirs && pml4 != pageDirs
    }

    /** Zeroed tables at given addresses. */
    constructor (pml4Addr: nat, pdptAddr: nat, pageDirAddr: nat)
      requires WellPlaced(Tables(pml4Addr, seq(ENTRIES, _ => 0), pdptAddr, seq(ENTRIES, _ => 0),
                                 pageDirAddr, seq(NUMBER_OF_PAGE_DIR * ENTRIES, _ => 0)))
      ensures Valid() && fresh(pml4) && fresh(pdpt) && fresh(pageDirs)
      ensures forall k :: 0 <= k < ENTRIES ==> pml4[k] == 0 && pdpt[k] == 0
    {
      this.pml4Addr, this.pdptAddr, this.pageDirAddr := pml4Addr, pdptAddr, pageDirAddr;
      pml4 := new U64[ENTRIES](_ => 0);
      pdpt := new U64[ENTRIES](_ => 0);
      pageDirs := new U64[NUMBER_OF_PAGE_DIR * ENTRIES](_ => 0);
    }

    /** The first `n` page directories are filled and entered in the pointer table. */
    ghost predicate Directories(n: nat)
      reads pdpt, pageDirs
    {
      && pdpt.Length == ENTRIES && pageDirs.Length == NUMBER_OF_PAGE_DIR * ENTRIES && n <= NUMBER_OF_PAGE_DIR
      && (forall k :: 0 <= k < n ==> pdpt[k] == pageDirAddr + k * PAGE_SIZE_4K + 0x003)
      && (forall k :: n <= k < ENTRIES ==> pdpt[k] == 0)
      && (forall k :: 0 <= k < n * ENTRIES ==> pageDirs[k] == k * PAGE_SIZE_2M + 0x083)
    }

    method Init()
      requires Valid()
      requires forall k :: 0 <= k < ENTRIES ==> pml4[k] == 0 && pdpt[k] == 0
      modifies pml4, pdpt, pageDirs
      ensures Valid() && Filled(View())
      ensures pml4[0] == pdptAddr + 3 && forall k :: 1 <= k < 512 ==> pml4[k] == 0
      ensures forall k :: 0 <= k < 512 ==> pdpt[k] == if k < 64 then pageDirAddr + 0x1000 * k + 3 else 0
      ensures forall k :: 0 <= k < 64 * 512 ==> pageDirs[k] == 0x20_0000 * k + 0x83
    {
      pml4[0] := TableEntry(pdptAddr);
      for i := 0 to NUMBER_OF_PAGE_DIR
        invariant pml4[..] == old(pml4[..])[0 := pdptAddr + 0x003]
        invariant Directories(i)
      {
        AddDirectory(i);
      }
    }

    /** One round of the outer loop. */
    method AddDirectory(i: nat)
      requires Valid() && i < NUMBER_OF_PAGE_DIR && Directories(i)
      modifies pdpt, pageDirs
      ensures Directories(i + 1)
    {
      DirectoryAligned(pageDirAddr, i);
      pdpt[i] := TableEntry(pageDirAddr + i * PAGE_SIZE_4K);
      FillPageDir(i);
    }

    /** The inner loop: one page directory of 512 large pages. */
    method FillPageDir(i: nat)
      requires i < NUMBER_OF_PAGE_DIR && pageDirs.Length == NUMBER_OF_PAGE_DIR * ENTRIES
      requires forall k :: 0 <= k < i * ENTRIES ==> pageDirs[k] == k * PAGE_SIZE_2M + 0x083
      modifies pageDirs
      ensures forall k :: 0 <= k < (i + 1) * ENTRIES ==> pageDirs[k] == k * PAGE_SIZE_2M + 0x083
    {
      for j := 0 to ENTRIES
        invariant forall k :: 0 <= k < i * ENTRIES + j ==> pageDirs[k] == k * PAGE_SIZE_2M + 0x083
      {
        pageDirs[i * ENTRIES + j] := PageEntry(i, j);
      }
    }
  }

  lemma TableEntryFields(e: U64, addr: nat)
    requires addr % PAGE_SIZE_4K == 0 && addr < 0x10_0000_0000_0000 && e == addr + 0x003
    ensures Present(e) && Writable(e) && !PageSize(e) && Frame4K(e) == addr
  {
    var q := addr / PAGE_SIZE_4K;
    Halves(e, 0x400 * q);
    SeventhBit(e, 0x10 * q);
    assert e == 0x1000 * q + 3;
  }

  lemma PageEntryFlags(e: U64, q: nat)
    requires e == 0x20_0000 * q + 0x83
    ensures Present(e) && Writable(e) && PageSize(e)
  {
    Halves(e, 0x8_0000 * q + 0x20);
    SeventhBit(e, 0x2000 * q);
  }

  /** Bits 0 and 1 of a number that ends in 11. */
  lemma Halves(e: U64, n: nat)
    requires e == 4 * n + 3
    ensures Present(e) && Writable(e)
  {
    assert e == 2 * (2 * n + 1) + 1;
    assert e / 2 == 2 * n + 1;
  }

  /** Bit 7 of a number that ends in 1 and seven bits of 3. */
  lemma SeventhBit(e: U64, n: nat)
    ensures e == 0x100 * n + 0x83 ==> PageSize(e)
    ensures e == 0x100 * n + 0x03 ==> !PageSize(e)
  {
  }

  lemma PageEntryAddress(e: U64, q: nat)
    requires e == 0x20_0000 * q + 0x83 && e < 0x10_0000_0000_0000
    ensures e % 0x20_0000 / 0x2000 == 0 && Frame2M(e) == 0x20_0000 * q
  {
    assert e % 0x20_0000 == 0x83;
    assert e / 0x20_0000 == q;
  }

  lemma SlotAligned(base: nat, k: nat)
    requires base % PAGE_SIZE_4K == 0
    ensures (base + 8 * k) % 8 == 0
  {
    assert base + 8 * k == 8 * (ENTRIES * (base / PAGE_SIZE_4K) + k);
  }

  lemma TableAddress(base: nat)
    requires base % PAGE_SIZE_4K == 0 && base < 0x10_0000_0000_0000
    ensures Frame4K(base) == base
  {
  }

  lemma Pml4Slot(t: Tables, k: nat)
    requires WellPlaced(t) && k < ENTRIES
    ensures Frame4K(t.pml4Addr) == t.pml4Addr
    ensures Qword(t, t.pml4Addr + 8 * k) == Some(t.pml4[k])
  {
    TableAddress(t.pml4Addr);
    SlotAligned(t.pml4Addr, k);
  }

  lemma PdptSlot(t: Tables, k: nat)
    requires WellPlaced(t) && k < ENTRIES
    ensures Qword(t, t.pdptAddr + 8 * k) == Some(t.pdpt[k])
  {
    SlotAligned(t.pdptAddr, k);
  }

  lemma PageDirSlot(t: Tables, i: nat, j: nat)
    requires WellPlaced(t) && i < NUMBER_OF_PAGE_DIR && j < ENTRIES
    ensures Qword(t, t.pageDirAddr + i * PAGE_SIZE_4K + 8 * j) == Some(t.pageDirs[i * ENTRIES + j])
  {
    SlotAligned(t.pageDirAddr, i * ENTRIES + j);
    var addr := t.pageDirAddr + 8 * (i * ENTRIES + j);
    assert addr == t.pageDirAddr + i * PAGE_SIZE_4K + 8 * j;
    assert (addr - t.pageDirAddr) / 8 == i * ENTRIES + j;
  }

  /** The indices a walk takes from an address below 64 GiB. */
  lemma AddressParts(va: U64)
    requires va < MAPPED_BYTES
    ensures
      var i, j := va / PAGE_SIZE_1G, va / PAGE_SIZE_2M % ENTRIES;
      && va / REACH_OF_PML4E % ENTRIES == 0 && va / PAGE_SIZE_1G % ENTRIES == i < NUMBER_OF_PAGE_DIR
      && va == (i * ENTRIES + j) * PAGE_SIZE_2M + va % PAGE_SIZE_2M
  {
  }

  lemma DirectoryLevel(t: Tables, pdpte: U64, i: nat, va: U64)
    requires WellPlaced(t) && Filled(t) && va < MAPPED_BYTES && i == va / PAGE_SIZE_1G
    requires Frame4K(pdpte) == t.pageDirAddr + i * PAGE_SIZE_4K
    ensures WalkPageDir(t, pdpte, va, true) == Mapped(va, true)
  {
    var j := va / PAGE_SIZE_2M % ENTRIES;
    AddressParts(va);
    PageDirSlot(t, i, j);
    var q := i * ENTRIES + j;
    PageEntryFlags(t.pageDirs[q], q);
    PageEntryAddress(t.pageDirs[q], q);
  }

  lemma PdptLevel(t: Tables, pml4e: U64, va: U64)
    requires WellPlaced(t) && Filled(t) && va < MAPPED_BYTES
    requires Frame4K(pml4e) == t.pdptAddr && Writable(pml4e)
    ensures WalkPdpt(t, pml4e, va) == Mapped(va, true)
  {
    var i := va / PAGE_SIZE_1G;
    AddressParts(va);
    PdptSlot(t, i);
    DirectoryAligned(t.pageDirAddr, i);
    TableEntryFields(t.pdpt[i], t.pageDirAddr + i * PAGE_SIZE_4K);
    DirectoryLevel(t, t.pdpt[i], i, va);
  }

  /** Every address below 64 GiB translates to itself, present and writable at every level. */
  lemma IdentityBelow64GiB(t: Tables, va: U64)
    requires WellPlaced(t) && Filled(t) && va < MAPPED_BYTES
    ensures Walk(t, t.pml4Addr, va) == Mapped(va, true)
  {
    AddressParts(va);
    Pml4Slot(t, 0);
    TableEntryFields(t.pml4[0], t.pdptAddr);
    PdptLevel(t, t.pml4[0], va);
  }

  /** No address from 64 GiB up is mapped, canonical or not by its upper 16 bits. */
  lemma NothingElseIsMapped(t: Tables, va: U64)
    requires WellPlaced(t) && Filled(t)
    requires !(va % 0x1_0000_0000_0000 < MAPPED_BYTES)
    ensures Walk(t, t.pml4Addr, va) == NotPresent
  {
    var k, i := va / REACH_OF_PML4E % ENTRIES, va / PAGE_SIZE_1G % ENTRIES;
    Pml4Slot(t, k);
    if k == 0 {
      UpperDirectory(va);
      TableEntryFields(t.pml4[0], t.pdptAddr);
      PdptSlot(t, i);
    }
  }

  lemma UpperDirectory(va: U64)
    requires !(va % 0x1_0000_0000_0000 < MAPPED_BYTES) && va / REACH_OF_PML4E % ENTRIES == 0
    ensures va / PAGE_SIZE_1G % ENTRIES >= NUMBER_OF_PAGE_DIR
  {
    var g, r := va / REACH_OF_PML4E / ENTRIES, va % REACH_OF_PML4E;
    SplitAddress(va, g, r);
  }

  lemma SplitAddress(va: U64, g: nat, r: nat)
    requires r < REACH_OF_PML4E && va == 0x1_0000_0000_0000 * g + r
    ensures va % 0x1_0000_0000_0000 == r && va / PAGE_SIZE_1G % ENTRIES == r / PAGE_SIZE_1G
  {
    LowBits(va, g, r);
    Gigabytes(va, g, r / PAGE_SIZE_1G, r % PAGE_SIZE_1G);
    EntryIndex(0x200 * g, r / PAGE_SIZE_1G);
  }

  lemma LowBits(va: nat, g: nat, r: nat)
    requires r < 0x1_0000_0000_0000 && va == 0x1_0000_0000_0000 * g + r
    ensures va % 0x1_0000_0000_0000 == r
  {
  }

  lemma Gigabytes(va: nat, g: nat, i: nat, rest: nat)
    requires rest < PAGE_SIZE_1G && va == 0x1_0000_0000_0000 * g + (i * PAGE_SIZE_1G + rest)
    ensures va / PAGE_SIZE_1G == ENTRIES * (0x200 * g) + i
  {
    assert va == PAGE_SIZE_1G * (0x4_0000 * g + i) + rest;
  }

  lemma EntryIndex(k: nat, i: nat)
    requires i < ENTRIES
    ensures (ENTRIES * k + i) % ENTRIES == i
  {
  }

  /** Bits 63 to 47 of a canonical address are all equal. */
  predicate Canonical(va: U64) {
    va < 0x8000_0000_0000 || va >= 0xFFFF_8000_0000_0000
  }

  /** The translation over canonical addresses, in one statement. */
  lemma IdentityMapExactly(t: Tables, va: U64)
    requires WellPlaced(t) && Filled(t) && Canonical(va)
    ensures Walk(t, t.pml4Addr, va) == if va < 0x10_0000_0000 then Mapped(va, true) else NotPresent
  {
    if va < MAPPED_BYTES {
      IdentityBelow64GiB(t, va);
    } else {
      NothingElseIsMapped(t, va);
    }
  }
}
