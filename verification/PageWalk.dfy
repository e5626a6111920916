/** Address translation as 4-level paging does it, over the memory that holds the tables
    (section 4.5 of the Intel SDM, Volume 3A). */
module PageWalk {
  import opened Bits
  import opened Wrappers

  const ENTRIES: nat := 512
  const PAGE_SIZE_4K: nat := 1024 * 4
  const PAGE_SIZE_2M: nat := 1024 * 1024 * 2
  const PAGE_SIZE_1G: nat := 1024 * 1024 * 1024
  const REACH_OF_PML4E: nat := ENTRIES * PAGE_SIZE_1G
  const NUMBER_OF_PAGE_DIR: nat := 64

  /** The three static tables, where they lie in memory and what they hold. The 64 page
      directories follow one another. */
  datatype Tables = Tables(pml4Addr: nat, pml4: seq<U64>, pdptAddr: nat, pdpt: seq<U64>,
                           pageDirAddr: nat, pageDirs: seq<U64>)

  predicate Apart(a: nat, n: nat, b: nat, m: nat) {
    a + n <= b || b + m <= a
  }

  /** 4 KiB aligned, below 2^52, and no two tables overlap. */
  predicate WellPlaced(t: Tables) {
    && |t.pml4| == ENTRIES && |t.pdpt| == ENTRIES && |t.pageDirs| == NUMBER_OF_PAGE_DIR * ENTRIES
    && t.pml4Addr % PAGE_SIZE_4K == 0 && t.pdptAddr % PAGE_SIZE_4K == 0 && t.pageDirAddr % PAGE_SIZE_4K == 0
    && t.pml4Addr < 0x10_0000_0000_0000 && t.pdptAddr < 0x10_0000_0000_0000
    && t.pageDirAddr + NUMBER_OF_PAGE_DIR * PAGE_SIZE_4K <= 0x10_0000_0000_0000
    && Apart(t.pml4Addr, PAGE_SIZE_4K, t.pdptAddr, PAGE_SIZE_4K)
    && Apart(t.pml4Addr, PAGE_SIZE_4K, t.pageDirAddr, NUMBER_OF_PAGE_DIR * PAGE_SIZE_4K)
    && Apart(t.pdptAddr, PAGE_SIZE_4K, t.pageDirAddr, NUMBER_OF_PAGE_DIR * PAGE_SIZE_4K)
  }

  /** The eight bytes at a physical address, when one of the tables holds them. */
  function Qword(t: Tables, addr: nat): Option<U64>
    requires WellPlaced(t)
  {
    if addr % 8 != 0 then None
    else if t.pml4Addr <= addr < t.pml4Addr + PAGE_SIZE_4K then Some(t.pml4[(addr - t.pml4Addr) / 8])
    else if t.pdptAddr <= addr < t.pdptAddr + PAGE_SIZE_4K then Some(t.pdpt[(addr - t.pdptAddr) / 8])
    else if t.pageDirAddr <= addr < t.pageDirAddr + NUMBER_OF_PAGE_DIR * PAGE_SIZE_4K
    then Some(t.pageDirs[(addr - t.pageDirAddr) / 8])
    else None
  }

  predicate Present(e: U64) {
    e % 2 == 1
  }

  predicate Writable(e: U64) {
    e / 2 % 2 == 1
  }

  predicate PageSize(e: U64) {
    e / 0x80 % 2 == 1
  }

  /** Bits 51:12, 51:21 and 51:30 of an entry, as addresses. */
  function Frame4K(e: U64): nat {
    e % 0x10_0000_0000_0000 / 0x1000 * 0x1000
  }

  function Frame2M(e: U64): nat {
    e % 0x10_0000_0000_0000 / 0x20_0000 * 0x20_0000
  }

  function Frame1G(e: U64): nat {
    e % 0x10_0000_0000_0000 / 0x4000_0000 * 0x4000_0000
  }

  /** Mapped gives the physical address and whether every level allows writes; Fault is a set
      reserved bit; Elsewhere means the walk left the known tables. */
  datatype Translation = NotPresent | Fault | Elsewhere | Mapped(phys: nat, writable: bool)

  /** Bits 29:13 of an entry that maps a 1 GiB page are reserved. */
  function Page1G(e: U64, va: U64, writable: bool): Translation {
    if e % 0x4000_0000 / 0x2000 != 0 then Fault
    else Mapped(Frame1G(e) + va % PAGE_SIZE_1G, writable && Writable(e))
  }

  /** Bits 20:13 of an entry that maps a 2 MiB page are reserved. */
  function Page2M(e: U64, va: U64, writable: bool): Translation {
    if e % 0x20_0000 / 0x2000 != 0 then Fault
    else Mapped(Frame2M(e) + va % PAGE_SIZE_2M, writable && Writable(e))
  }

  /** The walk that starts from the address loaded into CR3. */
  function Walk(t: Tables, cr3: U64, va: U64): Translation
    requires WellPlaced(t)
  {
    match Qword(t, Frame4K(cr3) + 8 * (va / REACH_OF_PML4E % ENTRIES))
    case None => Elsewhere
    case Some(pml4e) =>
      if !Present(pml4e) then NotPresent
      else if PageSize(pml4e) then Fault
      else WalkPdpt(t, pml4e, va)
  }

  function WalkPdpt(t: Tables, pml4e: U64, va: U64): Translation
    requires WellPlaced(t)
  {
    match Qword(t, Frame4K(pml4e) + 8 * (va / PAGE_SIZE_1G % ENTRIES))
    case None => Elsewhere
    case Some(pdpte) =>
      if !Present(pdpte) then NotPresent
      else if PageSize(pdpte) then Page1G(pdpte, va, Writable(pml4e))
      else WalkPageDir(t, pdpte, va, Writable(pml4e) && Writable(pdpte))
  }

  function WalkPageDir(t: Tables, pdpte: U64, va: U64, writable: bool): Translation
    requires WellPlaced(t)
  {
    match Qword(t, Frame4K(pdpte) + 8 * (va / PAGE_SIZE_2M % ENTRIES))
    case None => Elsewhere
    case Some(pde) =>
      if !Present(pde) then NotPresent
      else if PageSize(pde) then Page2M(pde, va, writable)
      else WalkPageTable(t, pde, va, writable && Writable(pde))
  }

  function WalkPageTable(t: Tables, pde: U64, va: U64, writable: bool): Translation
    requires WellPlaced(t)
  {
    match Qword(t, Frame4K(pde) + 8 * (va / PAGE_SIZE_4K % ENTRIES))
    case None => Elsewhere
    case Some(pte) =>
      if !Present(pte) then NotPresent
      else Mapped(Frame4K(pte) + va % PAGE_SIZE_4K, writable && Writable(pte))
  }
}
