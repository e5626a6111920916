/** Segment descriptors, packed field by field (section 3.4.5 of the Intel SDM, Volume 3A). */
module Gdt {

  datatype DescriptorType =
    | Upper8Bytes | LDT | TSSAvailable | TSSBusy | CallGate | InterruptGate | TrapGate
    | ReadWrite | ExecuteRead

  function TypeCode(t: DescriptorType): (code: bv8)
    ensures code < 0x10
  {
    match t
    case Upper8Bytes => 0
    case LDT => 2
    case TSSAvailable => 9
    case TSSBusy => 11
    case CallGate => 12
    case InterruptGate => 14
    case TrapGate => 15
    case ReadWrite => 2
    case ExecuteRead => 10
  }

  // What the processor reads in a descriptor

  function Base(raw: bv64): bv64 {
    ((raw >> 16) & 0xffff) | (((raw >> 32) & 0xff) << 16) | (((raw >> 56) & 0xff) << 24)
  }

  function Limit(raw: bv64): bv64 {
    (raw & 0xffff) | (((raw >> 48) & 0xf) << 16)
  }

  function Type(raw: bv64): bv64 {
    (raw >> 40) & 0xf
  }

  function Privilege(raw: bv64): bv64 {
    (raw >> 45) & 0x3
  }

  function SystemBit(raw: bv64): bv64 {
    (raw >> 44) & 1
  }

  function PresentBit(raw: bv64): bv64 {
    (raw >> 47) & 1
  }

  function AvailableBit(raw: bv64): bv64 {
    (raw >> 52) & 1
  }

  function LongModeBit(raw: bv64): bv64 {
    (raw >> 53) & 1
  }

  function DefaultSizeBit(raw: bv64): bv64 {
    (raw >> 54) & 1
  }

  function GranularityBit(raw: bv64): bv64 {
    (raw >> 55) & 1
  }

  function Flag(value: bool): bv64 {
    if value then 1 else 0
  }

  // The field setters, as functions of the old word

  function WithLimitLow(raw: bv64, value: bv64): bv64 {
    (raw & !0xffff) | value
  }

  function WithBaseLow(raw: bv64, value: bv64): bv64 {
    (raw & !(0xffff << 16)) | (value << 16)
  }

  function WithBaseMiddle(raw: bv64, value: bv64): bv64 {
    (raw & !(0xff << 32)) | (value << 32)
  }

  function WithType(raw: bv64, value: bv64): bv64 {
    (raw & !(0xf << 40)) | (value << 40)
  }

  function WithSystem(raw: bv64, value: bool): bv64 {
    (raw & !(1 << 44)) | (Flag(value) << 44)
  }

  function WithPrivilege(raw: bv64, value: bv64): bv64 {
    (raw & !(3 << 45)) | (value << 45)
  }

  function WithPresent(raw: bv64, value: bool): bv64 {
    (raw & !(1 << 47)) | (Flag(value) << 47)
  }

  function WithLimitHigh(raw: bv64, value: bv64): bv64 {
    (raw & !(0xf << 48)) | (value << 48)
  }

  function WithAvailable(raw: bv64, value: bool): bv64 {
    (raw & !(1 << 52)) | (Flag(value) << 52)
  }

  function WithLongMode(raw: bv64, value: bool): bv64 {
    (raw & !(1 << 53)) | (Flag(value) << 53)
  }

  function WithDefaultSize(raw: bv64, value: bool): bv64 {
    (raw & !(1 << 54)) | (Flag(value) << 54)
  }

  function WithGranularity(raw: bv64, value: bool): bv64 {
    (raw & !(1 << 55)) | (Flag(value) << 55)
  }

  function WithBaseHigh(raw: bv64, value: bv64): bv64 {
    (raw & !(0xff << 56)) | (value << 56)
  }

  /** The five writes of base and limit. */
  function Addressed(base: bv64, limit: bv64): bv64 {
    var r := WithBaseLow(0, base & 0xffff);
    var r := WithBaseMiddle(r, (base >> 16) & 0xff);
    var r := WithBaseHigh(r, (base >> 24) & 0xff);
    var r := WithLimitLow(r, limit & 0xffff);
    WithLimitHigh(r, (limit >> 16) & 0xff)
  }

  /** The eight writes of type, privilege and flags. */
  function WithAttributes(raw: bv64, ty: bv64, dpl: bv64): bv64 {
    var r := WithType(raw, ty);
    var r := WithSystem(r, true);
    var r := WithPrivilege(r, dpl);
    var r := WithPresent(r, true);
    var r := WithAvailable(r, false);
    var r := WithLongMode(r, true);
    var r := WithDefaultSize(r, false);
    WithGranularity(r, true)
  }

  function CodeSegment(ty: bv64, dpl: bv64, base: bv64, limit: bv64): bv64 {
    WithAttributes(Addressed(base, limit), ty, dpl)
  }

  /** The flags of a kernel segment: present, non-system, L and D as given, 4 KiB granularity. */
  predicate HasFlags(raw: bv64, defaultSize: bv64) {
    && SystemBit(raw) == 1 && PresentBit(raw) == 1 && AvailableBit(raw) == 0
    && LongModeBit(raw) == 1 && DefaultSizeBit(raw) == defaultSize && GranularityBit(raw) == 1
  }

  /** What a descriptor built from these inputs reads back as: of the privilege byte, the low two
      bits are kept and bits 3 to 6 leak into the limit. */
  predicate ReadsBack(raw: bv64, ty: bv64, dpl: bv64, base: bv64, limit: bv64, defaultSize: bv64) {
    && Base(raw) == base && Type(raw) == ty && HasFlags(raw, defaultSize)
    && Privilege(raw) == dpl & 3
    && Limit(raw) == (limit & 0xfffff) | (((dpl >> 3) & 0xf) << 16)
  }

  lemma CodeSegmentBase(ty: bv64, dpl: bv64, base: bv64, limit: bv64)
    requires ty < 0x10 && dpl < 0x100 && base < 0x1_0000_0000 && limit < 0x1_0000_0000
    ensures Base(CodeSegment(ty, dpl, base, limit)) == base
  {
  }

  lemma CodeSegmentType(ty: bv64, dpl: bv64, base: bv64, limit: bv64)
    requires ty < 0x10 && dpl < 0x100 && base < 0x1_0000_0000 && limit < 0x1_0000_0000
    ensures Type(CodeSegment(ty, dpl, base, limit)) == ty
  {
  }

  lemma CodeSegmentFlags(ty: bv64, dpl: bv64, base: bv64, limit: bv64)
    requires ty < 0x10 && dpl < 0x100 && base < 0x1_0000_0000 && limit < 0x1_0000_0000
    ensures HasFlags(CodeSegment(ty, dpl, base, limit), 0)
  {
  }

  lemma CodeSegmentPrivilege(ty: bv64, dpl: bv64, base: bv64, limit: bv64)
    requires ty < 0x10 && dpl < 0x100 && base < 0x1_0000_0000 && limit < 0x1_0000_0000
    ensures Privilege(CodeSegment(ty, dpl, base, limit)) == dpl & 3
  {
  }

  lemma CodeSegmentLimit(ty: bv64, dpl: bv64, base: bv64, limit: bv64)
    requires ty < 0x10 && dpl < 0x100 && base < 0x1_0000_0000 && limit < 0x1_0000_0000
    ensures Limit(CodeSegment(ty, dpl, base, limit)) == (limit & 0xfffff) | (((dpl >> 3) & 0xf) << 16)
  {
  }

  /** Reading back every field, for every input. */
  lemma CodeSegmentFields(ty: bv64, dpl: bv64, base: bv64, limit: bv64)
    requires ty < 0x10 && dpl < 0x100 && base < 0x1_0000_0000 && limit < 0x1_0000_0000
    ensures ReadsBack(CodeSegment(ty, dpl, base, limit), ty, dpl, base, limit, 0)
  {
    CodeSegmentBase(ty, dpl, base, limit);
    CodeSegmentType(ty, dpl, base, limit);
    CodeSegmentFlags(ty, dpl, base, limit);
    CodeSegmentPrivilege(ty, dpl, base, limit);
    CodeSegmentLimit(ty, dpl, base, limit);
  }

  /** The limit comes back exactly when the high bits of the privilege level are already set in
      it, and the privilege level exactly when it is below 4. */
  lemma LimitAndPrivilegeIff(ty: bv64, dpl: bv64, base: bv64, limit: bv64)
    requires ty < 0x10 && dpl < 0x100 && base < 0x1_0000_0000 && limit < 0x1_0000_0000
    ensures
      var r := CodeSegment(ty, dpl, base, limit);
      && (Limit(r) == limit & 0xfffff <==> (dpl >> 3) & 0xf & !(limit >> 16) == 0)
      && (Privilege(r) == dpl <==> dpl < 4)
  {
    CodeSegmentFields(ty, dpl, base, limit);
    var r := CodeSegment(ty, dpl, base, limit);
    FieldsIff(Limit(r), Privilege(r), dpl, limit);
  }

  /** The same of the two fields alone, whatever word they were read from. */
  lemma FieldsIff(readLimit: bv64, readPrivilege: bv64, dpl: bv64, limit: bv64)
    requires readPrivilege == dpl & 3
    requires readLimit == (limit & 0xfffff) | (((dpl >> 3) & 0xf) << 16)
    ensures readLimit == limit & 0xfffff <==> (dpl >> 3) & 0xf & !(limit >> 16) == 0
    ensures readPrivilege == dpl <==> dpl < 4
  {
    LowTwoBits(dpl);
    LeakIsANibble(dpl);
    LeakIsHidden((dpl >> 3) & 0xf, limit);
  }

  lemma LowTwoBits(dpl: bv64)
    ensures dpl & 3 == dpl <==> dpl < 4
  {
  }

  lemma LeakIsANibble(dpl: bv64)
    ensures (dpl >> 3) & 0xf < 0x10
    ensures dpl < 4 ==> (dpl >> 3) & 0xf == 0
  {
  }

  lemma LeakIsHidden(leak: bv64, limit: bv64)
    requires leak < 0x10
    ensures (limit & 0xfffff) | (leak << 16) == limit & 0xfffff <==> leak & !(limit >> 16) == 0
  {
  }

  /** With a privilege level below 4, any descriptor that reads back gives limit mod 2^20 and the
      level itself. */
  lemma ReadsBackPlainly(raw: bv64, ty: bv64, dpl: bv64, base: bv64, limit: bv64, defaultSize: bv64)
    requires dpl < 4 && ReadsBack(raw, ty, dpl, base, limit, defaultSize)
    ensures Privilege(raw) == dpl && Limit(raw) == limit & 0xfffff
  {
    FieldsIff(Limit(raw), Privilege(raw), dpl, limit);
    LeakIsANibble(dpl);
  }

  /** Privilege byte 8 with limit 0 reads back as limit 0x10000 and privilege 0. */
  lemma PrivilegeEightLeaks()
    ensures Limit(CodeSegment(0xa, 8, 0, 0)) == 0x1_0000 && Privilege(CodeSegment(0xa, 8, 0, 0)) == 0
  {
  }

  /** G, D, L and AVL, as one number. */
  function FlagNibble(raw: bv64): bv64 {
    (raw >> 52) & 0xf
  }

  /** set_limit_high writes a whole byte: the high half is or-ed onto the flags, and only the
      flag setters that follow make them right. */
  lemma LimitHighSpillsIntoFlags(raw: bv64, value: bv64)
    requires value < 0x100
    ensures FlagNibble(WithLimitHigh(raw, value)) == FlagNibble(raw) | (value >> 4)
    ensures FlagNibble(WithAttributes(WithLimitHigh(raw, value), 0, 0)) == 0xa
  {
  }

  /** Written after the flags, it would leave them right exactly when bits 20 and 22 of the limit
      are clear. */
  lemma LimitHighWrittenLastIff(ty: bv64, dpl: bv64, base: bv64, limit: bv64)
    requires ty < 0x10 && dpl < 4
    ensures
      var late := WithLimitHigh(CodeSegment(ty, dpl, base, limit), (limit >> 16) & 0xff);
      FlagNibble(late) == FlagNibble(CodeSegment(ty, dpl, base, limit)) <==> (limit >> 20) & 0x5 == 0
  {
    var raw := CodeSegment(ty, dpl, base, limit);
    LimitHighSpillsIntoFlags(raw, (limit >> 16) & 0xff);
    CodeSegmentNibble(ty, dpl, Addressed(base, limit));
    NibbleKept(limit);
  }

  lemma CodeSegmentNibble(ty: bv64, dpl: bv64, raw: bv64)
    requires ty < 0x10 && dpl < 4
    ensures FlagNibble(WithAttributes(raw, ty, dpl)) == 0xa
  {
  }

  lemma NibbleKept(limit: bv64)
    ensures 0xa | (((limit >> 16) & 0xff) >> 4) == 0xa <==> (limit >> 20) & 0x5 == 0
  {
  }

  /** A code segment with its L bit set again and its D bit set. */
  function DataSegment(ty: bv64, dpl: bv64, base: bv64, limit: bv64): bv64 {
    WithDefaultSize(WithLongMode(CodeSegment(ty, dpl, base, limit), true), true)
  }

  lemma DataSegmentBase(ty: bv64, dpl: bv64, base: bv64, limit: bv64)
    requires ty < 0x10 && dpl < 0x100 && base < 0x1_0000_0000 && limit < 0x1_0000_0000
    ensures Base(DataSegment(ty, dpl, base, limit)) == base
  {
  }

  lemma DataSegmentType(ty: bv64, dpl: bv64, base: bv64, limit: bv64)
    requires ty < 0x10 && dpl < 0x100 && base < 0x1_0000_0000 && limit < 0x1_0000_0000
    ensures Type(DataSegment(ty, dpl, base, limit)) == ty
  {
  }

  lemma DataSegmentFlags(ty: bv64, dpl: bv64, base: bv64, limit: bv64)
    requires ty < 0x10 && dpl < 0x100 && base < 0x1_0000_0000 && limit < 0x1_0000_0000
    ensures HasFlags(DataSegment(ty, dpl, base, limit), 1)
  {
  }

  lemma DataSegmentPrivilege(ty: bv64, dpl: bv64, base: bv64, limit: bv64)
    requires ty < 0x10 && dpl < 0x100 && base < 0x1_0000_0000 && limit < 0x1_0000_0000
    ensures Privilege(DataSegment(ty, dpl, base, limit)) == dpl & 3
  {
  }

  lemma DataSegmentLimit(ty: bv64, dpl: bv64, base: bv64, limit: bv64)
    requires ty < 0x10 && dpl < 0x100 && base < 0x1_0000_0000 && limit < 0x1_0000_0000
    ensures Limit(DataSegment(ty, dpl, base, limit)) == (limit & 0xfffff) | (((dpl >> 3) & 0xf) << 16)
  {
  }

  lemma DataSegmentFields(ty: bv64, dpl: bv64, base: bv64, limit: bv64)
    requires ty < 0x10 && dpl < 0x100 && base < 0x1_0000_0000 && limit < 0x1_0000_0000
    ensures ReadsBack(DataSegment(ty, dpl, base, limit), ty, dpl, base, limit, 1)
  {
    DataSegmentBase(ty, dpl, base, limit);
    DataSegmentType(ty, dpl, base, limit);
    DataSegmentFlags(ty, dpl, base, limit);
    DataSegmentPrivilege(ty, dpl, base, limit);
    DataSegmentLimit(ty, dpl, base, limit);
  }

  /** Narrowing a masked word and widening it again is masking. */
  lemma NarrowedPieces(v: bv32)
    ensures ((v & 0xffff) as bv16) as bv64 == v as bv64 & 0xffff
    ensures (((v >> 16) & 0xff) as bv8) as bv64 == (v as bv64 >> 16) & 0xff
    ensures (((v >> 24) & 0xff) as bv8) as bv64 == (v as bv64 >> 24) & 0xff
  {
  }

  /** Bits 43 (executable) and 41 (readable code, or writable data) of a type. */
  lemma TypeBits(raw: bv64)
    ensures Type(raw) == 0xa ==> (raw >> 43) & 1 == 1 && (raw >> 41) & 1 == 1
    ensures Type(raw) == 0x2 ==> (raw >> 43) & 1 == 0 && (raw >> 41) & 1 == 1
  {
  }

  /** The codes of all types. */
  lemma TypeCodes()
    ensures TypeCode(Upper8Bytes) == 0x0 && TypeCode(LDT) == 0x2 && TypeCode(TSSAvailable) == 0x9 && TypeCode(TSSBusy) == 0xb
    ensures TypeCode(CallGate) == 0xc && TypeCode(InterruptGate) == 0xe && TypeCode(TrapGate) == 0xf
    ensures TypeCode(ReadWrite) == 0x2 && TypeCode(ExecuteRead) == 0xa
  {
  }

  /** Whole words: the kernel's code and data segments, and one with every field different. */
  lemma SegmentWords()
    ensures CodeSegment(0xa, 0, 0, 0xf_ffff) == 0x00AF_9A00_0000_FFFF
    ensures DataSegment(0x2, 0, 0, 0xf_ffff) == 0x00EF_9200_0000_FFFF
    ensures CodeSegment(0xa, 3, 0x1234_5678, 0xa_bcde) == 0x12AA_FA34_5678_BCDE
  {
  }

  lemma Widened(ty: DescriptorType, dpl: bv8, base: bv32, limit: bv32)
    ensures TypeCode(ty) as bv64 < 0x10 && dpl as bv64 < 0x100
    ensures base as bv64 < 0x1_0000_0000 && limit as bv64 < 0x1_0000_0000
  {
  }

  class SegmentDescriptor {
    var raw: bv64

    constructor ()
      ensures raw == 0
    {
      raw := 0;
    }

    method SetLimitLow(value: bv16)
      modifies this
      ensures raw == WithLimitLow(old(raw), value as bv64)
    {
      raw := (raw & !0xffff) | value as bv64;
    }

    method SetBaseLow(value: bv16)
      modifies this
      ensures raw == WithBaseLow(old(raw), value as bv64)
    {
      raw := (raw & !(0xffff << 16)) | (value as bv64 << 16);
    }

    method SetBaseMiddle(value: bv8)
      modifies this
      ensures raw == WithBaseMiddle(old(raw), value as bv64)
    {
      raw := (raw & !(0xff << 32)) | (value as bv64 << 32);
    }

    method SetDescriptorType(value: DescriptorType)
      modifies this
      ensures raw == WithType(old(raw), TypeCode(value) as bv64)
    {
      raw := (raw & !(0xf << 40)) | (TypeCode(value) as bv64 << 40);
    }

    method SetSystemSegment(value: bool)
      modifies this
      ensures raw == WithSystem(old(raw), value)
    {
      raw := (raw & !(1 << 44)) | if value then 1 << 44 else 0 << 44;
    }

    method SetDescriptorPrivilegeLevel(value: bv8)
      modifies this
      ensures raw == WithPrivilege(old(raw), value as bv64)
    {
      raw := (raw & !(3 << 45)) | (value as bv64 << 45);
    }

    method SetPresent(value: bool)
      modifies this
      ensures raw == WithPresent(old(raw), value)
    {
      raw := (raw & !(1 << 47)) | if value then 1 << 47 else 0 << 47;
    }

    method SetLimitHigh(value: bv8)
      modifies this
      ensures raw == WithLimitHigh(old(raw), value as bv64)
    {
      raw := (raw & !(0xf << 48)) | (value as bv64 << 48);
    }

    method SetAvailable(value: bool)
      modifies this
      ensures raw == WithAvailable(old(raw), value)
    {
      raw := (raw & !(1 << 52)) | if value then 1 << 52 else 0 << 52;
    }

    method SetLongMode(value: bool)
      modifies this
      ensures raw == WithLongMode(old(raw), value)
    {
      raw := (raw & !(1 << 53)) | if value then 1 << 53 else 0 << 53;
    }

    method SetDefaultOperationSize(value: bool)
      modifies this
      ensures raw == WithDefaultSize(old(raw), value)
    {
      raw := (raw & !(1 << 54)) | if value then 1 << 54 else 0 << 54;
    }

    method Granularity(value: bool)
      modifies this
      ensures raw == WithGranularity(old(raw), value)
    {
      raw := (raw & !(1 << 55)) | if value then 1 << 55 else 0 << 55;
    }

    method SetBaseHigh(value: bv8)
      modifies this
      ensures raw == WithBaseHigh(old(raw), value as bv64)
    {
      raw := (raw & !(0xff << 56)) | (value as bv64 << 56);
    }

    /** The thirteen writes of a code segment, in the order of the source. */
    method SetCodeSegment(ty: DescriptorType, dpl: bv8, base: bv32, limit: bv32)
      modifies this
      ensures raw == CodeSegment(TypeCode(ty) as bv64, dpl as bv64, base as bv64, limit as bv64)
      ensures ReadsBack(raw, TypeCode(ty) as bv64, dpl as bv64, base as bv64, limit as bv64, 0)
      ensures ty == ExecuteRead ==> (raw >> 43) & 1 == 1 && (raw >> 41) & 1 == 1
      ensures ty == ReadWrite ==> (raw >> 43) & 1 == 0 && (raw >> 41) & 1 == 1
    {
      raw := 0;
      SetAddress(base, limit);
      SetAttributes(ty, dpl);
      Widened(ty, dpl, base, limit);
      CodeSegmentFields(TypeCode(ty) as bv64, dpl as bv64, base as bv64, limit as bv64);
      TypeBits(raw);
    }

    method SetAddress(base: bv32, limit: bv32)
      requires raw == 0
      modifies this
      ensures raw == Addressed(base as bv64, limit as bv64)
    {
      NarrowedPieces(base);
      NarrowedPieces(limit);
      SetBaseLow((base & 0xffff) as bv16);
      SetBaseMiddle(((base >> 16) & 0xff) as bv8);
      SetBaseHigh(((base >> 24) & 0xff) as bv8);
      SetLimitLow((limit & 0xffff) as bv16);
      SetLimitHigh(((limit >> 16) & 0xff) as bv8);
    }

    method SetAttributes(ty: DescriptorType, dpl: bv8)
      modifies this
      ensures raw == WithAttributes(old(raw), TypeCode(ty) as bv64, dpl as bv64)
    {
      SetDescriptorType(ty);
      SetSystemSegment(true);
      SetDescriptorPrivilegeLevel(dpl);
      SetPresent(true);
      SetAvailable(false);
      SetLongMode(true);
      SetDefaultOperationSize(false);
      Granularity(true);
    }

    method SetDataSegment(ty: DescriptorType, dpl: bv8, base: bv32, limit: bv32)
      modifies this
      ensures raw == DataSegment(TypeCode(ty) as bv64, dpl as bv64, base as bv64, limit as bv64)
      ensures ReadsBack(raw, TypeCode(ty) as bv64, dpl as bv64, base as bv64, limit as bv64, 1)
      ensures ty == ExecuteRead ==> (raw >> 43) & 1 == 1 && (raw >> 41) & 1 == 1
      ensures ty == ReadWrite ==> (raw >> 43) & 1 == 0 && (raw >> 41) & 1 == 1
    {
      SetCodeSegment(ty, dpl, base, limit);
      SetLongMode(true);
      SetDefaultOperationSize(true);
      Widened(ty, dpl, base, limit);
      DataSegmentFields(TypeCode(ty) as bv64, dpl as bv64, base as bv64, limit as bv64);
      TypeBits(raw);
    }
  }

  /** The two descriptors of the kernel's table. */
  method KernelDescriptors() returns (code: SegmentDescriptor, data: SegmentDescriptor)
    ensures fresh(code) && fresh(data) && code.raw == 0x00AF_9A00_0000_FFFF && data.raw == 0x00EF_9200_0000_FFFF
  {
    code := new SegmentDescriptor();
    code.SetCodeSegment(ExecuteRead, 0, 0, 0xf_ffff);
    data := new SegmentDescriptor();
    data.SetDataSegment(ReadWrite, 0, 0, 0xf_ffff);
    SegmentWords();
    TypeCodes();
  }
}
