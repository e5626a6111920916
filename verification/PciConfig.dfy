/** Configuration-space addresses and the fields read through them. */
module PciConfig {
  import opened Bits
  import opened PciTopology
  import opened PciScan

  /** Registers as the hardware presents them, by bus, device, function and aligned offset. */
  type ConfigSpace = (nat, nat, nat, nat) -> Word32

  /** Enable bit, bus, device, function and register offset, or-ed together. */
  function MakeAddress(bus: Byte, device: Byte, func: Byte, offset: Byte): nat {
    Or(Or(Or(Or(0x8000_0000, bus * 0x1_0000), device * 0x800), func * 0x100), And(offset, 0xfc))
  }

  lemma {:induction false} AndOnes(n: nat, x: nat)
    requires x < Pow2(n)
    ensures And(x, Pow2(n) - 1) == x
  {
    if n > 0 && x > 0 {
      var p := Pow2(n - 1);
      assert Pow2(n) - 1 == 2 * (p - 1) + 1;
      AndOnes(n - 1, x / 2);
      assert And(x, Pow2(n) - 1) == 2 * And(x / 2, p - 1) + x % 2;
    }
  }

  lemma AndSixOnes(x: nat)
    requires x < 0x40
    ensures And(x, 0x3f) == x
  {
    assert Pow2(6) == 0x40;
    AndOnes(6, x);
  }

  lemma AlignedOffset(offset: Byte)
    ensures And(offset, 0xfc) == offset - offset % 4
  {
    AndSixOnes(offset / 4);
    assert offset / 2 / 2 == offset / 4;
    assert And(offset / 2, 0x7e) == 2 * And(offset / 4, 0x3f);
  }

  lemma BusField(bus: Byte)
    ensures Or(0x8000_0000, bus * 0x1_0000) == 0x8000_0000 + bus * 0x1_0000
  {
    PowersOfTwo();
    OrOfAligned(24, 0x80, bus * 0x1_0000);
  }

  lemma DeviceField(q: nat, device: nat)
    requires device < 32
    ensures Or(q * 0x1_0000, device * 0x800) == q * 0x1_0000 + device * 0x800
  {
    PowersOfTwo();
    OrOfAligned(16, q, device * 0x800);
  }

  lemma FuncField(q: nat, func: nat)
    requires func < 8
    ensures Or(q * 0x800, func * 0x100) == q * 0x800 + func * 0x100
  {
    PowersOfTwo();
    OrOfAligned(11, q, func * 0x100);
  }

  lemma OffsetField(q: nat, offset: nat)
    requires offset < 0x100
    ensures Or(q * 0x100, offset) == q * 0x100 + offset
  {
    PowersOfTwo();
    OrOfAligned(8, q, offset);
  }

  lemma UpperFields(bus: Byte, device: Byte)
    requires device < 32
    ensures Or(Or(0x8000_0000, bus * 0x1_0000), device * 0x800) == (0x10_0000 + 0x20 * bus + device) * 0x800
  {
    BusField(bus);
    DeviceField(0x8000 + bus, device);
  }

  lemma LowerFields(q: nat, func: Byte, offset: Byte)
    requires func < 8
    ensures Or(Or(q * 0x800, func * 0x100), And(offset, 0xfc)) == q * 0x800 + func * 0x100 + (offset - offset % 4)
  {
    var high, low := Or(q * 0x800, func * 0x100), And(offset, 0xfc);
    FuncField(q, func);
    AlignedOffset(offset);
    assert high == (8 * q + func) * 0x100 && low < 0x100;
    OffsetField(8 * q + func, low);
  }

  /** With five bits of device and three of function the fields do not overlap, and add up. */
  lemma AddressSum(bus: Byte, device: Byte, func: Byte, offset: Byte)
    requires device < 32 && func < 8
    ensures MakeAddress(bus, device, func, offset)
         == 0x8000_0000 + bus * 0x1_0000 + device * 0x800 + func * 0x100 + (offset - offset % 4)
  {
    UpperFields(bus, device);
    LowerFields(0x10_0000 + 0x20 * bus + device, func, offset);
  }

  /** The fields of a CONFIG_ADDRESS value, in the layout of section 3.2.2.3.2 of the PCI Local
      Bus Specification 3.0. */
  function BusOf(addr: nat): nat {
    addr / 0x1_0000 % 0x100
  }

  function DeviceOf(addr: nat): nat {
    addr / 0x800 % 0x20
  }

  function FuncOf(addr: nat): nat {
    addr / 0x100 % 8
  }

  function OffsetOf(addr: nat): nat {
    addr % 0x100
  }

  lemma DecodeSum(bus: Byte, device: nat, func: nat, offset: Byte, addr: nat)
    requires device < 32 && func < 8
    requires addr == 0x8000_0000 + bus * 0x1_0000 + device * 0x800 + func * 0x100 + offset
    ensures BusOf(addr) == bus && DeviceOf(addr) == device && FuncOf(addr) == func && OffsetOf(addr) == offset
  {
    assert addr / 0x100 == 0x80_0000 + bus * 0x100 + device * 8 + func;
    assert addr / 0x800 == 0x10_0000 + bus * 0x20 + device;
    assert addr / 0x1_0000 == 0x8000 + bus;
  }

  /** An address decodes to what it was made from exactly when device and function fit their
      fields. */
  lemma AddressDecodesIff(bus: Byte, device: Byte, func: Byte, offset: Byte)
    ensures
      var addr := MakeAddress(bus, device, func, offset);
      && (device < 32 && func < 8 <==>
          BusOf(addr) == bus && DeviceOf(addr) == device && FuncOf(addr) == func && OffsetOf(addr) == offset - offset % 4)
      && (device < 32 && func < 8 ==> addr / 0x8000_0000 == 1)
  {
    if device < 32 && func < 8 {
      AddressSum(bus, device, func, offset);
      DecodeSum(bus, device, func, offset - offset % 4, MakeAddress(bus, device, func, offset));
    }
  }

  /** On the ranges the scan uses no two registers share an address. */
  lemma AddressInjective(b: Byte, d: Byte, f: Byte, o: Byte, b': Byte, d': Byte, f': Byte, o': Byte)
    requires d < 32 && f < 8 && d' < 32 && f' < 8 && o % 4 == 0 && o' % 4 == 0
    requires MakeAddress(b, d, f, o) == MakeAddress(b', d', f', o')
    ensures (b, d, f, o) == (b', d', f', o')
  {
    AddressDecodesIff(b, d, f, o);
    AddressDecodesIff(b', d', f', o');
  }

  /** What CONFIG_DATA returns once an address has been written. */
  function ReadData(cfg: ConfigSpace, addr: nat): Word32 {
    cfg(BusOf(addr), DeviceOf(addr), FuncOf(addr), OffsetOf(addr))
  }

  function ReadRegister(cfg: ConfigSpace, bus: Byte, device: Byte, func: Byte, offset: Byte): (v: Word32)
    ensures device < 32 && func < 8 ==> v == cfg(bus, device, func, offset - offset % 4)
  {
    AddressDecodesIff(bus, device, func, offset);
    ReadData(cfg, MakeAddress(bus, device, func, offset))
  }

  function ReadVendorId(cfg: ConfigSpace, bus: Byte, device: Byte, func: Byte): nat {
    ReadRegister(cfg, bus, device, func, 0x00) % 0x1_0000
  }

  function ReadHeaderType(cfg: ConfigSpace, bus: Byte, device: Byte, func: Byte): Byte {
    ReadRegister(cfg, bus, device, func, 0x0c) / 0x1_0000 % 0x100
  }

  function ReadClassCode(cfg: ConfigSpace, bus: Byte, device: Byte, func: Byte): ClassCode {
    var raw := ReadRegister(cfg, bus, device, func, 0x08) / 0x100;
    ClassCode(raw / 0x1_0000 % 0x100, raw / 0x100 % 0x100, raw % 0x100)
  }

  function ReadSecondaryBus(cfg: ConfigSpace, bus: Byte, device: Byte, func: Byte): Byte {
    ReadRegister(cfg, bus, device, func, 0x18) / 0x100 % 0x100
  }

  /** The bytes of the four registers, high to low, and the fields they hold (section 6.1 of the
      PCI Local Bus Specification 3.0 and section 3.2 of the PCI-to-PCI Bridge specification). */
  lemma RegisterFields(cfg: ConfigSpace, bus: Byte, d: Byte, f: Byte, b3: Byte, b2: Byte, b1: Byte, b0: Byte)
    requires d < 32 && f < 8
    ensures cfg(bus, d, f, 0x00) == FromBeBytes(b3, b2, b1, b0) ==> RegistersOf(cfg).vendorId(bus, d, f) == 0x100 * b1 + b0
    ensures cfg(bus, d, f, 0x0c) == FromBeBytes(b3, b2, b1, b0) ==> RegistersOf(cfg).headerType(bus, d, f) == b2
    ensures cfg(bus, d, f, 0x08) == FromBeBytes(b3, b2, b1, b0) ==> RegistersOf(cfg).classCode(bus, d, f) == ClassCode(b3, b2, b1)
    ensures cfg(bus, d, f, 0x18) == FromBeBytes(b3, b2, b1, b0) ==> RegistersOf(cfg).secondaryBus(bus, d, f) == b1
  {
    WordFields(b3, b2, b1, b0);
  }

  lemma WordFields(b3: Byte, b2: Byte, b1: Byte, b0: Byte)
    ensures
      var v := FromBeBytes(b3, b2, b1, b0);
      && v % 0x1_0000 == 0x100 * b1 + b0 && v / 0x1_0000 % 0x100 == b2 && v / 0x100 % 0x100 == b1
      && v / 0x100 / 0x1_0000 % 0x100 == b3 && v / 0x100 / 0x100 % 0x100 == b2
  {
    var v := FromBeBytes(b3, b2, b1, b0);
    assert v / 0x100 == 0x1_0000 * b3 + 0x100 * b2 + b1;
    assert v / 0x100 / 0x100 == v / 0x1_0000 == 0x100 * b3 + b2;
    assert v / 0x100 / 0x1_0000 == b3;
  }

  /** The registers the scan sees through this configuration space. */
  function RegistersOf(cfg: ConfigSpace): Registers {
    Registers((b: Byte, d: Byte, f: Byte) => ReadVendorId(cfg, b, d, f), (b: Byte, d: Byte, f: Byte) => ReadHeaderType(cfg, b, d, f),
              (b: Byte, d: Byte, f: Byte) => ReadClassCode(cfg, b, d, f), (b: Byte, d: Byte, f: Byte) => ReadSecondaryBus(cfg, b, d, f))
  }
}
