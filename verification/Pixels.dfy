/** Colours and their in-memory encodings. */
module Pixels {
  import opened Bits

  datatype PixelFormat = Rgb | Bgr

  /** A colour word: red, green and blue in the three high bytes. */
  type RgbColor = Word32

  /** v >> 8 */
  function Shr8(v: Word32): (r: Word32)
    ensures v == 0x100 * r + v % 0x100
  {
    v / 0x100
  }

  /** (v >> 24) & 0xff and so on, from the high byte down. */
  function HighByte(v: Word32): Byte {
    Shr8(Shr8(Shr8(v))) % 0x100
  }

  function MiddleHighByte(v: Word32): Byte {
    Shr8(Shr8(v)) % 0x100
  }

  function MiddleLowByte(v: Word32): Byte {
    Shr8(v) % 0x100
  }

  function LowByte(v: Word32): Byte {
    v % 0x100
  }

  /** The conversion of a colour into a pixel, c & 0xFFFFFF00, drops the low byte. */
  function ToPixel(c: RgbColor): Word32 {
    c - c % 0x100
  }

  /** Swaps red and blue and clears the low byte. */
  function SwapRedBlue(pixel: Word32): Word32 {
    FromBeBytes(MiddleLowByte(pixel), MiddleHighByte(pixel), HighByte(pixel), 0)
  }

  /** u32::from_be on a little-endian machine: the bytes are reversed. */
  function ReverseBytes(v: Word32): Word32 {
    FromBeBytes(LowByte(v), MiddleLowByte(v), MiddleHighByte(v), HighByte(v))
  }

  /** The bytes a little-endian machine stores for a 32-bit word, lowest address first. */
  function StoredBytes(v: Word32): (s: seq<Byte>)
    ensures |s| == 4
  {
    [LowByte(v), MiddleLowByte(v), MiddleHighByte(v), HighByte(v)]
  }

  /** What write_pixel_rgb and write_pixel_bgr put in memory for a colour. */
  function Encode(format: PixelFormat, c: RgbColor): (s: seq<Byte>)
    ensures |s| == 4
  {
    match format
    case Rgb => StoredBytes(ReverseBytes(ToPixel(c)))
    case Bgr => StoredBytes(ReverseBytes(SwapRedBlue(ToPixel(c))))
  }

  /** The colour a display shows for three bytes, in the byte orders of the UEFI
      Specification 2.10, section 12.9: red first or blue first. */
  function Decode(format: PixelFormat, b0: Byte, b1: Byte, b2: Byte): RgbColor {
    match format
    case Rgb => FromBeBytes(b0, b1, b2, 0)
    case Bgr => FromBeBytes(b2, b1, b0, 0)
  }

  lemma BytesOfWord(b0: Byte, b1: Byte, b2: Byte, b3: Byte)
    ensures
      var v := FromBeBytes(b0, b1, b2, b3);
      HighByte(v) == b0 && MiddleHighByte(v) == b1 && MiddleLowByte(v) == b2 && LowByte(v) == b3
  {
    var v := FromBeBytes(b0, b1, b2, b3);
    assert Shr8(v) == b0 * 0x1_00_00 + b1 * 0x1_00 + b2;
    assert Shr8(Shr8(v)) == b0 * 0x1_00 + b1;
    assert Shr8(Shr8(Shr8(v))) == b0;
  }

  lemma WordOfBytes(v: Word32)
    ensures FromBeBytes(HighByte(v), MiddleHighByte(v), MiddleLowByte(v), LowByte(v)) == v
  {
    var a := Shr8(v);
    var b := Shr8(a);
    var c := Shr8(b);
    assert c < 0x100 && HighByte(v) == c;
    assert b == 0x100 * c + MiddleHighByte(v);
    assert a == 0x100 * b + MiddleLowByte(v);
    assert v == 0x100 * a + LowByte(v);
  }

  lemma StoredReversed(v: Word32)
    ensures StoredBytes(ReverseBytes(v)) == [HighByte(v), MiddleHighByte(v), MiddleLowByte(v), LowByte(v)]
  {
    BytesOfWord(LowByte(v), MiddleLowByte(v), MiddleHighByte(v), HighByte(v));
  }

  /** The display shows the colour written, and the reserved byte is zero. */
  lemma EncodeDecode(format: PixelFormat, c: RgbColor)
    ensures
      var s := Encode(format, c);
      Decode(format, s[0], s[1], s[2]) == ToPixel(c) && s[3] == 0
  {
    var v := ToPixel(c);
    WordOfBytes(v);
    assert LowByte(v) == 0;
    match format
    case Rgb =>
      StoredReversed(v);
    case Bgr =>
      BytesOfWord(MiddleLowByte(v), MiddleHighByte(v), HighByte(v), 0);
      StoredReversed(SwapRedBlue(v));
  }

  lemma PixelOfBytes(r: Byte, g: Byte, b: Byte, x: Byte)
    ensures ToPixel(FromBeBytes(r, g, b, x)) == FromBeBytes(r, g, b, 0)
  {
    BytesOfWord(r, g, b, x);
  }

  /** In memory: red, green, blue and a zero, or blue, green, red and a zero. */
  lemma EncodeRgbBytes(r: Byte, g: Byte, b: Byte, x: Byte)
    ensures Encode(Rgb, FromBeBytes(r, g, b, x)) == [r, g, b, 0]
  {
    PixelOfBytes(r, g, b, x);
    BytesOfWord(r, g, b, 0);
    StoredReversed(FromBeBytes(r, g, b, 0));
  }

  lemma EncodeBgrBytes(r: Byte, g: Byte, b: Byte, x: Byte)
    ensures Encode(Bgr, FromBeBytes(r, g, b, x)) == [b, g, r, 0]
  {
    PixelOfBytes(r, g, b, x);
    BytesOfWord(r, g, b, 0);
    BytesOfWord(b, g, r, 0);
    StoredReversed(FromBeBytes(b, g, r, 0));
  }

  /** The same from the bytes of a colour. */
  lemma EncodeDigits(c: RgbColor)
    ensures Encode(Rgb, c) == [c / 0x100_0000, c / 0x1_0000 % 0x100, c / 0x100 % 0x100, 0]
    ensures Encode(Bgr, c) == [c / 0x100 % 0x100, c / 0x1_0000 % 0x100, c / 0x100_0000, 0]
  {
    var r: Byte, g: Byte, b: Byte, x: Byte := c / 0x100_0000, c / 0x1_0000 % 0x100, c / 0x100 % 0x100, c % 0x100;
    Digits(c);
    assert c == FromBeBytes(r, g, b, x);
    EncodeRgbBytes(r, g, b, x);
    EncodeBgrBytes(r, g, b, x);
  }

  lemma Digits(c: nat)
    ensures c == c / 0x100_0000 * 0x100_0000 + c / 0x1_0000 % 0x100 * 0x1_0000 + c / 0x100 % 0x100 * 0x100 + c % 0x100
  {
    var c1 := c / 0x100;
    var c2 := c1 / 0x100;
    assert c / 0x1_0000 == c2 && c / 0x100_0000 == c2 / 0x100;
    assert c == 0x100 * c1 + c % 0x100 && c1 == 0x100 * c2 + c1 % 0x100 && c2 == 0x100 * (c2 / 0x100) + c2 % 0x100;
  }

  /** What the display shows determines the three bytes. */
  lemma DecodeIsInjective(format: PixelFormat, c: RgbColor, b0: Byte, b1: Byte, b2: Byte)
    requires Decode(format, b0, b1, b2) == ToPixel(c)
    ensures [b0, b1, b2] == Encode(format, c)[..3]
  {
    EncodeDecode(format, c);
    var s := Encode(format, c);
    match format
    case Rgb =>
      BytesOfWord(b0, b1, b2, 0);
      BytesOfWord(s[0], s[1], s[2], 0);
    case Bgr =>
      BytesOfWord(b2, b1, b0, 0);
      BytesOfWord(s[2], s[1], s[0], 0);
  }
}
