/** The linear frame buffer: pixels over bytes, rectangles and glyphs over pixels. */
module FrameBuffer {
  import opened Bits
  import opened Pixels
  import opened Wrappers

  const CHARACTER_WIDTH: nat := 8
  const CHARACTER_HEIGHT: nat := 16

  datatype FrameBufferError = OutsideBufferError

  type Ascii = c: nat | c < 128

  /** A font: glyphs of 16 rows of 8 bits. */
  ghost predicate IsFont(font: seq<seq<Byte>>) {
    |font| == 256 && forall g <- font :: |g| == CHARACTER_HEIGHT
  }

  /** Pixel (dx, dy) of a glyph is drawn. */
  predicate GlyphBit(font: seq<seq<Byte>>, c: Ascii, dx: nat, dy: nat)
    requires IsFont(font) && dx < CHARACTER_WIDTH && dy < CHARACTER_HEIGHT
  {
    Bit(font[c][dy], 7 - dx)
  }

  /** The eight pixels of a row, left to right, are the binary digits of its byte, most
      significant first. */
  lemma GlyphRowDigits(font: seq<seq<Byte>>, c: Ascii, dy: nat)
    requires IsFont(font) && dy < 16
    ensures
      var v := font[c][dy];
      && (GlyphBit(font, c, 0, dy) <==> v / 128 % 2 == 1) && (GlyphBit(font, c, 1, dy) <==> v / 64 % 2 == 1)
      && (GlyphBit(font, c, 2, dy) <==> v / 32 % 2 == 1) && (GlyphBit(font, c, 3, dy) <==> v / 16 % 2 == 1)
      && (GlyphBit(font, c, 4, dy) <==> v / 8 % 2 == 1) && (GlyphBit(font, c, 5, dy) <==> v / 4 % 2 == 1)
      && (GlyphBit(font, c, 6, dy) <==> v / 2 % 2 == 1) && (GlyphBit(font, c, 7, dy) <==> v % 2 == 1)
  {
    BitsOfByte(font[c][dy]);
  }

  /** Pixel (a, b) is drawn when the glyph of `c` is placed at (x, y). */
  predicate InGlyph(font: seq<seq<Byte>>, c: Ascii, x: nat, y: nat, a: nat, b: nat)
    requires IsFont(font)
  {
    InRect(a, b, x, y, CHARACTER_WIDTH, CHARACTER_HEIGHT) && GlyphBit(font, c, a - x, b - y)
  }

  predicate InRect(a: nat, b: nat, x: nat, y: nat, w: nat, h: nat) {
    x <= a < x + w && y <= b < y + h
  }

  /** Byte offset of a pixel in a buffer `width` pixels wide. */
  function Offset(width: nat, x: nat, y: nat): nat {
    (y * width + x) * 4
  }

  lemma RowsBelow(width: nat, y: nat, h: nat)
    requires y < h
    ensures y * width + width <= h * width
  {
    assert (h - y - 1) * width >= 0;
    assert h * width == y * width + width + (h - y - 1) * width;
  }

  /** Pixels of the buffer lie below width * height * 4. */
  lemma OffsetInBounds(width: nat, height: nat, x: nat, y: nat)
    requires x < width && y < height
    ensures Offset(width, x, y) + 4 <= height * width * 4
  {
    RowsBelow(width, y, height);
  }

  /** Distinct pixels never share a byte. */
  lemma OffsetsDoNotAlias(width: nat, x: nat, y: nat, a: nat, b: nat)
    requires x < width && a < width && (x, y) != (a, b)
    ensures Offset(width, x, y) + 4 <= Offset(width, a, b) || Offset(width, a, b) + 4 <= Offset(width, x, y)
  {
    if y < b {
      RowsBelow(width, y, b);
    } else if b < y {
      RowsBelow(width, b, y);
    }
  }

  /** The colour the display reads at a pixel. */
  ghost function ColorIn(format: PixelFormat, width: nat, bytes: seq<Byte>, x: nat, y: nat): RgbColor {
    var o := Offset(width, x, y);
    if o + 4 <= |bytes| then Decode(format, bytes[o], bytes[o + 1], bytes[o + 2]) else 0
  }

  ghost predicate Shows(format: PixelFormat, width: nat, height: nat, bytes: seq<Byte>, screen: (nat, nat) -> RgbColor) {
    forall x: nat, y: nat {:trigger ColorIn(format, width, bytes, x, y)} ::
      x < width && y < height ==> ColorIn(format, width, bytes, x, y) == screen(x, y)
  }

  /** Memory after one four-byte store. */
  function StoredAt(bytes: seq<Byte>, o: nat, word: seq<Byte>): (r: seq<Byte>)
    requires |word| == 4 && o + 4 <= |bytes|
    ensures |r| == |bytes|
  {
    bytes[..o] + word + bytes[o + 4..]
  }

  /** Storing one pixel changes what is shown at that pixel only. */
  lemma ColorAfterStore(format: PixelFormat, width: nat, bytes: seq<Byte>, x: nat, y: nat, color: RgbColor, a: nat, b: nat)
    requires x < width && a < width && Offset(width, x, y) + 4 <= |bytes|
    ensures ColorIn(format, width, StoredAt(bytes, Offset(width, x, y), Encode(format, color)), a, b) ==
            if a == x && b == y then ToPixel(color) else ColorIn(format, width, bytes, a, b)
  {
    if a == x && b == y {
      EncodeDecode(format, color);
    } else {
      OffsetsDoNotAlias(width, x, y, a, b);
    }
  }

  class FrameBuf {
    const width: nat
    const height: nat
    const stride: nat
    const format: PixelFormat
    const font: seq<seq<Byte>>
    const mem: array<Byte>
    /** The colour each pixel shows. */
    ghost var screen: (nat, nat) -> RgbColor

    predicate IsInsideBuffer(x: nat, y: nat) {
      !(x >= width || y >= height)
    }

    ghost predicate Valid()
      reads this, mem
    {
      && IsFont(font)
      && height * width * 4 <= mem.Length
      && Shows(format, width, height, mem[..], screen)
    }

    /** A buffer of four-byte pixels over `mem`, as the boot information describes it. */
    constructor (width: nat, height: nat, stride: nat, format: PixelFormat, font: seq<seq<Byte>>, mem: array<Byte>)
      requires IsFont(font) && height * width * 4 <= mem.Length
      ensures Valid()
      ensures this.width == width && this.height == height && this.stride == stride
      ensures this.format == format && this.font == font && this.mem == mem
    {
      this.width, this.height, this.stride := width, height, stride;
      this.format, this.font, this.mem := format, font, mem;
      new;
      ghost var bytes := mem[..];
      screen := (x: nat, y: nat) => ColorIn(format, width, bytes, x, y);
    }

    /** One four-byte store. */
    method StoreWord(offset: nat, bytes: seq<Byte>)
      requires |bytes| == 4 && offset + 4 <= mem.Length
      modifies mem
      ensures mem[..] == StoredAt(old(mem[..]), offset, bytes)
    {
      mem[offset], mem[offset + 1], mem[offset + 2], mem[offset + 3] := bytes[0], bytes[1], bytes[2], bytes[3];
    }

    /** Writes the four bytes of one pixel, or nothing when the pixel is outside. */
    method WritePixel(x: nat, y: nat, color: RgbColor) returns (r: Result<(), FrameBufferError>)
      requires Valid()
      modifies mem, this
      ensures Valid()
      ensures r == if x < width && y < height then Ok(()) else Err(OutsideBufferError)
      ensures forall a: nat, b: nat {:trigger screen(a, b)} :: screen(a, b) ==
                if r.Ok? && a == x && b == y then ToPixel(color) else old(screen)(a, b)
      ensures r.Ok? ==> Offset(width, x, y) + 4 <= mem.Length
      ensures mem[..] == if r.Ok? then StoredAt(old(mem[..]), Offset(width, x, y), Encode(format, color)) else old(mem[..])
      ensures r.Ok? ==>
                var o := (y * width + x) * 4;
                var red, green, blue := color / 0x100_0000, color / 0x1_0000 % 0x100, color / 0x100 % 0x100;
                && o + 4 <= mem.Length
                && mem[o..o + 4] == (if format.Rgb? then [red, green, blue, 0] else [blue, green, red, 0])
                && mem[..o] == old(mem[..o]) && mem[o + 4..] == old(mem[o + 4..])
    {
      if !IsInsideBuffer(x, y) {
        return Err(OutsideBufferError);
      }
      OffsetInBounds(width, height, x, y);
      StoreWord(Offset(width, x, y), Encode(format, color));
      EncodeDigits(color);
      ghost var bytes, was := old(mem[..]), screen;
      screen := (a: nat, b: nat) => if a == x && b == y then ToPixel(color) else was(a, b);
      forall a: nat, b: nat | a < width && b < height
        ensures ColorIn(format, width, mem[..], a, b) == screen(a, b)
      {
        ColorAfterStore(format, width, bytes, x, y, color, a, b);
        assert ColorIn(format, width, bytes, a, b) == was(a, b);
      }
      return Ok(());
    }

    /** Fills column by column and stops at the first pixel outside the buffer. */
    method FillRect(x: nat, y: nat, w: nat, h: nat, color: RgbColor) returns (r: Result<(), FrameBufferError>)
      requires Valid()
      modifies mem, this
      ensures Valid()
      ensures r.Ok? <==> w == 0 || h == 0 || (x + w <= width && y + h <= height)
      ensures forall a: nat, b: nat {:trigger screen(a, b)} :: screen(a, b) ==
                if InRect(a, b, x, y, w, h) && IsInsideBuffer(a, b) && (y + h <= height || a == x)
                then ToPixel(color) else old(screen)(a, b)
    {
      for i := x to x + w
        invariant Valid()
        invariant i > x && h > 0 ==> i <= width && y + h <= height
        invariant forall a: nat, b: nat {:trigger screen(a, b)} :: screen(a, b) ==
                    if InRect(a, b, x, y, i - x, h) then ToPixel(color) else old(screen)(a, b)
      {
        for j := y to y + h
          invariant Valid()
          invariant j > y ==> i < width && j <= height
          invariant forall a: nat, b: nat {:trigger screen(a, b)} :: screen(a, b) ==
                      if InRect(a, b, x, y, i - x, h) || InRect(a, b, i, y, 1, j - y)
                      then ToPixel(color) else old(screen)(a, b)
        {
          var w := WritePixel(i, j, color);
          if w.Err? {
            return w;
          }
        }
      }
      return Ok(());
    }

    /** The same loops over the whole buffer: they never leave it. */
    method Fill(color: RgbColor) returns (r: Result<(), FrameBufferError>)
      requires Valid()
      modifies mem, this
      ensures Valid() && r.Ok?
      ensures forall a: nat, b: nat {:trigger screen(a, b)} :: screen(a, b) ==
                if IsInsideBuffer(a, b) then ToPixel(color) else old(screen)(a, b)
    {
      r := FillRect(0, 0, width, height, color);
    }

    /** Draws the set pixels of a glyph; the others keep their colour. */
    method WriteChar(x: nat, y: nat, c: Ascii, fg: RgbColor) returns (r: Result<(), FrameBufferError>)
      requires Valid()
      modifies mem, this
      ensures Valid()
      ensures r.Ok? <==> forall dx: nat, dy: nat :: dx < 8 && dy < 16 && GlyphBit(font, c, dx, dy) ==>
                                                    IsInsideBuffer(x + dx, y + dy)
      ensures forall a: nat, b: nat {:trigger screen(a, b)} :: InGlyph(font, c, x, y, a, b) && r.Ok? ==> screen(a, b) == ToPixel(fg)
      ensures forall a: nat, b: nat {:trigger screen(a, b)} :: InGlyph(font, c, x, y, a, b) ==> screen(a, b) in {ToPixel(fg), old(screen)(a, b)}
      ensures forall a: nat, b: nat {:trigger screen(a, b)} :: !InGlyph(font, c, x, y, a, b) ==> screen(a, b) == old(screen)(a, b)
    {
      for dy := 0 to CHARACTER_HEIGHT
        invariant Valid()
        invariant forall a: nat, b: nat :: a < 8 && b < dy && GlyphBit(font, c, a, b) ==> IsInsideBuffer(x + a, y + b)
        invariant forall a: nat, b: nat {:trigger screen(a, b)} :: screen(a, b) ==
                    if InRect(a, b, x, y, 8, dy) && InGlyph(font, c, x, y, a, b)
                    then ToPixel(fg) else old(screen)(a, b)
      {
        var w := WriteGlyphRow(x, y, c, dy, fg);
        if w.Err? {
          return w;
        }
      }
      return Ok(());
    }

    /** The inner loop: one row of a glyph. */
    method WriteGlyphRow(x: nat, y: nat, c: Ascii, dy: nat, fg: RgbColor) returns (r: Result<(), FrameBufferError>)
      requires Valid() && dy < CHARACTER_HEIGHT
      modifies mem, this
      ensures Valid()
      ensures r.Ok? <==> forall dx: nat :: dx < 8 && GlyphBit(font, c, dx, dy) ==> IsInsideBuffer(x + dx, y + dy)
      ensures forall a: nat, b: nat {:trigger screen(a, b)} :: b == y + dy && InGlyph(font, c, x, y, a, b) ==>
                if r.Ok? then screen(a, b) == ToPixel(fg) else screen(a, b) in {ToPixel(fg), old(screen)(a, b)}
      ensures forall a: nat, b: nat {:trigger screen(a, b)} :: !(b == y + dy && InGlyph(font, c, x, y, a, b)) ==>
                screen(a, b) == old(screen)(a, b)
    {
      for dx := 0 to CHARACTER_WIDTH
        invariant Valid()
        invariant forall a: nat :: a < dx && GlyphBit(font, c, a, dy) ==> IsInsideBuffer(x + a, y + dy)
        invariant forall a: nat, b: nat {:trigger screen(a, b)} :: screen(a, b) ==
                    if InRect(a, b, x, y + dy, dx, 1) && InGlyph(font, c, x, y, a, b)
                    then ToPixel(fg) else old(screen)(a, b)
      {
        var w := WriteGlyphBit(x, y, c, dx, dy, fg);
        if w.Err? {
          return w;
        }
      }
      return Ok(());
    }

    /** One round of it. */
    method WriteGlyphBit(x: nat, y: nat, c: Ascii, dx: nat, dy: nat, fg: RgbColor) returns (r: Result<(), FrameBufferError>)
      requires Valid() && dx < CHARACTER_WIDTH && dy < CHARACTER_HEIGHT
      modifies mem, this
      ensures Valid()
      ensures r.Ok? <==> (GlyphBit(font, c, dx, dy) ==> IsInsideBuffer(x + dx, y + dy))
      ensures forall a: nat, b: nat {:trigger screen(a, b)} :: screen(a, b) ==
                if r.Ok? && GlyphBit(font, c, dx, dy) && a == x + dx && b == y + dy then ToPixel(fg) else old(screen)(a, b)
    {
      var row := font[c][dy];
      if Bit(row, 7 - dx) {
        r := WritePixel(x + dx, y + dy, fg);
      } else {
        r := Ok(());
      }
    }
  }

  /** A buffer as the boot information describes it, every byte of every pixel showing the
      background. */
  method InitFrameBuf(width: nat, height: nat, stride: nat, format: PixelFormat, font: seq<seq<Byte>>, mem: array<Byte>, bgColor: RgbColor)
    returns (fb: FrameBuf, r: Result<(), FrameBufferError>)
    requires IsFont(font) && height * width * 4 <= mem.Length
    modifies mem
    ensures fresh(fb) && fb.Valid() && r.Ok?
    ensures fb.width == width && fb.height == height && fb.format == format && fb.mem == mem
    ensures forall x: nat, y: nat {:trigger ColorIn(format, width, mem[..], x, y)} ::
              x < width && y < height ==> ColorIn(format, width, mem[..], x, y) == ToPixel(bgColor)
  {
    fb := new FrameBuf(width, height, stride, format, font, mem);
    r := fb.Fill(bgColor);
    forall x: nat, y: nat | x < width && y < height
      ensures ColorIn(format, width, mem[..], x, y) == ToPixel(bgColor)
    {
      assert ColorIn(format, width, mem[..], x, y) == fb.screen(x, y);
    }
  }
}
