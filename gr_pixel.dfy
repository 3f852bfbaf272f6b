/**
 * The value-level logic of gr_drawer.c that works on whole pixels: the screen bounds test,
 * pixel packing from the framebuffer's channel layout, the split of a pixel into the bytes
 * written to framebuffer memory, the pattern `fill_screen` leaves behind, and the clipping
 * test of `draw_png`. The drawer class in GrDrawer updates framebuffer memory with these.
 */
module GrPixel {
  import opened Common

  // ---------------------------------------------------------------------------------------
  // Screen bounds

  /** `outside(x, y)`: the position is not a pixel of a `width` x `height` screen. */
  predicate Outside(width: nat, height: nat, x: nat, y: nat)
  {
    y >= height || x >= width
  }

  /** Row-major index of pixel (x, y) on a screen `width` pixels wide. */
  function PixelIndex(width: nat, x: nat, y: nat): nat
  {
    y * width + x
  }

  /** A position passes the bounds test exactly when it is a column of the row and its index a pixel of the screen. */
  lemma InsideIffIndexOnScreen(width: nat, height: nat, x: nat, y: nat)
    ensures !Outside(width, height, x, y) <==> x < width && PixelIndex(width, x, y) < width * height
  {
    if x < width {
      if y < height {
        MulLeq(y + 1, height, width);
      } else {
        MulLeq(height, y, width);
      }
    }
  }

  // ---------------------------------------------------------------------------------------
  // Pixel packing

  /** Where a colour channel lives in a framebuffer pixel: bit offset and bit length (`uint32_t`s). */
  datatype Channel = Channel(offset: bv32, length: bv32)
  datatype PixelFormat = PixelFormat(red: Channel, green: Channel, blue: Channel, alpha: Channel)

  /** The shifts of `make_pixel` are defined: at most 8 bits per channel, offset inside the word. */
  predicate ValidChannel(c: Channel)
  {
    c.length <= 8 && c.offset < 32
  }

  predicate ValidFormat(f: PixelFormat)
  {
    ValidChannel(f.red) && ValidChannel(f.green) && ValidChannel(f.blue) && ValidChannel(f.alpha)
  }

  /** A channel at offset `o` with length `n` lies wholly inside the 32-bit word. */
  predicate FitsWord(o: bv32, n: bv32)
  {
    n <= 8 && o < 32 && o + n <= 32
  }

  /** The top `n` bits of an 8-bit component: `c >> (8 - len)`. */
  function Top(v: bv8, n: bv32): bv32
    requires n <= 8
  {
    (v as bv32) >> (8 - n)
  }

  /** One term of `make_pixel`: `(c >> (8 - len)) << off`. */
  function Field(v: bv8, o: bv32, n: bv32): bv32
    requires n <= 8 && o < 32
  {
    Top(v, n) << o
  }

  /** `make_pixel`: the OR of the four channel terms. */
  function MakePixel(r: bv8, g: bv8, b: bv8, a: bv8, f: PixelFormat): bv32
    requires ValidFormat(f)
  {
    Field(r, f.red.offset, f.red.length) | Field(g, f.green.offset, f.green.length)
    | Field(b, f.blue.offset, f.blue.length) | Field(a, f.alpha.offset, f.alpha.length)
  }

  /** A word of `n` low one-bits. */
  function Mask(n: bv32): bv32
    requires n <= 32
  {
    ((1 as bv32) << n) - 1
  }

  /** The bits a channel occupies in a pixel word. */
  function ChannelMask(o: bv32, n: bv32): bv32
    requires n <= 8 && o < 32
  {
    Mask(n) << o
  }

  /** The value of a channel in a packed pixel, shifted down. */
  function Extract(p: bv32, o: bv32, n: bv32): bv32
    requires n <= 8 && o < 32
  {
    (p >> o) & Mask(n)
  }

  /** A channel term occupies only its own channel's bits. */
  lemma FieldInOwnChannel(v: bv8, o: bv32, n: bv32)
    requires FitsWord(o, n)
    ensures Field(v, o, n) & ChannelMask(o, n) == Field(v, o, n)
  {
  }

  /** Shifting a channel's term back down yields the top bits of the component, unchanged. */
  lemma ExtractOwnField(v: bv8, o: bv32, n: bv32)
    requires FitsWord(o, n)
    ensures Extract(Field(v, o, n), o, n) == Top(v, n)
  {
  }

  /** A zero component contributes nothing: the alpha term of `fill_screen`'s pixel is 0. */
  lemma ZeroField(o: bv32, n: bv32)
    requires n <= 8 && o < 32
    ensures Field(0, o, n) == 0
  {
  }

  /** 32-bit layouts with 8 bits per channel, as framebuffers commonly report them. */
  const Argb8888: PixelFormat := PixelFormat(Channel(16, 8), Channel(8, 8), Channel(0, 8), Channel(24, 8))
  const Abgr8888: PixelFormat := PixelFormat(Channel(0, 8), Channel(8, 8), Channel(16, 8), Channel(24, 8))
  /** The 16-bit layout with 5, 6 and 5 bits of red, green and blue and no alpha. */
  const Rgb565: PixelFormat := PixelFormat(Channel(11, 5), Channel(5, 6), Channel(0, 5), Channel(0, 0))

  /** In a 32-bit layout every component survives packing whole, each in its own byte. */
  lemma Argb8888Channels(r: bv8, g: bv8, b: bv8, a: bv8)
    ensures Extract(MakePixel(r, g, b, a, Argb8888), 16, 8) == r as bv32
    ensures Extract(MakePixel(r, g, b, a, Argb8888), 8, 8) == g as bv32
    ensures Extract(MakePixel(r, g, b, a, Argb8888), 0, 8) == b as bv32
    ensures Extract(MakePixel(r, g, b, a, Argb8888), 24, 8) == a as bv32
  {
  }

  lemma Abgr8888Channels(r: bv8, g: bv8, b: bv8, a: bv8)
    ensures Extract(MakePixel(r, g, b, a, Abgr8888), 0, 8) == r as bv32
    ensures Extract(MakePixel(r, g, b, a, Abgr8888), 8, 8) == g as bv32
    ensures Extract(MakePixel(r, g, b, a, Abgr8888), 16, 8) == b as bv32
    ensures Extract(MakePixel(r, g, b, a, Abgr8888), 24, 8) == a as bv32
  {
  }

  /** In the 16-bit layout each channel keeps the top bits of its component and the word stays in 16 bits. */
  lemma Rgb565Channels(r: bv8, g: bv8, b: bv8, a: bv8)
    ensures Extract(MakePixel(r, g, b, a, Rgb565), 11, 5) == (r >> 3) as bv32
    ensures Extract(MakePixel(r, g, b, a, Rgb565), 5, 6) == (g >> 2) as bv32
    ensures Extract(MakePixel(r, g, b, a, Rgb565), 0, 5) == (b >> 3) as bv32
    ensures MakePixel(r, g, b, a, Rgb565) < 0x1_0000
  {
  }

  // ---------------------------------------------------------------------------------------
  // Pixel bytes

  /** Number of bytes a pixel of `bits` bits takes: `bytes_per_pixel = bits_per_pixel / 8`. */
  function BytesPerPixel(bits: nat): nat
  {
    bits / 8
  }

  /** Byte `x` of a pixel as written: `pixel >> (bits_per_pixel - (bytes_per_pixel - x) * 8)`, kept to 8 bits. */
  function PixelByte(pixel: nat, bits: nat, x: nat): Byte
    requires bits <= 32 && x < BytesPerPixel(bits)
  {
    (Shr(pixel, bits - (BytesPerPixel(bits) - x) * 8) % 256) as Byte
  }

  /** The bytes `fill_screen` and `draw_png` write for one pixel, lowest address first. */
  function PixelBytes(pixel: nat, bits: nat): (s: seq<Byte>)
    requires bits <= 32
    ensures |s| == BytesPerPixel(bits)
  {
    seq(BytesPerPixel(bits), x requires 0 <= x < BytesPerPixel(bits) => PixelByte(pixel, bits, x))
  }

  /** Reads bytes back as a little-endian number. */
  function Assemble(s: seq<Byte>): nat
  {
    if s == [] then 0 else s[0] as nat + 256 * Assemble(s[1..])
  }

  /** The `n` low bytes of `q`, least significant first. */
  function LittleEndian(q: nat, n: nat): (s: seq<Byte>)
    ensures |s| == n
  {
    if n == 0 then [] else [(q % 256) as Byte] + LittleEndian(q / 256, n - 1)
  }

  lemma {:induction false} LittleEndianRoundTrip(q: nat, n: nat)
    ensures Assemble(LittleEndian(q, n)) == q % Pow2(8 * n)
  {
    if n > 0 {
      var s := LittleEndian(q, n);
      assert s[1..] == LittleEndian(q / 256, n - 1);
      LittleEndianRoundTrip(q / 256, n - 1);
      Pow2Add(8, 8 * (n - 1));
      assert Pow2(8) == 256;
      DivMod(q, 256, Pow2(8 * (n - 1)));
    }
  }

  lemma {:induction false} LittleEndianAt(q: nat, n: nat, x: nat)
    requires x < n
    ensures LittleEndian(q, n)[x] as int == Shr(q, 8 * x) % 256
  {
    if x > 0 {
      LittleEndianAt(q / 256, n - 1, x - 1);
      Pow2Add(8, 8 * (x - 1));
      assert Pow2(8) == 256;
      DivMod(q, 256, Pow2(8 * (x - 1)));
    }
  }

  /**
   * The bytes written for a pixel are its value above the `bits % 8` lowest bits, least
   * significant byte first.
   */
  lemma PixelBytesAreLittleEndian(pixel: nat, bits: nat)
    requires bits <= 32
    ensures PixelBytes(pixel, bits) == LittleEndian(Shr(pixel, bits % 8), BytesPerPixel(bits))
  {
    forall x | 0 <= x < BytesPerPixel(bits)
      ensures PixelBytes(pixel, bits)[x] == LittleEndian(Shr(pixel, bits % 8), BytesPerPixel(bits))[x]
    {
      PixelByteIsLittleEndian(pixel, bits, x);
    }
  }

  lemma PixelByteIsLittleEndian(pixel: nat, bits: nat, x: nat)
    requires bits <= 32 && x < BytesPerPixel(bits)
    ensures PixelByte(pixel, bits, x) == LittleEndian(Shr(pixel, bits % 8), BytesPerPixel(bits))[x]
  {
    var n, r := BytesPerPixel(bits), bits % 8;
    assert bits - (n - x) * 8 == r + 8 * x;
    var lo, hi := Pow2(r), Pow2(8 * x);
    Pow2Add(r, 8 * x);
    DivMod(pixel, lo, hi);
    LittleEndianAt(Shr(pixel, r), n, x);
  }

  /** For whole-byte depths (8, 16, 24, 32 bits) the written bytes hold exactly the pixel's low `bits` bits. */
  lemma PixelBytesRoundTrip(pixel: nat, bits: nat)
    requires bits <= 32 && bits % 8 == 0
    ensures Assemble(PixelBytes(pixel, bits)) == pixel % Pow2(bits)
  {
    PixelBytesAreLittleEndian(pixel, bits);
    LittleEndianRoundTrip(pixel, BytesPerPixel(bits));
  }

  // ---------------------------------------------------------------------------------------
  // The fill pattern

  /** `n` copies of `s`, one after another. */
  function Repeat(s: seq<Byte>, n: nat): (r: seq<Byte>)
    ensures |r| == n * |s|
  {
    if n == 0 then [] else Repeat(s, n - 1) + s
  }

  /** Copy `p` of the pattern sits at offset `p * |s|`. */
  lemma {:induction false} RepeatAt(s: seq<Byte>, n: nat, p: nat, x: nat)
    requires p < n && x < |s|
    ensures p * |s| + x < n * |s|
    ensures Repeat(s, n)[p * |s| + x] == s[x]
  {
    MulLeq(p + 1, n, |s|);
    if p < n - 1 {
      RepeatAt(s, n - 1, p, x);
    }
  }

  // ---------------------------------------------------------------------------------------
  // Clipping in draw_png

  /**
   * Row `i` and column `j` of a PNG surface drawn at (`posX`, `posY`) is written by the loop as
   * written: rows stop at `i >= fb_height || i + pos_y > fb_height`, columns likewise.
   */
  predicate PngWritesAsWritten(width: nat, height: nat, posX: nat, posY: nat, i: nat, j: nat)
  {
    !(i >= height || i + posY > height) && !(j >= width || j + posX > width)
  }

  /** The loop with the clipping tests the bounds test calls for: stop once the screen row or column is off screen. */
  predicate PngWrites(width: nat, height: nat, posX: nat, posY: nat, i: nat, j: nat)
  {
    !(i >= height || i + posY >= height) && !(j >= width || j + posX >= width)
  }

  /**
   * As written, a surface drawn on the last row of a 1 x 2 screen writes its second row at
   * pixel index 2, past the screen's 2 pixels, although the entry check passes.
   */
  lemma PngClipLetsLastRowThrough()
    ensures !Outside(1, 2, 0, 1)
    ensures PngWritesAsWritten(1, 2, 0, 1, 1, 0)
    ensures PixelIndex(1, 0 + 0, 1 + 1) >= 1 * 2
  {
  }

  /** With `>=` every pixel the loop writes lies on the screen. */
  lemma PngWritesOnScreen(width: nat, height: nat, posX: nat, posY: nat, i: nat, j: nat)
    requires !Outside(width, height, posX, posY)
    requires PngWrites(width, height, posX, posY, i, j)
    ensures !Outside(width, height, j + posX, i + posY)
    ensures PixelIndex(width, j + posX, i + posY) < width * height
  {
    InsideIffIndexOnScreen(width, height, j + posX, i + posY);
  }

  /** The corrected loop writes exactly the surface pixels that land on the screen. */
  lemma PngWritesIffOnScreen(width: nat, height: nat, posX: nat, posY: nat, i: nat, j: nat)
    ensures PngWrites(width, height, posX, posY, i, j) <==> !Outside(width, height, j + posX, i + posY)
  {
  }
}
