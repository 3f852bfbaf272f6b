/**
 * The drawer of gr_drawer.c: the framebuffer geometry it reads from the framebuffer manager,
 * the decoded font texture, the current colour, and the operations that write framebuffer
 * memory. Each method is proved to leave memory as a specification function over the old
 * contents describes; the lemmas state what those functions promise.
 */
module GrDrawer {
  import opened Common
  import opened GrPixel
  import opened GrBlend
  import opened GrFont

  /**
   * The framebuffer geometry: `fb_width`, `fb_height`, `bits_per_pixel`, `bytes_per_pixel`
   * and the manager's row length in bytes.
   */
  datatype Screen = Screen(width: nat, height: nat, bitsPerPixel: nat, bytesPerPixel: nat, rowBytes: nat)

  /** `struct gr_font`: glyph cell size and the size of its one-byte-per-pixel texture. */
  datatype Font = Font(cwidth: nat, cheight: nat, width: nat, height: nat)

  /**
   * A framebuffer as the manager maps it: 32-bit sizes, at most 32 bits per pixel, rows long
   * enough for a screen line, and `fbLen` bytes of memory, one row per screen line.
   */
  predicate ScreenValid(s: Screen, fbLen: nat)
  {
    s.width < TwoTo32 && s.height < TwoTo32 && s.bitsPerPixel <= 32
    && s.bytesPerPixel == BytesPerPixel(s.bitsPerPixel)
    && s.rowBytes >= s.bytesPerPixel * s.width && fbLen == s.rowBytes * s.height
  }

  /**
   * What the glyph loop relies on: `text_blend` writes 4 bytes per pixel, the texture holds
   * the 96 glyphs side by side (a bold set below them when it is taller than one glyph), and a
   * glyph box next to an on-screen position does not wrap around 32 bits.
   */
  predicate TextLayout(s: Screen, f: Font, fbLen: nat, fontLen: nat)
  {
    ScreenValid(s, fbLen) && s.bytesPerPixel == 4
    && fontLen == f.width * f.height && 96 * f.cwidth <= f.width && f.cheight <= f.height
    && (f.height == f.cheight || 2 * f.cheight <= f.height)
    && s.width + f.cwidth <= TwoTo32 && s.height + f.cheight <= TwoTo32
  }

  // ---------------------------------------------------------------------------------------
  // The fill pattern

  /** The pixel `fill_screen` writes: the current red, green and blue with alpha 0. */
  function FillPixel(format: PixelFormat, col: Color): (p: nat)
    requires ValidFormat(format)
    ensures p < TwoTo32
  {
    MakePixel(col.r as bv8, col.g as bv8, col.b as bv8, 0, format) as nat
  }

  /** Bytes `fill_screen` writes for every pixel. */
  function FillPattern(s: Screen, format: PixelFormat, col: Color): (p: seq<Byte>)
    requires ValidFormat(format) && s.bitsPerPixel <= 32
    ensures |p| == BytesPerPixel(s.bitsPerPixel)
  {
    PixelBytes(FillPixel(format, col), s.bitsPerPixel)
  }

  /** The filled region, one pixel after another, takes no more memory than the framebuffer has. */
  lemma FillFits(s: Screen, fbLen: nat)
    requires ScreenValid(s, fbLen)
    ensures (s.width * s.height) * s.bytesPerPixel <= fbLen
  {
    MulLeq(s.bytesPerPixel * s.width, s.rowBytes, s.height);
    assert (s.width * s.height) * s.bytesPerPixel == (s.bytesPerPixel * s.width) * s.height;
  }

  /** Pixel `i * w + j` of the fill lies inside the filled region. */
  lemma PixelInFill(i: nat, j: nat, w: nat, h: nat, L: nat, len: nat)
    requires i < h && j < w && (w * h) * L <= len
    ensures (i * w + j) * L + L <= len
  {
    MulAdd(i, 1, w);
    MulLeq(i + 1, h, w);
    assert h * w == w * h;
    MulAdd(i * w + j, 1, L);
    MulLeq(i * w + j + 1, w * h, L);
  }

  /**
   * `n` copies of `pattern` lead `mem`, and the bytes after them are those of `orig`.
   */
  ghost predicate Filled(mem: seq<Byte>, orig: seq<Byte>, pattern: seq<Byte>, n: nat)
  {
    |mem| == |orig| && n * |pattern| <= |mem|
    && mem[..n * |pattern|] == Repeat(pattern, n) && mem[n * |pattern|..] == orig[n * |pattern|..]
  }

  /** One pixel of the fill: the written prefix, `done` bytes long, grows by one copy of the pattern. */
  lemma FillStep(pre: seq<Byte>, post: seq<Byte>, orig: seq<Byte>, pattern: seq<Byte>, n: nat, done: nat)
    requires |pre| == |orig| && done + |pattern| <= |pre|
    requires pre[..done] == Repeat(pattern, n)
    requires pre[done..] == orig[done..]
    requires post == pre[..done] + pattern + pre[done + |pattern|..]
    ensures post[..done + |pattern|] == Repeat(pattern, n + 1)
    ensures post[done + |pattern|..] == orig[done + |pattern|..]
  {
    assert post[..done + |pattern|] == pre[..done] + pattern;
    assert post[done + |pattern|..] == pre[done + |pattern|..];
    assert pre[done + |pattern|..] == pre[done..][|pattern|..];
    assert orig[done + |pattern|..] == orig[done..][|pattern|..];
  }

  // ---------------------------------------------------------------------------------------
  // The glyph loop of draw_text

  /** Where the glyph loop stands: memory so far, the next `pos_x`, and whether it gave up. */
  datatype TextState = TextState(fb: seq<Byte>, x: nat, failed: bool)

  /** `off = c - 32` in `uint32_t`: only the 96 characters from ' ' to DEL have a glyph. */
  function GlyphOffset(c: Byte): nat
  {
    U32(c as int - 32)
  }

  lemma GlyphOffsetPrintable(c: Byte)
    ensures GlyphOffset(c) < 96 <==> 32 <= c < 128
    ensures GlyphOffset(c) < 96 ==> GlyphOffset(c) == c as nat - 32
  {
  }

  /** The bounds test of a glyph: its top-left or bottom-right corner is off screen (`uint32_t` sums). */
  predicate GlyphOutside(s: Screen, f: Font, x: nat, y: nat)
  {
    Outside(s.width, s.height, x, y)
    || Outside(s.width, s.height, U32(x + f.cwidth - 1), U32(y + f.cheight - 1))
  }

  /** Bold glyphs are drawn only when the texture holds more than one row of glyphs. */
  predicate Bold(f: Font, bold: bool)
  {
    bold && f.height != f.cheight
  }

  /** Offset of a glyph in the texture: its column, and the bold set one glyph height down. */
  function GlyphSource(f: Font, off: nat, bold: bool): nat
  {
    off * f.cwidth + (if Bold(f, bold) then f.cheight * f.width else 0)
  }

  /** Offset of screen position (x, y) in framebuffer memory. */
  function GlyphTarget(s: Screen, x: nat, y: nat): nat
  {
    y * s.rowBytes + x * s.bytesPerPixel
  }

  /** With a non-empty glyph cell, the bounds test passes exactly when the whole glyph box is on screen. */
  lemma GlyphOutsideIff(s: Screen, f: Font, fbLen: nat, fontLen: nat, x: nat, y: nat)
    requires TextLayout(s, f, fbLen, fontLen) && x < TwoTo32 && y < TwoTo32
    requires f.cwidth > 0 && f.cheight > 0
    ensures !GlyphOutside(s, f, x, y) <==> x + f.cwidth <= s.width && y + f.cheight <= s.height
  {
  }

  /** A glyph that passes the bounds test reads inside the texture. */
  lemma GlyphSourceFits(f: Font, fontLen: nat, off: nat, bold: bool)
    requires fontLen == f.width * f.height && 96 * f.cwidth <= f.width && f.cheight <= f.height
    requires f.height == f.cheight || 2 * f.cheight <= f.height
    requires off < 96 && f.cheight > 0
    ensures GlyphSource(f, off, bold) + (f.cheight - 1) * f.width + f.cwidth <= fontLen
  {
    MulLeq(off + 1, 96, f.cwidth);
    assert off * f.cwidth + f.cwidth <= f.width;
    var rows := if Bold(f, bold) then 2 * f.cheight else f.cheight;
    assert GlyphSource(f, off, bold) + (f.cheight - 1) * f.width + f.cwidth <= rows * f.width;
    MulLeq(rows, f.height, f.width);
  }

  /** A glyph that passes the bounds test writes inside framebuffer memory. */
  lemma GlyphTargetFits(s: Screen, f: Font, fbLen: nat, fontLen: nat, x: nat, y: nat)
    requires TextLayout(s, f, fbLen, fontLen) && !GlyphOutside(s, f, x, y)
    requires f.cwidth > 0 && f.cheight > 0
    ensures RowFits(fbLen, RowStart(GlyphTarget(s, x, y), s.rowBytes, f.cheight - 1), f.cwidth)
  {
    var last := y + f.cheight - 1;
    assert x + f.cwidth <= s.width && last < s.height;
    MulAdd(y, f.cheight - 1, s.rowBytes);
    assert RowStart(GlyphTarget(s, x, y), s.rowBytes, f.cheight - 1) == last * s.rowBytes + 4 * x;
    MulAdd(last, 1, s.rowBytes);
    MulLeq(last + 1, s.height, s.rowBytes);
  }

  lemma GlyphRegionFits(s: Screen, f: Font, fbLen: nat, fontLen: nat, x: nat, y: nat, off: nat, bold: bool)
    requires TextLayout(s, f, fbLen, fontLen) && !GlyphOutside(s, f, x, y) && off < 96
    ensures RegionFits(fbLen, fontLen, GlyphSource(f, off, bold), f.width, GlyphTarget(s, x, y), s.rowBytes, f.cwidth, f.cheight)
  {
    if f.cheight > 0 {
      GlyphSourceFits(f, fontLen, off, bold);
      if f.cwidth > 0 {
        GlyphTargetFits(s, f, fbLen, fontLen, x, y);
      }
    }
  }

  /**
   * One pass of the glyph loop at `pos_x == x`: give up if the glyph box is off screen;
   * otherwise blend the character's glyph, if it has one, and advance by one cell.
   */
  function DrawGlyph(s: Screen, f: Font, font: seq<Byte>, col: Color, fb: seq<Byte>, x: nat, y: nat, c: Byte, bold: bool)
    : (r: TextState)
    requires TextLayout(s, f, |fb|, |font|)
    ensures |r.fb| == |fb|
  {
    if GlyphOutside(s, f, x, y) then TextState(fb, x, true)
    else
      var off := GlyphOffset(c);
      var fb' := if off < 96 then
          GlyphRegionFits(s, f, |fb|, |font|, x, y, off, bold);
          BlendRegion(fb, font, GlyphSource(f, off, bold), f.width, GlyphTarget(s, x, y), s.rowBytes, f.cwidth, f.cheight, col)
        else fb;
      TextState(fb', U32(x + f.cwidth), false)
  }

  /** The glyph loop over `text`, character by character, stopping at the first glyph off screen. */
  function DrawGlyphs(s: Screen, f: Font, font: seq<Byte>, col: Color, fb: seq<Byte>, x: nat, y: nat, text: seq<Byte>, bold: bool)
    : (r: TextState)
    requires TextLayout(s, f, |fb|, |font|)
    ensures |r.fb| == |fb|
    decreases |text|
  {
    if |text| == 0 then TextState(fb, x, false)
    else
      var r := DrawGlyphs(s, f, font, col, fb, x, y, text[..|text| - 1], bold);
      if r.failed then r else DrawGlyph(s, f, font, col, r.fb, r.x, y, text[|text| - 1], bold)
  }

  /** The loop over one more character: one more pass, unless it has already given up. */
  lemma DrawGlyphsStep(s: Screen, f: Font, font: seq<Byte>, col: Color, fb: seq<Byte>, x: nat, y: nat,
                       text: seq<Byte>, bold: bool, i: nat)
    requires TextLayout(s, f, |fb|, |font|) && i < |text|
    ensures var r := DrawGlyphs(s, f, font, col, fb, x, y, text[..i], bold);
      DrawGlyphs(s, f, font, col, fb, x, y, text[..i + 1], bold)
      == if r.failed then r else DrawGlyph(s, f, font, col, r.fb, r.x, y, text[i], bold)
  {
    assert text[..i + 1][..i] == text[..i];
  }

  /** Once the loop has given up, later characters change nothing. */
  lemma {:induction false} FailureSticks(s: Screen, f: Font, font: seq<Byte>, col: Color, fb: seq<Byte>, x: nat, y: nat,
                                        text: seq<Byte>, bold: bool, n: nat)
    requires TextLayout(s, f, |fb|, |font|) && n <= |text|
    requires DrawGlyphs(s, f, font, col, fb, x, y, text[..n], bold).failed
    ensures DrawGlyphs(s, f, font, col, fb, x, y, text, bold) == DrawGlyphs(s, f, font, col, fb, x, y, text[..n], bold)
    decreases |text|
  {
    if n < |text| {
      assert text[..|text| - 1][..n] == text[..n];
      FailureSticks(s, f, font, col, fb, x, y, text[..|text| - 1], bold, n);
    } else {
      assert text[..n] == text;
    }
  }

  /**
   * With a non-empty glyph cell, `draw_text` returns -1 exactly when the text does not fit:
   * its last glyph would end past the right edge, or the line past the bottom. When it
   * succeeds, `pos_x` has advanced by one cell per character.
   */
  lemma {:induction false} DrawTextFailsIff(s: Screen, f: Font, font: seq<Byte>, col: Color, fb: seq<Byte>, x: nat, y: nat,
                                            text: seq<Byte>, bold: bool)
    requires TextLayout(s, f, |fb|, |font|) && x < TwoTo32 && y < TwoTo32
    requires f.cwidth > 0 && f.cheight > 0
    ensures DrawGlyphs(s, f, font, col, fb, x, y, text, bold).failed
      <==> |text| > 0 && !(x + |text| * f.cwidth <= s.width && y + f.cheight <= s.height)
    ensures !DrawGlyphs(s, f, font, col, fb, x, y, text, bold).failed
      ==> DrawGlyphs(s, f, font, col, fb, x, y, text, bold).x == x + |text| * f.cwidth
    decreases |text|
  {
    if |text| > 0 {
      var n := |text| - 1;
      DrawTextFailsIff(s, f, font, col, fb, x, y, text[..n], bold);
      MulAdd(n, 1, f.cwidth);
      var r := DrawGlyphs(s, f, font, col, fb, x, y, text[..n], bold);
      if !r.failed {
        GlyphOutsideIff(s, f, |fb|, |font|, r.x, y);
      }
    }
  }

  // ---------------------------------------------------------------------------------------
  // The drawer

  class Drawer {
    const screen: Screen
    const format: PixelFormat
    /** The framebuffer memory `fb_manager->fbmem`. */
    const fbmem: array<Byte>
    const font: Font
    /** The font texture's pixels, one byte each; written once by `init`, read-only afterwards. */
    const fontBits: seq<Byte>
    /** `gr_current_r/g/b/a`. */
    var color: Color

    predicate Valid()
    {
      ScreenValid(screen, fbmem.Length) && ValidFormat(format)
      && |fontBits| == font.width * font.height
    }

    /**
     * `init`: takes the geometry from the framebuffer manager, derives `bytes_per_pixel`, and
     * decodes the run-length font data into a fresh texture of `font.width * font.height`
     * bytes. The run data must end with a zero byte and must fit the texture.
     */
    constructor Init(width: nat, height: nat, bitsPerPixel: nat, rowBytes: nat, format: PixelFormat, fbmem: array<Byte>,
                     font: Font, rundata: seq<Byte>)
      requires width < TwoTo32 && height < TwoTo32 && bitsPerPixel <= 32 && ValidFormat(format)
      requires rowBytes >= BytesPerPixel(bitsPerPixel) * width && fbmem.Length == rowBytes * height
      requires 0 in rundata && RunsTotal(rundata) <= font.width * font.height
      ensures Valid()
      ensures screen == Screen(width, height, bitsPerPixel, BytesPerPixel(bitsPerPixel), rowBytes)
      ensures this.format == format && this.fbmem == fbmem && this.font == font
      ensures color == Color(255, 255, 255, 255)
      ensures fontBits[..RunsTotal(rundata)] == Decode(rundata)
    {
      screen := Screen(width, height, bitsPerPixel, BytesPerPixel(bitsPerPixel), rowBytes);
      this.format := format;
      this.fbmem := fbmem;
      this.font := font;
      var bits := new Byte[font.width * font.height](_ => 0);
      DecodeRuns(bits, rundata);
      fontBits := bits[..];
      color := Color(255, 255, 255, 255);
    }

    /** `set_color`: the current colour becomes the four given components. */
    method SetColor(r: Byte, g: Byte, b: Byte, a: Byte)
      modifies this
      ensures color == Color(r, g, b, a)
    {
      color := Color(r, g, b, a);
    }

    /** The byte loop of `fill_screen`: pixel `pos` gets the bytes of `pixel`, nothing else changes. */
    method WritePixel(pos: nat, pixel: nat)
      requires screen.bitsPerPixel <= 32 && screen.bytesPerPixel == BytesPerPixel(screen.bitsPerPixel)
      requires pos * screen.bytesPerPixel + screen.bytesPerPixel <= fbmem.Length
      modifies fbmem
      ensures fbmem[..] == old(fbmem[..pos * screen.bytesPerPixel]) + PixelBytes(pixel, screen.bitsPerPixel)
                           + old(fbmem[pos * screen.bytesPerPixel + screen.bytesPerPixel..])
    {
      var L, bits := screen.bytesPerPixel, screen.bitsPerPixel;
      var base := pos * L;
      ghost var bytes := PixelBytes(pixel, bits);
      var x := 0;
      while x < L
        invariant x <= L
        invariant forall k | 0 <= k < fbmem.Length :: fbmem[k] == if base <= k < base + x then bytes[k - base] else old(fbmem[k])
      {
        fbmem[base + x] := PixelByte(pixel, bits, x);
        x := x + 1;
      }
      ghost var want := old(fbmem[..base]) + bytes + old(fbmem[base + L..]);
      assert fbmem[..] == want by {
        forall k | 0 <= k < fbmem.Length
          ensures fbmem[k] == want[k]
        {
          if k < base {
            assert want[k] == old(fbmem[k]);
          } else if k < base + L {
            assert want[k] == bytes[k - base];
          } else {
            assert want[k] == old(fbmem[k]);
          }
        }
      }
    }

    /** One pixel of the fill: with `n` copies of the pattern written, pixel `n` makes them `n + 1`. */
    method FillNext(n: nat, pixel: nat, ghost pattern: seq<Byte>, ghost orig: seq<Byte>)
      requires screen.bitsPerPixel <= 32 && screen.bytesPerPixel == BytesPerPixel(screen.bitsPerPixel)
      requires pattern == PixelBytes(pixel, screen.bitsPerPixel)
      requires n * screen.bytesPerPixel + screen.bytesPerPixel <= fbmem.Length
      requires Filled(fbmem[..], orig, pattern, n)
      modifies fbmem
      ensures Filled(fbmem[..], orig, pattern, n + 1)
    {
      ghost var pre := fbmem[..];
      WritePixel(n, pixel);
      FillStep(pre, fbmem[..], orig, pattern, n, n * screen.bytesPerPixel);
      MulAdd(n, 1, screen.bytesPerPixel);
    }

    /** Line `i` of `fill_screen`: its `fb_width` pixels, left to right, get the fill pattern. */
    method FillRow(i: nat, pixel: nat, ghost pattern: seq<Byte>, ghost orig: seq<Byte>)
      requires screen.bitsPerPixel <= 32 && screen.bytesPerPixel == BytesPerPixel(screen.bitsPerPixel)
      requires pattern == PixelBytes(pixel, screen.bitsPerPixel)
      requires i < screen.height && (screen.width * screen.height) * screen.bytesPerPixel <= fbmem.Length
      requires Filled(fbmem[..], orig, pattern, i * screen.width)
      modifies fbmem
      ensures Filled(fbmem[..], orig, pattern, i * screen.width + screen.width)
    {
      var w, h, L := screen.width, screen.height, screen.bytesPerPixel;
      var j := 0;
      while j < w
        invariant j <= w
        invariant Filled(fbmem[..], orig, pattern, i * w + j)
      {
        var pos := i * w + j;
        PixelInFill(i, j, w, h, L, fbmem.Length);
        FillNext(pos, pixel, pattern, orig);
        j := j + 1;
      }
    }

    /**
     * `fill_screen`: every pixel index below `fb_width * fb_height` gets the pattern of the
     * current colour with alpha 0, `bytes_per_pixel` bytes each from the start of memory (the
     * row length is not used); the memory after it is left as it was.
     */
    method FillScreen()
      requires Valid()
      modifies fbmem
      ensures Filled(fbmem[..], old(fbmem[..]), FillPattern(screen, format, color), screen.width * screen.height)
    {
      var pixel := FillPixel(format, color);
      ghost var pattern := FillPattern(screen, format, color);
      ghost var orig := fbmem[..];
      var w, h := screen.width, screen.height;
      FillFits(screen, fbmem.Length);
      ghost var n: nat := 0;
      var i := 0;
      while i < h
        invariant i <= h && n == i * w
        invariant Filled(fbmem[..], orig, pattern, n)
      {
        FillRow(i, pixel, pattern, orig);
        MulAdd(i, 1, w);
        n := n + w;
        i := i + 1;
      }
      assert n == w * h by {
        assert h * w == w * h;
      }
    }

    /**
     * The body of `text_blend`'s pixel loop: coverage 255 paints the current red, green and
     * blue over bytes 0 to 2, partial coverage mixes them in, and zero coverage skips the pixel.
     */
    method BlendPixelBytes(px: nat, a: Byte)
      requires px + 3 <= fbmem.Length
      modifies fbmem
      ensures fbmem[..] == BlendPixel(old(fbmem[..]), px, a, color)
    {
      if a == 255 {
        fbmem[px] := color.r;
        fbmem[px + 1] := color.g;
        fbmem[px + 2] := color.b;
      } else if a > 0 {
        fbmem[px] := BlendByte(fbmem[px], color.r, a);
        fbmem[px + 1] := BlendByte(fbmem[px + 1], color.g, a);
        fbmem[px + 2] := BlendByte(fbmem[px + 2], color.b, a);
      }
    }

    /** One row of `text_blend`: `w` samples from `sp` blended into the pixels from `dp`, left to right. */
    method BlendRowPixels(sp: nat, dp: nat, w: nat)
      requires sp + w <= |fontBits| && RowFits(fbmem.Length, dp, w)
      modifies fbmem
      ensures fbmem[..] == BlendRow(old(fbmem[..]), fontBits, sp, dp, w, color)
    {
      var sx: nat, px: nat := sp, dp;
      var i: nat := 0;
      while i < w
        invariant i <= w && sx == sp + i && px == dp + 4 * i
        invariant fbmem[..] == BlendRow(old(fbmem[..]), fontBits, sp, dp, i, color)
      {
        var a := Coverage(fontBits[sx], color.a);
        sx := sx + 1;
        BlendPixelBytes(px, a);
        px := px + 4;
        i := i + 1;
      }
    }

    /**
     * `text_blend`: `h` rows of `w` coverage samples from the texture, starting at `sp` and
     * `srb` bytes apart, blended in the current colour into the 4-byte pixels starting at `dp`,
     * rows `drb` bytes apart.
     */
    method TextBlend(sp: nat, srb: nat, dp: nat, drb: nat, w: nat, h: nat)
      requires RegionFits(fbmem.Length, |fontBits|, sp, srb, dp, drb, w, h)
      modifies fbmem
      ensures fbmem[..] == BlendRegion(old(fbmem[..]), fontBits, sp, srb, dp, drb, w, h, color)
    {
      var srcP: nat, dstP: nat := sp, dp;
      var j: nat := 0;
      while j < h
        invariant j <= h && RegionFits(fbmem.Length, |fontBits|, sp, srb, dp, drb, w, j)
        invariant srcP == sp + j * srb && dstP == RowStart(dp, drb, j)
        invariant fbmem[..] == BlendRegion(old(fbmem[..]), fontBits, sp, srb, dp, drb, w, j, color)
      {
        RegionFitsRow(fbmem.Length, |fontBits|, sp, srb, dp, drb, w, h, j);
        BlendRowPixels(srcP, dstP, w);
        BlendRegionStep(old(fbmem[..]), fontBits, sp, srb, dp, drb, w, j, color);
        MulAdd(j, 1, srb);
        MulAdd(j, 1, drb);
        srcP, dstP := srcP + srb, dstP + drb;
        j := j + 1;
      }
    }

    /**
     * One pass of `draw_text`'s glyph loop at `pos_x == x`: false when the glyph box is off
     * screen, otherwise the character's glyph, if it has one, is blended in.
     */
    method DrawGlyphAt(x: nat, y: nat, c: Byte, bold: bool) returns (drawn: bool)
      requires TextLayout(screen, font, fbmem.Length, |fontBits|)
      modifies fbmem
      ensures DrawGlyph(screen, font, fontBits, color, old(fbmem[..]), x, y, c, bold)
              == TextState(fbmem[..], if drawn then U32(x + font.cwidth) else x, !drawn)
    {
      if Outside(screen.width, screen.height, x, y)
         || Outside(screen.width, screen.height, U32(x + font.cwidth - 1), U32(y + font.cheight - 1)) {
        return false;
      }
      var off := U32(c as int - 32);
      if off < 96 {
        GlyphRegionFits(screen, font, fbmem.Length, |fontBits|, x, y, off, bold);
        TextBlend(GlyphSource(font, off, bold), font.width, GlyphTarget(screen, x, y), screen.rowBytes,
                  font.cwidth, font.cheight);
      }
      return true;
    }

    /** One turn of the glyph loop: character `i` is drawn at `x` after the glyphs before it. */
    method DrawNextGlyph(ghost fb0: seq<Byte>, posX: nat, posY: nat, text: seq<Byte>, bold: bool, i: nat, x: nat)
      returns (drawn: bool, x': nat)
      requires TextLayout(screen, font, fbmem.Length, |fontBits|) && |fb0| == fbmem.Length && i < |text| && x < TwoTo32
      requires DrawGlyphs(screen, font, fontBits, color, fb0, posX, posY, text[..i], bold) == TextState(fbmem[..], x, false)
      modifies fbmem
      ensures x' < TwoTo32 && DrawGlyphs(screen, font, fontBits, color, fb0, posX, posY, text[..i + 1], bold)
              == TextState(fbmem[..], x', !drawn)
      ensures !drawn ==> DrawGlyphs(screen, font, fontBits, color, fb0, posX, posY, text, bold) == TextState(fbmem[..], x', true)
    {
      ghost var pre := fbmem[..];
      DrawGlyphsStep(screen, font, fontBits, color, fb0, posX, posY, text, bold, i);
      assert DrawGlyphs(screen, font, fontBits, color, fb0, posX, posY, text[..i + 1], bold)
             == DrawGlyph(screen, font, fontBits, color, pre, x, posY, text[i], bold);
      drawn := DrawGlyphAt(x, posY, text[i], bold);
      x' := if drawn then U32(x + font.cwidth) else x;
      if !drawn {
        FailureSticks(screen, font, fontBits, color, fb0, posX, posY, text, bold, i + 1);
      }
    }

    /**
     * The glyph loop of `draw_text` on a string of non-zero characters: returns -1 as soon as a
     * glyph box is off screen, having drawn the glyphs before it, and 0 otherwise.
     */
    method DrawText(posX: nat, posY: nat, text: seq<Byte>, bold: bool) returns (rc: int)
      requires TextLayout(screen, font, fbmem.Length, |fontBits|)
      requires posX < TwoTo32 && posY < TwoTo32 && 0 !in text
      modifies fbmem
      ensures rc == (if DrawGlyphs(screen, font, fontBits, color, old(fbmem[..]), posX, posY, text, bold).failed then -1 else 0)
      ensures fbmem[..] == DrawGlyphs(screen, font, fontBits, color, old(fbmem[..]), posX, posY, text, bold).fb
    {
      ghost var fb0 := fbmem[..];
      assert TextLayout(screen, font, |fb0|, |fontBits|);
      var x: nat := posX;
      var i := 0;
      while i < |text|
        invariant i <= |text| && x < TwoTo32
        invariant DrawGlyphs(screen, font, fontBits, color, fb0, posX, posY, text[..i], bold) == TextState(fbmem[..], x, false)
      {
        var drawn, x' := DrawNextGlyph(fb0, posX, posY, text, bold, i, x);
        if !drawn {
          return -1;
        }
        x := x';
        i := i + 1;
      }
      assert text[..i] == text;
      rc := 0;
    }
  }

  /** Row `j` of a region that fits is itself inside both buffers. */
  lemma RegionFitsRow(lenD: nat, lenS: nat, sp: nat, srb: nat, dp: nat, drb: nat, w: nat, h: nat, j: nat)
    requires RegionFits(lenD, lenS, sp, srb, dp, drb, w, h) && j < h
    ensures sp + j * srb + w <= lenS && RowFits(lenD, RowStart(dp, drb, j), w)
    ensures RegionFits(lenD, lenS, sp, srb, dp, drb, w, j + 1)
  {
    MulLeq(j, h - 1, srb);
    MulLeq(j, h - 1, drb);
  }

  /** The region of `j + 1` rows is the region of `j` rows followed by row `j`. */
  lemma BlendRegionStep(d: seq<Byte>, src: seq<Byte>, sp: nat, srb: nat, dp: nat, drb: nat, w: nat, j: nat, col: Color)
    requires RegionFits(|d|, |src|, sp, srb, dp, drb, w, j + 1)
    ensures RegionFits(|d|, |src|, sp, srb, dp, drb, w, j)
    ensures sp + j * srb + w <= |src| && RowFits(|d|, RowStart(dp, drb, j), w)
    ensures BlendRegion(d, src, sp, srb, dp, drb, w, j + 1, col)
            == BlendRow(BlendRegion(d, src, sp, srb, dp, drb, w, j, col), src, sp + j * srb, RowStart(dp, drb, j), w, col)
  {
    RegionFitsShrink(|d|, |src|, sp, srb, dp, drb, w, j + 1);
  }
}
