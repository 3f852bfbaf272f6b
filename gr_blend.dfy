/**
 * Glyph blending of gr_drawer.c's `text_blend`: an 8-bit coverage map is blended into
 * 4-byte framebuffer pixels in the current colour. The functions here state what the
 * blend does to every byte; the drawer's `TextBlend` method is proved to compute
 * `BlendRegion`.
 */
module GrBlend {
  import opened Common

  /** The current drawing colour, `gr_current_r/g/b/a`. */
  datatype Color = Color(r: Byte, g: Byte, b: Byte, a: Byte)

  /** The colour byte `text_blend` writes at byte `k` of a pixel: red, green, blue. */
  function ColorByte(col: Color, k: nat): Byte
    requires k < 3
  {
    if k == 0 then col.r else if k == 1 then col.g else col.b
  }

  /**
   * The coverage of one glyph sample: when the current alpha is below 255 the sample is
   * scaled by it, `a * gr_current_a / 255`. The result never exceeds either factor.
   */
  function Coverage(src: Byte, curA: Byte): (a: Byte)
    ensures a <= src && a <= curA
    ensures curA == 255 ==> a == src
  {
    if curA < 255 then
      ScaleBound(src as nat, curA as nat);
      (src as int * curA as int / 255) as Byte
    else
      src
  }

  lemma ScaleBound(x: nat, y: nat)
    requires x <= 255 && y <= 255
    ensures x * y / 255 <= x && x * y / 255 <= y
  {
    MulLeq(y, 255, x);
    MulLeq(x, 255, y);
  }

  /** A full sample keeps the current alpha; an empty sample or a transparent colour gives no coverage. */
  lemma CoverageExtremes(src: Byte, curA: Byte)
    ensures src == 255 ==> Coverage(src, curA) == curA
    ensures src == 0 || curA == 0 ==> Coverage(src, curA) == 0
  {
  }

  /** One partially covered byte: `(*px * (255 - a) + cur * a) / 255`, which always fits a byte. */
  function BlendByte(was: Byte, cur: Byte, a: Byte): (r: Byte)
    requires 0 < a < 255
    ensures was <= cur ==> was <= r <= cur
    ensures cur <= was ==> cur <= r <= was
  {
    var lo, hi := if was <= cur then was else cur, if was <= cur then cur else was;
    MixBounds(was as nat, cur as nat, a as nat, lo as nat, hi as nat);
    ((was as int * (255 - a as int) + cur as int * a as int) / 255) as Byte
  }

  lemma MixBounds(was: nat, cur: nat, a: nat, lo: nat, hi: nat)
    requires a <= 255 && lo <= was <= hi && lo <= cur <= hi
    ensures 255 * lo <= was * (255 - a) + cur * a <= 255 * hi
    ensures lo <= (was * (255 - a) + cur * a) / 255 <= hi
  {
    MulLeq(lo, was, 255 - a);
    MulLeq(was, hi, 255 - a);
    MulLeq(lo, cur, a);
    MulLeq(cur, hi, a);
  }

  /**
   * What blending leaves at byte `k` (0 to 3) of a pixel that held `was`, under coverage `a`:
   * byte 3 and uncovered pixels keep their value, full coverage paints the colour, partial
   * coverage mixes.
   */
  function BlendedByte(was: Byte, k: nat, a: Byte, col: Color): Byte
    requires k < 4
  {
    if k == 3 || a == 0 then was
    else if a == 255 then ColorByte(col, k)
    else BlendByte(was, ColorByte(col, k), a)
  }

  /** The per-pixel step of `text_blend`, in the order the C writes the bytes. */
  function BlendPixel(d: seq<Byte>, p: nat, a: Byte, col: Color): (r: seq<Byte>)
    requires p + 3 <= |d|
    ensures |r| == |d|
  {
    if a == 255 then
      d[p := col.r][p + 1 := col.g][p + 2 := col.b]
    else if a > 0 then
      d[p := BlendByte(d[p], col.r, a)][p + 1 := BlendByte(d[p + 1], col.g, a)][p + 2 := BlendByte(d[p + 2], col.b, a)]
    else
      d
  }

  /** Every byte after one pixel step: the pixel's four bytes are blended, all others kept. */
  lemma BlendPixelAt(d: seq<Byte>, p: nat, a: Byte, col: Color, k: nat)
    requires p + 3 <= |d| && k < |d|
    ensures BlendPixel(d, p, a, col)[k] == if p <= k < p + 4 then BlendedByte(d[k], k - p, a, col) else d[k]
  {
  }

  /** The pixels `text_blend` touches in one row stay inside the buffer (the 4th byte of the last one is not touched). */
  predicate RowFits(len: nat, p: nat, w: nat)
  {
    w == 0 || p + 4 * w - 1 <= len
  }

  /** One row of `text_blend`: `w` samples from `src[sp..]` blended into the pixels from byte `dp`, left to right. */
  function BlendRow(d: seq<Byte>, src: seq<Byte>, sp: nat, dp: nat, w: nat, col: Color): (r: seq<Byte>)
    requires sp + w <= |src| && RowFits(|d|, dp, w)
    ensures |r| == |d|
    decreases w
  {
    if w == 0 then d
    else
      BlendPixel(BlendRow(d, src, sp, dp, w - 1, col), dp + 4 * (w - 1), Coverage(src[sp + w - 1], col.a), col)
  }

  /** Every byte after a row: bytes of the row's pixels are blended with their own sample, others kept. */
  lemma {:induction false} BlendRowAt(d: seq<Byte>, src: seq<Byte>, sp: nat, dp: nat, w: nat, col: Color, k: nat)
    requires sp + w <= |src| && RowFits(|d|, dp, w) && k < |d|
    ensures BlendRow(d, src, sp, dp, w, col)[k]
      == if dp <= k < dp + 4 * w then BlendedByte(d[k], (k - dp) % 4, Coverage(src[sp + (k - dp) / 4], col.a), col) else d[k]
  {
    if w > 0 {
      var prev := BlendRow(d, src, sp, dp, w - 1, col);
      var p := dp + 4 * (w - 1);
      BlendPixelAt(prev, p, Coverage(src[sp + w - 1], col.a), col, k);
      BlendRowAt(d, src, sp, dp, w - 1, col, k);
      if p <= k < p + 4 {
        DivUnique(k - dp, 4, w - 1, k - p);
      }
    }
  }

  /** Row `j` of a region starts at byte `dp + j * drb`. */
  function RowStart(dp: nat, drb: nat, j: nat): nat
  {
    dp + j * drb
  }

  /** Byte `k` lies in the pixels row `j` of the region touches. */
  predicate InRow(k: nat, dp: nat, drb: nat, w: nat, j: nat)
  {
    RowStart(dp, drb, j) <= k < RowStart(dp, drb, j) + 4 * w
  }

  /** Every row of the region, and every row of samples, stays inside its buffer. */
  predicate RegionFits(lenD: nat, lenS: nat, sp: nat, srb: nat, dp: nat, drb: nat, w: nat, h: nat)
  {
    h == 0 || (sp + (h - 1) * srb + w <= lenS && RowFits(lenD, RowStart(dp, drb, h - 1), w))
  }

  lemma RegionFitsShrink(lenD: nat, lenS: nat, sp: nat, srb: nat, dp: nat, drb: nat, w: nat, h: nat)
    requires h > 0 && RegionFits(lenD, lenS, sp, srb, dp, drb, w, h)
    ensures RegionFits(lenD, lenS, sp, srb, dp, drb, w, h - 1)
  {
    if h > 1 {
      MulLeq(h - 2, h - 1, srb);
      MulLeq(h - 2, h - 1, drb);
    }
  }

  /** `text_blend`: `h` rows, source rows `srb` bytes apart and destination rows `drb` bytes apart, top to bottom. */
  function BlendRegion(d: seq<Byte>, src: seq<Byte>, sp: nat, srb: nat, dp: nat, drb: nat, w: nat, h: nat, col: Color): (r: seq<Byte>)
    requires RegionFits(|d|, |src|, sp, srb, dp, drb, w, h)
    ensures |r| == |d|
    decreases h
  {
    if h == 0 then d
    else
      RegionFitsShrink(|d|, |src|, sp, srb, dp, drb, w, h);
      BlendRow(BlendRegion(d, src, sp, srb, dp, drb, w, h - 1, col), src, sp + (h - 1) * srb, RowStart(dp, drb, h - 1), w, col)
  }

  /** A byte in none of the region's rows is left as it was. */
  lemma {:induction false} BlendRegionUnchanged(d: seq<Byte>, src: seq<Byte>, sp: nat, srb: nat, dp: nat, drb: nat, w: nat, h: nat, col: Color, k: nat)
    requires RegionFits(|d|, |src|, sp, srb, dp, drb, w, h) && k < |d|
    requires forall j :: 0 <= j < h ==> !InRow(k, dp, drb, w, j)
    ensures BlendRegion(d, src, sp, srb, dp, drb, w, h, col)[k] == d[k]
  {
    if h > 0 {
      assert !InRow(k, dp, drb, w, h - 1);
      LastRowMisses(d, src, sp, srb, dp, drb, w, h, col, k);
      BlendRegionUnchanged(d, src, sp, srb, dp, drb, w, h - 1, col, k);
    }
  }

  /** The last row leaves a byte outside it as the earlier rows left it. */
  lemma LastRowMisses(d: seq<Byte>, src: seq<Byte>, sp: nat, srb: nat, dp: nat, drb: nat, w: nat, h: nat, col: Color, k: nat)
    requires RegionFits(|d|, |src|, sp, srb, dp, drb, w, h) && k < |d|
    requires 0 < h && !InRow(k, dp, drb, w, h - 1)
    ensures RegionFits(|d|, |src|, sp, srb, dp, drb, w, h - 1)
    ensures BlendRegion(d, src, sp, srb, dp, drb, w, h, col)[k] == BlendRegion(d, src, sp, srb, dp, drb, w, h - 1, col)[k]
  {
    RegionFitsShrink(|d|, |src|, sp, srb, dp, drb, w, h);
    var prev := BlendRegion(d, src, sp, srb, dp, drb, w, h - 1, col);
    BlendRowAt(prev, src, sp + (h - 1) * srb, RowStart(dp, drb, h - 1), w, col, k);
  }

  /** When rows do not overlap, a byte of row `j` is in no other row. */
  lemma RowsApart(dp: nat, drb: nat, w: nat, j: nat, j2: nat, k: nat)
    requires 4 * w <= drb && j != j2 && InRow(k, dp, drb, w, j)
    ensures !InRow(k, dp, drb, w, j2)
  {
    if j < j2 {
      MulLeq(j + 1, j2, drb);
    } else {
      MulLeq(j2 + 1, j, drb);
    }
  }

  /**
   * Byte `c` of pixel `i` in row `j` ends up blended from its was value with sample `i` of
   * source row `j`, provided the destination rows do not overlap.
   */
  lemma {:induction false} BlendRegionAt(d: seq<Byte>, src: seq<Byte>, sp: nat, srb: nat, dp: nat, drb: nat, w: nat, h: nat, col: Color,
                                         j: nat, i: nat, c: nat)
    requires RegionFits(|d|, |src|, sp, srb, dp, drb, w, h) && 4 * w <= drb
    requires j < h && i < w && c < 4 && RowStart(dp, drb, j) + 4 * i + c < |d|
    ensures sp + j * srb + i < |src|
    ensures BlendRegion(d, src, sp, srb, dp, drb, w, h, col)[RowStart(dp, drb, j) + 4 * i + c]
      == BlendedByte(d[RowStart(dp, drb, j) + 4 * i + c], c, Coverage(src[sp + j * srb + i], col.a), col)
  {
    if j == h - 1 {
      BlendRegionAtLastRow(d, src, sp, srb, dp, drb, w, h, col, i, c);
    } else {
      RegionFitsShrink(|d|, |src|, sp, srb, dp, drb, w, h);
      BlendRegionAt(d, src, sp, srb, dp, drb, w, h - 1, col, j, i, c);
      BlendRegionAtEarlierRow(d, src, sp, srb, dp, drb, w, h, col, j, i, c);
    }
  }

  lemma BlendRegionAtLastRow(d: seq<Byte>, src: seq<Byte>, sp: nat, srb: nat, dp: nat, drb: nat, w: nat, h: nat, col: Color,
                             i: nat, c: nat)
    requires RegionFits(|d|, |src|, sp, srb, dp, drb, w, h) && 4 * w <= drb
    requires 0 < h && i < w && c < 4 && RowStart(dp, drb, h - 1) + 4 * i + c < |d|
    ensures BlendRegion(d, src, sp, srb, dp, drb, w, h, col)[RowStart(dp, drb, h - 1) + 4 * i + c]
      == BlendedByte(d[RowStart(dp, drb, h - 1) + 4 * i + c], c, Coverage(src[sp + (h - 1) * srb + i], col.a), col)
  {
    LastRowFromEarlier(d, src, sp, srb, dp, drb, w, h, col, i, c);
    LastRowUntouchedBefore(d, src, sp, srb, dp, drb, w, h, col, i, c);
  }

  /** The last row blends its bytes from what the earlier rows left there. */
  lemma LastRowFromEarlier(d: seq<Byte>, src: seq<Byte>, sp: nat, srb: nat, dp: nat, drb: nat, w: nat, h: nat, col: Color,
                           i: nat, c: nat)
    requires RegionFits(|d|, |src|, sp, srb, dp, drb, w, h)
    requires 0 < h && i < w && c < 4 && RowStart(dp, drb, h - 1) + 4 * i + c < |d|
    ensures RegionFits(|d|, |src|, sp, srb, dp, drb, w, h - 1)
    ensures BlendRegion(d, src, sp, srb, dp, drb, w, h, col)[RowStart(dp, drb, h - 1) + 4 * i + c]
      == BlendedByte(BlendRegion(d, src, sp, srb, dp, drb, w, h - 1, col)[RowStart(dp, drb, h - 1) + 4 * i + c], c,
                     Coverage(src[sp + (h - 1) * srb + i], col.a), col)
  {
    RegionFitsShrink(|d|, |src|, sp, srb, dp, drb, w, h);
    var prev := BlendRegion(d, src, sp, srb, dp, drb, w, h - 1, col);
    BlendRowAtPixel(prev, src, sp + (h - 1) * srb, RowStart(dp, drb, h - 1), w, col, i, c);
  }

  /** The rows before the last do not touch the last row's bytes. */
  lemma LastRowUntouchedBefore(d: seq<Byte>, src: seq<Byte>, sp: nat, srb: nat, dp: nat, drb: nat, w: nat, h: nat, col: Color,
                               i: nat, c: nat)
    requires RegionFits(|d|, |src|, sp, srb, dp, drb, w, h) && 4 * w <= drb
    requires 0 < h && i < w && c < 4 && RowStart(dp, drb, h - 1) + 4 * i + c < |d|
    ensures RegionFits(|d|, |src|, sp, srb, dp, drb, w, h - 1)
    ensures BlendRegion(d, src, sp, srb, dp, drb, w, h - 1, col)[RowStart(dp, drb, h - 1) + 4 * i + c]
      == d[RowStart(dp, drb, h - 1) + 4 * i + c]
  {
    RegionFitsShrink(|d|, |src|, sp, srb, dp, drb, w, h);
    var k := RowStart(dp, drb, h - 1) + 4 * i + c;
    EarlierRowsMiss(dp, drb, w, h - 1, k);
    BlendRegionUnchanged(d, src, sp, srb, dp, drb, w, h - 1, col, k);
  }

  /** Byte `c` of pixel `i` after a row, by pixel and byte position. */
  lemma BlendRowAtPixel(d: seq<Byte>, src: seq<Byte>, sp: nat, dp: nat, w: nat, col: Color, i: nat, c: nat)
    requires sp + w <= |src| && RowFits(|d|, dp, w) && i < w && c < 4 && dp + 4 * i + c < |d|
    ensures BlendRow(d, src, sp, dp, w, col)[dp + 4 * i + c]
      == BlendedByte(d[dp + 4 * i + c], c, Coverage(src[sp + i], col.a), col)
  {
    var k := dp + 4 * i + c;
    assert (k - dp) % 4 == c && (k - dp) / 4 == i;
    BlendRowAt(d, src, sp, dp, w, col, k);
  }

  /** A byte of row `n` is in none of the rows before it, when rows do not overlap. */
  lemma EarlierRowsMiss(dp: nat, drb: nat, w: nat, n: nat, k: nat)
    requires 4 * w <= drb && InRow(k, dp, drb, w, n)
    ensures forall j :: 0 <= j < n ==> !InRow(k, dp, drb, w, j)
  {
    forall j | 0 <= j < n
      ensures !InRow(k, dp, drb, w, j)
    {
      RowsApart(dp, drb, w, n, j, k);
    }
  }

  /** Row `h - 1` leaves the bytes of an earlier row as the earlier rows left them. */
  lemma BlendRegionAtEarlierRow(d: seq<Byte>, src: seq<Byte>, sp: nat, srb: nat, dp: nat, drb: nat, w: nat, h: nat, col: Color,
                                j: nat, i: nat, c: nat)
    requires RegionFits(|d|, |src|, sp, srb, dp, drb, w, h) && 4 * w <= drb
    requires j < h - 1 && i < w && c < 4 && RowStart(dp, drb, j) + 4 * i + c < |d|
    ensures RegionFits(|d|, |src|, sp, srb, dp, drb, w, h - 1)
    ensures BlendRegion(d, src, sp, srb, dp, drb, w, h, col)[RowStart(dp, drb, j) + 4 * i + c]
      == BlendRegion(d, src, sp, srb, dp, drb, w, h - 1, col)[RowStart(dp, drb, j) + 4 * i + c]
  {
    RegionFitsShrink(|d|, |src|, sp, srb, dp, drb, w, h);
    var k := RowStart(dp, drb, j) + 4 * i + c;
    assert InRow(k, dp, drb, w, j);
    RowsApart(dp, drb, w, j, h - 1, k);
    MulLeq(0, h - 1, srb);
    var prev := BlendRegion(d, src, sp, srb, dp, drb, w, h - 1, col);
    assert BlendRegion(d, src, sp, srb, dp, drb, w, h, col)
      == BlendRow(prev, src, sp + (h - 1) * srb, RowStart(dp, drb, h - 1), w, col);
    BlendRowMisses(prev, src, sp + (h - 1) * srb, RowStart(dp, drb, h - 1), w, col, k);
  }

  /** A byte outside a row's pixels is left as it was by the row. */
  lemma BlendRowMisses(d: seq<Byte>, src: seq<Byte>, sp: nat, dp: nat, w: nat, col: Color, k: nat)
    requires sp + w <= |src| && RowFits(|d|, dp, w) && k < |d| && !(dp <= k < dp + 4 * w)
    ensures BlendRow(d, src, sp, dp, w, col)[k] == d[k]
  {
    BlendRowAt(d, src, sp, dp, w, col, k);
  }
}
