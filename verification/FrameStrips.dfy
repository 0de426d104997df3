/** Frames as stacks of line-buffer strips. */
module FrameStrips {
  import opened Basics
  import opened SoftHelper
  import opened SoftDownsample
  import opened JpuDevice

  /** The first row of strip `k`. */
  function StripTop(k: nat): nat {
    LINEBUFFER_HEIGHT * k
  }

  /** How many rows of a frame of `height` rows strip `k` covers. */
  function StripRows(height: nat, k: nat): nat {
    if StripTop(k) < height then Min(height - StripTop(k), LINEBUFFER_HEIGHT) else 0
  }

  /** A strip's planes fill a line buffer. */
  lemma PlanesFit(lines: nat)
    requires lines <= LINEBUFFER_HEIGHT
    ensures RowAt(lines, LINEBUFFER_PITCH) <= LINEBUFFER_SIZE_Y
  {
    RowAtIsProduct(LINEBUFFER_HEIGHT, LINEBUFFER_PITCH);
    if lines < LINEBUFFER_HEIGHT {
      RowBelow(lines, LINEBUFFER_HEIGHT, LINEBUFFER_PITCH);
    }
  }

  /** Rows n..n + lines of a frame lie inside it. */
  lemma RowsFit(n: nat, lines: nat, height: nat, pitch: nat)
    requires n + lines <= height
    ensures RowAt(n + lines, pitch) == RowAt(n, pitch) + RowAt(lines, pitch) <= RowAt(height, pitch)
  {
    RowAtSum(n, lines, pitch);
    if n + lines < height {
      RowBelow(n + lines, height, pitch);
    }
  }

  // ------------------------------------------------- decoding: strips to frame

  /** Pixel (`x`, `r`) of the picture the unit decodes, `r` counted over all strips. */
  function ImagePixel(image: seq<LineBuffer>, mode420: bool, r: nat, x: nat): Pixel {
    var k := r / LINEBUFFER_HEIGHT;
    if k < |image| then PlanarAt(image[k], 0, LINEBUFFER_SIZE_Y, mode420, r % LINEBUFFER_HEIGHT, x)
    else Pixel(0, 0, 0)
  }

  /**
   * Where the unit leaves row `r` of the picture: in row r modulo 1024 of strip r / 1024, a
   * plane of luma rows of 4096 bytes each, and 4 MiB behind that a plane of chroma pairs, of
   * which every two rows share one in the 4:2:0 layout.
   */
  lemma ImageBytes(image: seq<LineBuffer>, mode420: bool, r: nat, x: nat)
    requires r / 1024 < |image|
    ensures var (lb, y) := (image[r / 1024], r % 1024);
            var (luma, pair) := (4096 * y + x, 0x40_0000 + 4096 * (if mode420 then y / 2 else y) + 2 * (x / 2));
            ImagePixel(image, mode420, r, x) == Pixel(At(lb, luma), At(lb, pair), At(lb, pair + 1))
  {
    RowAtIsProduct(r % 1024, 4096);
    RowAtIsProduct(r % 1024 / 2, 4096);
    assert x - x % 2 == 2 * (x / 2);
  }

  /** The first `rows` rows of the frame are the first rows of the picture. */
  ghost predicate FrameShows(f: seq<bv8>, pitch: nat, width: nat, rows: nat, image: seq<LineBuffer>, mode420: bool) {
    forall r: nat, x: nat :: r < rows && x < width ==>
      FramePixel(f, 0, pitch, r, x) == ImagePixel(image, mode420, r, x)
  }

  /** Unpacking strip `k` below the strips already shown shows one strip more. */
  lemma StripShown(f: seq<bv8>, g: seq<bv8>, pitch: nat, width: nat, k: nat, lines: nat,
                   image: seq<LineBuffer>, mode420: bool)
    requires k < |image| && lines <= LINEBUFFER_HEIGHT && 3 * width <= pitch
    requires FrameShows(f, pitch, width, StripTop(k), image, mode420)
    requires |f| == |g| && RowAt(StripTop(k), pitch) <= |f|
    requires f[..RowAt(StripTop(k), pitch)] == g[..RowAt(StripTop(k), pitch)]
    requires RowsPacked(g, RowAt(StripTop(k), pitch), pitch, width, lines, image[k], 0, LINEBUFFER_SIZE_Y, mode420)
    ensures FrameShows(g, pitch, width, StripTop(k) + lines, image, mode420)
  {
    var top := StripTop(k);
    RowAtSum(top, lines, pitch);
    forall r: nat, x: nat | r < top + lines && x < width
      ensures FramePixel(g, 0, pitch, r, x) == ImagePixel(image, mode420, r, x)
    {
      if r < top {
        RowBelow(r, top, pitch);
        PixelKept(f, g, RowAt(r, pitch) + 3 * x, RowAt(top, pitch));
        assert FramePixel(f, 0, pitch, r, x) == ImagePixel(image, mode420, r, x);
      } else {
        var y := r - top;
        assert r / LINEBUFFER_HEIGHT == k && r % LINEBUFFER_HEIGHT == y;
        RowAtSum(top, y, pitch);
        assert FramePixel(g, RowAt(top, pitch), pitch, y, x) == PlanarAt(image[k], 0, LINEBUFFER_SIZE_Y, mode420, y, x);
      }
    }
  }

  lemma PixelKept(f: seq<bv8>, g: seq<bv8>, at: nat, n: nat)
    requires at + 3 <= n <= |f| && |f| == |g| && f[..n] == g[..n]
    ensures PackedAt(f, at) == PackedAt(g, at)
  {
    assert f[..n][at] == g[..n][at] && f[..n][at + 1] == g[..n][at + 1] && f[..n][at + 2] == g[..n][at + 2];
  }

  // ------------------------------------------------- encoding: frame to strips

  /** The line buffer holds strip `k` of the frame, downsampled. */
  ghost predicate HoldsStrip(lb: seq<bv8>, f: seq<bv8>, pitch: nat, width: nat, height: nat, k: nat) {
    StripDownsampled(lb, 0, LINEBUFFER_SIZE_Y, f, RowAt(StripTop(k), pitch), pitch, width, StripRows(height, k))
  }

  /** A conversion of the rows from `top` on, as many as there are up to a strip, makes the line buffer hold strip `k`. */
  lemma ConvertedStrip(lb: seq<bv8>, f: seq<bv8>, pitch: nat, width: nat, height: nat, k: nat, top: nat, lines: nat)
    requires top == StripTop(k) < height && lines == Min(height - top, LINEBUFFER_HEIGHT)
    requires StripDownsampled(lb, 0, LINEBUFFER_SIZE_Y, f, RowAt(top, pitch), pitch, width, lines)
    ensures HoldsStrip(lb, f, pitch, width, height, k)
  {
  }

  /**
   * What the unit finds of frame row 1024 * k + y in row `y` of strip `k`: its luma, and
   * 4 MiB behind it the means of two pixels' chroma.
   */
  lemma StripBytes(lb: seq<bv8>, f: seq<bv8>, pitch: nat, width: nat, height: nat, k: nat, y: nat, x: nat)
    requires HoldsStrip(lb, f, pitch, width, height, k) && y < 1024 && 1024 * k + y < height
    ensures var at := (1024 * k + y) * pitch;
            && (x < width ==> At(lb, 4096 * y + x) == At(f, at + 3 * x))
            && (2 * x + 1 < width ==>
                  && At(lb, 0x40_0000 + 4096 * y + 2 * x) == Mean(At(f, at + 6 * x + 1), At(f, at + 6 * x + 4))
                  && At(lb, 0x40_0000 + 4096 * y + 2 * x + 1) == Mean(At(f, at + 6 * x + 2), At(f, at + 6 * x + 5)))
  {
    assert StripRow(lb, 0, LINEBUFFER_SIZE_Y, f, RowAt(StripTop(k), pitch), pitch, width, y);
    RowAtSum(StripTop(k), y, pitch);
    RowAtIsProduct(1024 * k + y, pitch);
    RowAtIsProduct(y, 4096);
    var (at, row) := ((1024 * k + y) * pitch, 4096 * y);
    if x < width {
      assert RowLuma(lb, row, x) == PackedLuma(f, at, x);
    }
    if 2 * x + 1 < width {
      assert RowPair(lb, LINEBUFFER_SIZE_Y + row, x) == PackedPair(f, at, x);
    }
  }
}
