/** The two conversions compose to the identity on planes and to a projection on frames. */
module SoftRoundTrip {
  import opened Basics
  import opened SoftHelper
  import opened SoftDownsample

  lemma MeanOfSame(a: bv8)
    ensures Mean(a, a) == a
  {
  }

  /** A strip of NV16 planes: where its luma and chroma planes start. */
  datatype Strip = Strip(bytes: seq<bv8>, ybase: nat, cbase: nat)

  function StripLuma(s: Strip, y: nat, x: nat): bv8 {
    RowLuma(s.bytes, s.ybase + RowAt(y, LINEBUFFER_PITCH), x)
  }

  function StripPair(s: Strip, y: nat, p: nat): Pair {
    RowPair(s.bytes, s.cbase + RowAt(y, LINEBUFFER_PITCH), p)
  }

  /** Both strips show the same luma everywhere and the same chroma on every pixel pair. */
  ghost predicate SameStrip(s: Strip, t: Strip, width: nat, rows: nat) {
    && (forall y: nat, x: nat :: y < rows && x < width ==> StripLuma(s, y, x) == StripLuma(t, y, x))
    && (forall y: nat, p: nat :: y < rows && 2 * p + 1 < width ==> StripPair(s, y, p) == StripPair(t, y, p))
  }

  /**
   * Packing 4:2:2 planes and downsampling the result restores the planes, whatever the
   * pitch and wherever the planes lie; for an even width that is every byte of them.
   */
  lemma PlanesRestored(s: Strip, f: seq<bv8>, t: Strip, obase: nat, pitch: nat, width: nat, rows: nat)
    requires RowsPacked(f, obase, pitch, width, rows, s.bytes, s.ybase, s.cbase, false)
    requires StripDownsampled(t.bytes, t.ybase, t.cbase, f, obase, pitch, width, rows)
    ensures SameStrip(s, t, width, rows)
  {
    forall y: nat, x: nat | y < rows && x < width
      ensures StripLuma(s, y, x) == StripLuma(t, y, x)
    {
      PixelOfStrip(s, f, obase, pitch, width, rows, y, x);
      assert StripRow(t.bytes, t.ybase, t.cbase, f, obase, pitch, width, y);
      assert StripLuma(t, y, x) == PackedLuma(f, obase + RowAt(y, pitch), x);
    }
    forall y: nat, p: nat | y < rows && 2 * p + 1 < width
      ensures StripPair(s, y, p) == StripPair(t, y, p)
    {
      PixelOfStrip(s, f, obase, pitch, width, rows, y, 2 * p);
      PixelOfStrip(s, f, obase, pitch, width, rows, y, 2 * p + 1);
      assert StripRow(t.bytes, t.ybase, t.cbase, f, obase, pitch, width, y);
      assert StripPair(t, y, p) == PackedPair(f, obase + RowAt(y, pitch), p);
      MeanOfSame(StripPair(s, y, p).cb);
      MeanOfSame(StripPair(s, y, p).cr);
    }
  }

  /** A packed pixel shows its luma and its pair's chroma. */
  lemma PixelOfStrip(s: Strip, f: seq<bv8>, obase: nat, pitch: nat, width: nat, rows: nat, y: nat, x: nat)
    requires RowsPacked(f, obase, pitch, width, rows, s.bytes, s.ybase, s.cbase, false)
    requires y < rows && x < width
    ensures FramePixel(f, obase, pitch, y, x)
         == Pixel(StripLuma(s, y, x), StripPair(s, y, x / 2).cb, StripPair(s, y, x / 2).cr)
  {
    assert FramePixel(f, obase, pitch, y, x) == PlanarAt(s.bytes, s.ybase, s.cbase, false, y, x);
    assert x - x % 2 == 2 * (x / 2);
  }

  /**
   * Downsampling a frame and packing it again keeps its luma, and doing so twice changes
   * nothing more: on every pixel of a whole pair the second result is the first.
   */
  lemma RepackingIsIdempotent(f: seq<bv8>, s: Strip, g: seq<bv8>, t: Strip, h: seq<bv8>,
                              obase: nat, pitch: nat, width: nat, rows: nat)
    requires StripDownsampled(s.bytes, s.ybase, s.cbase, f, obase, pitch, width, rows)
    requires RowsPacked(g, obase, pitch, width, rows, s.bytes, s.ybase, s.cbase, false)
    requires StripDownsampled(t.bytes, t.ybase, t.cbase, g, obase, pitch, width, rows)
    requires RowsPacked(h, obase, pitch, width, rows, t.bytes, t.ybase, t.cbase, false)
    ensures forall y: nat, x: nat :: y < rows && x < width ==>
      FramePixel(g, obase, pitch, y, x).y == FramePixel(f, obase, pitch, y, x).y
    ensures forall y: nat, x: nat :: y < rows && x < width - width % 2 ==>
      FramePixel(h, obase, pitch, y, x) == FramePixel(g, obase, pitch, y, x)
  {
    PlanesRestored(s, g, t, obase, pitch, width, rows);
    forall y: nat, x: nat | y < rows && x < width
      ensures FramePixel(g, obase, pitch, y, x).y == FramePixel(f, obase, pitch, y, x).y
    {
      PixelOfStrip(s, g, obase, pitch, width, rows, y, x);
      assert StripRow(s.bytes, s.ybase, s.cbase, f, obase, pitch, width, y);
      assert StripLuma(s, y, x) == PackedLuma(f, obase + RowAt(y, pitch), x);
    }
    forall y: nat, x: nat | y < rows && x < width - width % 2
      ensures FramePixel(h, obase, pitch, y, x) == FramePixel(g, obase, pitch, y, x)
    {
      PixelOfStrip(s, g, obase, pitch, width, rows, y, x);
      PixelOfStrip(t, h, obase, pitch, width, rows, y, x);
      assert 2 * (x / 2) + 1 < width;
      assert StripPair(s, y, x / 2) == StripPair(t, y, x / 2);
    }
  }
}
