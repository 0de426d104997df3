/** Software colour conversion from a line buffer's planes to packed YCbCr, by word and by byte. */
module SoftHelper {
  import opened Basics

  /** One pixel of a packed YCbCr frame. */
  datatype Pixel = Pixel(y: bv8, cb: bv8, cr: bv8)

  function PackedAt(f: seq<bv8>, at: int): Pixel {
    Pixel(At(f, at), At(f, at + 1), At(f, at + 2))
  }

  /** The number of four-pixel chunks that cover `width` pixels. */
  function Chunks(width: nat): nat {
    (width + (CONV_CHUNK_SIZE - 1)) / CONV_CHUNK_SIZE
  }

  /** Row of the CbCr plane that belongs to row `y` of the Y plane. */
  function ChromaRow(mode420: bool, y: nat): nat {
    if mode420 then y / 2 else y
  }

  /** Pixel `x` of a row whose luma starts at `yat` and chroma pairs at `cat`. */
  function RowPixel(s: seq<bv8>, yat: int, cat: int, x: nat): Pixel {
    Pixel(At(s, yat + x), At(s, cat + x - x % 2), At(s, cat + x - x % 2 + 1))
  }

  /** Pixel (`x`, `y`) of the packed frame that starts at `obase`. */
  function FramePixel(f: seq<bv8>, obase: int, pitch: nat, y: nat, x: nat): Pixel {
    PackedAt(f, obase + RowAt(y, pitch) + 3 * x)
  }

  /** Pixel (`x`, `y`) of a strip held in a line buffer. */
  function PlanarAt(s: seq<bv8>, ybase: nat, cbase: nat, mode420: bool, y: nat, x: nat): Pixel {
    RowPixel(s, ybase + RowAt(y, LINEBUFFER_PITCH), cbase + RowAt(ChromaRow(mode420, y), LINEBUFFER_PITCH), x)
  }

  // ---------------------------------------------------------------- words

  /** A little-endian 32-bit load of four bytes. */
  function Word(b0: bv8, b1: bv8, b2: bv8, b3: bv8): bv32 {
    (b0 as bv32) | ((b1 as bv32) << 8) | ((b2 as bv32) << 16) | ((b3 as bv32) << 24)
  }

  function Byte0(w: bv32): bv8 { (w & 0xff) as bv8 }
  function Byte1(w: bv32): bv8 { ((w >> 8) & 0xff) as bv8 }
  function Byte2(w: bv32): bv8 { ((w >> 16) & 0xff) as bv8 }
  function Byte3(w: bv32): bv8 { ((w >> 24) & 0xff) as bv8 }

  function LoadWord(a: array<bv8>, i: nat): bv32
    requires i + 4 <= a.Length
    reads a
  {
    Word(a[i], a[i + 1], a[i + 2], a[i + 3])
  }

  method StoreWord(a: array<bv8>, i: nat, w: bv32)
    requires i + 4 <= a.Length
    modifies a
    ensures a[i] == Byte0(w) && a[i + 1] == Byte1(w) && a[i + 2] == Byte2(w) && a[i + 3] == Byte3(w)
    ensures forall k :: 0 <= k < a.Length && !(i <= k < i + 4) ==> a[k] == old(a[k])
  {
    a[i], a[i + 1], a[i + 2], a[i + 3] := Byte0(w), Byte1(w), Byte2(w), Byte3(w);
  }

  // Y1 Cr0 Cb0 Y0
  function OutWord0(y: bv32, c: bv32): bv32 { (y & 0xff) | ((c & 0xffff) << 8) | ((y & 0xff00) << 16) }
  // Cb1 Y2 Cr0 Cb0
  function OutWord1(y: bv32, c: bv32): bv32 { (c & 0xffff) | (y & 0xff0000) | ((c & 0xff0000) << 8) }
  // Cr1 Cb1 Y3 Cr1
  function OutWord2(y: bv32, c: bv32): bv32 { ((c & 0xff000000) >> 24) | ((y & 0xff000000) >> 16) | (c & 0xffff0000) }

  lemma WordBytes(b0: bv8, b1: bv8, b2: bv8, b3: bv8)
    ensures var w := Word(b0, b1, b2, b3);
            Byte0(w) == b0 && Byte1(w) == b1 && Byte2(w) == b2 && Byte3(w) == b3
  {
  }

  lemma OutWord0Is(y0: bv8, y1: bv8, y2: bv8, y3: bv8, c0: bv8, c1: bv8, c2: bv8, c3: bv8)
    ensures OutWord0(Word(y0, y1, y2, y3), Word(c0, c1, c2, c3)) == Word(y0, c0, c1, y1)
  {
  }

  lemma OutWord1Is(y0: bv8, y1: bv8, y2: bv8, y3: bv8, c0: bv8, c1: bv8, c2: bv8, c3: bv8)
    ensures OutWord1(Word(y0, y1, y2, y3), Word(c0, c1, c2, c3)) == Word(c0, c1, y2, c2)
  {
  }

  lemma OutWord2Is(y0: bv8, y1: bv8, y2: bv8, y3: bv8, c0: bv8, c1: bv8, c2: bv8, c3: bv8)
    ensures OutWord2(Word(y0, y1, y2, y3), Word(c0, c1, c2, c3)) == Word(c3, y3, c2, c3)
  {
  }

  // ------------------------------------------------- planar to packed, by word

  /** Bytes at..at + 12 hold the four pixels made from one luma and one chroma word. */
  ghost predicate PackedChunk(out: array<bv8>, at: nat, y: array<bv8>, c: array<bv8>, k: nat)
    requires at + 12 <= out.Length && k + 4 <= y.Length && k + 4 <= c.Length
    reads out, y, c
  {
    && out[at] == y[k] && out[at + 1] == c[k] && out[at + 2] == c[k + 1]
    && out[at + 3] == y[k + 1] && out[at + 4] == c[k] && out[at + 5] == c[k + 1]
    && out[at + 6] == y[k + 2] && out[at + 7] == c[k + 2] && out[at + 8] == c[k + 3]
    && out[at + 9] == y[k + 3] && out[at + 10] == c[k + 2] && out[at + 11] == c[k + 3]
  }

  /** Chunk number `k` of the row at `at` is packed. */
  ghost predicate PackedNth(out: array<bv8>, at: nat, y: array<bv8>, c: array<bv8>, k: nat)
    requires at + 12 * k + 12 <= out.Length && 4 * k + 4 <= y.Length && 4 * k + 4 <= c.Length
    reads out, y, c
  {
    PackedChunk(out, at + 12 * k, y, c, 4 * k)
  }

  /** One pass of the inner loop: two loads, three stores. */
  method PackChunk(out: array<bv8>, at: nat, y: array<bv8>, c: array<bv8>, k: nat)
    requires out != y && out != c
    requires at + 12 <= out.Length && k + 4 <= y.Length && k + 4 <= c.Length
    modifies out
    ensures PackedChunk(out, at, y, c, k)
    ensures forall i :: 0 <= i < out.Length && !(at <= i < at + 12) ==> out[i] == old(out[i])
  {
    var yword := LoadWord(y, k);
    var cword := LoadWord(c, k);
    var outwords := [OutWord0(yword, cword), OutWord1(yword, cword), OutWord2(yword, cword)];
    OutWord0Is(y[k], y[k + 1], y[k + 2], y[k + 3], c[k], c[k + 1], c[k + 2], c[k + 3]);
    OutWord1Is(y[k], y[k + 1], y[k + 2], y[k + 3], c[k], c[k + 1], c[k + 2], c[k + 3]);
    OutWord2Is(y[k], y[k + 1], y[k + 2], y[k + 3], c[k], c[k + 1], c[k + 2], c[k + 3]);
    WordBytes(y[k], c[k], c[k + 1], y[k + 1]);
    WordBytes(c[k], c[k + 1], y[k + 2], c[k + 2]);
    WordBytes(c[k + 3], y[k + 3], c[k + 2], c[k + 3]);
    StoreWord(out, at, outwords[0]);
    StoreWord(out, at + 4, outwords[1]);
    StoreWord(out, at + 8, outwords[2]);
  }

  /** The inner loop: one row, rounded up to whole chunks. */
  method PackRow(out: array<bv8>, at: nat, y: array<bv8>, c: array<bv8>, chunks: nat)
    requires out != y && out != c
    requires at + 12 * chunks <= out.Length && 4 * chunks <= y.Length && 4 * chunks <= c.Length
    modifies out
    ensures PixelsPacked(out[..], at, y[..], c[..], 4 * chunks)
    ensures forall i :: 0 <= i < out.Length && !(at <= i < at + 12 * chunks) ==> out[i] == old(out[i])
  {
    for x := 0 to chunks
      invariant forall k: nat :: k < x ==> PackedNth(out, at, y, c, k)
      invariant forall i :: 0 <= i < out.Length && !(at <= i < at + 12 * x) ==> out[i] == old(out[i])
    {
      label before:
      PackChunk(out, at + 12 * x, y, c, 4 * x);
      forall k: nat | k < x + 1
        ensures PackedNth(out, at, y, c, k)
      {
        assert k < x ==> old@before(PackedNth(out, at, y, c, k));
      }
    }
    ChunksArePixels(out, at, y, c, chunks);
  }

  /** The first `n` pixels of a packed row have the luma of their own and the chroma of their pair. */
  ghost predicate PixelsPacked(out: seq<bv8>, at: nat, y: seq<bv8>, c: seq<bv8>, n: nat) {
    forall x: nat :: x < n ==> PackedAt(out, at + 3 * x) == Pixel(At(y, x), At(c, x - x % 2), At(c, x - x % 2 + 1))
  }

  /**
   * The first `rows` rows of the packed frame at `obase` show the strip whose planes
   * start at `ybase` and `cbase` in `s`.
   */
  ghost predicate RowsPacked(f: seq<bv8>, obase: nat, pitch: nat, width: nat, rows: nat,
                             s: seq<bv8>, ybase: nat, cbase: nat, mode420: bool)
  {
    forall y: nat, x: nat :: y < rows && x < width ==>
      FramePixel(f, obase, pitch, y, x) == PlanarAt(s, ybase, cbase, mode420, y, x)
  }

  /** Writing from row `y` on leaves the pixels of the rows above it alone. */
  lemma RowsKept(f: seq<bv8>, g: seq<bv8>, obase: nat, pitch: nat, width: nat, y: nat,
                 s: seq<bv8>, ybase: nat, cbase: nat, mode420: bool)
    requires RowsPacked(f, obase, pitch, width, y, s, ybase, cbase, mode420)
    requires 3 * width <= pitch && obase + RowAt(y, pitch) <= |f| && |f| == |g|
    requires f[..obase + RowAt(y, pitch)] == g[..obase + RowAt(y, pitch)]
    ensures RowsPacked(g, obase, pitch, width, y, s, ybase, cbase, mode420)
  {
    forall r: nat, x: nat | r < y && x < width
      ensures FramePixel(g, obase, pitch, r, x) == PlanarAt(s, ybase, cbase, mode420, r, x)
    {
      RowBelow(r, y, pitch);
      var at := obase + RowAt(r, pitch) + 3 * x;
      assert at + 2 < obase + RowAt(y, pitch);
      assert forall i :: 0 <= i < obase + RowAt(y, pitch) ==> f[i] == f[..obase + RowAt(y, pitch)][i] == g[i];
      assert PackedAt(f, at) == PackedAt(g, at);
    }
  }

  /** A row written chunk by chunk shows pixel x at byte 3x. */
  lemma ChunksArePixels(out: array<bv8>, at: nat, y: array<bv8>, c: array<bv8>, chunks: nat)
    requires at + 12 * chunks <= out.Length && 4 * chunks <= y.Length && 4 * chunks <= c.Length
    requires forall k: nat :: k < chunks ==> PackedNth(out, at, y, c, k)
    ensures PixelsPacked(out[..], at, y[..], c[..], 4 * chunks)
  {
    forall x: nat | x < 4 * chunks
      ensures PackedAt(out[..], at + 3 * x) == Pixel(At(y[..], x), At(c[..], x - x % 2), At(c[..], x - x % 2 + 1))
    {
      assert PackedNth(out, at, y, c, x / 4);
      assert x == 4 * (x / 4) + x % 4;
    }
  }

  /** What both conversions from a line buffer demand of their arguments. */
  predicate UnpackArgs(lb: nat, ybase: nat, cbase: nat, out: nat, obase: nat, width: nat, pitch: nat, lines: nat) {
    && width <= LINEBUFFER_PITCH
    && 3 * width <= pitch
    && ybase + RowAt(lines, LINEBUFFER_PITCH) <= lb
    && cbase + RowAt(lines, LINEBUFFER_PITCH) <= lb
    && obase + RowAt(lines, pitch) <= out
  }

  /** The body of the outer loop: fetch one row of each plane and pack it. */
  method PackLine(lb: array<bv8>, yat: nat, cat: nat, y: array<bv8>, c: array<bv8>,
                  out: array<bv8>, at: nat, chunks: nat, width: nat)
    requires lb != y && lb != c && y != c && out != lb && out != y && out != c
    requires 4 * chunks <= y.Length && 4 * chunks <= c.Length && at + 12 * chunks <= out.Length
    requires width <= 4 * chunks && yat + 4 * chunks <= lb.Length && cat + 4 * chunks <= lb.Length
    modifies y, c, out
    ensures out[..at] == old(out[..at])
    ensures forall x: nat :: x < width ==> PackedAt(out[..], at + 3 * x) == RowPixel(lb[..], yat, cat, x)
  {
    MemCpy(y, 0, lb, yat, chunks * CONV_CHUNK_SIZE);
    MemCpy(c, 0, lb, cat, chunks * CONV_CHUNK_SIZE);
    PackRow(out, at, y, c, chunks);
    PackedRow(out[..], at, y[..], c[..], 4 * chunks, width, lb[..], yat, cat);
  }

  /** One more row below the rows that are already right. */
  lemma AddRow(f: seq<bv8>, g: seq<bv8>, obase: nat, pitch: nat, width: nat, y: nat,
               s: seq<bv8>, ybase: nat, cbase: nat, mode420: bool, at: int, yat: int, cat: int)
    requires RowsPacked(f, obase, pitch, width, y, s, ybase, cbase, mode420)
    requires 3 * width <= pitch && obase + RowAt(y, pitch) <= |f| && |f| == |g|
    requires f[..obase + RowAt(y, pitch)] == g[..obase + RowAt(y, pitch)]
    requires at == obase + RowAt(y, pitch)
    requires yat == ybase + RowAt(y, LINEBUFFER_PITCH)
    requires cat == cbase + RowAt(ChromaRow(mode420, y), LINEBUFFER_PITCH)
    requires forall x: nat :: x < width ==> PackedAt(g, at + 3 * x) == RowPixel(s, yat, cat, x)
    ensures RowsPacked(g, obase, pitch, width, y + 1, s, ybase, cbase, mode420)
  {
    RowsKept(f, g, obase, pitch, width, y, s, ybase, cbase, mode420);
    forall r: nat, x: nat | r < y + 1 && x < width
      ensures FramePixel(g, obase, pitch, r, x) == PlanarAt(s, ybase, cbase, mode420, r, x)
    {
      if r == y {
        assert PackedAt(g, at + 3 * x) == RowPixel(s, yat, cat, x);
      }
    }
  }

  /** The chroma pointer moves on after every row, or after every odd row of 4:2:0. */
  lemma NextChromaRow(mode420: bool, y: nat)
    ensures RowAt(ChromaRow(mode420, y + 1), LINEBUFFER_PITCH)
         == RowAt(ChromaRow(mode420, y), LINEBUFFER_PITCH) + if !mode420 || y % 2 == 1 then LINEBUFFER_PITCH else 0
  {
    assert ChromaRow(mode420, y + 1) == ChromaRow(mode420, y) + if !mode420 || y % 2 == 1 then 1 else 0;
  }

  /** The source rows of row `y` lie inside planes of `lines` rows. */
  lemma SourceRowsFit(mode420: bool, y: nat, lines: nat)
    requires y < lines
    ensures RowAt(y, LINEBUFFER_PITCH) + LINEBUFFER_PITCH <= RowAt(lines, LINEBUFFER_PITCH)
    ensures RowAt(ChromaRow(mode420, y), LINEBUFFER_PITCH) + LINEBUFFER_PITCH <= RowAt(lines, LINEBUFFER_PITCH)
  {
    RowBelow(y, lines, LINEBUFFER_PITCH);
    RowBelow(ChromaRow(mode420, y), lines, LINEBUFFER_PITCH);
  }

  /**
   * NV12/NV16 planes to packed YCbCr, four pixels at a time. Every row is rounded up to
   * whole chunks, so its tail may spill over the start of the next row, which is written
   * after it; the last row spills into the spare chunk of the work buffer.
   */
  method SoftToYCbCrByWord(lb: array<bv8>, ybase: nat, cbase: nat, outbuf: array<bv8>, obase: nat,
                           width: nat, pitch: nat, mode420: bool, lines: nat)
    requires lb != outbuf
    requires UnpackArgs(lb.Length, ybase, cbase, outbuf.Length, obase, width, pitch, lines)
    modifies outbuf
    ensures RowsPacked(outbuf[..], obase, pitch, width, lines, lb[..], ybase, cbase, mode420)
    ensures outbuf[..obase] == old(outbuf[..obase])
    ensures outbuf[obase + RowAt(lines, pitch)..] == old(outbuf[obase + RowAt(lines, pitch)..])
  {
    var chunks := Chunks(width);
    var yroot := new bv8[LINEBUFFER_PITCH];
    var croot := new bv8[LINEBUFFER_PITCH];
    var outroot := new bv8[RowAt(lines, pitch) + CONV_CHUNK_SIZE * 3];
    var outpitchskip: int := pitch - chunks * CONV_CHUNK_SIZE * 3;
    var inydata, incdata, out := ybase, cbase, 0;
    for y := 0 to lines
      invariant inydata == ybase + RowAt(y, LINEBUFFER_PITCH)
      invariant incdata == cbase + RowAt(ChromaRow(mode420, y), LINEBUFFER_PITCH)
      invariant out == RowAt(y, pitch)
      invariant outbuf[..] == old(outbuf[..])
      invariant RowsPacked(outroot[..], 0, pitch, width, y, lb[..], ybase, cbase, mode420)
    {
      RowBelow(y, lines, pitch);
      SourceRowsFit(mode420, y, lines);
      ghost var before := outroot[..];
      PackLine(lb, inydata, incdata, yroot, croot, outroot, out, chunks, width);
      AddRow(before, outroot[..], 0, pitch, width, y, lb[..], ybase, cbase, mode420, out, inydata, incdata);
      NextChromaRow(mode420, y);
      out := out + 12 * chunks;
      if !mode420 || y % 2 == 1 {
        incdata := incdata + LINEBUFFER_PITCH;
      }
      inydata := inydata + LINEBUFFER_PITCH;
      out := out + outpitchskip;
    }
    ghost var was := outbuf[..];
    assert was[..obase] == outbuf[..obase];
    assert was[obase + RowAt(lines, pitch)..] == outbuf[obase + RowAt(lines, pitch)..];
    MemCpy(outbuf, obase, outroot, 0, RowAt(lines, pitch));
    FrameCopied(outroot[..], outbuf[..], obase, pitch, width, lines, lb[..], ybase, cbase, mode420);
  }

  /** The freshly written row shows the pixels of the source row copied into the work buffers. */
  lemma PackedRow(out: seq<bv8>, at: nat, y: seq<bv8>, c: seq<bv8>, n: nat, width: nat, s: seq<bv8>, yat: nat, cat: nat)
    requires PixelsPacked(out, at, y, c, n) && n % 2 == 0 && width <= n <= |y| && n <= |c|
    requires yat + n <= |s| && cat + n <= |s| && y[..n] == s[yat..yat + n] && c[..n] == s[cat..cat + n]
    ensures forall x: nat :: x < width ==> PackedAt(out, at + 3 * x) == RowPixel(s, yat, cat, x)
  {
    forall x: nat | x < width
      ensures PackedAt(out, at + 3 * x) == RowPixel(s, yat, cat, x)
    {
      FirstPixel(y, c, s, yat, cat, n, x);
    }
  }

  lemma FirstPixel(y: seq<bv8>, c: seq<bv8>, s: seq<bv8>, yat: nat, cat: nat, n: nat, x: nat)
    requires x < n && n % 2 == 0 && n <= |y| && n <= |c| && yat + n <= |s| && cat + n <= |s|
    requires y[..n] == s[yat..yat + n] && c[..n] == s[cat..cat + n]
    ensures Pixel(At(y, x), At(c, x - x % 2), At(c, x - x % 2 + 1)) == RowPixel(s, yat, cat, x)
  {
    var p := x - x % 2;
    assert p + 1 < n;
    FirstBytes(y, s, yat, n, x);
    FirstBytes(c, s, cat, n, p);
    FirstBytes(c, s, cat, n, p + 1);
  }

  lemma FirstBytes(y: seq<bv8>, s: seq<bv8>, at: nat, n: nat, i: nat)
    requires i < n <= |y| && at + n <= |s| && y[..n] == s[at..at + n]
    ensures At(y, i) == At(s, at + i)
  {
    assert y[..n][i] == s[at..at + n][i];
  }

  /** Copying the work buffer into the frame carries the rows over. */
  lemma FrameCopied(f: seq<bv8>, g: seq<bv8>, obase: nat, pitch: nat, width: nat, rows: nat,
                    s: seq<bv8>, ybase: nat, cbase: nat, mode420: bool)
    requires RowsPacked(f, 0, pitch, width, rows, s, ybase, cbase, mode420)
    requires 3 * width <= pitch && RowAt(rows, pitch) <= |f| && obase + RowAt(rows, pitch) <= |g|
    requires g[obase..obase + RowAt(rows, pitch)] == f[..RowAt(rows, pitch)]
    ensures RowsPacked(g, obase, pitch, width, rows, s, ybase, cbase, mode420)
  {
    forall r: nat, x: nat | r < rows && x < width
      ensures FramePixel(g, obase, pitch, r, x) == PlanarAt(s, ybase, cbase, mode420, r, x)
    {
      FramePixelCopied(f, g, obase, pitch, width, rows, r, x);
      assert FramePixel(f, 0, pitch, r, x) == PlanarAt(s, ybase, cbase, mode420, r, x);
    }
  }

  lemma FramePixelCopied(f: seq<bv8>, g: seq<bv8>, obase: nat, pitch: nat, width: nat, rows: nat, r: nat, x: nat)
    requires 3 * width <= pitch && RowAt(rows, pitch) <= |f| && obase + RowAt(rows, pitch) <= |g|
    requires g[obase..obase + RowAt(rows, pitch)] == f[..RowAt(rows, pitch)] && r < rows && x < width
    ensures FramePixel(g, obase, pitch, r, x) == FramePixel(f, 0, pitch, r, x)
  {
    RowBelow(r, rows, pitch);
    PixelCopied(f, g, obase, RowAt(rows, pitch), RowAt(r, pitch) + 3 * x);
  }

  lemma PixelCopied(f: seq<bv8>, g: seq<bv8>, base: nat, n: nat, at: nat)
    requires n <= |f| && base + n <= |g| && g[base..base + n] == f[..n] && at + 3 <= n
    ensures PackedAt(g, base + at) == PackedAt(f, at)
  {
    assert f[..n][at] == g[base..base + n][at] && f[..n][at + 1] == g[base..base + n][at + 1];
    assert f[..n][at + 2] == g[base..base + n][at + 2];
  }

  // ------------------------------------------------- planar to packed, by byte

  /** The inner loop of the byte form: two pixels a turn, sharing one chroma pair. */
  method UnpackRowByByte(out: array<bv8>, at: nat, y: array<bv8>, yat: nat, c: array<bv8>, cat: nat, halfwidth: nat)
    returns (outEnd: nat, yEnd: nat, cEnd: nat)
    requires out != y && out != c
    requires at + 6 * halfwidth <= out.Length && yat + 2 * halfwidth <= y.Length && cat + 2 * halfwidth <= c.Length
    modifies out
    ensures outEnd == at + 6 * halfwidth && yEnd == yat + 2 * halfwidth && cEnd == cat + 2 * halfwidth
    ensures out[..at] == old(out[..at])
    ensures forall k: nat :: k < 2 * halfwidth ==>
      PackedAt(out[..], at + 3 * k) == TwoPlanePixel(y[..], yat, c[..], cat, k)
  {
    outEnd, yEnd, cEnd := at, yat, cat;
    for x := 0 to halfwidth
      invariant outEnd == at + 6 * x && yEnd == yat + 2 * x && cEnd == cat + 2 * x
      invariant out[..at] == old(out[..at])
      invariant forall k: nat :: k < 2 * x ==> PackedAt(out[..], at + 3 * k) == TwoPlanePixel(y[..], yat, c[..], cat, k)
    {
      ghost var before := out[..];
      out[outEnd], out[outEnd + 1], out[outEnd + 2] := y[yEnd], c[cEnd], c[cEnd + 1];
      outEnd, yEnd := outEnd + 3, yEnd + 1;
      out[outEnd], out[outEnd + 1], out[outEnd + 2] := y[yEnd], c[cEnd], c[cEnd + 1];
      outEnd, yEnd := outEnd + 3, yEnd + 1;
      cEnd := cEnd + 2;
      assert out[..at] == before[..at];
      forall k: nat | k < 2 * (x + 1)
        ensures PackedAt(out[..], at + 3 * k) == TwoPlanePixel(y[..], yat, c[..], cat, k)
      {
        if k < 2 * x {
          assert PackedAt(out[..], at + 3 * k) == PackedAt(before, at + 3 * k);
        } else if k == 2 * x {
          assert k % 2 == 0;
        } else {
          assert k == 2 * x + 1 && k % 2 == 1;
        }
      }
    }
  }

  /** Pixel `k` of a row read from two separate planes. */
  function TwoPlanePixel(y: seq<bv8>, yat: int, c: seq<bv8>, cat: int, k: nat): Pixel {
    Pixel(At(y, yat + k), At(c, cat + k - k % 2), At(c, cat + k - k % 2 + 1))
  }

  /** One row of the byte form, read from copies of the two planes of `s`. */
  method UnpackLine(out: array<bv8>, at: nat, y: array<bv8>, yat: nat, c: array<bv8>, cat: nat, halfwidth: nat,
                    ghost width: nat, ghost s: seq<bv8>, ghost n: nat, ghost ybase: nat, ghost cbase: nat)
    returns (outEnd: nat, yEnd: nat, cEnd: nat)
    requires out != y && out != c
    requires width <= 2 * halfwidth <= LINEBUFFER_PITCH && at + 6 * halfwidth <= out.Length
    requires yat + LINEBUFFER_PITCH <= n && cat + LINEBUFFER_PITCH <= n
    requires ybase + n <= |s| && cbase + n <= |s| && y[..] == s[ybase..ybase + n] && c[..] == s[cbase..cbase + n]
    modifies out
    ensures outEnd == at + 6 * halfwidth && yEnd == yat + 2 * halfwidth && cEnd == cat + 2 * halfwidth
    ensures out[..at] == old(out[..at])
    ensures forall x: nat :: x < width ==> PackedAt(out[..], at + 3 * x) == RowPixel(s, ybase + yat, cbase + cat, x)
  {
    ghost var ys, cs := y[..], c[..];
    outEnd, yEnd, cEnd := UnpackRowByByte(out, at, y, yat, c, cat, halfwidth);
    assert y[..] == ys && c[..] == cs;
    RowFromPlanes(out[..], at, width, s, n, ys, ybase, cs, cbase, yat, cat);
  }

  /** The row loop of the byte form, over copies of the two planes. */
  method UnpackRowsByByte(root: array<bv8>, yroot: array<bv8>, croot: array<bv8>, ghost s: seq<bv8>,
                          ghost ybase: nat, ghost cbase: nat,
                          width: nat, pitch: nat, mode420: bool, lines: nat, ghost rowsize: nat)
    requires root != yroot && root != croot
    requires width <= LINEBUFFER_PITCH && 3 * width <= pitch <= rowsize && 6 * ((width + 1) / 2) <= rowsize
    requires root.Length == RowAt(lines, rowsize)
    requires ybase + RowAt(lines, LINEBUFFER_PITCH) <= |s| && cbase + RowAt(lines, LINEBUFFER_PITCH) <= |s|
    requires yroot[..] == s[ybase..ybase + RowAt(lines, LINEBUFFER_PITCH)]
    requires croot[..] == s[cbase..cbase + RowAt(lines, LINEBUFFER_PITCH)]
    modifies root
    ensures RowsPacked(root[..], 0, pitch, width, lines, s, ybase, cbase, mode420)
  {
    var halfwidth := width / 2 + width % 2;
    var inpitchskip := LINEBUFFER_PITCH - halfwidth * 2;
    var outpitchskip: int := pitch - (halfwidth * 2) * 3;
    var out, srcY, srcC, rewind := 0, 0, 0, 0;
    for y := 0 to lines
      invariant srcY == RowAt(y, LINEBUFFER_PITCH)
      invariant srcC == rewind == RowAt(ChromaRow(mode420, y), LINEBUFFER_PITCH)
      invariant out == RowAt(y, pitch)
      invariant RowsPacked(root[..], 0, pitch, width, y, s, ybase, cbase, mode420)
    {
      RowBelow(y, lines, rowsize);
      WiderRows(y, pitch, rowsize);
      SourceRowsFit(mode420, y, lines);
      ghost var before, at, yat, cat := root[..], out, srcY, srcC;
      out, srcY, srcC := UnpackLine(root, out, yroot, srcY, croot, srcC, halfwidth,
                                    width, s, RowAt(lines, LINEBUFFER_PITCH), ybase, cbase);
      AddRow(before, root[..], 0, pitch, width, y, s, ybase, cbase, mode420, at, ybase + yat, cbase + cat);
      NextChromaRow(mode420, y);
      if y % 2 == 1 || !mode420 {
        srcC := srcC + inpitchskip;
        rewind := srcC;
      } else {
        srcC := rewind;
      }
      srcY := srcY + inpitchskip;
      out := out + outpitchskip;
    }
  }

  /** NV12/NV16 planes to packed YCbCr, a byte at a time. */
  method SoftToYCbCrByByte(lb: array<bv8>, ybase: nat, cbase: nat, outbuf: array<bv8>, obase: nat,
                           width: nat, pitch: nat, mode420: bool, lines: nat)
    requires lb != outbuf
    requires UnpackArgs(lb.Length, ybase, cbase, outbuf.Length, obase, width, pitch, lines)
    modifies outbuf
    ensures RowsPacked(outbuf[..], obase, pitch, width, lines, lb[..], ybase, cbase, mode420)
    ensures outbuf[..obase] == old(outbuf[..obase])
    ensures outbuf[obase + RowAt(lines, pitch)..] == old(outbuf[obase + RowAt(lines, pitch)..])
  {
    var halfwidth := width / 2 + width % 2;
    var rowsize := if pitch > halfwidth * 6 then pitch else halfwidth * 6;
    var root := new bv8[RowAt(lines, rowsize)];
    var yroot := CopyOut(lb, ybase, RowAt(lines, LINEBUFFER_PITCH), RowAt(lines, LINEBUFFER_PITCH));
    var croot := CopyOut(lb, cbase, RowAt(lines, LINEBUFFER_PITCH), RowAt(lines, LINEBUFFER_PITCH));
    UnpackRowsByByte(root, yroot, croot, lb[..], ybase, cbase, width, pitch, mode420, lines, rowsize);
    WiderRows(lines, pitch, rowsize);
    MemCpy(outbuf, obase, root, 0, RowAt(lines, pitch));
    FrameCopied(root[..], outbuf[..], obase, pitch, width, lines, lb[..], ybase, cbase, mode420);
  }

  /** Reading the copied planes is reading the line buffer. */
  lemma PlanesCopied(s: seq<bv8>, n: nat, ys: seq<bv8>, ybase: nat, cs: seq<bv8>, cbase: nat,
                     yat: nat, cat: nat, x: nat)
    requires ybase + n <= |s| && cbase + n <= |s| && ys == s[ybase..ybase + n] && cs == s[cbase..cbase + n]
    requires x < LINEBUFFER_PITCH && yat + LINEBUFFER_PITCH <= n && cat + LINEBUFFER_PITCH <= n
    ensures TwoPlanePixel(ys, yat, cs, cat, x) == RowPixel(s, ybase + yat, cbase + cat, x)
  {
    var p := x - x % 2;
    assert 0 <= p && p + 1 < LINEBUFFER_PITCH;
    SliceAt(s, ybase, n, ys, yat + x);
    SliceAt(s, cbase, n, cs, cat + p);
    SliceAt(s, cbase, n, cs, cat + p + 1);
  }

  /** A row unpacked from the copied planes shows the pixels of the strip. */
  lemma RowFromPlanes(f: seq<bv8>, at: nat, width: nat, s: seq<bv8>, n: nat, ys: seq<bv8>, ybase: nat,
                      cs: seq<bv8>, cbase: nat, yat: nat, cat: nat)
    requires ybase + n <= |s| && cbase + n <= |s| && ys == s[ybase..ybase + n] && cs == s[cbase..cbase + n]
    requires width <= LINEBUFFER_PITCH && yat + LINEBUFFER_PITCH <= n && cat + LINEBUFFER_PITCH <= n
    requires forall x: nat :: x < width ==> PackedAt(f, at + 3 * x) == TwoPlanePixel(ys, yat, cs, cat, x)
    ensures forall x: nat :: x < width ==> PackedAt(f, at + 3 * x) == RowPixel(s, ybase + yat, cbase + cat, x)
  {
    forall x: nat | x < width
      ensures PackedAt(f, at + 3 * x) == RowPixel(s, ybase + yat, cbase + cat, x)
    {
      PlanesCopied(s, n, ys, ybase, cs, cbase, yat, cat, x);
    }
  }

  /**
   * The fast form refines the simple one: frames written by either conversion from the
   * same strip agree on every pixel of every row, for any width, pitch and sampling.
   */
  lemma WordAgreesWithByte(f: seq<bv8>, g: seq<bv8>, obase: nat, pitch: nat, width: nat, lines: nat,
                           s: seq<bv8>, ybase: nat, cbase: nat, mode420: bool)
    requires RowsPacked(f, obase, pitch, width, lines, s, ybase, cbase, mode420)
    requires RowsPacked(g, obase, pitch, width, lines, s, ybase, cbase, mode420)
    ensures forall y: nat, x: nat :: y < lines && x < width ==>
      FramePixel(f, obase, pitch, y, x) == FramePixel(g, obase, pitch, y, x)
  {
    forall y: nat, x: nat | y < lines && x < width
      ensures FramePixel(f, obase, pitch, y, x) == FramePixel(g, obase, pitch, y, x)
    {
      assert FramePixel(f, obase, pitch, y, x) == PlanarAt(s, ybase, cbase, mode420, y, x);
    }
  }
}
