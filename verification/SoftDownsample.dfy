/** Packed YCbCr to NV16: the word form, the byte form and libjpeg's scanline form. */
module SoftDownsample {
  import opened Basics
  import opened SoftHelper

  /** One Cb/Cr pair of an NV16 chroma plane. */
  datatype Pair = Pair(cb: bv8, cr: bv8)

  /** The mean of two bytes, rounded down; the sum does not fit a byte. */
  function Mean(a: bv8, b: bv8): bv8 {
    (((a as bv16) + (b as bv16)) >> 1) as bv8
  }

  function MeanPair(p: Pixel, q: Pixel): Pair {
    Pair(Mean(p.cb, q.cb), Mean(p.cr, q.cr))
  }

  /** Luma byte `x` of a plane row that starts at `yat`. */
  function RowLuma(s: seq<bv8>, yat: int, x: nat): bv8 {
    At(s, yat + x)
  }

  /** Chroma pair `p` of a plane row that starts at `cat`. */
  function RowPair(s: seq<bv8>, cat: int, p: nat): Pair {
    Pair(At(s, cat + 2 * p), At(s, cat + 2 * p + 1))
  }

  /** The downsampled pair that pixels 2p and 2p + 1 of the packed row at `at` stand for. */
  function PackedPair(f: seq<bv8>, at: int, p: nat): Pair {
    MeanPair(PackedAt(f, at + 6 * p), PackedAt(f, at + 6 * p + 3))
  }

  /** Luma of pixel `x` of the packed row at `at`. */
  function PackedLuma(f: seq<bv8>, at: int, x: nat): bv8 {
    At(f, at + 3 * x)
  }

  /** Every luma byte and every whole chroma pair of a row is the downsampled packed row. */
  ghost predicate RowDownsampled(ys: seq<bv8>, yat: int, cs: seq<bv8>, cat: int, f: seq<bv8>, at: int, width: nat) {
    && (forall x: nat :: x < width ==> RowLuma(ys, yat, x) == PackedLuma(f, at, x))
    && (forall p: nat :: 2 * p + 1 < width ==> RowPair(cs, cat, p) == PackedPair(f, at, p))
  }

  // ---------------------------------------------------------------- words

  // Y3 Y2 Y1 Y0
  function YWord(a: bv32, b: bv32, c: bv32): bv32 {
    (a & 0x000000ff) | ((a & 0xff000000) >> 16) | (b & 0x00ff0000) | ((c & 0x0000ff00) << 16)
  }

  // The four chroma sums of a chunk, each of two samples.
  function AccumB0(a: bv32, b: bv32): bv32 { ((a & 0x0000ff00) >> 8) + (b & 0x000000ff) }
  function AccumR0(a: bv32, b: bv32): bv32 { ((a & 0x00ff0000) >> 16) + ((b & 0x0000ff00) >> 8) }
  function AccumB1(b: bv32, c: bv32): bv32 { ((b & 0xff000000) >> 24) + ((c & 0x00ff0000) >> 16) }
  function AccumR1(b: bv32, c: bv32): bv32 { (c & 0x000000ff) + ((c & 0xff000000) >> 24) }

  // Cr1 Cb1 Cr0 Cb0
  function CWord(b0: bv32, r0: bv32, b1: bv32, r1: bv32): bv32 {
    ((b0 >> 1) | ((r0 >> 1) << 8)) | (((b1 >> 1) | ((r1 >> 1) << 8)) << 16)
  }

  lemma YWordIs(y0: bv8, b0: bv8, r0: bv8, y1: bv8, b1: bv8, r1: bv8, y2: bv8, b2: bv8, r2: bv8, y3: bv8, b3: bv8,
                r3: bv8)
    ensures YWord(Word(y0, b0, r0, y1), Word(b1, r1, y2, b2), Word(r2, y3, b3, r3)) == Word(y0, y1, y2, y3)
  {
  }

  /** The masks pick the matching samples of neighbouring pixels out of the words. */
  lemma FirstAccums(y0: bv8, b0: bv8, r0: bv8, y1: bv8, b1: bv8, r1: bv8, y2: bv8, b2: bv8)
    ensures AccumB0(Word(y0, b0, r0, y1), Word(b1, r1, y2, b2)) == (b0 as bv32) + (b1 as bv32)
    ensures AccumR0(Word(y0, b0, r0, y1), Word(b1, r1, y2, b2)) == (r0 as bv32) + (r1 as bv32)
  {
  }

  lemma SecondAccums(b1: bv8, r1: bv8, y2: bv8, b2: bv8, r2: bv8, y3: bv8, b3: bv8, r3: bv8)
    ensures AccumB1(Word(b1, r1, y2, b2), Word(r2, y3, b3, r3)) == (b2 as bv32) + (b3 as bv32)
    ensures AccumR1(Word(b1, r1, y2, b2), Word(r2, y3, b3, r3)) == (r2 as bv32) + (r3 as bv32)
  {
  }

  lemma HalfSum(a: bv8, b: bv8)
    ensures ((a as bv32) + (b as bv32)) >> 1 == Mean(a, b) as bv32
  {
  }

  lemma JoinHalves(m0: bv8, m1: bv8, m2: bv8, m3: bv8)
    ensures ((m0 as bv32) | ((m1 as bv32) << 8)) | (((m2 as bv32) | ((m3 as bv32) << 8)) << 16) == Word(m0, m1, m2, m3)
  {
  }

  /** Halving and packing the four sums yields the two mean pairs in byte order. */
  lemma CWordIs(sb0: bv32, sr0: bv32, sb1: bv32, sr1: bv32,
                b0: bv8, r0: bv8, b1: bv8, r1: bv8, b2: bv8, r2: bv8, b3: bv8, r3: bv8)
    requires sb0 == (b0 as bv32) + (b1 as bv32) && sr0 == (r0 as bv32) + (r1 as bv32)
    requires sb1 == (b2 as bv32) + (b3 as bv32) && sr1 == (r2 as bv32) + (r3 as bv32)
    ensures CWord(sb0, sr0, sb1, sr1) == Word(Mean(b0, b1), Mean(r0, r1), Mean(b2, b3), Mean(r2, r3))
  {
    HalfSum(b0, b1);
    HalfSum(r0, r1);
    HalfSum(b2, b3);
    HalfSum(r2, r3);
    JoinHalves(Mean(b0, b1), Mean(r0, r1), Mean(b2, b3), Mean(r2, r3));
  }

  // ------------------------------------------------- packed to planar, by word

  /** Four luma bytes and two chroma pairs hold the downsampled twelve bytes at `i`. */
  ghost predicate DownChunk(y: array<bv8>, c: array<bv8>, k: nat, inb: array<bv8>, i: nat)
    requires k + 4 <= y.Length && k + 4 <= c.Length && i + 12 <= inb.Length
    reads y, c, inb
  {
    && y[k] == inb[i] && y[k + 1] == inb[i + 3] && y[k + 2] == inb[i + 6] && y[k + 3] == inb[i + 9]
    && c[k] == Mean(inb[i + 1], inb[i + 4]) && c[k + 1] == Mean(inb[i + 2], inb[i + 5])
    && c[k + 2] == Mean(inb[i + 7], inb[i + 10]) && c[k + 3] == Mean(inb[i + 8], inb[i + 11])
  }

  /** Chunk number `k` of the row at `at` is downsampled. */
  ghost predicate DownNth(y: array<bv8>, c: array<bv8>, inb: array<bv8>, at: nat, k: nat)
    requires 4 * k + 4 <= y.Length && 4 * k + 4 <= c.Length && at + 12 * k + 12 <= inb.Length
    reads y, c, inb
  {
    DownChunk(y, c, 4 * k, inb, at + 12 * k)
  }

  /** One pass of the inner loop: three loads, two stores. */
  method DownsampleChunk(y: array<bv8>, c: array<bv8>, k: nat, inb: array<bv8>, i: nat)
    requires y != c && y != inb && c != inb
    requires k + 4 <= y.Length && k + 4 <= c.Length && i + 12 <= inb.Length
    modifies y, c
    ensures DownChunk(y, c, k, inb, i)
    ensures forall j :: 0 <= j < y.Length && !(k <= j < k + 4) ==> y[j] == old(y[j])
    ensures forall j :: 0 <= j < c.Length && !(k <= j < k + 4) ==> c[j] == old(c[j])
  {
    var inworda := LoadWord(inb, i);
    var inwordb := LoadWord(inb, i + 4);
    var inwordc := LoadWord(inb, i + 8);
    var yword := YWord(inworda, inwordb, inwordc);
    var b0, r0 := AccumB0(inworda, inwordb), AccumR0(inworda, inwordb);
    var b1, r1 := AccumB1(inwordb, inwordc), AccumR1(inwordb, inwordc);
    var cword := CWord(b0, r0, b1, r1);
    ChunkWords(inb[i], inb[i + 1], inb[i + 2], inb[i + 3], inb[i + 4], inb[i + 5],
               inb[i + 6], inb[i + 7], inb[i + 8], inb[i + 9], inb[i + 10], inb[i + 11],
               inworda, inwordb, inwordc, yword, cword);
    StoreWord(y, k, yword);
    StoreWord(c, k, cword);
  }

  /** The bytes of the two words made from twelve bytes of input. */
  lemma ChunkWords(y0: bv8, b0: bv8, r0: bv8, y1: bv8, b1: bv8, r1: bv8, y2: bv8, b2: bv8, r2: bv8, y3: bv8, b3: bv8,
                   r3: bv8,
                   a: bv32, b: bv32, c: bv32, yword: bv32, cword: bv32)
    requires a == Word(y0, b0, r0, y1) && b == Word(b1, r1, y2, b2) && c == Word(r2, y3, b3, r3)
    requires yword == YWord(a, b, c)
    requires cword == CWord(AccumB0(a, b), AccumR0(a, b), AccumB1(b, c), AccumR1(b, c))
    ensures Byte0(yword) == y0 && Byte1(yword) == y1 && Byte2(yword) == y2 && Byte3(yword) == y3
    ensures Byte0(cword) == Mean(b0, b1) && Byte1(cword) == Mean(r0, r1)
    ensures Byte2(cword) == Mean(b2, b3) && Byte3(cword) == Mean(r2, r3)
  {
    YWordIs(y0, b0, r0, y1, b1, r1, y2, b2, r2, y3, b3, r3);
    FirstAccums(y0, b0, r0, y1, b1, r1, y2, b2);
    SecondAccums(b1, r1, y2, b2, r2, y3, b3, r3);
    CWordIs(AccumB0(a, b), AccumR0(a, b), AccumB1(b, c), AccumR1(b, c), b0, r0, b1, r1, b2, r2, b3, r3);
    WordBytes(y0, y1, y2, y3);
    WordBytes(Mean(b0, b1), Mean(r0, r1), Mean(b2, b3), Mean(r2, r3));
  }

  /** The inner loop: one row, rounded up to whole chunks. */
  method DownsampleRow(y: array<bv8>, c: array<bv8>, inb: array<bv8>, at: nat, chunks: nat)
    requires y != c && y != inb && c != inb
    requires 4 * chunks <= y.Length && 4 * chunks <= c.Length && at + 12 * chunks <= inb.Length
    modifies y, c
    ensures RowDownsampled(y[..], 0, c[..], 0, inb[..], at, 4 * chunks)
  {
    for x := 0 to chunks
      invariant forall k: nat :: k < x ==> DownNth(y, c, inb, at, k)
    {
      label before:
      DownsampleChunk(y, c, 4 * x, inb, at + 12 * x);
      forall k: nat | k < x + 1
        ensures DownNth(y, c, inb, at, k)
      {
        assert k < x ==> old@before(DownNth(y, c, inb, at, k));
      }
    }
    ChunksAreRow(y, c, inb, at, chunks);
  }

  lemma ChunksAreRow(y: array<bv8>, c: array<bv8>, inb: array<bv8>, at: nat, chunks: nat)
    requires 4 * chunks <= y.Length && 4 * chunks <= c.Length && at + 12 * chunks <= inb.Length
    requires forall k: nat :: k < chunks ==> DownNth(y, c, inb, at, k)
    ensures RowDownsampled(y[..], 0, c[..], 0, inb[..], at, 4 * chunks)
  {
    forall x: nat | x < 4 * chunks
      ensures RowLuma(y[..], 0, x) == PackedLuma(inb[..], at, x)
    {
      assert DownNth(y, c, inb, at, x / 4);
      assert x == 4 * (x / 4) + x % 4;
    }
    forall p: nat | 2 * p + 1 < 4 * chunks
      ensures RowPair(c[..], 0, p) == PackedPair(inb[..], at, p)
    {
      assert DownNth(y, c, inb, at, p / 2);
      assert p == 2 * (p / 2) + p % 2;
    }
  }

  /** Outside of one row of either plane, `g` is `f`. */
  ghost predicate OnlyRowChanged(f: seq<bv8>, g: seq<bv8>, yat: nat, cat: nat, n: nat) {
    && |f| == |g|
    && forall i :: 0 <= i < |f| && !(yat <= i < yat + n) && !(cat <= i < cat + n) ==> f[i] == g[i]
  }

  /** The body of the outer loop: downsample a row and copy it into both planes. */
  method DownsampleLine(lb: array<bv8>, yat: nat, cat: nat, y: array<bv8>, c: array<bv8>,
                        inb: array<bv8>, at: nat, chunks: nat)
    requires lb != y && lb != c && lb != inb && y != c && y != inb && c != inb
    requires 4 * chunks <= y.Length && 4 * chunks <= c.Length && at + 12 * chunks <= inb.Length
    requires yat + 4 * chunks <= cat && cat + 4 * chunks <= lb.Length
    modifies lb, y, c
    ensures OnlyRowChanged(old(lb[..]), lb[..], yat, cat, 4 * chunks)
    ensures RowDownsampled(lb[..], yat, lb[..], cat, inb[..], at, 4 * chunks)
  {
    var n := 4 * chunks;
    ghost var was := lb[..];
    DownsampleRow(y, c, inb, at, chunks);
    MemCpy(lb, yat, y, 0, n);
    ghost var mid := lb[..];
    MemCpy(lb, cat, c, 0, n);
    PieceStored(was, mid, y[..], yat, n);
    PieceStored(mid, lb[..], c[..], cat, n);
    RowMoved(y[..], c[..], lb[..], yat, cat, inb[..], at, n);
  }

  /** What memcpy does to single bytes. */
  lemma PieceStored(f: seq<bv8>, g: seq<bv8>, src: seq<bv8>, d: nat, n: nat)
    requires |f| == |g| && d + n <= |f| && n <= |src|
    requires g[..d] == f[..d] && g[d..d + n] == src[0..n] && g[d + n..] == f[d + n..]
    ensures forall i :: 0 <= i < |f| && !(d <= i < d + n) ==> f[i] == g[i]
    ensures forall i :: 0 <= i < n ==> g[d + i] == src[i]
  {
    forall i | 0 <= i < |f| && !(d <= i < d + n)
      ensures f[i] == g[i]
    {
      if i < d {
        assert f[..d][i] == g[..d][i];
      } else {
        assert f[d + n..][i - d - n] == g[d + n..][i - d - n];
      }
    }
    forall i | 0 <= i < n
      ensures g[d + i] == src[i]
    {
      assert g[d..d + n][i] == src[0..n][i];
    }
  }

  /** A downsampled row stays one when its bytes are moved. */
  lemma RowMoved(ys: seq<bv8>, cs: seq<bv8>, s: seq<bv8>, yat: nat, cat: nat, f: seq<bv8>, at: nat, n: nat)
    requires RowDownsampled(ys, 0, cs, 0, f, at, n)
    requires n <= |ys| && n <= |cs| && yat + n <= |s| && cat + n <= |s|
    requires forall i :: 0 <= i < n ==> s[yat + i] == ys[i]
    requires forall i :: 0 <= i < n ==> s[cat + i] == cs[i]
    ensures RowDownsampled(s, yat, s, cat, f, at, n)
  {
    forall x: nat | x < n
      ensures RowLuma(s, yat, x) == PackedLuma(f, at, x)
    {
      assert RowLuma(ys, 0, x) == PackedLuma(f, at, x);
    }
    forall p: nat | 2 * p + 1 < n
      ensures RowPair(s, cat, p) == PackedPair(f, at, p)
    {
      assert RowPair(cs, 0, p) == PackedPair(f, at, p);
    }
  }

  // ---------------------------------------------------------------- whole strips

  /** Row `y` of the strip with planes at `ybase` and `cbase` is packed row `y` of `f`, downsampled. */
  ghost predicate StripRow(s: seq<bv8>, ybase: nat, cbase: nat, f: seq<bv8>, ibase: nat, pitch: nat, width: nat,
                           y: nat)
  {
    RowDownsampled(s, ybase + RowAt(y, LINEBUFFER_PITCH), s, cbase + RowAt(y, LINEBUFFER_PITCH),
                   f, ibase + RowAt(y, pitch), width)
  }

  /** The first `rows` rows of the strip are the packed rows at `ibase`, downsampled. */
  ghost predicate StripDownsampled(s: seq<bv8>, ybase: nat, cbase: nat, f: seq<bv8>, ibase: nat,
                                   pitch: nat, width: nat, rows: nat)
  {
    forall y: nat :: y < rows ==> StripRow(s, ybase, cbase, f, ibase, pitch, width, y)
  }

  /** What both conversions into a line buffer demand of their arguments. */
  predicate DownArgs(lb: nat, ybase: nat, cbase: nat, inlen: nat, ibase: nat, width: nat, pitch: nat, lines: nat) {
    && width <= LINEBUFFER_PITCH
    && 3 * width <= pitch
    && ybase + RowAt(lines, LINEBUFFER_PITCH) <= cbase
    && cbase + RowAt(lines, LINEBUFFER_PITCH) <= lb
    && ibase + RowAt(lines, pitch) <= inlen
  }

  /** A row written below leaves the rows above it downsampled. */
  lemma StripRowsKept(s: seq<bv8>, t: seq<bv8>, ybase: nat, cbase: nat, f: seq<bv8>, ibase: nat,
                      pitch: nat, width: nat, y: nat, lines: nat, n: nat)
    requires StripDownsampled(s, ybase, cbase, f, ibase, pitch, width, y)
    requires y < lines && width <= n <= LINEBUFFER_PITCH
    requires ybase + RowAt(lines, LINEBUFFER_PITCH) <= cbase && cbase + RowAt(lines, LINEBUFFER_PITCH) <= |s|
    requires OnlyRowChanged(s, t, ybase + RowAt(y, LINEBUFFER_PITCH), cbase + RowAt(y, LINEBUFFER_PITCH), n)
    ensures StripDownsampled(t, ybase, cbase, f, ibase, pitch, width, y)
  {
    forall r: nat | r < y
      ensures StripRow(t, ybase, cbase, f, ibase, pitch, width, r)
    {
      StripRowKept(s, t, ybase, cbase, f, ibase, pitch, width, r, y, lines, n);
    }
  }

  lemma StripRowKept(s: seq<bv8>, t: seq<bv8>, ybase: nat, cbase: nat, f: seq<bv8>, ibase: nat,
                     pitch: nat, width: nat, r: nat, y: nat, lines: nat, n: nat)
    requires StripRow(s, ybase, cbase, f, ibase, pitch, width, r)
    requires r < y < lines && width <= n <= LINEBUFFER_PITCH
    requires ybase + RowAt(lines, LINEBUFFER_PITCH) <= cbase && cbase + RowAt(lines, LINEBUFFER_PITCH) <= |s|
    requires OnlyRowChanged(s, t, ybase + RowAt(y, LINEBUFFER_PITCH), cbase + RowAt(y, LINEBUFFER_PITCH), n)
    ensures StripRow(t, ybase, cbase, f, ibase, pitch, width, r)
  {
    StripRowsApart(r, y, lines);
    var (above, at) := (RowAt(r, LINEBUFFER_PITCH), RowAt(y, LINEBUFFER_PITCH));
    RowElsewhere(s, t, ybase + above, cbase + above, ybase + at, cbase + at, n, f, ibase + RowAt(r, pitch), width);
  }

  lemma StripRowsApart(r: nat, y: nat, lines: nat)
    requires r < y < lines
    ensures RowAt(r, LINEBUFFER_PITCH) + LINEBUFFER_PITCH <= RowAt(y, LINEBUFFER_PITCH)
    ensures RowAt(y, LINEBUFFER_PITCH) + LINEBUFFER_PITCH <= RowAt(lines, LINEBUFFER_PITCH)
  {
    RowBelow(r, y, LINEBUFFER_PITCH);
    RowBelow(y, lines, LINEBUFFER_PITCH);
  }

  lemma RowElsewhere(s: seq<bv8>, t: seq<bv8>, yat: nat, cat: nat, yother: nat, cother: nat, n: nat,
                     f: seq<bv8>, at: nat, width: nat)
    requires OnlyRowChanged(s, t, yother, cother, n)
    requires yat + width <= yother && yother + n <= cat && cat + width <= cother
    requires RowDownsampled(s, yat, s, cat, f, at, width)
    ensures RowDownsampled(t, yat, t, cat, f, at, width)
  {
    forall x: nat | x < width
      ensures RowLuma(t, yat, x) == PackedLuma(f, at, x)
    {
      assert RowLuma(s, yat, x) == PackedLuma(f, at, x);
    }
    forall p: nat | 2 * p + 1 < width
      ensures RowPair(t, cat, p) == PackedPair(f, at, p)
    {
      assert RowPair(s, cat, p) == PackedPair(f, at, p);
    }
  }

  /** Reading a row from the copied frame is reading it from the frame. */
  lemma RowFromCopy(s: seq<bv8>, yat: nat, cat: nat, copy: seq<bv8>, at: nat, f: seq<bv8>, ibase: nat, n: nat,
                    wide: nat, width: nat)
    requires RowDownsampled(s, yat, s, cat, copy, at, wide)
    requires width <= wide && at + 3 * width <= n <= |copy| && ibase + n <= |f|
    requires copy[..n] == f[ibase..ibase + n]
    ensures RowDownsampled(s, yat, s, cat, f, ibase + at, width)
  {
    forall i: nat | i < n
      ensures copy[i] == f[ibase + i]
    {
      assert copy[..n][i] == f[ibase..ibase + n][i];
    }
    forall x: nat | x < width
      ensures RowLuma(s, yat, x) == PackedLuma(f, ibase + at, x)
    {
      assert RowLuma(s, yat, x) == PackedLuma(copy, at, x);
    }
    forall p: nat | 2 * p + 1 < width
      ensures RowPair(s, cat, p) == PackedPair(f, ibase + at, p)
    {
      assert RowPair(s, cat, p) == PackedPair(copy, at, p);
    }
  }

  /** One more row below the rows that are already right. */
  lemma AddStripRow(s: seq<bv8>, t: seq<bv8>, ybase: nat, cbase: nat, f: seq<bv8>, ibase: nat, pitch: nat,
                    width: nat, y: nat, lines: nat, copy: seq<bv8>, n: nat)
    requires StripDownsampled(s, ybase, cbase, f, ibase, pitch, width, y)
    requires y < lines && width <= n <= LINEBUFFER_PITCH && 3 * width <= pitch
    requires ybase + RowAt(lines, LINEBUFFER_PITCH) <= cbase && cbase + RowAt(lines, LINEBUFFER_PITCH) <= |s|
    requires OnlyRowChanged(s, t, ybase + RowAt(y, LINEBUFFER_PITCH), cbase + RowAt(y, LINEBUFFER_PITCH), n)
    requires RowAt(lines, pitch) <= |copy| && ibase + RowAt(lines, pitch) <= |f|
    requires copy[..RowAt(lines, pitch)] == f[ibase..ibase + RowAt(lines, pitch)]
    requires RowDownsampled(t, ybase + RowAt(y, LINEBUFFER_PITCH), t, cbase + RowAt(y, LINEBUFFER_PITCH),
                            copy, RowAt(y, pitch), n)
    ensures StripDownsampled(t, ybase, cbase, f, ibase, pitch, width, y + 1)
  {
    NewStripRow(t, ybase, cbase, f, ibase, pitch, width, y, lines, copy, n);
    StripRowsKept(s, t, ybase, cbase, f, ibase, pitch, width, y, lines, n);
    StripExtends(t, ybase, cbase, f, ibase, pitch, width, y);
  }

  lemma StripExtends(t: seq<bv8>, ybase: nat, cbase: nat, f: seq<bv8>, ibase: nat, pitch: nat, width: nat, y: nat)
    requires StripDownsampled(t, ybase, cbase, f, ibase, pitch, width, y)
    requires StripRow(t, ybase, cbase, f, ibase, pitch, width, y)
    ensures StripDownsampled(t, ybase, cbase, f, ibase, pitch, width, y + 1)
  {
  }

  /** The row just written shows the packed row of the frame that was copied. */
  lemma NewStripRow(t: seq<bv8>, ybase: nat, cbase: nat, f: seq<bv8>, ibase: nat, pitch: nat,
                    width: nat, y: nat, lines: nat, copy: seq<bv8>, n: nat)
    requires y < lines && width <= n && 3 * width <= pitch
    requires RowAt(lines, pitch) <= |copy| && ibase + RowAt(lines, pitch) <= |f|
    requires copy[..RowAt(lines, pitch)] == f[ibase..ibase + RowAt(lines, pitch)]
    requires RowDownsampled(t, ybase + RowAt(y, LINEBUFFER_PITCH), t, cbase + RowAt(y, LINEBUFFER_PITCH),
                            copy, RowAt(y, pitch), n)
    ensures StripRow(t, ybase, cbase, f, ibase, pitch, width, y)
  {
    RowBelow(y, lines, pitch);
    RowFromCopy(t, ybase + RowAt(y, LINEBUFFER_PITCH), cbase + RowAt(y, LINEBUFFER_PITCH),
                copy, RowAt(y, pitch), f, ibase, RowAt(lines, pitch), n, width);
  }

  /** A change within one row of each plane is a change within the planes. */
  lemma WindowGrows(f: seq<bv8>, g: seq<bv8>, h: seq<bv8>, ybase: nat, cbase: nat, yat: nat, cat: nat, n: nat,
                    size: nat)
    requires OnlyRowChanged(f, g, ybase, cbase, size) && OnlyRowChanged(g, h, yat, cat, n)
    requires ybase <= yat && yat + n <= ybase + size && cbase <= cat && cat + n <= cbase + size
    ensures OnlyRowChanged(f, h, ybase, cbase, size)
  {
  }

  /** Chunk `x` of row `y` is read from inside a work buffer with room for `lines` rows and the spare bytes. */
  predicate ChunkInside(pitch: nat, lines: nat, y: nat, x: nat) {
    RowAt(y, pitch) + 12 * x + 12 <= RowAt(lines, pitch) + CONV_CHUNK_SIZE
  }

  /**
   * Exactly when every chunk is read from inside the work buffer: when a row rounded up to
   * whole chunks exceeds the pitch by no more than the spare bytes.
   */
  lemma ReadsInsideExactly(width: nat, pitch: nat, lines: nat)
    requires 0 < lines
    ensures (forall y: nat, x: nat :: y < lines && x < Chunks(width) ==> ChunkInside(pitch, lines, y, x))
       <==> 12 * Chunks(width) <= pitch + CONV_CHUNK_SIZE
  {
    if 12 * Chunks(width) <= pitch + CONV_CHUNK_SIZE {
      forall y: nat, x: nat | y < lines && x < Chunks(width)
        ensures ChunkInside(pitch, lines, y, x)
      {
        RowBelow(y, lines, pitch);
      }
    } else {
      RowBelow(lines - 1, lines, pitch);
      assert !ChunkInside(pitch, lines, lines - 1, Chunks(width) - 1);
    }
  }

  /**
   * With rows packed without a gap, which is how libjpeg's scanlines are kept, that fails
   * just for the widths one or two beyond a multiple of four, by five bytes or two.
   */
  lemma ReadsInsideTightRows(width: nat, lines: nat)
    requires 0 < lines
    ensures (forall y: nat, x: nat :: y < lines && x < Chunks(width) ==> ChunkInside(3 * width, lines, y, x))
       <==> width % 4 != 1 && width % 4 != 2
    ensures 12 * Chunks(width) <= 3 * width + CONV_CHUNK_SIZE + BEHIND
  {
    ReadsInsideExactly(width, 3 * width, lines);
    assert width == 4 * (width / 4) + width % 4;
  }

  /** How many bytes behind the work buffer the last row can reach. */
  const BEHIND: nat := 5

  /** One pass of the outer loop, and what it leaves of the strip. */
  method DownsampleNext(lb: array<bv8>, ybase: nat, cbase: nat, yroot: array<bv8>, croot: array<bv8>,
                        inroot: array<bv8>,
                        y: nat, inp: nat, outY: nat, outC: nat, chunks: nat, ghost f: seq<bv8>, ghost ibase: nat,
                        ghost width: nat, ghost pitch: nat, ghost lines: nat)
    requires lb != yroot && lb != croot && lb != inroot && yroot != croot && yroot != inroot && croot != inroot
    requires DownArgs(lb.Length, ybase, cbase, |f|, ibase, width, pitch, lines) && y < lines && chunks == Chunks(width)
    requires 4 * chunks <= yroot.Length && 4 * chunks <= croot.Length && inp + 12 * chunks <= inroot.Length
    requires inp == RowAt(y, pitch) && RowAt(lines, pitch) <= inroot.Length
    requires outY == ybase + RowAt(y, LINEBUFFER_PITCH) && outC == cbase + RowAt(y, LINEBUFFER_PITCH)
    requires inroot[..RowAt(lines, pitch)] == f[ibase..ibase + RowAt(lines, pitch)]
    requires StripDownsampled(lb[..], ybase, cbase, f, ibase, pitch, width, y)
    modifies lb, yroot, croot
    ensures StripDownsampled(lb[..], ybase, cbase, f, ibase, pitch, width, y + 1)
    ensures OnlyRowChanged(old(lb[..]), lb[..], outY, outC, 4 * chunks)
  {
    RowBelow(y, lines, LINEBUFFER_PITCH);
    ghost var was := lb[..];
    DownsampleLine(lb, outY, outC, yroot, croot, inroot, inp, chunks);
    AddStripRow(was, lb[..], ybase, cbase, f, ibase, pitch, width, y, lines, inroot[..], 4 * chunks);
  }

  /**
   * Packed YCbCr to NV16 planes, four pixels at a time. Every row is rounded up to whole
   * chunks, so that its tail may reach into the next row, and the tail of the last row into
   * the spare bytes of the work buffer and behind it (ReadsInsideExactly). What lies there
   * does not matter: it reaches only pixels past the width.
   */
  method SoftFromYCbCrByWord(lb: array<bv8>, ybase: nat, cbase: nat, inbuf: array<bv8>, ibase: nat,
                             width: nat, pitch: nat, lines: nat)
    requires lb != inbuf
    requires DownArgs(lb.Length, ybase, cbase, inbuf.Length, ibase, width, pitch, lines)
    modifies lb
    ensures StripDownsampled(lb[..], ybase, cbase, inbuf[..], ibase, pitch, width, lines)
    ensures OnlyRowChanged(old(lb[..]), lb[..], ybase, cbase, RowAt(lines, LINEBUFFER_PITCH))
  {
    var chunks := Chunks(width);
    var outpitchskip := LINEBUFFER_PITCH;
    var inpitchskip: int := pitch - chunks * CONV_CHUNK_SIZE * 3;
    // the work buffer, followed by what happens to lie behind it
    var inroot := CopyOut(inbuf, ibase, RowAt(lines, pitch), RowAt(lines, pitch) + CONV_CHUNK_SIZE + BEHIND);
    var yroot := new bv8[LINEBUFFER_PITCH];
    var croot := new bv8[LINEBUFFER_PITCH];
    var inp, outY, outC := 0, ybase, cbase;
    ghost var start, n := lb[..], RowAt(lines, pitch);
    for y := 0 to lines
      invariant inp == RowAt(y, pitch)
      invariant outY == ybase + RowAt(y, LINEBUFFER_PITCH) && outC == cbase + RowAt(y, LINEBUFFER_PITCH)
      invariant StripDownsampled(lb[..], ybase, cbase, inbuf[..], ibase, pitch, width, y)
      invariant OnlyRowChanged(start, lb[..], ybase, cbase, RowAt(lines, LINEBUFFER_PITCH))
      invariant inroot[..n] == inbuf[..][ibase..ibase + n]
    {
      RowBelow(y, lines, pitch);
      RowBelow(y, lines, LINEBUFFER_PITCH);
      ghost var was := lb[..];
      DownsampleNext(lb, ybase, cbase, yroot, croot, inroot, y, inp, outY, outC, chunks, inbuf[..],
                     ibase, width, pitch, lines);
      WindowGrows(start, was, lb[..], ybase, cbase, outY, outC, 4 * chunks, RowAt(lines, LINEBUFFER_PITCH));
      inp := inp + 12 * chunks;
      outY := outY + outpitchskip;
      outC := outC + outpitchskip;
      inp := inp + inpitchskip;
    }
  }

  // ------------------------------------------------- packed to planar, by byte

  /** One turn of the byte form's inner loop at pixel `x`. */
  method DownsamplePixel(y: array<bv8>, yat: nat, c: array<bv8>, cat: nat, inb: array<bv8>, at: nat,
                         x: nat, accumCb: bv16, accumCr: bv16)
    returns (cb: bv16, cr: bv16)
    requires y != c && y != inb && c != inb
    requires yat < y.Length && at + 3 <= inb.Length && (x % 2 == 1 ==> cat + 2 <= c.Length && 3 <= at)
    requires Accumulated(accumCb, accumCr, inb[..], at, x)
    modifies y, c
    ensures Accumulated(cb, cr, inb[..], at + 3, x + 1)
    ensures x % 2 == 0 ==> c[..] == old(c[..])
    ensures x % 2 == 1 ==>
      c[..] == old(c[..])[cat := Mean(inb[at - 2], inb[at + 1])][cat + 1 := Mean(inb[at - 1], inb[at + 2])]
    ensures y[..] == old(y[..])[yat := inb[at]]
  {
    y[yat] := inb[at];
    cb := accumCb + inb[at + 1] as bv16;
    cr := accumCr + inb[at + 2] as bv16;
    if x % 2 == 1 {
      HalveSum(cb, inb[at - 2], inb[at + 1]);
      HalveSum(cr, inb[at - 1], inb[at + 2]);
      c[cat] := (cb >> 1) as bv8;
      c[cat + 1] := (cr >> 1) as bv8;
      cb, cr := 0, 0;
    }
  }

  /** `ys` after the luma of the first `x` pixels of the packed row at `at` was stored at `yat`. */
  function LumaStored(ys: seq<bv8>, yat: nat, f: seq<bv8>, at: nat, x: nat): (r: seq<bv8>)
    requires yat + x <= |ys|
    ensures |r| == |ys|
  {
    if x == 0 then ys else LumaStored(ys, yat, f, at, x - 1)[yat + x - 1 := PackedLuma(f, at, x - 1)]
  }

  /** `cs` after the first `p` mean pairs of the packed row at `at` were stored at `cat`. */
  function PairsStored(cs: seq<bv8>, cat: nat, f: seq<bv8>, at: nat, p: nat): (r: seq<bv8>)
    requires cat + 2 * p <= |cs|
    ensures |r| == |cs|
  {
    if p == 0 then cs else
      var pair := PackedPair(f, at, p - 1);
      PairsStored(cs, cat, f, at, p - 1)[cat + 2 * p - 2 := pair.cb][cat + 2 * p - 1 := pair.cr]
  }

  lemma {:induction false} LumaStoredIs(ys: seq<bv8>, yat: nat, f: seq<bv8>, at: nat, x: nat)
    requires yat + x <= |ys|
    ensures OnlyChanged(ys, LumaStored(ys, yat, f, at, x), yat, x)
    ensures forall k: nat :: k < x ==> RowLuma(LumaStored(ys, yat, f, at, x), yat, k) == PackedLuma(f, at, k)
  {
    if x > 0 {
      LumaStoredIs(ys, yat, f, at, x - 1);
      var r := LumaStored(ys, yat, f, at, x - 1);
      forall k: nat | k < x
        ensures RowLuma(LumaStored(ys, yat, f, at, x), yat, k) == PackedLuma(f, at, k)
      {
        assert k < x - 1 ==> RowLuma(r, yat, k) == PackedLuma(f, at, k);
      }
    }
  }

  lemma {:induction false} PairsStoredIs(cs: seq<bv8>, cat: nat, f: seq<bv8>, at: nat, p: nat)
    requires cat + 2 * p <= |cs|
    ensures OnlyChanged(cs, PairsStored(cs, cat, f, at, p), cat, 2 * p)
    ensures forall k: nat :: k < p ==> RowPair(PairsStored(cs, cat, f, at, p), cat, k) == PackedPair(f, at, k)
  {
    if p > 0 {
      PairsStoredIs(cs, cat, f, at, p - 1);
      var r := PairsStored(cs, cat, f, at, p - 1);
      forall k: nat | k < p
        ensures RowPair(PairsStored(cs, cat, f, at, p), cat, k) == PackedPair(f, at, k)
      {
        assert k < p - 1 ==> RowPair(r, cat, k) == PackedPair(f, at, k);
      }
    }
  }

  /** One turn of the inner loop, and what it leaves of the row. */
  method DownsampleNextPixel(y: array<bv8>, outY: nat, c: array<bv8>, outC: nat, inb: array<bv8>, inp: nat, x: nat,
                             accumCb: bv16, accumCr: bv16, ghost ys: seq<bv8>, ghost yat: nat, ghost cs: seq<bv8>,
                             ghost cat: nat, ghost at: nat, ghost p: nat)
    returns (cb: bv16, cr: bv16)
    requires y != c && y != inb && c != inb && x == 2 * p + x % 2
    requires outY == yat + x < y.Length && inp == at + 3 * x && inp + 3 <= inb.Length
    requires outC == cat + 2 * p && outC + (if x % 2 == 1 then 2 else 0) <= c.Length
    requires |ys| == y.Length && |cs| == c.Length
    requires Accumulated(accumCb, accumCr, inb[..], inp, x)
    requires y[..] == LumaStored(ys, yat, inb[..], at, x) && c[..] == PairsStored(cs, cat, inb[..], at, p)
    modifies y, c
    ensures Accumulated(cb, cr, inb[..], inp + 3, x + 1)
    ensures y[..] == LumaStored(ys, yat, inb[..], at, x + 1)
    ensures c[..] == PairsStored(cs, cat, inb[..], at, p + x % 2)
  {
    PixelStored(ys, yat, cs, cat, inb[..], at, x, p);
    cb, cr := DownsamplePixel(y, outY, c, outC, inb, inp, x, accumCb, accumCr);
  }

  /**
   * The inner loop of the byte form: luma is copied, chroma is summed over two pixels and
   * halved.
   */
  method DownsamplePixels(y: array<bv8>, yat: nat, c: array<bv8>, cat: nat, inb: array<bv8>, at: nat, width: nat)
    returns (accumCb: bv16, accumCr: bv16)
    requires y != c && y != inb && c != inb
    requires at + 3 * width <= inb.Length && yat + width <= y.Length && cat + 2 * (width / 2) <= c.Length
    modifies y, c
    ensures y[..] == LumaStored(old(y[..]), yat, inb[..], at, width)
    ensures c[..] == PairsStored(old(c[..]), cat, inb[..], at, width / 2)
    ensures Accumulated(accumCb, accumCr, inb[..], at + 3 * width, width)
  {
    accumCb, accumCr := 0, 0;
    var outY, outC, inp := yat, cat, at;
    ghost var f, p: nat, half := inb[..], 0, width / 2;
    ghost var ys, cs := y[..], c[..];
    assert width == 2 * half + width % 2;
    for x := 0 to width
      invariant x == 2 * p + x % 2 && p <= half
      invariant outY == yat + x && outC == cat + 2 * p && inp == at + 3 * x
      invariant Accumulated(accumCb, accumCr, f, inp, x)
      invariant y[..] == LumaStored(ys, yat, f, at, x) && c[..] == PairsStored(cs, cat, f, at, p)
    {
      accumCb, accumCr := DownsampleNextPixel(y, outY, c, outC, inb, inp, x, accumCb, accumCr, ys, yat, cs, cat, at, p);
      outY, inp := outY + 1, inp + 3;
      if x % 2 == 1 {
        outC, p := outC + 2, p + 1;
      }
    }
    assert p == half;
  }

  /** What the byte form has accumulated before pixel `x`: nothing, or the chroma of the pixel before. */
  predicate Accumulated(cb: bv16, cr: bv16, f: seq<bv8>, at: nat, x: nat) {
    if x % 2 == 0 then cb == 0 && cr == 0
    else 3 <= at <= |f| && cb == f[at - 2] as bv16 && cr == f[at - 1] as bv16
  }

  /** Storing pixel `x` stores one luma byte more, and one pair more if it is an odd one. */
  lemma PixelStored(ys: seq<bv8>, yat: nat, cs: seq<bv8>, cat: nat, f: seq<bv8>, at: nat, x: nat, p: nat)
    requires x == 2 * p + x % 2 && at + 3 * x + 3 <= |f| && yat + x < |ys| && cat + 2 * p <= |cs|
    ensures LumaStored(ys, yat, f, at, x + 1) == LumaStored(ys, yat, f, at, x)[yat + x := f[at + 3 * x]]
    ensures x % 2 == 1 && cat + 2 * p + 2 <= |cs| ==>
      var i := at + 3 * x;
      PairsStored(cs, cat, f, at, p + 1)
      == PairsStored(cs, cat, f, at, p)[cat + 2 * p := Mean(f[i - 2], f[i + 1])]
                                       [cat + 2 * p + 1 := Mean(f[i - 1], f[i + 2])]
  {
  }

  /** Storing every luma byte and every whole pair of a row downsamples it. */
  lemma RowIsStored(ys: seq<bv8>, yat: nat, cs: seq<bv8>, cat: nat, f: seq<bv8>, at: nat, width: nat)
    requires yat + width <= |ys| && cat + 2 * (width / 2) <= |cs|
    ensures var (y, c) := (LumaStored(ys, yat, f, at, width), PairsStored(cs, cat, f, at, width / 2));
            && RowDownsampled(y, yat, c, cat, f, at, width)
            && OnlyChanged(ys, y, yat, width) && OnlyChanged(cs, c, cat, width - width % 2)
  {
    LumaStoredIs(ys, yat, f, at, width);
    PairsStoredIs(cs, cat, f, at, width / 2);
  }

  /** One row of the byte form. The last pixel of an odd row leaves its own chroma, not a mean. */
  method DownsampleRowByByte(y: array<bv8>, yat: nat, c: array<bv8>, cat: nat, inb: array<bv8>, at: nat, width: nat)
    returns (yEnd: nat, cEnd: nat, inEnd: nat)
    requires y != c && y != inb && c != inb
    requires at + 3 * width <= inb.Length && yat + width <= y.Length && cat + 2 * ((width + 1) / 2) <= c.Length
    modifies y, c
    ensures yEnd == yat + width && cEnd == cat + width && inEnd == at + 3 * width
    ensures ByteRow(y[..], yat, c[..], cat, inb[..], at, width)
    ensures OnlyChanged(old(y[..]), y[..], yat, width)
    ensures OnlyChanged(old(c[..]), c[..], cat, width + width % 2)
  {
    ghost var ys, cs := y[..], c[..];
    var accumCb, accumCr := DownsampleWholePairs(y, yat, c, cat, inb, at, width);
    yEnd, cEnd, inEnd := yat + width, cat + 2 * (width / 2), at + 3 * width;
    if width % 2 == 1 {
      ghost var mid := c[..];
      cEnd := FlushLastPair(c, cEnd, accumCb, accumCr);
      OddRowFinished(y[..], yat, cs, mid, c[..], cat, inb[..], at, width);
    }
  }

  /** The pixels and the whole pairs of a row. */
  method DownsampleWholePairs(y: array<bv8>, yat: nat, c: array<bv8>, cat: nat, inb: array<bv8>, at: nat, width: nat)
    returns (accumCb: bv16, accumCr: bv16)
    requires y != c && y != inb && c != inb
    requires at + 3 * width <= inb.Length && yat + width <= y.Length && cat + 2 * (width / 2) <= c.Length
    modifies y, c
    ensures RowDownsampled(y[..], yat, c[..], cat, inb[..], at, width)
    ensures OnlyChanged(old(y[..]), y[..], yat, width) && OnlyChanged(old(c[..]), c[..], cat, width - width % 2)
    ensures Accumulated(accumCb, accumCr, inb[..], at + 3 * width, width)
  {
    ghost var ys, cs := y[..], c[..];
    accumCb, accumCr := DownsamplePixels(y, yat, c, cat, inb, at, width);
    RowIsStored(ys, yat, cs, cat, inb[..], at, width);
  }

  /** The chroma still accumulated at the end of an odd row is stored as it is. */
  method FlushLastPair(c: array<bv8>, cat: nat, cb: bv16, cr: bv16) returns (cEnd: nat)
    requires cat + 2 <= c.Length && cb < 256 && cr < 256
    modifies c
    ensures cEnd == cat + 1
    ensures c[..] == old(c[..])[cat := cb as bv8][cat + 1 := cr as bv8]
  {
    c[cat] := cb as bv8;
    cEnd := cat + 1;
    c[cEnd] := cr as bv8;
  }

  /** Outside of `n` bytes at `at`, `g` is `f`. */
  ghost predicate OnlyChanged(f: seq<bv8>, g: seq<bv8>, at: nat, n: nat) {
    && |f| == |g|
    && forall i :: 0 <= i < |f| && !(at <= i < at + n) ==> f[i] == g[i]
  }

  /** The byte form's last pair of an odd row: the chroma of the last pixel itself. */
  predicate LastPairAlone(cs: seq<bv8>, cat: int, f: seq<bv8>, at: int, width: nat) {
    RowPair(cs, cat, width / 2) == Pair(At(f, at + 3 * width - 2), At(f, at + 3 * width - 1))
  }

  lemma HalveSum(sum: bv16, a: bv8, b: bv8)
    requires sum == (a as bv16) + (b as bv16)
    ensures sum >> 1 < 256 && (sum >> 1) as bv8 == Mean(a, b)
  {
  }

  /** The last pair of an odd row is written past the whole pairs. */
  lemma OddRowFinished(ys: seq<bv8>, yat: nat, cs0: seq<bv8>, cs: seq<bv8>, cs': seq<bv8>, cat: nat,
                       f: seq<bv8>, at: nat, width: nat)
    requires width % 2 == 1 && cat + width < |cs| && at + 3 * width <= |f|
    requires RowDownsampled(ys, yat, cs, cat, f, at, width)
    requires OnlyChanged(cs0, cs, cat, width - 1)
    requires cs' == cs[cat + width - 1 := f[at + 3 * width - 2]][cat + width := f[at + 3 * width - 1]]
    ensures RowDownsampled(ys, yat, cs', cat, f, at, width)
    ensures LastPairAlone(cs', cat, f, at, width)
    ensures OnlyChanged(cs0, cs', cat, width + 1)
  {
    forall p: nat | 2 * p + 1 < width
      ensures RowPair(cs', cat, p) == PackedPair(f, at, p)
    {
      assert RowPair(cs, cat, p) == RowPair(cs', cat, p);
    }
  }

  /** What the byte form makes of a row: the downsampled row, and for odd widths a last pair. */
  ghost predicate ByteRow(ys: seq<bv8>, yat: nat, cs: seq<bv8>, cat: nat, f: seq<bv8>, at: nat, width: nat) {
    && RowDownsampled(ys, yat, cs, cat, f, at, width)
    && (width % 2 == 1 ==> LastPairAlone(cs, cat, f, at, width))
  }

  /** Row `y` of two separate planes is packed row `y` of `f`. */
  ghost predicate PlanesRow(ys: seq<bv8>, cs: seq<bv8>, f: seq<bv8>, pitch: nat, width: nat, y: nat) {
    ByteRow(ys, RowAt(y, LINEBUFFER_PITCH), cs, RowAt(y, LINEBUFFER_PITCH), f, RowAt(y, pitch), width)
  }

  lemma ByteRowKept(ys: seq<bv8>, ys': seq<bv8>, cs: seq<bv8>, cs': seq<bv8>, at: nat, f: seq<bv8>, fat: nat,
                    width: nat, from: nat)
    requires ByteRow(ys, at, cs, at, f, fat, width)
    requires at + width + width % 2 <= from
    requires |ys| == |ys'| && |cs| == |cs'|
    requires forall i :: 0 <= i < |ys| && i < from ==> ys[i] == ys'[i]
    requires forall i :: 0 <= i < |cs| && i < from ==> cs[i] == cs'[i]
    ensures ByteRow(ys', at, cs', at, f, fat, width)
  {
    forall k: nat | k < width
      ensures RowLuma(ys', at, k) == PackedLuma(f, fat, k)
    {
      assert RowLuma(ys, at, k) == RowLuma(ys', at, k);
    }
    forall p: nat | 2 * p + 1 < width
      ensures RowPair(cs', at, p) == PackedPair(f, fat, p)
    {
      assert RowPair(cs, at, p) == RowPair(cs', at, p);
    }
    if width % 2 == 1 {
      assert RowPair(cs, at, width / 2) == RowPair(cs', at, width / 2);
    }
  }

  /** One more row of the byte form below the rows that are already right. */
  lemma AddPlanesRow(ys: seq<bv8>, ys': seq<bv8>, cs: seq<bv8>, cs': seq<bv8>, f: seq<bv8>, pitch: nat,
                     width: nat, y: nat, n: nat)
    requires forall r: nat :: r < y ==> PlanesRow(ys, cs, f, pitch, width, r)
    requires width <= LINEBUFFER_PITCH && width + width % 2 == n
    requires OnlyChanged(ys, ys', RowAt(y, LINEBUFFER_PITCH), width)
    requires OnlyChanged(cs, cs', RowAt(y, LINEBUFFER_PITCH), n)
    requires PlanesRow(ys', cs', f, pitch, width, y)
    ensures forall r: nat :: r < y + 1 ==> PlanesRow(ys', cs', f, pitch, width, r)
  {
    forall r: nat | r < y + 1
      ensures PlanesRow(ys', cs', f, pitch, width, r)
    {
      if r < y {
        assert PlanesRow(ys, cs, f, pitch, width, r);
        RowBelow(r, y, LINEBUFFER_PITCH);
        ByteRowKept(ys, ys', cs, cs', RowAt(r, LINEBUFFER_PITCH), f, RowAt(r, pitch), width,
                    RowAt(y, LINEBUFFER_PITCH));
      }
    }
  }

  /** The row loop of the byte form, into work planes. */
  method DownsampleRowsByByte(yroot: array<bv8>, croot: array<bv8>, inroot: array<bv8>, width: nat, pitch: nat,
                              lines: nat)
    requires yroot != croot && yroot != inroot && croot != inroot
    requires width <= LINEBUFFER_PITCH && 3 * width <= pitch
    requires yroot.Length == croot.Length == RowAt(lines, LINEBUFFER_PITCH) && RowAt(lines, pitch) <= inroot.Length
    modifies yroot, croot
    ensures forall y: nat :: y < lines ==> PlanesRow(yroot[..], croot[..], inroot[..], pitch, width, y)
  {
    var outpitchskip := LINEBUFFER_PITCH - width;
    var inpitchskip := pitch - width * 3;
    var outY, outC, inp := 0, 0, 0;
    ghost var f := inroot[..];
    for y := 0 to lines
      invariant outY == outC == RowAt(y, LINEBUFFER_PITCH) && inp == RowAt(y, pitch)
      invariant inroot[..] == f
      invariant forall r: nat :: r < y ==> PlanesRow(yroot[..], croot[..], f, pitch, width, r)
    {
      RowBelow(y, lines, pitch);
      RowBelow(y, lines, LINEBUFFER_PITCH);
      ghost var ys, cs := yroot[..], croot[..];
      outY, outC, inp := DownsampleRowByByte(yroot, outY, croot, outC, inroot, inp, width);
      assert inroot[..] == f;
      AddPlanesRow(ys, yroot[..], cs, croot[..], f, pitch, width, y, width + width % 2);
      outY := outY + outpitchskip;
      outC := outC + outpitchskip;
      inp := inp + inpitchskip;
    }
  }

  /** The byte form's last chroma pairs of an odd-width strip. */
  ghost predicate LastPairsAlone(s: seq<bv8>, cbase: nat, f: seq<bv8>, ibase: nat, pitch: nat, width: nat, rows: nat) {
    forall y: nat :: y < rows ==> LastPairOfRow(s, cbase, f, ibase, pitch, width, y)
  }

  ghost predicate LastPairOfRow(s: seq<bv8>, cbase: nat, f: seq<bv8>, ibase: nat, pitch: nat, width: nat, y: nat) {
    LastPairAlone(s, cbase + RowAt(y, LINEBUFFER_PITCH), f, ibase + RowAt(y, pitch), width)
  }

  /** Copying the work planes and reading the copied frame give the row of the strip. */
  lemma PlanesRowMoved(ys: seq<bv8>, cs: seq<bv8>, s: seq<bv8>, ybase: nat, cbase: nat, copy: seq<bv8>, f: seq<bv8>,
                       ibase: nat, n: nat, yat: nat, at: nat, width: nat)
    requires ByteRow(ys, yat, cs, yat, copy, at, width)
    requires yat + width + width % 2 <= |ys| == |cs| && at + 3 * width <= n <= |copy| && ibase + n <= |f|
    requires ybase + |ys| <= |s| && cbase + |cs| <= |s|
    requires s[ybase..ybase + |ys|] == ys && s[cbase..cbase + |cs|] == cs
    requires copy[..n] == f[ibase..ibase + n]
    ensures RowDownsampled(s, ybase + yat, s, cbase + yat, f, ibase + at, width)
    ensures width % 2 == 1 ==> LastPairAlone(s, cbase + yat, f, ibase + at, width)
  {
    forall i | 0 <= i < n
      ensures At(f, ibase + i) == At(copy, i)
    {
      assert copy[..n][i] == f[ibase..ibase + n][i];
    }
    forall i | 0 <= i < |ys|
      ensures At(s, ybase + i) == At(ys, i) && At(s, cbase + i) == At(cs, i)
    {
      SliceAt(s, ybase, |ys|, ys, i);
      SliceAt(s, cbase, |cs|, cs, i);
    }
    var sy, sc, fa := ybase + yat, cbase + yat, ibase + at;
    forall x: nat | x < width
      ensures RowLuma(s, sy, x) == PackedLuma(f, fa, x)
    {
      assert RowLuma(ys, yat, x) == PackedLuma(copy, at, x);
      assert sy + x == ybase + (yat + x) && fa + 3 * x == ibase + (at + 3 * x);
    }
    forall p: nat | 2 * p + 1 < width
      ensures RowPair(s, sc, p) == PackedPair(f, fa, p)
    {
      assert RowPair(cs, yat, p) == PackedPair(copy, at, p);
      PairMoved(cs, yat, s, cbase, p);
      PackedPairMoved(copy, at, f, ibase, n, p);
    }
    if width % 2 == 1 {
      PairMoved(cs, yat, s, cbase, width / 2);
      var i := at + 3 * width - 2;
      assert At(f, ibase + i) == At(copy, i) && At(f, ibase + (i + 1)) == At(copy, i + 1);
    }
  }

  lemma PairMoved(cs: seq<bv8>, yat: nat, s: seq<bv8>, cbase: nat, p: nat)
    requires yat + 2 * p + 1 < |cs|
    requires forall i :: 0 <= i < |cs| ==> At(s, cbase + i) == At(cs, i)
    ensures RowPair(s, cbase + yat, p) == RowPair(cs, yat, p)
  {
    var i := yat + 2 * p;
    assert At(s, cbase + i) == At(cs, i) && At(s, cbase + (i + 1)) == At(cs, i + 1);
  }

  lemma PackedPairMoved(copy: seq<bv8>, at: nat, f: seq<bv8>, ibase: nat, n: nat, p: nat)
    requires at + 6 * p + 6 <= n
    requires forall i :: 0 <= i < n ==> At(f, ibase + i) == At(copy, i)
    ensures PackedPair(f, ibase + at, p) == PackedPair(copy, at, p)
  {
    var i := at + 6 * p;
    assert At(f, ibase + i) == At(copy, i) && At(f, ibase + (i + 1)) == At(copy, i + 1);
    assert At(f, ibase + (i + 2)) == At(copy, i + 2) && At(f, ibase + (i + 3)) == At(copy, i + 3);
    assert At(f, ibase + (i + 4)) == At(copy, i + 4) && At(f, ibase + (i + 5)) == At(copy, i + 5);
    assert PackedAt(f, ibase + at + 6 * p) == PackedAt(copy, i);
    assert PackedAt(f, ibase + at + 6 * p + 3) == PackedAt(copy, i + 3);
  }

  /** Packed YCbCr to NV16 planes, a byte at a time. */
  method SoftFromYCbCrByByte(lb: array<bv8>, ybase: nat, cbase: nat, inbuf: array<bv8>, ibase: nat,
                             width: nat, pitch: nat, lines: nat)
    requires lb != inbuf
    requires DownArgs(lb.Length, ybase, cbase, inbuf.Length, ibase, width, pitch, lines)
    modifies lb
    ensures StripDownsampled(lb[..], ybase, cbase, inbuf[..], ibase, pitch, width, lines)
    ensures width % 2 == 1 ==> LastPairsAlone(lb[..], cbase, inbuf[..], ibase, pitch, width, lines)
    ensures OnlyRowChanged(old(lb[..]), lb[..], ybase, cbase, RowAt(lines, LINEBUFFER_PITCH))
  {
    var n := RowAt(lines, LINEBUFFER_PITCH);
    var inroot := CopyOut(inbuf, ibase, RowAt(lines, pitch), RowAt(lines, pitch) + 4);
    var yroot := new bv8[n];
    var croot := new bv8[n];
    DownsampleRowsByByte(yroot, croot, inroot, width, pitch, lines);
    ghost var was := lb[..];
    MemCpy(lb, ybase, yroot, 0, n);
    ghost var mid := lb[..];
    MemCpy(lb, cbase, croot, 0, n);
    PieceStored(was, mid, yroot[..], ybase, n);
    PieceStored(mid, lb[..], croot[..], cbase, n);
    assert lb[ybase..ybase + n] == yroot[..] && lb[cbase..cbase + n] == croot[..];
    PlanesMoved(yroot[..], croot[..], lb[..], ybase, cbase, inroot[..], inbuf[..], ibase, pitch, width, lines);
  }

  lemma PlanesMoved(ys: seq<bv8>, cs: seq<bv8>, s: seq<bv8>, ybase: nat, cbase: nat, copy: seq<bv8>, f: seq<bv8>,
                    ibase: nat, pitch: nat, width: nat, lines: nat)
    requires |ys| == |cs| == RowAt(lines, LINEBUFFER_PITCH) && width <= LINEBUFFER_PITCH && 3 * width <= pitch
    requires ybase + |ys| <= |s| && cbase + |cs| <= |s|
    requires s[ybase..ybase + |ys|] == ys && s[cbase..cbase + |cs|] == cs
    requires RowAt(lines, pitch) <= |copy| && ibase + RowAt(lines, pitch) <= |f|
    requires copy[..RowAt(lines, pitch)] == f[ibase..ibase + RowAt(lines, pitch)]
    requires forall y: nat :: y < lines ==> PlanesRow(ys, cs, copy, pitch, width, y)
    ensures StripDownsampled(s, ybase, cbase, f, ibase, pitch, width, lines)
    ensures width % 2 == 1 ==> LastPairsAlone(s, cbase, f, ibase, pitch, width, lines)
  {
    forall y: nat | y < lines
      ensures StripRow(s, ybase, cbase, f, ibase, pitch, width, y)
      ensures width % 2 == 1 ==> LastPairOfRow(s, cbase, f, ibase, pitch, width, y)
    {
      PlanesRowMovedAt(ys, cs, s, ybase, cbase, copy, f, ibase, pitch, width, lines, y);
    }
  }

  lemma PlanesRowMovedAt(ys: seq<bv8>, cs: seq<bv8>, s: seq<bv8>, ybase: nat, cbase: nat, copy: seq<bv8>, f: seq<bv8>,
                         ibase: nat, pitch: nat, width: nat, lines: nat, y: nat)
    requires |ys| == |cs| == RowAt(lines, LINEBUFFER_PITCH) && width <= LINEBUFFER_PITCH && 3 * width <= pitch
    requires ybase + |ys| <= |s| && cbase + |cs| <= |s|
    requires s[ybase..ybase + |ys|] == ys && s[cbase..cbase + |cs|] == cs
    requires RowAt(lines, pitch) <= |copy| && ibase + RowAt(lines, pitch) <= |f|
    requires copy[..RowAt(lines, pitch)] == f[ibase..ibase + RowAt(lines, pitch)]
    requires y < lines && PlanesRow(ys, cs, copy, pitch, width, y)
    ensures StripRow(s, ybase, cbase, f, ibase, pitch, width, y)
    ensures width % 2 == 1 ==> LastPairOfRow(s, cbase, f, ibase, pitch, width, y)
  {
    RowBelow(y, lines, pitch);
    RowBelow(y, lines, LINEBUFFER_PITCH);
    PlanesRowMoved(ys, cs, s, ybase, cbase, copy, f, ibase,
                   RowAt(lines, pitch), RowAt(y, LINEBUFFER_PITCH), RowAt(y, pitch), width);
  }

  // ---------------------------------------------------------------- one scanline

  function Low(w: bv16): bv8 { (w & 0xff) as bv8 }
  function High(w: bv16): bv8 { ((w >> 8) & 0xff) as bv8 }

  function LumaWord(y0: bv8, y1: bv8): bv16 {
    ((y1 as bv16) << 8) | (y0 as bv16)
  }

  function ChromaWord(p: Pixel, q: Pixel): bv16 {
    ChromaSums(p.cb, q.cb, p.cr, q.cr)
  }

  function ChromaSums(b0: bv8, b1: bv8, r0: bv8, r1: bv8): bv16 {
    ((((r0 as bv16) + (r1 as bv16)) << 7) & 0xff00) | (((b0 as bv16) + (b1 as bv16)) >> 1)
  }

  /** Read as little-endian bytes, the two words are two luma bytes and a mean pair. */
  lemma WordsAreBytes(p: Pixel, q: Pixel)
    ensures Low(LumaWord(p.y, q.y)) == p.y && High(LumaWord(p.y, q.y)) == q.y
    ensures Pair(Low(ChromaWord(p, q)), High(ChromaWord(p, q))) == MeanPair(p, q)
  {
    LumaBytes(p.y, q.y);
    ChromaBytes(p.cb, q.cb, p.cr, q.cr);
  }

  lemma LumaBytes(y0: bv8, y1: bv8)
    ensures Low(LumaWord(y0, y1)) == y0 && High(LumaWord(y0, y1)) == y1
  {
  }

  /** The two halved sums are the bytes of the chroma word. */
  lemma ChromaBytes(b0: bv8, b1: bv8, r0: bv8, r1: bv8)
    ensures Low(ChromaSums(b0, b1, r0, r1)) == Mean(b0, b1) && High(ChromaSums(b0, b1, r0, r1)) == Mean(r0, r1)
  {
  }

  /** The words at index `x` are made from pixels 2x and 2x + 1 of the scanline. */
  ghost predicate ScanlineWords(yword: bv16, cword: bv16, src: seq<bv8>, x: nat) {
    var p, q := PackedAt(src, 6 * x), PackedAt(src, 6 * x + 3);
    yword == LumaWord(p.y, q.y) && cword == ChromaWord(p, q)
  }

  /** A decoded YCbCr scanline to one luma and one chroma row of 16-bit words. */
  method CopyLineNv16(yy: array<bv16>, cbcr: array<bv16>, src: array<bv8>, width: nat)
    requires yy != cbcr
    requires width / 2 <= yy.Length && width / 2 <= cbcr.Length && 6 * (width / 2) <= src.Length
    modifies yy, cbcr
    ensures forall x: nat :: x < width / 2 ==> ScanlineWords(yy[x], cbcr[x], src[..], x)
    ensures forall x :: width / 2 <= x < yy.Length ==> yy[x] == old(yy[x])
    ensures forall x :: width / 2 <= x < cbcr.Length ==> cbcr[x] == old(cbcr[x])
  {
    var s := 0;
    for x := 0 to width / 2
      invariant s == 6 * x
      invariant forall k: nat :: k < x ==> ScanlineWords(yy[k], cbcr[k], src[..], k)
      invariant forall k :: x <= k < yy.Length ==> yy[k] == old(yy[k])
      invariant forall k :: x <= k < cbcr.Length ==> cbcr[k] == old(cbcr[k])
    {
      var p := Pixel(src[s], src[s + 1], src[s + 2]);
      var q := Pixel(src[s + 3], src[s + 4], src[s + 5]);
      yy[x] := LumaWord(p.y, q.y);
      cbcr[x] := ChromaWord(p, q);
      s := s + 6;
    }
  }

  // ---------------------------------------------------------------- agreement

  /**
   * The three downsamplers agree. Whatever strips `s` and `t` the word and the byte form
   * leave, and whatever words the scanline form makes of packed row `y`, they hold the
   * same luma for every pixel and the same mean chroma for every pixel pair of the row.
   */
  lemma DownsamplersAgree(s: seq<bv8>, t: seq<bv8>, ybase: nat, cbase: nat, f: seq<bv8>, ibase: nat, pitch: nat,
                          width: nat, rows: nat, y: nat, line: seq<bv8>, yy: seq<bv16>, cbcr: seq<bv16>, x: nat)
    requires StripDownsampled(s, ybase, cbase, f, ibase, pitch, width, rows)
    requires StripDownsampled(t, ybase, cbase, f, ibase, pitch, width, rows)
    requires y < rows && ibase + RowAt(y, pitch) + 3 * width <= |f|
    requires line == f[ibase + RowAt(y, pitch)..ibase + RowAt(y, pitch) + 3 * width]
    requires width / 2 <= |yy| && width / 2 <= |cbcr|
    requires forall k: nat :: k < width / 2 ==> ScanlineWords(yy[k], cbcr[k], line, k)
    requires x < width / 2
    ensures RowLuma(s, ybase + RowAt(y, LINEBUFFER_PITCH), 2 * x)
         == RowLuma(t, ybase + RowAt(y, LINEBUFFER_PITCH), 2 * x) == Low(yy[x])
    ensures RowLuma(s, ybase + RowAt(y, LINEBUFFER_PITCH), 2 * x + 1)
         == RowLuma(t, ybase + RowAt(y, LINEBUFFER_PITCH), 2 * x + 1) == High(yy[x])
    ensures RowPair(s, cbase + RowAt(y, LINEBUFFER_PITCH), x)
         == RowPair(t, cbase + RowAt(y, LINEBUFFER_PITCH), x) == Pair(Low(cbcr[x]), High(cbcr[x]))
  {
    assert ScanlineWords(yy[x], cbcr[x], line, x);
    WordsOfLine(line, f, ibase + RowAt(y, pitch), width, yy[x], cbcr[x], x);
    StripPixels(s, ybase, cbase, f, ibase, pitch, width, rows, y, x);
    StripPixels(t, ybase, cbase, f, ibase, pitch, width, rows, y, x);
  }

  /** The words made from a scanline are made from the row of the frame it was taken from. */
  lemma WordsOfLine(line: seq<bv8>, f: seq<bv8>, at: nat, width: nat, yword: bv16, cword: bv16, x: nat)
    requires at + 3 * width <= |f| && line == f[at..at + 3 * width] && x < width / 2
    requires ScanlineWords(yword, cword, line, x)
    ensures Low(yword) == PackedAt(f, at + 6 * x).y && High(yword) == PackedAt(f, at + 6 * x + 3).y
    ensures Pair(Low(cword), High(cword)) == MeanPair(PackedAt(f, at + 6 * x), PackedAt(f, at + 6 * x + 3))
  {
    LinePixel(line, f, at, width, 2 * x);
    LinePixel(line, f, at, width, 2 * x + 1);
    WordsAreBytes(PackedAt(f, at + 6 * x), PackedAt(f, at + 6 * x + 3));
  }

  /** Two neighbouring pixels of a downsampled strip. */
  lemma StripPixels(s: seq<bv8>, ybase: nat, cbase: nat, f: seq<bv8>, ibase: nat, pitch: nat,
                    width: nat, rows: nat, y: nat, x: nat)
    requires StripDownsampled(s, ybase, cbase, f, ibase, pitch, width, rows)
    requires y < rows && x < width / 2
    ensures var at := ibase + RowAt(y, pitch);
            && RowLuma(s, ybase + RowAt(y, LINEBUFFER_PITCH), 2 * x) == PackedAt(f, at + 6 * x).y
            && RowLuma(s, ybase + RowAt(y, LINEBUFFER_PITCH), 2 * x + 1) == PackedAt(f, at + 6 * x + 3).y
            && RowPair(s, cbase + RowAt(y, LINEBUFFER_PITCH), x)
               == MeanPair(PackedAt(f, at + 6 * x), PackedAt(f, at + 6 * x + 3))
  {
    assert StripRow(s, ybase, cbase, f, ibase, pitch, width, y);
  }

  lemma LinePixel(line: seq<bv8>, f: seq<bv8>, at: nat, width: nat, x: nat)
    requires at + 3 * width <= |f| && line == f[at..at + 3 * width] && x < width
    ensures PackedAt(line, 3 * x) == PackedAt(f, at + 3 * x)
  {
    SliceAt(f, at, 3 * width, line, 3 * x);
    SliceAt(f, at, 3 * width, line, 3 * x + 1);
    SliceAt(f, at, 3 * width, line, 3 * x + 2);
  }
}
