/** Passing scanlines between an application and the frame, batch by batch. */
module Scanlines {
  import opened Basics

  /** Row `r` of a frame, cut to the length of a scanline. */
  function RowOf(f: seq<bv8>, pitch: nat, size: nat, r: nat): seq<bv8> {
    var at := RowAt(r, pitch);
    if at + size <= |f| then f[at..at + size] else []
  }

  function Rows(f: seq<bv8>, pitch: nat, size: nat, height: nat): (rows: seq<seq<bv8>>)
    ensures |rows| == height && forall r :: 0 <= r < height ==> rows[r] == RowOf(f, pitch, size, r)
  {
    seq(height, r requires 0 <= r < height => RowOf(f, pitch, size, r))
  }

  lemma RowInside(pitch: nat, height: nat, r: nat)
    requires r < height
    ensures RowAt(r, pitch) + pitch <= RowAt(height, pitch)
  {
    RowBelow(r, height, pitch);
  }

  /** A stretch outside of the bytes that were stored keeps its contents. */
  lemma StretchKept(f: seq<bv8>, g: seq<bv8>, at: nat, size: nat, a: nat)
    requires |f| == |g| && at + size <= |f| && a + size <= |f| && (a + size <= at || at + size <= a)
    requires g[..at] == f[..at] && g[at + size..] == f[at + size..]
    ensures g[a..a + size] == f[a..a + size]
  {
    if a + size <= at {
      assert g[a..a + size] == g[..at][a..a + size] && f[a..a + size] == f[..at][a..a + size];
    } else {
      var d := a - (at + size);
      assert g[a..a + size] == g[at + size..][d..d + size] && f[a..a + size] == f[at + size..][d..d + size];
    }
  }

  lemma RowsApart(k: nat, r: nat, pitch: nat)
    requires k != r
    ensures RowAt(k, pitch) + pitch <= RowAt(r, pitch) || RowAt(r, pitch) + pitch <= RowAt(k, pitch)
  {
    if k < r {
      RowBelow(k, r, pitch);
    } else {
      RowBelow(r, k, pitch);
    }
  }

  /** Row `k` is not changed by storing row `r`. */
  lemma RowKept(f: seq<bv8>, g: seq<bv8>, pitch: nat, size: nat, height: nat, r: nat, k: nat)
    requires size <= pitch && RowAt(height, pitch) <= |f| == |g| && r < height && k < height && k != r
    requires RowAt(r, pitch) + size <= |f|
    requires var at := RowAt(r, pitch); g[..at] == f[..at] && g[at + size..] == f[at + size..]
    ensures RowOf(g, pitch, size, k) == RowOf(f, pitch, size, k)
  {
    var (at, a) := (RowAt(r, pitch), RowAt(k, pitch));
    RowInside(pitch, height, k);
    assert a + size <= |f|;
    RowsApart(k, r, pitch);
    assert a + size <= at || at + size <= a;
    StretchKept(f, g, at, size, a);
  }

  /** Storing one row leaves the others alone. */
  lemma RowStored(f: seq<bv8>, g: seq<bv8>, pitch: nat, size: nat, height: nat, r: nat, row: seq<bv8>)
    requires size <= pitch && RowAt(height, pitch) <= |f| == |g| && r < height && |row| == size
    requires RowAt(r, pitch) + pitch <= RowAt(height, pitch)
    requires var at := RowAt(r, pitch);
             g[..at] == f[..at] && g[at..at + size] == row && g[at + size..] == f[at + size..]
    ensures Rows(g, pitch, size, height) == Rows(f, pitch, size, height)[r := row]
  {
    var was, now := Rows(f, pitch, size, height), Rows(g, pitch, size, height);
    assert now[r] == RowOf(g, pitch, size, r) == row;
    forall k: nat | k < height && k != r
      ensures now[k] == was[k]
    {
      RowKept(f, g, pitch, size, height, r, k);
    }
  }

  /** How many of `n` lines are passed when `next` of `height` have been. The sum is unsigned. */
  function Clamped(n: nat, next: nat, height: nat): int {
    if (n + next) % U32 > height then height - next else n
  }

  /**
   * Exactly when the clamped count stays inside the frame: when the 32-bit sum of the lines
   * asked for and the lines passed does not wrap around. Then it is the smaller of the
   * lines asked for and the lines left.
   */
  lemma ClampedExactly(n: nat, next: nat, height: nat)
    requires n < U32 && next <= height < U32
    ensures next + Clamped(n, next, height) <= height <==> n + next < 0x1_0000_0000
    ensures n + next < 0x1_0000_0000 ==> Clamped(n, next, height) == Min(n, height - next)
  {
    if U32 <= n + next {
      assert (n + next) % U32 == n + next - U32;
    } else {
      assert (n + next) % U32 == n + next;
    }
  }

  /** A frame and the number of lines passed so far (next_scanline or output_scanline). */
  class Lines {
    const frame: array<bv8>
    const pitch: nat
    const size: nat     // bytes of a scanline
    const height: nat
    var next: nat

    ghost predicate Valid()
      reads this
    {
      size <= pitch && RowAt(height, pitch) <= frame.Length && next <= height < U32
    }

    ghost function Frame(): (rows: seq<seq<bv8>>)
      requires Valid()
      reads this, frame
      ensures |rows| == height
    {
      Rows(frame[..], pitch, size, height)
    }

    constructor (frame: array<bv8>, pitch: nat, size: nat, height: nat)
      requires size <= pitch && RowAt(height, pitch) <= frame.Length && height < U32
      ensures Valid() && next == 0
      ensures this.frame == frame && this.pitch == pitch && this.size == size && this.height == height
    {
      this.frame, this.pitch, this.size, this.height, next := frame, pitch, size, height, 0;
    }

    /** Store one scanline. */
    method Store(row: array<bv8>)
      requires Valid() && next < height && row != frame && row.Length == size
      modifies this`next, frame
      ensures Valid() && next == old(next) + 1 && Frame() == old(Frame())[old(next) := row[..]]
    {
      RowInside(pitch, height, next);
      ghost var before := frame[..];
      MemCpy(frame, RowAt(next, pitch), row, 0, size);
      RowStored(before, frame[..], pitch, size, height, next, row[..]);
      next := next + 1;
    }

    /** Store line number `k` of a batch. */
    method StoreNext(row: array<bv8>, ghost k: nat, ghost rows: seq<seq<bv8>>, ghost first: nat,
                     ghost lines: seq<seq<bv8>>)
      requires Valid() && next < height && row != frame && row.Length == size && k < |lines| && row[..] == lines[k]
      requires next == first + k < |rows| && Frame() == Spliced(rows, first, lines[..k])
      modifies this`next, frame
      ensures Valid() && next == old(next) + 1 && Frame() == Spliced(rows, first, lines[..k + 1])
    {
      SpliceOne(rows, first, lines[..k], lines[k]);
      assert lines[..k + 1] == lines[..k] + [lines[k]];
      Store(row);
    }

    /** shjpeg_write_scanlines. */
    method WriteScanlines(scanlines: seq<array<bv8>>) returns (count: nat)
      requires Valid() && |scanlines| + next < U32
      requires forall row :: row in scanlines ==> row != frame && row.Length == size
      modifies this`next, frame
      ensures Valid() && count == Min(|scanlines|, height - old(next)) && next == old(next) + count
      ensures Frame() == Spliced(old(Frame()), old(next), Contents(scanlines)[..count])
    {
      ghost var rows, first, lines := Frame(), next, Contents(scanlines);
      var numLines := Clamped(|scanlines|, next, height);
      ClampedExactly(|scanlines|, next, height);
      count := 0;
      while count < numLines
        invariant count <= numLines && Valid() && next == first + count && Contents(scanlines) == lines
        invariant Frame() == Spliced(rows, first, lines[..count])
      {
        StoreNext(scanlines[count], count, rows, first, lines);
        count := count + 1;
      }
    }

    /** Fetch one scanline. */
    method Fetch(row: array<bv8>)
      requires Valid() && next < height && row != frame && row.Length == size
      modifies this`next, row
      ensures Valid() && next == old(next) + 1 && row[..] == Frame()[old(next)]
    {
      RowInside(pitch, height, next);
      MemCpy(row, 0, frame, RowAt(next, pitch), size);
      assert row[..] == row[0..size];
      next := next + 1;
    }

    /** Fetch the next of a batch of scanlines. */
    method FetchNext(scanlines: seq<array<bv8>>, k: nat, ghost rows: seq<seq<bv8>>, ghost first: nat,
                     ghost was: seq<seq<bv8>>)
      requires Valid() && next < height && k < |scanlines| == |was|
      requires forall i :: 0 <= i < |scanlines| ==> scanlines[i] != frame && scanlines[i].Length == size
      requires forall i :: 0 <= i < |scanlines| && i != k ==> scanlines[i] != scanlines[k]
      requires ReadSoFar(scanlines, k, rows, first, was) && next == first + k < |rows| && rows[next] == Frame()[next]
      modifies this`next, scanlines[k]
      ensures Valid() && next == old(next) + 1 && ReadSoFar(scanlines, k + 1, rows, first, was)
    {
      Fetch(scanlines[k]);
    }

    /** shjpeg_read_scanlines. */
    method ReadScanlines(scanlines: seq<array<bv8>>) returns (count: nat)
      requires Valid() && |scanlines| + next < U32
      requires forall i :: 0 <= i < |scanlines| ==> scanlines[i] != frame && scanlines[i].Length == size
      requires forall i, j :: 0 <= i < j < |scanlines| ==> scanlines[i] != scanlines[j]
      modifies this`next, scanlines
      ensures Valid() && count == Min(|scanlines|, height - old(next)) && next == old(next) + count
      ensures Frame() == old(Frame())
      ensures forall i :: 0 <= i < count ==> scanlines[i][..] == Frame()[old(next) + i]
      ensures forall i :: count <= i < |scanlines| ==> scanlines[i][..] == old(scanlines[i][..])
    {
      ghost var rows, first, was := Frame(), next, Contents(scanlines);
      var numLines := Clamped(|scanlines|, next, height);
      ClampedExactly(|scanlines|, next, height);
      count := 0;
      while count < numLines
        invariant count <= numLines && Valid() && next == first + count && Frame() == rows
        invariant ReadSoFar(scanlines, count, rows, first, was)
      {
        FetchNext(scanlines, count, rows, first, was);
        count := count + 1;
      }
    }
  }

  /** The first `k` scanlines have received the rows from `first` on; the others are as they were. */
  ghost predicate ReadSoFar(scanlines: seq<array<bv8>>, k: nat, rows: seq<seq<bv8>>, first: nat, was: seq<seq<bv8>>)
    requires |was| == |scanlines|
    reads scanlines
  {
    && k <= |scanlines| && first + k <= |rows|
    && (forall i :: 0 <= i < k ==> scanlines[i][..] == rows[first + i])
    && (forall i :: k <= i < |scanlines| ==> scanlines[i][..] == was[i])
  }

  /** The rows with those from `first` on replaced by `lines`. */
  function Spliced(rows: seq<seq<bv8>>, first: nat, lines: seq<seq<bv8>>): seq<seq<bv8>>
    requires first + |lines| <= |rows|
  {
    rows[..first] + lines + rows[first + |lines|..]
  }

  lemma SpliceOne(rows: seq<seq<bv8>>, first: nat, lines: seq<seq<bv8>>, line: seq<bv8>)
    requires first + |lines| < |rows|
    ensures Spliced(rows, first, lines)[first + |lines| := line] == Spliced(rows, first, lines + [line])
  {
  }

  /** The contents of a batch of scanlines. */
  ghost function Contents(scanlines: seq<array<bv8>>): (c: seq<seq<bv8>>)
    reads scanlines
    ensures |c| == |scanlines| && forall i :: 0 <= i < |c| ==> c[i] == scanlines[i][..]
  {
    if scanlines == [] then [] else Contents(scanlines[..|scanlines| - 1]) + [scanlines[|scanlines| - 1][..]]
  }

  // ------------------------------------------------- any sequence of batches

  /** The rows after writing one batch after the other. */
  function WriteBatches(rows: seq<seq<bv8>>, next: nat, batches: seq<seq<seq<bv8>>>): seq<seq<bv8>>
    requires next <= |rows|
    decreases |batches|
  {
    if batches == [] then rows
    else
      var k := Min(|batches[0]|, |rows| - next);
      WriteBatches(Spliced(rows, next, batches[0][..k]), next + k, batches[1..])
  }

  /** The lines of all batches. */
  function Flat(batches: seq<seq<seq<bv8>>>): seq<seq<bv8>> {
    if batches == [] then [] else batches[0] + Flat(batches[1..])
  }

  lemma SplicedTwice(rows: seq<seq<bv8>>, first: nat, a: seq<seq<bv8>>, b: seq<seq<bv8>>)
    requires first + |a + b| <= |rows|
    ensures Spliced(Spliced(rows, first, a), first + |a|, b) == Spliced(rows, first, a + b)
  {
  }

  /**
   * However the lines are divided into batches, they fill the rows in order, each once,
   * until there are no more rows; what is too much is not written.
   */
  lemma {:induction false} BatchesFillRows(rows: seq<seq<bv8>>, next: nat, batches: seq<seq<seq<bv8>>>)
    requires next <= |rows|
    ensures var lines := Flat(batches);
            WriteBatches(rows, next, batches) == Spliced(rows, next, lines[..Min(|lines|, |rows| - next)])
    decreases |batches|
  {
    if batches == [] {
      assert Spliced(rows, next, []) == rows;
    } else {
      var b, tail := batches[0], Flat(batches[1..]);
      var k := Min(|b|, |rows| - next);
      var rows' := Spliced(rows, next, b[..k]);
      BatchesFillRows(rows', next + k, batches[1..]);
      var m := Min(|tail|, |rows| - (next + k));
      SplicedTwice(rows, next, b[..k], tail[..m]);
      assert (b + tail)[..Min(|b + tail|, |rows| - next)] == b[..k] + tail[..m];
    }
  }

  /** The lines that reads of the given batch sizes return, one after the other. */
  function ReadBatches(rows: seq<seq<bv8>>, next: nat, sizes: seq<nat>): seq<seq<bv8>>
    requires next <= |rows|
    decreases |sizes|
  {
    if sizes == [] then []
    else
      var k := Min(sizes[0], |rows| - next);
      rows[next..next + k] + ReadBatches(rows, next + k, sizes[1..])
  }

  lemma Adjoining(rows: seq<seq<bv8>>, a: nat, b: nat, c: nat)
    requires a <= b <= c <= |rows|
    ensures rows[a..b] + rows[b..c] == rows[a..c]
  {
  }

  /** However the reads are divided, they return the rows in order, each once. */
  lemma {:induction false} BatchesReadRows(rows: seq<seq<bv8>>, next: nat, sizes: seq<nat>)
    requires next <= |rows|
    ensures ReadBatches(rows, next, sizes) == rows[next..next + Min(Sum(sizes), |rows| - next)]
    decreases |sizes|
  {
    if sizes != [] {
      var k := Min(sizes[0], |rows| - next);
      var m := Min(Sum(sizes[1..]), |rows| - (next + k));
      BatchesReadRows(rows, next + k, sizes[1..]);
      Adjoining(rows, next, next + k, next + k + m);
      assert Sum(sizes) == sizes[0] + Sum(sizes[1..]);
    }
  }

  /** What has been written is what is read back, whatever the batches on either side. */
  lemma WrittenIsRead(rows: seq<seq<bv8>>, batches: seq<seq<seq<bv8>>>, sizes: seq<nat>)
    requires |Flat(batches)| == |rows| <= Sum(sizes)
    ensures ReadBatches(WriteBatches(rows, 0, batches), 0, sizes) == Flat(batches)
  {
    BatchesFillRows(rows, 0, batches);
    BatchesReadRows(WriteBatches(rows, 0, batches), 0, sizes);
    assert Flat(batches)[..|rows|] == Flat(batches);
  }

  // ------------------------------------------------- an application at work

  /** Row buffers with the given contents. */
  method RowBuffers(lines: seq<seq<bv8>>) returns (rows: seq<array<bv8>>)
    ensures |rows| == |lines| && fresh(rows) && Contents(rows) == lines
    ensures forall i :: 0 <= i < |rows| ==> rows[i].Length == |lines[i]|
    ensures forall i, j :: 0 <= i < j < |rows| ==> rows[i] != rows[j]
  {
    rows := [];
    for i := 0 to |lines|
      invariant |rows| == i && fresh(rows)
      invariant forall k :: 0 <= k < i ==> rows[k][..] == lines[k]
      invariant forall k, j :: 0 <= k < j < i ==> rows[k] != rows[j]
    {
      var row := new bv8[|lines[i]|];
      forall j | 0 <= j < |lines[i]| {
        row[j] := lines[i][j];
      }
      rows := rows + [row];
    }
  }

  /** The batches can be written: each line has its size, and no count wraps around. */
  predicate Writable(batches: seq<seq<seq<bv8>>>, next: nat, size: nat, height: nat)
    requires next <= height
    decreases |batches|
  {
    || batches == []
    || (&& |batches[0]| + next < U32
        && (forall j :: 0 <= j < |batches[0]| ==> |batches[0][j]| == size)
        && Writable(batches[1..], next + Min(|batches[0]|, height - next), size, height))
  }

  /** Write a batch of lines. */
  method WriteBatch(f: Lines, batch: seq<seq<bv8>>)
    requires f.Valid() && |batch| + f.next < U32 && forall j :: 0 <= j < |batch| ==> |batch[j]| == f.size
    modifies f`next, f.frame
    ensures f.Valid() && f.next == old(f.next) + Min(|batch|, f.height - old(f.next))
    ensures f.Frame() == Spliced(old(f.Frame()), old(f.next), batch[..Min(|batch|, f.height - old(f.next))])
  {
    var rows := RowBuffers(batch);
    var count := f.WriteScanlines(rows);
  }

  /** Write one batch after the other into the given rows. */
  method WriteAll(f: Lines, batches: seq<seq<seq<bv8>>>, ghost rows: seq<seq<bv8>>)
    requires f.Valid() && f.Frame() == rows && Writable(batches, f.next, f.size, f.height)
    modifies f`next, f.frame
    ensures f.Valid() && f.Frame() == WriteBatches(rows, old(f.next), batches)
    decreases |batches|
  {
    if batches != [] {
      ghost var k := Min(|batches[0]|, f.height - f.next);
      ghost var rows' := Spliced(rows, f.next, batches[0][..k]);
      WriteBatch(f, batches[0]);
      WriteAll(f, batches[1..], rows');
    }
  }

  /** No count of the reads wraps around. */
  predicate Readable(sizes: seq<nat>, next: nat, height: nat)
    requires next <= height
    decreases |sizes|
  {
    sizes == [] || (sizes[0] + next < U32 && Readable(sizes[1..], next + Min(sizes[0], height - next), height))
  }

  /** Row buffers of a given size. */
  method BlankRows(n: nat, size: nat) returns (rows: seq<array<bv8>>)
    ensures |rows| == n && fresh(rows)
    ensures forall i :: 0 <= i < n ==> rows[i].Length == size
    ensures forall i, j :: 0 <= i < j < n ==> rows[i] != rows[j]
  {
    rows := RowBuffers(seq(n, _ => seq(size, _ => 0)));
  }

  /** What the first `count` row buffers have received. */
  method Gather(buffers: seq<array<bv8>>, count: nat, ghost rows: seq<seq<bv8>>, ghost first: nat)
    returns (lines: seq<seq<bv8>>)
    requires count <= |buffers| && first + count <= |rows|
    requires forall k :: 0 <= k < count ==> buffers[k][..] == rows[first + k]
    ensures lines == rows[first..first + count]
  {
    lines := [];
    for k := 0 to count
      invariant lines == rows[first..first + k]
    {
      lines := lines + [buffers[k][..]];
    }
  }

  /** Read a batch of at most `n` lines. */
  method ReadBatch(f: Lines, n: nat) returns (lines: seq<seq<bv8>>)
    requires f.Valid() && n + f.next < U32
    modifies f`next
    ensures f.Valid() && f.next == old(f.next) + Min(n, f.height - old(f.next)) && f.Frame() == old(f.Frame())
    ensures lines == f.Frame()[old(f.next)..f.next]
  {
    var buffers := BlankRows(n, f.size);
    ghost var first, rows := f.next, f.Frame();
    var count := f.ReadScanlines(buffers);
    lines := Gather(buffers, count, rows, first);
  }

  /** Read one batch after the other. */
  method ReadAll(f: Lines, sizes: seq<nat>) returns (lines: seq<seq<bv8>>)
    requires f.Valid() && Readable(sizes, f.next, f.height)
    modifies f`next
    ensures f.Valid() && f.Frame() == old(f.Frame()) && lines == ReadBatches(f.Frame(), old(f.next), sizes)
    decreases |sizes|
  {
    lines := [];
    if sizes != [] {
      var first := ReadBatch(f, sizes[0]);
      var more := ReadAll(f, sizes[1..]);
      lines := first + more;
    }
  }
}
