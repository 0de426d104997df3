/** The parts put together: from scanlines to coded data and back. */
module Pipeline {
  import opened Basics
  import opened SoftHelper
  import opened SoftDownsample
  import opened JpuDevice
  import opened FrameStrips
  import opened JpuState
  import JpuDriver
  import opened Scanlines
  import opened MarkerReads
  import JpegSource
  import JpegIo
  import JpegDest
  import DecodeHw
  import EncodeHw

  // ------------------------------------------------- scanlines and frames

  /** Byte `i` of a scanline is in the frame where the row pitch puts it. */
  lemma LineByte(f: seq<bv8>, pitch: nat, size: nat, height: nat, r: nat, i: nat)
    requires size <= pitch && RowAt(height, pitch) <= |f| && r < height && i < size
    ensures |RowOf(f, pitch, size, r)| == size && At(RowOf(f, pitch, size, r), i) == At(f, RowAt(r, pitch) + i)
  {
    RowInside(pitch, height, r);
    SliceAt(f, RowAt(r, pitch), size, RowOf(f, pitch, size, r), i);
  }

  /** Pixel `x` of scanline `r` is pixel (`x`, `r`) of the frame. */
  lemma ScanlinePixel(f: seq<bv8>, pitch: nat, width: nat, height: nat, r: nat, x: nat)
    requires 3 * width <= pitch && RowAt(height, pitch) <= |f| && r < height && x < width
    ensures PackedAt(RowOf(f, pitch, 3 * width, r), 3 * x) == FramePixel(f, 0, pitch, r, x)
  {
    LineByte(f, pitch, 3 * width, height, r, 3 * x);
    LineByte(f, pitch, 3 * width, height, r, 3 * x + 1);
    LineByte(f, pitch, 3 * width, height, r, 3 * x + 2);
  }

  /** The lines are rows of the picture, from row `first` on, as far as `shown` rows of it are there. */
  ghost predicate PictureLines(lines: seq<seq<bv8>>, first: nat, shown: nat, width: nat, image: seq<LineBuffer>,
                               mode420: bool)
  {
    forall r: nat, x: nat :: r < |lines| && first + r < shown && x < width ==>
      PackedAt(lines[r], 3 * x) == ImagePixel(image, mode420, first + r, x)
  }

  /**
   * Decoding: when the frame shows rows of the picture, the scanlines read from it, in any
   * batches, are those rows.
   */
  lemma ScanlinesShowPicture(f: seq<bv8>, pitch: nat, width: nat, height: nat, shown: nat, image: seq<LineBuffer>,
                             mode420: bool, first: nat, sizes: seq<nat>)
    requires 3 * width <= pitch && RowAt(height, pitch) <= |f| && first <= height && shown <= height
    requires FrameShows(f, pitch, width, shown, image, mode420)
    ensures var lines := ReadBatches(Rows(f, pitch, 3 * width, height), first, sizes);
            |lines| == Min(Sum(sizes), height - first) && PictureLines(lines, first, shown, width, image, mode420)
  {
    var lines := ReadBatches(Rows(f, pitch, 3 * width, height), first, sizes);
    BatchesReadRows(Rows(f, pitch, 3 * width, height), first, sizes);
    forall r: nat, x: nat | r < |lines| && first + r < shown && x < width
      ensures PackedAt(lines[r], 3 * x) == ImagePixel(image, mode420, first + r, x)
    {
      ScanlinePixel(f, pitch, width, height, first + r, x);
      assert FramePixel(f, 0, pitch, first + r, x) == ImagePixel(image, mode420, first + r, x);
    }
  }

  /** Row `y` of a line buffer holds the scanline, downsampled. */
  ghost predicate LineInStrip(lb: seq<bv8>, y: nat, line: seq<bv8>, width: nat) {
    var at := RowAt(y, LINEBUFFER_PITCH);
    RowDownsampled(lb, at, lb, LINEBUFFER_SIZE_Y + at, line, 0, width)
  }

  /** Downsampling a row of the frame is downsampling the scanline cut from it. */
  lemma RowDownsampledIsLine(lb: seq<bv8>, yat: nat, cat: nat, f: seq<bv8>, pitch: nat, width: nat, height: nat, r: nat)
    requires 3 * width <= pitch && RowAt(height, pitch) <= |f| && r < height
    requires RowDownsampled(lb, yat, lb, cat, f, RowAt(r, pitch), width)
    ensures RowDownsampled(lb, yat, lb, cat, RowOf(f, pitch, 3 * width, r), 0, width)
  {
    var line := RowOf(f, pitch, 3 * width, r);
    forall x: nat | x < width
      ensures RowLuma(lb, yat, x) == PackedLuma(line, 0, x)
    {
      LineByte(f, pitch, 3 * width, height, r, 3 * x);
      assert RowLuma(lb, yat, x) == PackedLuma(f, RowAt(r, pitch), x);
    }
    forall p: nat | 2 * p + 1 < width
      ensures RowPair(lb, cat, p) == PackedPair(line, 0, p)
    {
      ScanlinePixel(f, pitch, width, height, r, 2 * p);
      ScanlinePixel(f, pitch, width, height, r, 2 * p + 1);
      assert RowPair(lb, cat, p) == PackedPair(f, RowAt(r, pitch), p);
    }
  }

  /** Row `y` of strip `k` in the frame. */
  lemma StripRowIs(lb: seq<bv8>, f: seq<bv8>, pitch: nat, width: nat, height: nat, k: nat, y: nat)
    requires HoldsStrip(lb, f, pitch, width, height, k) && y < StripRows(height, k)
    ensures RowDownsampled(lb, RowAt(y, LINEBUFFER_PITCH), lb, LINEBUFFER_SIZE_Y + RowAt(y, LINEBUFFER_PITCH),
                           f, RowAt(StripTop(k) + y, pitch), width)
  {
    RowAtSum(StripTop(k), y, pitch);
    assert StripRow(lb, 0, LINEBUFFER_SIZE_Y, f, RowAt(StripTop(k), pitch), pitch, width, y);
  }

  /**
   * Encoding: a line buffer that holds strip `k` of the frame holds the downsampled
   * scanlines from the strip's first row on.
   */
  lemma StripHoldsScanlines(lb: seq<bv8>, f: seq<bv8>, pitch: nat, width: nat, height: nat, k: nat, y: nat)
    requires 3 * width <= pitch && RowAt(height, pitch) <= |f| && HoldsStrip(lb, f, pitch, width, height, k)
    requires y < StripRows(height, k)
    ensures LineInStrip(lb, y, RowOf(f, pitch, 3 * width, StripTop(k) + y), width)
  {
    var at := RowAt(y, LINEBUFFER_PITCH);
    StripRowIs(lb, f, pitch, width, height, k, y);
    RowDownsampledIsLine(lb, at, LINEBUFFER_SIZE_Y + at, f, pitch, width, height, StripTop(k) + y);
  }

  // ------------------------------------------------- compressing

  /**
   * Encoding: behind a destination manager whose buffer divides a reload buffer and starts
   * empty, the coded stream comes out unchanged.
   */
  lemma DestinationGetsCoded(dest: JpegDest.Buffered, calls: seq<seq<bv8>>, events: seq<Event>, n: nat, mem: seq<bv8>)
    requires n <= |events| && JpegDest.Ok(dest) && dest.flushed == [] && dest.free == |dest.buffer|
    requires RELOAD_SIZE % |dest.buffer| == 0
    requires EncodeHw.WrittenAsCoded(Concat(calls), calls, mem, events, n, Finished)
    requires !EncodeHw.EndsOutOfOrder(events, n)
    ensures JpegDest.Delivered(JpegDest.AllWritten(dest, calls)) == Coded(events[..n])
  {
    EncodeHw.WrittenInOrder(Concat(calls), calls, mem, events, n);
    DestinationGets(dest, calls);
  }

  lemma DestinationGets(dest: JpegDest.Buffered, calls: seq<seq<bv8>>)
    requires JpegDest.Ok(dest) && dest.flushed == [] && dest.free == |dest.buffer|
    requires RELOAD_SIZE % |dest.buffer| == 0 && EncodeHw.WholeButLast(calls)
    ensures JpegDest.Delivered(JpegDest.AllWritten(dest, calls)) == Concat(calls)
  {
    JpegDest.DisciplineConserves(dest, calls);
  }

  /** Scanline `y` of strip `k`. */
  function StripLine(lines: seq<seq<bv8>>, k: nat, y: nat): seq<bv8> {
    if StripTop(k) + y < |lines| then lines[StripTop(k) + y] else []
  }

  /** Every row of every strip the unit has read holds the downsampled scanline. */
  ghost predicate StripsHold(encoded: seq<LineBuffer>, lines: seq<seq<bv8>>, width: nat, height: nat) {
    forall k: nat, y: nat :: k < |encoded| && y < StripRows(height, k) ==>
      LineInStrip(encoded[k], y, StripLine(lines, k, y), width)
  }

  /** The strips of a frame whose rows are the given lines hold those lines. */
  lemma StripsHoldLines(encoded: seq<LineBuffer>, f: seq<bv8>, pitch: nat, width: nat, height: nat,
                        lines: seq<seq<bv8>>)
    requires 3 * width <= pitch && RowAt(height, pitch) <= |f|
    requires forall k: nat :: k < |encoded| ==> HoldsStrip(encoded[k], f, pitch, width, height, k)
    requires Rows(f, pitch, 3 * width, height) == lines
    ensures StripsHold(encoded, lines, width, height)
  {
    forall k: nat, y: nat | k < |encoded| && y < StripRows(height, k)
      ensures LineInStrip(encoded[k], y, StripLine(lines, k, y), width)
    {
      StripHoldsScanlines(encoded[k], f, pitch, width, height, k, y);
      var r := StripTop(k) + y;
      assert RowOf(f, pitch, 3 * width, r) == Rows(f, pitch, 3 * width, height)[r] == lines[r];
    }
  }

  /** What an encode through software leaves, however it ended. */
  lemma EncodedStrips(d: JpuDriver.Jpu, sink: EncodeHw.Sink, phys: int, events: seq<Event>, n: nat, ret: int,
                      outcome: Outcome)
    requires EncodeHw.Ended(d, sink, SoftMode, phys, events, n, ret, outcome)
    ensures n <= |events| && |d.unit.encoded| == Strips(events[..n]) && d.unit.coded == Coded(events[..n])
    ensures forall k: nat :: k < |d.unit.encoded| ==>
      HoldsStrip(d.unit.encoded[k], d.frame[..], d.context.pitch, d.context.width, d.context.height, k)
    ensures EncodeHw.WrittenAsCoded(Concat(sink.calls), sink.calls, d.reload[..], events, n, outcome)
  {
  }

  /**
   * How an encode through software has ended after `n` words. The unit has read the lines
   * strip by strip, downsampled, one strip for every one it has reported finished. If the
   * encode finished, and not out of order, and the destination's buffer divides a reload
   * buffer, the destination has got exactly what the unit has coded.
   */
  ghost predicate CompressEnded(d: JpuDriver.Jpu, events: seq<Event>, n: nat, lines: seq<seq<bv8>>,
                                dest: JpegDest.Buffered, ret: int, outcome: Outcome)
    requires JpegDest.Ok(dest)
    reads d, d.unit
  {
    && outcome == EncodeHw.EncodeOutcome(events, 0, d.context.height, true)
    && (outcome != Stuck ==> ret == if outcome == Finished then 0 else -1)
    && n <= |events| && d.script == events[n..]
    && |d.unit.encoded| == Strips(events[..n]) && d.unit.coded == Coded(events[..n])
    && StripsHold(d.unit.encoded, lines, d.context.width, d.context.height)
    && EncodeHw.EndsOrSticks(events, n, outcome, d.context.height)
    && (outcome == Finished && !EncodeHw.EndsOutOfOrder(events, n) && RELOAD_SIZE % |dest.buffer| == 0 ==>
          JpegDest.Delivered(dest) == d.unit.coded)
  }

  /** A whole encode through software of a frame whose rows are the given lines, into a destination that was empty. */
  lemma Compressed(d: JpuDriver.Jpu, sink: EncodeHw.Sink, phys: int, events: seq<Event>, n: nat, ret: int,
                   outcome: Outcome, lines: seq<seq<bv8>>, dest: JpegDest.Buffered)
    requires EncodeHw.Ended(d, sink, SoftMode, phys, events, n, ret, outcome) && d.SoftArgs(true)
    requires lines == Rows(d.frame[..], d.context.pitch, 3 * d.context.width, d.context.height)
    requires JpegDest.Ok(dest) && dest.flushed == [] && dest.free == |dest.buffer|
    ensures CompressEnded(d, events, n, lines, JpegDest.AllWritten(dest, sink.calls), ret, outcome)
  {
    EncodedStrips(d, sink, phys, events, n, ret, outcome);
    StripsHoldLines(d.unit.encoded, d.frame[..], d.context.pitch, d.context.width, d.context.height, lines);
    if outcome == Finished && !EncodeHw.EndsOutOfOrder(events, n) && RELOAD_SIZE % |dest.buffer| == 0 {
      DestinationGetsCoded(dest, sink.calls, events, n, d.reload[..]);
    }
  }

  /** Pass the writes of an encode on to a destination manager. */
  method Deliver(dest: JpegDest.Destination, calls: seq<seq<bv8>>)
    requires dest.Valid()
    modifies dest, dest.buffer
    ensures dest.Valid() && dest.Value() == JpegDest.AllWritten(old(dest.Value()), calls)
    decreases |calls|
  {
    if calls != [] {
      var n := |calls[0]|;
      var piece := new bv8[n];
      forall i | 0 <= i < n {
        piece[i] := calls[0][i];
      }
      assert piece[0..n] == calls[0];
      dest.DestWrite(piece, 0, n);
      Deliver(dest, calls[1..]);
    }
  }

  /** The driver works on the frame that the lines are passed to. */
  ghost predicate SameFrame(f: Lines, d: JpuDriver.Jpu) {
    && f.frame == d.frame && f.pitch == d.context.pitch && f.size == 3 * d.context.width
    && f.height == d.context.height
  }

  /**
   * A whole encode through software: an application writes scanlines in any batches, the
   * frame is encoded, and what the driver writes goes to a libjpeg destination manager.
   */
  method Compress(f: Lines, batches: seq<seq<seq<bv8>>>, d: JpuDriver.Jpu, phys: int, dest: JpegDest.Destination)
    returns (ret: int, ghost outcome: Outcome, ghost n: nat)
    requires f.Valid() && Writable(batches, f.next, f.size, f.height) && SameFrame(f, d)
    requires d.Shape() && d.SoftArgs(true) && 0 <= phys < U32 && EncodeHw.Honest(d.script)
    requires dest.Valid() && dest.flushed == [] && dest.free == dest.buffer.Length
    requires dest.buffer != d.frame && dest.buffer != d.lb1 && dest.buffer != d.lb2 && dest.buffer != d.reload
    modifies f`next, d.frame, dest, dest.buffer
    modifies d`data, d`jpeg, d`vioStarts, d`script, d`baseY, d`baseC, d.unit, d.lb1, d.lb2, d.reload
    ensures f.Valid() && dest.Valid()
    ensures var lines := Flat(batches);
            f.Frame() == Spliced(old(f.Frame()), old(f.next), lines[..Min(|lines|, f.height - old(f.next))])
    ensures CompressEnded(d, old(d.script), n, f.Frame(), dest.Value(), ret, outcome)
  {
    ghost var rows, events, before := f.Frame(), d.script, dest.Value();
    BatchesFillRows(rows, f.next, batches);
    WriteAll(f, batches, rows);
    var sink := new EncodeHw.Sink();
    ret, outcome, n := EncodeHw.EncodePicture(d, sink, SoftMode, phys);
    Compressed(d, sink, phys, events, n, ret, outcome, f.Frame(), before);
    Deliver(dest, sink.calls);
  }

  // ------------------------------------------------- decompressing

  /** Requests for `k` reload buffers. */
  function Requests(k: nat): (sizes: seq<nat>)
    ensures |sizes| == k && forall n :: n in sizes ==> n == RELOAD_SIZE
  {
    seq(k, _ => RELOAD_SIZE)
  }

  lemma {:induction false} RequestsAreWide(k: nat)
    ensures Wide(Requests(k))
  {
    if 0 < k {
      RequestsAreWide(k - 1);
      assert Requests(k)[1..] == Requests(k - 1);
    }
  }

  /** The answers are what requests for reload buffers get of the stream `s`, up to a short one. */
  ghost predicate AnswersFrom(answers: seq<DecodeHw.ReadResult>, s: seq<bv8>) {
    var replies := Replies(s, Requests(|answers|));
    && Ends(s) && |replies| == |answers| != 0 && |replies[|replies| - 1]| < RELOAD_SIZE
    && forall j :: 0 <= j < |answers| ==> answers[j] == DecodeHw.ReadResult(0, replies[j])
  }

  /** No answer is longer than its request. */
  lemma AnswersBounded(answers: seq<DecodeHw.ReadResult>, s: seq<bv8>)
    requires AnswersFrom(answers, s)
    ensures forall r :: r in answers ==> |r.bytes| <= RELOAD_SIZE
  {
    forall j | 0 <= j < |answers|
      ensures |answers[j].bytes| <= RELOAD_SIZE
    {
      if j < |answers| - 1 {
        RequestsAreWide(|answers|);
        RepliesFull(s, Requests(|answers|), j);
      }
    }
  }

  lemma OneAnswer(s: seq<bv8>)
    requires Ends(s) && |s| < RELOAD_SIZE
    ensures AnswersFrom([DecodeHw.ReadResult(0, s)], s)
  {
    assert Requests(1)[1..] == [];
  }

  lemma OneMoreAnswer(s: seq<bv8>, answers: seq<DecodeHw.ReadResult>)
    requires Ends(s) && RELOAD_SIZE <= |s| && AnswersFrom(answers, After(s, RELOAD_SIZE))
    ensures AnswersFrom([DecodeHw.ReadResult(0, Reply(s, RELOAD_SIZE))] + answers, s)
  {
    var sizes := Requests(|answers| + 1);
    assert sizes[1..] == Requests(|answers|);
    assert Replies(s, sizes) == [Reply(s, RELOAD_SIZE)] + Replies(After(s, RELOAD_SIZE), Requests(|answers|));
  }

  /** One request for a reload buffer. */
  method ReadAnswer(ctx: JpegIo.CinfoContext, dst: array<bv8>, ghost s: seq<bv8>) returns (answer: seq<bv8>)
    requires ctx.Ready() && s == ctx.Remaining() && ctx.Marked()
    requires dst != ctx.cache && dst != ctx.src.data && dst.Length == RELOAD_SIZE
    modifies ctx, ctx.src, ctx.src.data, dst
    ensures answer == Reply(s, RELOAD_SIZE) && (ctx.cache == old(ctx.cache) || fresh(ctx.cache))
    ensures ctx.Ready() && ctx.Remaining() == After(s, RELOAD_SIZE) && (ctx.Remaining() != [] ==> ctx.Marked())
    ensures ctx.src.starved == old(ctx.src.starved)
  {
    JpegSource.WindowAt(dst, 0, RELOAD_SIZE);
    ghost var out, padded;
    var count;
    count, out, padded := ctx.Read(dst, 0, RELOAD_SIZE, dst[..0], dst[RELOAD_SIZE..], s, true);
    answer := dst[0..count];
  }

  /**
   * What the installed read operation answers to requests for reload buffers, one after
   * the other, up to the first that falls short. No fill is asked for past the end.
   */
  method ReadAnswers(ctx: JpegIo.CinfoContext, dst: array<bv8>, ghost s: seq<bv8>)
    returns (answers: seq<DecodeHw.ReadResult>)
    requires ctx.Ready() && s == ctx.Remaining() && Ends(s) && ctx.Marked()
    requires dst != ctx.cache && dst != ctx.src.data && dst.Length == RELOAD_SIZE
    modifies ctx, ctx.src, ctx.src.data, dst
    ensures AnswersFrom(answers, s) && ctx.src.starved == old(ctx.src.starved)
    decreases |s|
  {
    var answer := ReadAnswer(ctx, dst, s);
    answers := [DecodeHw.ReadResult(0, answer)];
    if |answer| < RELOAD_SIZE {
      OneAnswer(s);
    } else {
      EndsAfter(s, RELOAD_SIZE);
      var more := ReadAnswers(ctx, dst, After(s, RELOAD_SIZE));
      OneMoreAnswer(s, more);
      answers := answers + more;
    }
  }

  lemma {:induction false} ConcatPrefix(parts: seq<seq<bv8>>, m: nat)
    requires m <= |parts|
    ensures Concat(parts[..m]) <= Concat(parts)
  {
    if 0 < m {
      ConcatPrefix(parts[1..], m - 1);
      assert parts[..m][1..] == parts[1..][..m - 1];
    }
  }

  /** The chunks that have been read are the first of the replies, and all of them once there is no more to read. */
  lemma ChunksAreReplies(answers: seq<DecodeHw.ReadResult>, s: seq<bv8>, chunks: seq<seq<bv8>>, more: bool)
    requires AnswersFrom(answers, s) && DecodeHw.FromStream(chunks, answers, more)
    requires DecodeHw.ReadUp(answers, chunks, more)
    ensures |chunks| <= |answers| && chunks == Replies(s, Requests(|answers|))[..|chunks|]
    ensures !more ==> |chunks| == |answers| && |chunks[|chunks| - 1]| < RELOAD_SIZE
  {
    var replies := Replies(s, Requests(|answers|));
    var last := |answers| - 1;
    RequestsAreWide(|answers|);
    assert last < |chunks| ==> chunks[last] == DecodeHw.Answer(answers, last).bytes == replies[last];
    if |chunks| < |answers| {
      RepliesFull(s, Requests(|answers|), |chunks| - 1);
      assert chunks[|chunks| - 1] == DecodeHw.Answer(answers, |chunks| - 1).bytes;
    }
  }

  /** A decode that finished has come across no failed read. */
  lemma NoReadFails(answers: seq<DecodeHw.ReadResult>, s: seq<bv8>, chunks: seq<seq<bv8>>, more: bool, ret: int)
    requires AnswersFrom(answers, s) && DecodeHw.ReadCode(ret, answers, chunks, more)
    ensures ret == 0
  {
  }

  lemma {:induction false} SumIs(k: nat)
    ensures Sum(Requests(k)) == RELOAD_SIZE * k
  {
    if 0 < k {
      SumIs(k - 1);
      assert Requests(k)[1..] == Requests(k - 1);
    }
  }

  /** Requests for reload buffers add up to the multiples of their size. */
  lemma {:induction false} AddsExactly(k: nat, m: nat)
    ensures AddsUpTo(Requests(k), m) <==> 0 < m <= RELOAD_SIZE * k && m % RELOAD_SIZE == 0
  {
    if 0 < k {
      assert Requests(k)[1..] == Requests(k - 1);
      if RELOAD_SIZE < m {
        AddsExactly(k - 1, m - RELOAD_SIZE);
      }
    }
  }

  /** What the unit gets to see of the stream: just of whole reload buffers it does not see the last byte at once. */
  function SeenByUnit(s: seq<bv8>): seq<bv8>
    requires s != []
  {
    if |s| % RELOAD_SIZE == 0 then WithFill(s) else s
  }

  /** The same for a stream byte by byte. */
  lemma SeenOfMarker(body: seq<bv8>)
    ensures SeenByUnit(body + [0xFF, 0xD9])
         == if (|body| + 2) % 65536 == 0 then body + [0xFF, 0xFF, 0xD9] else body + [0xFF, 0xD9]
  {
    var s := body + [0xFF, 0xD9];
    assert WithFill(s) == body + [0xFF, 0xFF, 0xD9];
  }

  /** Enough requests for reload buffers show the stream, with a fill byte exactly if it is of whole reload buffers. */
  lemma SeenIs(answers: seq<DecodeHw.ReadResult>, s: seq<bv8>)
    requires AnswersFrom(answers, s)
    ensures Seen(s, Requests(|answers|)) == SeenByUnit(s) == Concat(Replies(s, Requests(|answers|)))
  {
    var k := |answers|;
    RequestsAreWide(k);
    RepliesAre(s, Requests(k));
    RepliesEnd(s, Requests(k));
    SumIs(k);
    AddsExactly(k, |s|);
  }

  /**
   * The chunks that have been read are the beginning of what the unit gets to see, each but
   * the last a whole reload buffer, and all of it once there is no more to read.
   */
  ghost predicate ReadInOrder(chunks: seq<seq<bv8>>, s: seq<bv8>, more: bool)
    requires s != []
  {
    && chunks != [] && Concat(chunks) <= SeenByUnit(s)
    && (forall j :: 0 <= j < |chunks| - (if more then 0 else 1) ==> |chunks[j]| == RELOAD_SIZE)
    && (!more ==> Concat(chunks) == SeenByUnit(s) && |chunks[|chunks| - 1]| < RELOAD_SIZE)
  }

  lemma ChunksInOrder(answers: seq<DecodeHw.ReadResult>, s: seq<bv8>, chunks: seq<seq<bv8>>, more: bool)
    requires AnswersFrom(answers, s) && DecodeHw.FromStream(chunks, answers, more)
    requires DecodeHw.ReadUp(answers, chunks, more)
    ensures ReadInOrder(chunks, s, more)
  {
    var replies := Replies(s, Requests(|answers|));
    ChunksAreReplies(answers, s, chunks, more);
    SeenIs(answers, s);
    ConcatPrefix(replies, |chunks|);
    if !more {
      assert replies[..|replies|] == replies;
    }
  }

  /**
   * Decoding: what the unit is given, in the buffers it has used up and the one in turn, is
   * a beginning of the coded stream from its first byte on, with a fill byte before the last
   * byte of the marker that ends it just if the stream is of whole reload buffers; and it is
   * all of that once there is no more to read and the buffer in turn is the last.
   */
  lemma UnitFedFromStream(s: seq<bv8>, chunks: seq<seq<bv8>>, more: bool, mem: seq<bv8>, c: nat)
    requires s != [] && ReadInOrder(chunks, s, more) && DecodeHw.Queued(mem, chunks, c)
    ensures var given := DecodeHw.Given(Concat(chunks[..Min(c, |chunks|)]), mem, c % 2, chunks, c);
            && given <= SeenByUnit(s)
            && (!more && |chunks| <= c + 1 ==> given == SeenByUnit(s))
  {
    var m := Min(c + 1, |chunks|);
    DecodeHw.GivenIsNextChunk(mem, chunks, c);
    ConcatPrefix(chunks, m);
    assert chunks[..|chunks|] == chunks;
  }

  /** What the unit has been given after `n` words: the chunks it has used up, and what the buffer in turn holds. */
  ghost function GivenAt(d: JpuDriver.Jpu, events: seq<Event>, n: nat, chunks: seq<seq<bv8>>): seq<bv8>
    requires n <= |events| && DecodeHw.Queued(d.reload[..], chunks, Reloads(events[..n]))
    requires d.data.buffer == Reloads(events[..n]) % 2
    reads d, d.reload
  {
    var c := Reloads(events[..n]);
    DecodeHw.Given(Concat(chunks[..Min(c, |chunks|)]), d.reload[..], d.data.buffer, chunks, c)
  }

  /**
   * The unit has been given a beginning of the stream after `n` words: the chunks were read
   * in order, as many as the reloads asked for and up to two more, those not used up are in
   * their buffers, and the one in turn continues those used up.
   */
  ghost predicate FedInOrder(d: JpuDriver.Jpu, events: seq<Event>, n: nat, chunks: seq<seq<bv8>>, s: seq<bv8>)
    requires n <= |events| && s != []
    reads d, d.reload
  {
    var (c, more) := (Reloads(events[..n]), d.jpeg.flags.reload);
    && ReadInOrder(chunks, s, more) && (more ==> c <= |chunks|)
    && DecodeHw.Queued(d.reload[..], chunks, c)
    && d.data.buffer == c % 2 && d.data.buffers == DecodeHw.InUse(c, |chunks|)
    && GivenAt(d, events, n, chunks) <= SeenByUnit(s)
    && (!more && |chunks| <= c + 1 ==> GivenAt(d, events, n, chunks) == SeenByUnit(s))
  }

  /** How many rows of the frame show the picture after `n` words. */
  function RowsShown(height: nat, events: seq<Event>, n: nat, outcome: Outcome): nat
    requires n <= |events|
  {
    Min(height, StripTop(DecodeHw.StripsKept(events, n, outcome == Errored)))
  }

  /** The words before the n-th have finished every strip of a frame but one. */
  predicate AllButOne(height: nat, events: seq<Event>, n: nat) {
    0 < n <= |events| && height <= StripTop(Strips(events[..n - 1]) + 1)
  }

  /** All rows are shown when the end of the transfer comes after every strip but one. */
  lemma AllRowsShown(height: nat, events: seq<Event>, n: nat)
    requires AllButOne(height, events, n) && events[n - 1].ints.xferDone && !Failed(events[n - 1])
    ensures RowsShown(height, events, n, Finished) == height
  {
    CountOne(events, n);
  }

  /**
   * How a decode through software of the stream `s` has ended after `n` words: the unit has
   * been given a beginning of the stream, and the frame shows the rows of every strip that
   * was finished, but for one that the word of an error has finished; it shows all rows when
   * the words before the end of the transfer have finished every strip but one.
   */
  ghost predicate DecompressEnded(d: JpuDriver.Jpu, events: seq<Event>, n: nat, chunks: seq<seq<bv8>>, s: seq<bv8>,
                                  ret: int, outcome: Outcome)
    requires s != []
    reads d, d.frame, d.reload
  {
    && outcome == DecodeOutcome(events) && ret == (if outcome == Finished then 0 else -1)
    && n <= |events| && d.script == events[n..] && FedInOrder(d, events, n, chunks, s)
    && EndsAt(events, n, outcome)
    && (outcome == Finished && AllButOne(d.context.height, events, n) ==>
          FrameShows(d.frame[..], d.context.pitch, d.context.width, d.context.height, d.image, d.context.mode420))
    && FrameShows(d.frame[..], d.context.pitch, d.context.width, RowsShown(d.context.height, events, n, outcome),
                  d.image, d.context.mode420)
  }

  lemma FedAtEnd(d: JpuDriver.Jpu, src: DecodeHw.Stream, answers: seq<DecodeHw.ReadResult>, events: seq<Event>, n: nat,
                 chunks: seq<seq<bv8>>, eaten: seq<bv8>, ret: int, outcome: Outcome, s: seq<bv8>)
    requires DecodeHw.Ended(d, src, SoftMode, answers, events, n, chunks, eaten, ret, outcome)
    requires AnswersFrom(answers, s)
    ensures FedInOrder(d, events, n, chunks, s)
  {
    assert DecodeHw.Answer(answers, 0).ret == 0;
    ChunksInOrder(answers, s, chunks, d.jpeg.flags.reload);
    UnitFedFromStream(s, chunks, d.jpeg.flags.reload, d.reload[..], Reloads(events[..n]));
  }

  /** A whole decode through software of what the read operation answers. */
  lemma Decompressed(d: JpuDriver.Jpu, src: DecodeHw.Stream, answers: seq<DecodeHw.ReadResult>, events: seq<Event>,
                     n: nat,
                     chunks: seq<seq<bv8>>, eaten: seq<bv8>, ret: int, outcome: Outcome, s: seq<bv8>)
    requires DecodeHw.Ended(d, src, SoftMode, answers, events, n, chunks, eaten, ret, outcome)
    requires AnswersFrom(answers, s)
    ensures DecompressEnded(d, events, n, chunks, s, ret, outcome)
  {
    assert DecodeHw.Answer(answers, 0).ret == 0;
    FedAtEnd(d, src, answers, events, n, chunks, eaten, ret, outcome, s);
    if outcome == Finished {
      NoReadFails(answers, s, chunks, d.jpeg.flags.reload, ret);
    }
  }

  /**
   * libjpeg parses the header, and then the read operation is asked for one reload buffer
   * after the other: for every way the source's bytes are divided into fills and every way
   * the parser goes through the header, short of the marker that ends the stream.
   */
  method ReadStream(ctx: JpegIo.CinfoContext, steps: seq<JpegIo.Step>, hasBuffer: bool, buffer: array<bv8>)
    returns (answers: seq<DecodeHw.ReadResult>)
    requires ctx.src.Valid() && ctx.cache != ctx.src.data && ctx.con.cacheRead <= ctx.cache.Length
    requires (!hasBuffer ==> ctx.src.bytes == 0) && OneEnd(ctx.src.Live(), ctx.src.incoming)
    requires var at := JpegIo.Parsed((ctx.src.Live(), ctx.src.incoming), steps); 2 <= |at.0 + Concat(at.1)|
    requires buffer != ctx.cache && buffer != ctx.src.data && buffer.Length == RELOAD_SIZE
    modifies ctx, ctx.src, ctx.src.data, buffer
    ensures AnswersFrom(answers, old(ctx.src.Rest()))
  {
    ghost var s, start := ctx.src.Rest(), (ctx.src.Live(), ctx.src.incoming);
    OneEndEnds(start.0, start.1);
    JpegIo.MarkedAfterHeader(start, steps);
    ctx.ReadHeader(steps, hasBuffer);
    answers := ReadAnswers(ctx, buffer, s);
  }

  /** Decode what the read operation answers. */
  method DecodeAnswers(d: JpuDriver.Jpu, answers: seq<DecodeHw.ReadResult>, ghost s: seq<bv8>)
    returns (ret: int, ghost outcome: Outcome, ghost n: nat, ghost chunks: seq<seq<bv8>>)
    requires AnswersFrom(answers, s) && forall r :: r in answers ==> |r.bytes| <= RELOAD_SIZE
    requires d.Shape() && d.SoftArgs(false) && forall e :: e in d.script ==> !e.ints.loaded
    modifies d`data, d`jpeg, d`vioStarts, d`script, d`baseY, d`baseC, d.unit, d.lb1, d.lb2, d.reload, d.frame
    ensures DecompressEnded(d, old(d.script), n, chunks, s, ret, outcome)
  {
    ghost var events := d.script;
    var src := new DecodeHw.Stream(answers);
    ghost var eaten;
    ret, outcome, n, chunks, eaten := DecodeHw.DecodePicture(d, src, SoftMode);
    Decompressed(d, src, answers, events, n, chunks, eaten, ret, outcome, s);
  }

  /** Read scanlines in any batches from a frame that shows the first `shown` rows of a picture. */
  method ReadPicture(f: Lines, d: JpuDriver.Jpu, sizes: seq<nat>, ghost shown: nat) returns (lines: seq<seq<bv8>>)
    requires f.Valid() && SameFrame(f, d) && Readable(sizes, f.next, f.height)
    requires shown <= f.height && FrameShows(d.frame[..], f.pitch, d.context.width, shown, d.image, d.context.mode420)
    modifies f`next
    ensures |lines| == Min(Sum(sizes), f.height - old(f.next))
    ensures PictureLines(lines, old(f.next), shown, d.context.width, d.image, d.context.mode420)
  {
    ScanlinesShowPicture(d.frame[..], f.pitch, d.context.width, f.height, shown, d.image, d.context.mode420,
                         f.next, sizes);
    lines := ReadAll(f, sizes);
  }

  /** A whole decode through software of what a libjpeg source delivers, header and all. */
  method DecodeStream(ctx: JpegIo.CinfoContext, steps: seq<JpegIo.Step>, hasBuffer: bool, buffer: array<bv8>,
                      d: JpuDriver.Jpu, ghost s: seq<bv8>)
    returns (ret: int, ghost outcome: Outcome, ghost n: nat, ghost chunks: seq<seq<bv8>>)
    requires ctx.src.Valid() && ctx.cache != ctx.src.data && ctx.con.cacheRead <= ctx.cache.Length
    requires (!hasBuffer ==> ctx.src.bytes == 0) && OneEnd(ctx.src.Live(), ctx.src.incoming) && s == ctx.src.Rest()
    requires var at := JpegIo.Parsed((ctx.src.Live(), ctx.src.incoming), steps); 2 <= |at.0 + Concat(at.1)|
    requires buffer != ctx.cache && buffer != ctx.src.data && buffer.Length == RELOAD_SIZE
    requires d.Shape() && d.SoftArgs(false) && forall e :: e in d.script ==> !e.ints.loaded
    modifies ctx, ctx.src, ctx.src.data, buffer
    modifies d`data, d`jpeg, d`vioStarts, d`script, d`baseY, d`baseC, d.unit, d.lb1, d.lb2, d.reload, d.frame
    ensures s != [] && DecompressEnded(d, old(d.script), n, chunks, s, ret, outcome)
  {
    var answers := ReadStream(ctx, steps, hasBuffer, buffer);
    AnswersBounded(answers, s);
    ret, outcome, n, chunks := DecodeAnswers(d, answers, s);
  }

  /**
   * A whole decode through software of what a libjpeg source delivers, and then, if it has
   * succeeded, scanlines read from the frame in any batches.
   */
  method Decompress(ctx: JpegIo.CinfoContext, steps: seq<JpegIo.Step>, hasBuffer: bool, buffer: array<bv8>,
                    d: JpuDriver.Jpu, f: Lines, sizes: seq<nat>)
    returns (ret: int, lines: seq<seq<bv8>>, ghost outcome: Outcome, ghost n: nat, ghost chunks: seq<seq<bv8>>)
    requires ctx.src.Valid() && ctx.cache != ctx.src.data && ctx.con.cacheRead <= ctx.cache.Length
    requires (!hasBuffer ==> ctx.src.bytes == 0) && OneEnd(ctx.src.Live(), ctx.src.incoming)
    requires var at := JpegIo.Parsed((ctx.src.Live(), ctx.src.incoming), steps); 2 <= |at.0 + Concat(at.1)|
    requires buffer != ctx.cache && buffer != ctx.src.data && buffer.Length == RELOAD_SIZE
    requires d.Shape() && d.SoftArgs(false) && forall e :: e in d.script ==> !e.ints.loaded
    requires f.Valid() && SameFrame(f, d) && Readable(sizes, f.next, f.height)
    modifies ctx, ctx.src, ctx.src.data, buffer, f`next
    modifies d`data, d`jpeg, d`vioStarts, d`script, d`baseY, d`baseC, d.unit, d.lb1, d.lb2, d.reload, d.frame
    ensures old(ctx.src.Rest()) != []
    ensures DecompressEnded(d, old(d.script), n, chunks, old(ctx.src.Rest()), ret, outcome)
    ensures ret == 0 && AllButOne(f.height, old(d.script), n) ==>
      PictureLines(lines, old(f.next), f.height, d.context.width, d.image, d.context.mode420)
    ensures ret == 0 ==>
      && |lines| == Min(Sum(sizes), f.height - old(f.next))
      && PictureLines(lines, old(f.next), RowsShown(f.height, old(d.script), n, outcome), d.context.width, d.image,
                      d.context.mode420)
  {
    ghost var s, events := ctx.src.Rest(), d.script;
    ret, outcome, n, chunks := DecodeStream(ctx, steps, hasBuffer, buffer, d, s);
    lines := [];
    if ret == 0 {
      ghost var shown := RowsShown(f.height, events, n, outcome);
      if AllButOne(f.height, events, n) {
        AllRowsShown(f.height, events, n);
      }
      lines := ReadPicture(f, d, sizes, shown);
    }
  }
}
