/** The records of the driver's state machine and the invariants over them. */
module JpuState {
  import opened Basics
  import opened JpuDevice
  import opened FrameStrips

  datatype State = START | RUN | END

  /** How pixels get between frame and unit: directly, or in strips through software or the VIO. */
  datatype Mode = FrameMode | SoftMode | VioMode

  /** Options of a request. */
  datatype Flags = Flags(reload: bool, convert: bool, encode: bool, soft: bool)

  /** Fields of the driver's internal record that the state machine works on. */
  datatype Internal = Internal(
    buffers: Mask,     // reload buffers in use
    buffer: int,       // the reload buffer in turn
    error: nat,
    encode: bool,
    end: bool,
    linebuf: int,      // line buffer in turn for the unit
    pending: int,      // line buffers started and not finished
    jpuDone: int,      // line buffers finished by the unit
    vioLinebuf: int,   // line buffer in turn for conversion
    vioDone: int)      // line buffers converted

  /** A request to the state machine, filled in by the caller and by the machine. */
  datatype Request = Request(
    state: State,
    flags: Flags,
    buffers: Mask,     // in: buffers dealt with; out: buffers to deal with
    error: nat,
    saY: int,          // source addresses of the next VIO conversion, and their step
    saC: int,
    saInc: nat,
    softOffset: nat,   // place of the next software conversion in the frame
    softLine: nat)

  /** What the state machine needs of the caller's context: the picture at hand. */
  datatype Picture = Picture(width: nat, height: nat, pitch: nat, mode420: bool)

  /** One conversion started on the VIO: its source addresses and the line buffer used. */
  datatype VioStart = VioStart(y: int, c: int, linebuf: int)

  /** Conversion is done in software. */
  predicate Soft(q: Request) {
    q.flags.soft && !q.flags.convert
  }

  /** Software conversion has no rows left. */
  predicate Exhausted(q: Request, c: Picture) {
    Soft(q) && q.softLine == c.height
  }

  /** The same request but for the place conversion has reached. */
  predicate SameRequest(q: Request, p: Request) {
    p == q.(saY := p.saY, saC := p.saC, softOffset := p.softOffset, softLine := p.softLine)
  }

  /** The same record but for the place conversion has reached. */
  predicate SameInternal(d: Internal, e: Internal) {
    e == d.(vioDone := e.vioDone, vioLinebuf := e.vioLinebuf)
  }

  /** The internal record after a status word, but for the reload buffers. */
  function AfterStatus(d: Internal, e: Event): Internal {
    var d := d.(error := if e.ints.error then e.jcderr else d.error, end := d.end || e.ints.xferDone);
    if Counted(e) then
      d.(linebuf := (d.linebuf + 1) % 2, pending := d.pending - 1, jpuDone := d.jpuDone + 1)
    else d
  }

  /** The internal record after a status word. */
  function AfterWord(d: Internal, e: Event): Internal {
    var (mask, b) := Handed(d.buffers, d.buffer, e);
    AfterStatus(d, e).(buffers := mask, buffer := b)
  }

  /** A word has been taken: its effect on everything but the line being started or converted. */
  predicate WordTaken(d: Internal, d': Internal, e: Event) {
    && StatusAfter(d, d', e)
    && d'.jpuDone == d.jpuDone + if Counted(e) then 1 else 0
  }

  /** The status part of the record after a word that found it clear of the end. */
  predicate StatusAfter(d: Internal, d': Internal, e: Event) {
    && (d'.buffers, d'.buffer) == Handed(d.buffers, d.buffer, e)
    && d'.error == (if e.ints.error then e.jcderr else d.error)
    && d'.end == e.ints.xferDone
  }

  /** No word has touched the status part of the record. */
  predicate SameStatus(d: Internal, d': Internal) {
    d'.buffers == d.buffers && d'.buffer == d.buffer && d'.error == d.error && d'.end == d.end
  }

  /** The internal record at the start of a picture. */
  function StartOf(q: Request): Internal {
    Internal(q.buffers, 0, 0, q.flags.encode, false, 0, if q.flags.encode then 0 else 2, 0, 0, 0)
  }

  /**
   * What a call reports: an error ends the picture and leaves the caller's mask as it was;
   * otherwise the mask names the buffers used up and, at the end, the one in turn as well.
   */
  function Report(q: Request, d: Internal): Request {
    if d.error != 0 then q.(state := END, error := d.error)
    else if d.end then q.(state := END, buffers := Or(Flip(d.buffers), Bit(d.buffer)))
    else q.(buffers := Flip(d.buffers))
  }

  // ------------------------------------------------- addresses of the VIO

  /** A 32-bit source address after `k` steps of `inc`. */
  function StepAddress(base: int, inc: nat, k: nat): int {
    if k == 0 then base else (StepAddress(base, inc, k - 1) + inc) % U32
  }

  /** The first `k` conversions on the VIO, the line buffers taking turns. */
  function VioTrace(encode: bool, baseY: int, baseC: int, inc: nat, k: nat): seq<VioStart> {
    if k == 0 then []
    else VioTrace(encode, baseY, baseC, inc, k - 1)
         + [if encode then VioStart(StepAddress(baseY, inc, k - 1), StepAddress(baseC, inc, k - 1), (k - 1) % 2)
            else VioStart(0, 0, (k - 1) % 2)]
  }

  /**
   * The k-th conversion of an encode reads its source k strips below the base, modulo the
   * 32-bit address space, into line buffer k modulo 2.
   */
  lemma {:induction false} VioStartIs(baseY: int, baseC: int, inc: nat, n: nat, k: nat)
    requires k < n && 0 <= baseY < U32 && 0 <= baseC < U32
    ensures |VioTrace(true, baseY, baseC, inc, n)| == n
    ensures VioTrace(true, baseY, baseC, inc, n)[k]
         == VioStart((baseY + k * inc) % U32, (baseC + k * inc) % U32, k % 2)
  {
    if k < n - 1 {
      VioStartIs(baseY, baseC, inc, n - 1, k);
    } else {
      if 0 < k {
        VioStartIs(baseY, baseC, inc, k, 0);
      }
      StepAddressIs(baseY, inc, k);
      StepAddressIs(baseC, inc, k);
    }
  }

  lemma {:induction false} StepAddressIs(base: int, inc: nat, k: nat)
    requires 0 <= base < U32
    ensures StepAddress(base, inc, k) == (base + k * inc) % 0x1_0000_0000
  {
    if k > 0 {
      StepAddressIs(base, inc, k - 1);
      var before := (k - 1) * inc;
      assert k * inc == before + inc;
      StepModulo(base + before, inc);
    }
  }

  lemma StepModulo(a: int, b: int)
    ensures (a % U32 + b) % U32 == (a + b) % U32
  {
    var (q, r) := (a / U32, a % U32);
    var (p, s) := ((r + b) / U32, (r + b) % U32);
    assert a + b == U32 * (q + p) + s;
  }

  // ------------------------------------------------- invariants

  /** Line buffer indices follow the counters; nothing is counted below zero. */
  predicate Indexed(d: Internal, q: Request) {
    && (d.buffer == 0 || d.buffer == 1)
    && 0 <= d.jpuDone && 0 <= d.vioDone
    && d.linebuf == d.jpuDone % 2
    && d.vioLinebuf == if q.flags.convert || q.flags.soft then d.vioDone % 2 else 0
  }

  /** Software conversion has covered the rows of the strips it has counted. */
  predicate SoftPlace(d: Internal, q: Request, c: Picture)
    requires 0 <= d.vioDone
  {
    Soft(q) ==>
      && q.softLine == Min(c.height, StripTop(d.vioDone)) && q.softOffset == RowAt(q.softLine, c.pitch)
      && StripTop(d.vioDone) < c.height + LINEBUFFER_HEIGHT
  }

  /** The conversions of the VIO so far, and where the next one will start. */
  predicate VioPlace(d: Internal, q: Request, starts: seq<VioStart>, baseY: int, baseC: int)
    requires 0 <= d.vioDone
  {
    q.flags.convert ==>
      && starts == VioTrace(d.encode, baseY, baseC, q.saInc, d.vioDone)
      && (d.encode ==>
            q.saY == StepAddress(baseY, q.saInc, d.vioDone) && q.saC == StepAddress(baseC, q.saInc, d.vioDone))
  }

  /**
   * Decoding, the unit is at most one strip ahead of the conversion and owns no more than
   * the two line buffers that are not waiting to be converted.
   */
  predicate DecodeSafe(d: Internal, q: Request, c: Picture) {
    && 0 <= d.pending
    && d.vioDone <= d.jpuDone
    && (!Exhausted(q, c) ==> d.jpuDone <= d.vioDone + 1 && d.jpuDone + d.pending <= d.vioDone + 2)
  }

  /** Every strip the unit has finished is converted. */
  predicate CaughtUp(d: Internal, q: Request, c: Picture) {
    Exhausted(q, c) || d.jpuDone == d.vioDone
  }

  /** Just the first `strips` strips are converted, or every row is. */
  predicate Converted(d: Internal, q: Request, c: Picture, strips: int) {
    Exhausted(q, c) || d.vioDone == strips
  }

  /** After the word `e`: every finished strip is converted, but for one that the word of an error has finished. */
  predicate ConvertedAfter(d: Internal, q: Request, c: Picture, e: Event) {
    Converted(d, q, c, d.jpuDone - if d.error != 0 && Counted(e) then 1 else 0)
  }

  /** Encoding, at most one strip is converted ahead of the unit, and only that strip is ever started. */
  predicate EncodeSafe(d: Internal) {
    0 <= d.pending <= d.vioDone - d.jpuDone <= 1
  }

  /** The rows converted so far show the picture, and a strip not yet converted is still in its line buffer. */
  ghost predicate DecodeShown(d: Internal, q: Request, c: Picture, image: seq<LineBuffer>, f: seq<bv8>,
                              l1: seq<bv8>, l2: seq<bv8>)
    requires 0 <= d.vioDone
  {
    Soft(q) ==>
      && FrameShows(f, c.pitch, c.width, q.softLine, image, c.mode420)
      && (d.vioDone < d.jpuDone && q.softLine < c.height ==>
            d.vioDone < |image| && (if d.vioDone % 2 == 0 then l1 else l2) == image[d.vioDone])
  }

  /** The unit has read every strip so far from a line buffer that held it, and the next one is in place. */
  ghost predicate EncodeHeld(d: Internal, q: Request, c: Picture, encoded: seq<LineBuffer>, f: seq<bv8>,
                             l1: seq<bv8>, l2: seq<bv8>)
    requires 0 <= d.jpuDone
  {
    && |encoded| == d.jpuDone
    && (Soft(q) ==>
          && (forall k: nat :: k < d.jpuDone ==> HoldsStrip(encoded[k], f, c.pitch, c.width, c.height, k))
          && (d.jpuDone < d.vioDone ==>
                HoldsStrip(if d.jpuDone % 2 == 0 then l1 else l2, f, c.pitch, c.width, c.height, d.jpuDone)))
  }

  // ------------------------------------------------- what a conversion does to them

  /** Software conversion of the next strip moves the place on by that strip. */
  lemma PlaceAhead(d: Internal, q: Request, c: Picture, line: nat)
    requires 0 <= d.vioDone && SoftPlace(d, q, c) && Soft(q) && q.softLine < c.height
    requires line == q.softLine + Min(c.height - q.softLine, LINEBUFFER_HEIGHT)
    ensures q.softLine == StripTop(d.vioDone)
    ensures SoftPlace(d.(vioDone := d.vioDone + 1), q.(softLine := line, softOffset := RowAt(line, c.pitch)), c)
  {
  }

  /** With one strip more converted, and none waiting before, that one is held. */
  lemma HeldAhead(d: Internal, d': Internal, q: Request, q': Request, c: Picture, encoded: seq<LineBuffer>, f: seq<bv8>,
                  l1: seq<bv8>, l2: seq<bv8>, m1: seq<bv8>, m2: seq<bv8>)
    requires 0 <= d.jpuDone == d.vioDone == d'.jpuDone && d'.vioDone == d.vioDone + 1
    requires Soft(q) == Soft(q') && EncodeHeld(d, q, c, encoded, f, l1, l2)
    requires Soft(q) ==> HoldsStrip(if d.jpuDone % 2 == 0 then m1 else m2, f, c.pitch, c.width, c.height, d.jpuDone)
    ensures EncodeHeld(d', q', c, encoded, f, m1, m2)
  {
  }

  // ------------------------------------------------- what the words do to them

  /** Starting a line when none is pending keeps the decode window within two buffers. */
  lemma StartKeepsDecodeSafe(d: Internal, q: Request, c: Picture)
    requires DecodeSafe(d, q, c) && d.pending == 0
    ensures DecodeSafe(d.(pending := 1), q, c)
  {
  }

  /** Any word keeps the counters of a caught-up decode in their window. */
  lemma WordKeepsDecode(d: Internal, q: Request, c: Picture, e: Event)
    requires Indexed(d, q) && DecodeSafe(d, q, c) && CaughtUp(d, q, c) && 0 < d.pending
    ensures Indexed(AfterWord(d, e), q) && DecodeSafe(AfterWord(d, e), q, c)
  {
  }

  /** Any word keeps the counters of an encode in their window. */
  lemma WordKeepsEncode(d: Internal, q: Request, e: Event)
    requires Indexed(d, q) && EncodeSafe(d) && 0 < d.pending
    ensures Indexed(AfterWord(d, e), q) && EncodeSafe(AfterWord(d, e))
    ensures AfterWord(d, e).pending == if Counted(e) then 0 else 1
  {
  }
}
