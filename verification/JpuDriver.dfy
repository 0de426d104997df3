/** The state machine that drives the JPEG unit one line buffer at a time. */
module JpuDriver {
  import opened Basics
  import opened SoftHelper
  import opened SoftDownsample
  import opened JpuDevice
  import opened FrameStrips
  import opened JpuState

  /** How a call into the driver's loops ends. */
  datatype Exit =
    | Returned  // the loop was left by a status word
    | TimedOut  // no interrupt within the timeout
    | Invalid   // called in the END state
    | Spins     // a pass of the encode loop that changes nothing and waits for nothing

  /**
   * What the unit has been told and what it has done: the lines it has been commanded to
   * start and those it has finished; in an encode the line buffers it has read and the bytes
   * it has coded. It goes by the driver's commands, not by the driver's records.
   */
  class Unit {
    var started: nat
    var finished: nat
    var encoded: seq<LineBuffer>
    var coded: seq<bv8>
  }

  /** The driver's records and the memory it shares with the unit. */
  class Jpu {
    var data: Internal
    var jpeg: Request
    const context: Picture

    // two line buffers, the pair of reload buffers, the frame
    const lb1: array<bv8>
    const lb2: array<bv8>
    const reload: array<bv8>
    const frame: array<bv8>

    // what the unit's interrupts will report, the picture it decodes, what it has
    // encoded, the conversions of the VIO and the addresses they began from
    var script: seq<Event>
    const image: seq<LineBuffer>
    const unit: Unit
    var vioStarts: seq<VioStart>
    ghost var baseY: int
    ghost var baseC: int

    constructor (context: Picture, frame: array<bv8>, script: seq<Event>, image: seq<LineBuffer>, jpeg: Request)
      ensures this.context == context && this.frame == frame && this.script == script && this.image == image
      ensures this.jpeg == jpeg && Shape() && fresh(lb1) && fresh(lb2) && fresh(reload) && fresh(unit)
    {
      this.context, this.frame, this.script, this.image, this.jpeg := context, frame, script, image, jpeg;
      lb1 := new bv8[LINEBUFFER_SIZE];
      lb2 := new bv8[LINEBUFFER_SIZE];
      reload := new bv8[2 * RELOAD_SIZE];
      unit := new Unit;
    }

    /** The memory areas have their sizes and do not overlap. */
    ghost predicate Shape() {
      && lb1.Length == lb2.Length == LINEBUFFER_SIZE && reload.Length == 2 * RELOAD_SIZE
      && lb1 != lb2 && lb1 != reload && lb1 != frame && lb2 != reload && lb2 != frame && reload != frame
    }

    /** What software conversion demands of the context. */
    ghost predicate SoftArgs(encode: bool) {
      && context.width <= LINEBUFFER_PITCH && 3 * context.width <= context.pitch
      && RowAt(context.height, context.pitch) <= frame.Length
      && (!encode ==> context.height <= StripTop(|image|))
    }

    /** The line buffer with the given index. */
    function LineBuf(i: int): array<bv8> {
      if i == 0 then lb1 else lb2
    }

    /** The memory a conversion may write: the line buffers when encoding, the frame when decoding. */
    ghost function ConvertTarget(): set<object>
      reads this
    {
      if data.encode then {lb1, lb2} else {frame}
    }

    /** The memory the unit may write: the reload buffers when encoding, the line buffers when decoding. */
    ghost function UnitTarget(): set<object>
      reads this
    {
      if data.encode then {reload, unit} else {lb1, lb2, unit}
    }

    // ---------------------------------------------------------------- conversion

    method SoftGetSrcJpu() returns (lb: array<bv8>)
      ensures lb == LineBuf(data.vioLinebuf)
    {
      if data.vioLinebuf == 0 {
        lb := lb1;
      } else {
        lb := lb2;
      }
    }

    /**
     * What one software conversion does: nothing when every row is converted; otherwise
     * the next strip goes from the current line buffer to the frame, or the other way
     * when encoding, and the other line buffer is left alone.
     */
    twostate predicate SwConverted()
      reads this, lb1, lb2, frame
    {
      var (top, at, b) := (old(jpeg.softLine), old(jpeg.softOffset), old(data.vioLinebuf));
      var lines := jpeg.softLine - top;
      && jpeg == old(jpeg).(softLine := jpeg.softLine, softOffset := RowAt(jpeg.softLine, context.pitch))
      && (top == context.height ==>
            && lines == 0 && data == old(data)
            && (if data.encode then lb1[..] == old(lb1[..]) && lb2[..] == old(lb2[..])
                else frame[..] == old(frame[..])))
      && (top < context.height ==>
            && lines == Min(context.height - top, LINEBUFFER_HEIGHT)
            && data == old(data).(vioLinebuf := (b + 1) % 2, vioDone := old(data).vioDone + 1)
            && at <= frame.Length
            && (if data.encode then
                  && (b != 0 ==> lb1[..] == old(lb1[..])) && (b == 0 ==> lb2[..] == old(lb2[..]))
                  && StripDownsampled(LineBuf(b)[..], 0, LINEBUFFER_SIZE_Y, frame[..], at, context.pitch, context.width,
                                      lines)
                else
                  && frame[..at] == old(frame[..jpeg.softOffset])
                  && RowsPacked(frame[..], at, context.pitch, context.width, lines,
                                LineBuf(b)[..], 0, LINEBUFFER_SIZE_Y, context.mode420)))
    }

    /** Convert `lines` rows between a line buffer and the frame. */
    method ConvertStrip(lb: array<bv8>, lines: nat)
      requires Shape() && SoftArgs(data.encode) && jpeg.softOffset == RowAt(jpeg.softLine, context.pitch)
      requires (lb == lb1 || lb == lb2) && 0 < lines <= LINEBUFFER_HEIGHT && jpeg.softLine + lines <= context.height
      modifies if data.encode then lb else frame
      ensures jpeg.softOffset <= frame.Length
      ensures data.encode ==>
        StripDownsampled(lb[..], 0, LINEBUFFER_SIZE_Y, frame[..], jpeg.softOffset, context.pitch, context.width, lines)
      ensures !data.encode ==>
        && frame[..jpeg.softOffset] == old(frame[..jpeg.softOffset])
        && RowsPacked(frame[..], jpeg.softOffset, context.pitch, context.width, lines,
                      lb[..], 0, LINEBUFFER_SIZE_Y, context.mode420)
    {
      PlanesFit(lines);
      RowsFit(jpeg.softLine, lines, context.height, context.pitch);
      if data.encode {
        SoftFromYCbCrByWord(lb, 0, LINEBUFFER_SIZE_Y, frame, jpeg.softOffset, context.width, context.pitch, lines);
      } else {
        SoftToYCbCrByWord(lb, 0, LINEBUFFER_SIZE_Y, frame, jpeg.softOffset, context.width, context.pitch,
                          context.mode420, lines);
      }
    }

    /** Convert one line buffer in software; once every row is converted, do nothing. */
    method SwConvert()
      requires Shape() && SoftArgs(data.encode)
      requires jpeg.softLine <= context.height && jpeg.softOffset == RowAt(jpeg.softLine, context.pitch)
      modifies this`data, this`jpeg, ConvertTarget()
      ensures SwConverted()
    {
      var lb := SoftGetSrcJpu();
      var lines: int := context.height - jpeg.softLine;
      if lines > LINEBUFFER_HEIGHT {
        lines := LINEBUFFER_HEIGHT;
      }
      if lines <= 0 {
        return;
      }
      ConvertStrip(lb, lines);
      RowAtSum(jpeg.softLine, lines, context.pitch);
      jpeg := jpeg.(softOffset := jpeg.softOffset + RowAt(lines, context.pitch), softLine := jpeg.softLine + lines);
      data := data.(vioLinebuf := (data.vioLinebuf + 1) % 2, vioDone := data.vioDone + 1);
    }

    /** Start a conversion on the VIO and step the source addresses when encoding. */
    method StartVio()
      modifies this`jpeg, this`vioStarts
      ensures data.encode ==>
        && vioStarts == old(vioStarts) + [VioStart(old(jpeg).saY, old(jpeg).saC, data.vioLinebuf)]
        && jpeg == old(jpeg).(saY := (old(jpeg).saY + jpeg.saInc) % U32, saC := (old(jpeg).saC + jpeg.saInc) % U32)
      ensures !data.encode ==>
        vioStarts == old(vioStarts) + [VioStart(0, 0, data.vioLinebuf)] && jpeg == old(jpeg)
    {
      if data.encode {
        vioStarts := vioStarts + [VioStart(jpeg.saY, jpeg.saC, data.vioLinebuf)];
        jpeg := jpeg.(saY := (jpeg.saY + jpeg.saInc) % U32, saC := (jpeg.saC + jpeg.saInc) % U32);
      } else {
        vioStarts := vioStarts + [VioStart(0, 0, data.vioLinebuf)];
      }
    }

    method WaitAndProcessVio()
      modifies this`data
      ensures data == old(data).(vioLinebuf := (old(data).vioLinebuf + 1) % 2, vioDone := old(data).vioDone + 1)
    {
      data := data.(vioLinebuf := (data.vioLinebuf + 1) % 2, vioDone := data.vioDone + 1);
    }

    /** Convert one line buffer: on the VIO, in software, or not at all. */
    method Convert()
      requires Shape()
      requires Soft(jpeg) ==>
        && SoftArgs(data.encode) && jpeg.softLine <= context.height
        && jpeg.softOffset == RowAt(jpeg.softLine, context.pitch)
      modifies this`data, this`jpeg, this`vioStarts, ConvertTarget()
      ensures jpeg.flags.convert ==>
        && data == old(data).(vioLinebuf := (old(data).vioLinebuf + 1) % 2, vioDone := old(data).vioDone + 1)
        && vioStarts == old(vioStarts)
                        + [if data.encode then VioStart(old(jpeg).saY, old(jpeg).saC, old(data).vioLinebuf)
                           else VioStart(0, 0, old(data).vioLinebuf)]
        && jpeg == (if data.encode then
                      old(jpeg).(saY := (old(jpeg).saY + jpeg.saInc) % U32, saC := (old(jpeg).saC + jpeg.saInc) % U32)
                    else old(jpeg))
      ensures !jpeg.flags.convert ==> vioStarts == old(vioStarts)
      ensures Soft(jpeg) ==> SwConverted()
      ensures !jpeg.flags.convert && !jpeg.flags.soft ==>
        data == old(data).(vioDone := old(data).vioDone + 1) && jpeg == old(jpeg)
      ensures !Soft(jpeg) ==>
        if data.encode then lb1[..] == old(lb1[..]) && lb2[..] == old(lb2[..]) else frame[..] == old(frame[..])
    {
      if jpeg.flags.convert {
        StartVio();
        WaitAndProcessVio();
      } else if jpeg.flags.soft {
        SwConvert();
      } else {
        data := data.(vioDone := data.vioDone + 1);
      }
    }

    // ---------------------------------------------------------------- the unit

    /** The unit writes a whole line buffer. */
    method Fill(lb: array<bv8>, content: LineBuffer)
      requires lb.Length == LINEBUFFER_SIZE
      modifies lb
      ensures lb[..] == content
    {
      forall i | 0 <= i < LINEBUFFER_SIZE {
        lb[i] := content[i];
      }
    }

    /** The unit stores coded bytes, alternating between the reload buffers. */
    method StoreCoded(bytes: seq<bv8>)
      requires Shape() && HoldsTail(reload[..], unit.coded)
      modifies unit`coded, reload
      ensures unit.coded == old(unit.coded) + bytes && HoldsTail(reload[..], unit.coded)
    {
      for i := 0 to |bytes|
        invariant unit.coded == old(unit.coded) + bytes[..i]
        invariant HoldsTail(reload[..], unit.coded)
      {
        ghost var mem, was := reload[..], unit.coded;
        reload[|unit.coded| % RING] := bytes[i];
        unit.coded := unit.coded + [bytes[i]];
        TailGrows(mem, was, bytes[i]);
        assert reload[..] == mem[|was| % RING := bytes[i]];
        assert bytes[..i + 1] == bytes[..i] + [bytes[i]];
      }
      assert bytes[..|bytes|] == bytes;
    }

    /** The driver's records agree with the commands it has given and with what the unit has finished. */
    ghost predicate InStep()
      reads this`data, unit
    {
      0 <= data.jpuDone == unit.finished && unit.started == data.jpuDone + data.pending
    }

    /** The unit works on the picture: what it leaves in the line buffers of the strips it has been told to start. */
    method UnitDecodes(k: nat, whole: bool, both: bool, e: Event)
      requires Shape() && (whole ==> k < |image|)
      modifies lb1, lb2
      ensures whole ==> LineBuf(k % 2)[..] == image[k]
      ensures !both ==> LineBuf((k + 1) % 2)[..] == old(LineBuf((k + 1) % 2)[..])
    {
      if k % 2 == 0 {
        Fill(lb1, if whole then image[k] else e.partial1);
        if both {
          Fill(lb2, e.partial2);
        }
      } else {
        Fill(lb2, if whole then image[k] else e.partial2);
        if both {
          Fill(lb1, e.partial1);
        }
      }
    }

    /**
     * What the unit does while the driver waits. It works on the strips that it has been
     * told to start and has not finished, strip k in line buffer k modulo 2, and touches no
     * other line buffer. Decoding, it leaves the finished strip of the picture, or something
     * partial, there. Encoding, it has read the strip it reports finished. A line buffer is
     * finished when the word says so of either line buffer, or reports the end of the transfer.
     */
    method UnitWorks(e: Event)
      requires Shape() && unit.finished < unit.started && (data.encode ==> HoldsTail(reload[..], unit.coded))
      modifies UnitTarget()
      ensures unit.started == old(unit.started)
      ensures unit.finished == old(unit.finished) + if FinishesLine(e.ints) then 1 else 0
      ensures !data.encode && FinishesLine(e.ints) && old(unit.finished) < |image| ==>
        LineBuf(old(unit.finished) % 2)[..] == image[old(unit.finished)]
      ensures !data.encode && old(unit.started) == old(unit.finished) + 1 ==>
        LineBuf((old(unit.finished) + 1) % 2)[..] == old(LineBuf((unit.finished + 1) % 2)[..])
      ensures data.encode ==>
        && unit.encoded == old(unit.encoded)
                           + (if FinishesLine(e.ints) then [LineBuf(old(unit.finished) % 2)[..]] else [])
        && unit.coded == old(unit.coded) + e.coded && HoldsTail(reload[..], unit.coded)
    {
      var k, over := unit.finished, FinishesLine(e.ints);
      if data.encode {
        if over {
          unit.encoded := unit.encoded + [LineBuf(k % 2)[..]];
        }
        StoreCoded(e.coded);
      } else {
        UnitDecodes(k, over && k < |image|, k + 1 < unit.started, e);
      }
      unit.finished := k + if over then 1 else 0;
    }

    // ---------------------------------------------------------------- interrupts

    /** Command the unit to start one line more. */
    method StartJpuLine()
      modifies this`data, unit`started
      ensures data == old(data).(pending := old(data).pending + 1) && unit.started == old(unit.started) + 1
    {
      unit.started := unit.started + 1;
      data := data.(pending := data.pending + 1);
    }

    /** Act on the error, the end of the transfer and the line buffers of a status word. */
    method ProcessStatus(e: Event, done: bool) returns (done': bool)
      modifies this`data
      ensures done' == (done || e.ints.error || e.ints.xferDone) && data == AfterStatus(old(data), e)
    {
      var ints := e.ints;
      done' := done;
      if ints.error {
        data := data.(error := e.jcderr);
        done' := true;
      }
      if ints.xferDone {
        data := data.(end := true);
        done' := true;
        ints := ints.(linebuf1 := true);
      }
      if ints.linebuf0 || ints.linebuf1 {
        data := data.(linebuf := (data.linebuf + 1) % 2, pending := data.pending - 1, jpuDone := data.jpuDone + 1);
      }
    }

    /** The reload buffer in turn has been used up. */
    method HandBuffer()
      modifies this`data
      ensures data == old(data).(buffers := Without(old(data).buffers, old(data).buffer),
                                 buffer := (old(data).buffer + 1) % 2)
    {
      data := data.(buffers := Without(data.buffers, data.buffer), buffer := (data.buffer + 1) % 2);
    }

    /**
     * Act on one status word: an error hands its code on, a line buffer is finished when a
     * bit of either says so or the transfer ends, and LOADED and RELOAD each use up the
     * reload buffer in turn.
     */
    method ProcessJpuInts(e: Event, done: bool) returns (done': bool)
      requires data.buffer == 0 || data.buffer == 1
      modifies this`data
      ensures done' == (done || Stops(e)) && data == AfterWord(old(data), e)
      ensures done' == (done || e.ints.error || e.ints.xferDone || e.ints.loaded || e.ints.reload)
      ensures data.error == if e.ints.error then e.jcderr else old(data).error
      ensures data.end == (old(data).end || e.ints.xferDone)
      ensures var lines := if e.ints.xferDone || e.ints.linebuf0 || e.ints.linebuf1 then 1 else 0;
              data.jpuDone == old(data).jpuDone + lines && data.pending == old(data).pending - lines
              && data.linebuf == if lines == 1 then (old(data).linebuf + 1) % 2 else old(data).linebuf
      ensures data.buffer == if e.ints.loaded != e.ints.reload then 1 - old(data).buffer else old(data).buffer
      ensures e.ints.loaded && e.ints.reload ==> data.buffers == Mask(false, false)
      ensures e.ints.loaded != e.ints.reload ==>
        data.buffers == if old(data).buffer == 0 then Mask(false, old(data).buffers.second)
                        else Mask(old(data).buffers.first, false)
      ensures !e.ints.loaded && !e.ints.reload ==> data.buffers == old(data).buffers
      ensures data.encode == old(data).encode
      ensures data.vioLinebuf == old(data).vioLinebuf && data.vioDone == old(data).vioDone
    {
      done' := ProcessStatus(e, done);
      if e.ints.loaded {
        HandBuffer();
        done' := true;
      }
      if e.ints.reload {
        HandBuffer();
        done' := true;
      }
    }

    /** Wait for the next interrupt and act on it. */
    method WaitAndProcessJpu(done: bool) returns (ok: bool, done': bool)
      requires Shape() && InStep() && 0 < data.pending && (data.buffer == 0 || data.buffer == 1)
      requires data.encode ==> HoldsTail(reload[..], unit.coded)
      modifies this`script, this`data, UnitTarget()
      ensures InStep() && ok == (old(script) != [])
      ensures !ok ==> script == [] && done' == done && data == old(data)
      ensures !ok && data.encode ==>
        unit.encoded == old(unit.encoded) && unit.coded == old(unit.coded) && reload[..] == old(reload[..])
      ensures !ok && !data.encode ==> lb1[..] == old(lb1[..]) && lb2[..] == old(lb2[..])
      ensures ok ==>
        && script == old(script)[1..] && done' == (done || Stops(old(script)[0]))
        && data == AfterWord(old(data), old(script)[0])
      ensures ok && !data.encode ==>
        Counted(old(script)[0]) && old(data).jpuDone < |image| ==>
        LineBuf(old(data).jpuDone % 2)[..] == image[old(data).jpuDone]
      ensures ok && data.encode ==>
        && unit.encoded == old(unit.encoded)
                           + (if Counted(old(script)[0]) then [LineBuf(old(data).jpuDone % 2)[..]] else [])
        && unit.coded == old(unit.coded) + old(script)[0].coded && HoldsTail(reload[..], unit.coded)
    {
      if script == [] {
        return false, done;
      }
      var e := script[0];
      script := script[1..];
      UnitWorks(e);
      ok, done' := true, done;
      if e.ints != QUIET {
        done' := ProcessJpuInts(e, done);
      }
    }

    // ---------------------------------------------------------------- decoding

    ghost predicate DecodeInv()
      reads this, unit, lb1, lb2, frame
    {
      && Shape() && InStep() && (Soft(jpeg) ==> SoftArgs(false)) && !data.encode
      && Indexed(data, jpeg) && SoftPlace(data, jpeg, context) && VioPlace(data, jpeg, vioStarts, baseY, baseC)
      && DecodeSafe(data, jpeg, context)
      && DecodeShown(data, jpeg, context, image, frame[..], lb1[..], lb2[..])
    }

    /** The line buffer of a strip that waits for its conversion is none that the unit has been told to work on. */
    lemma NotOwned(k: nat)
      requires DecodeInv() && !Exhausted(jpeg, context) && data.vioDone < data.jpuDone
      requires unit.finished <= k < unit.started
      ensures k % 2 != data.vioDone % 2
    {
      assert k == data.vioDone + 1;
    }

    /** Start the next line if the unit has none left to work on. */
    method StartDecoding()
      requires DecodeInv() && !data.end
      modifies this`data, unit`started
      ensures DecodeInv() && 0 < data.pending && data == old(data).(pending := data.pending)
    {
      if !data.end && data.pending == 0 {
        StartKeepsDecodeSafe(data, jpeg, context);
        StartJpuLine();
      }
    }

    /** Convert a finished strip of a decode, if there is one. */
    method ConvertDecoded()
      requires DecodeInv()
      modifies this`data, this`jpeg, this`vioStarts, frame
      ensures DecodeInv() && CaughtUp(data, jpeg, context)
      ensures SameInternal(old(data), data) && SameRequest(old(jpeg), jpeg)
    {
      if data.jpuDone > data.vioDone {
        ghost var k, f := data.vioDone, frame[..];
        Convert();
        if Soft(jpeg) && k < data.vioDone {
          StripShown(f, frame[..], context.pitch, context.width, k, jpeg.softLine - StripTop(k), image,
                     context.mode420);
        }
      }
    }

    /** Wait during a decode, when every finished strip is converted. */
    method AwaitDecoding(done: bool) returns (ok: bool, done': bool)
      requires DecodeInv() && CaughtUp(data, jpeg, context) && 0 < data.pending
      modifies this`script, this`data, lb1, lb2, unit
      ensures DecodeInv()
      ensures ok == (old(script) != [])
      ensures !ok ==> script == [] && done' == done && data == old(data)
      ensures ok ==>
        && script == old(script)[1..] && done' == (done || Stops(old(script)[0]))
        && data == AfterWord(old(data), old(script)[0])
    {
      ghost var d := data;
      ok, done' := WaitAndProcessJpu(done);
      if ok {
        WordKeepsDecode(d, jpeg, context, old(script)[0]);
      }
    }

    /** One pass of the decode loop: start a line, convert a finished one, wait for the next word. */
    method DecodePass() returns (ok: bool, done: bool)
      requires DecodeInv() && !data.end
      modifies this`data, this`jpeg, this`vioStarts, this`script, lb1, lb2, frame, unit
      ensures DecodeInv()
      ensures SameRequest(old(jpeg), jpeg)
      ensures ok == (old(script) != [])
      ensures !ok ==> script == [] && data.jpuDone == old(data).jpuDone && CaughtUp(data, jpeg, context) && !data.end
      ensures !ok ==> SameStatus(old(data), data)
      ensures ok ==>
        && script == old(script)[1..] && done == Stops(old(script)[0])
        && WordTaken(old(data), data, old(script)[0])
        && Converted(data, jpeg, context, data.jpuDone - if Counted(old(script)[0]) then 1 else 0)
    {
      ok, done := true, false;
      StartDecoding();
      ConvertDecoded();
      if !data.end && data.pending > 0 {
        ok, done := AwaitDecoding(done);
      }
    }

    /** The decode loop. */
    method JpuDecode() returns (r: Exit, ghost n: nat)
      requires DecodeInv() && !data.end
      modifies this`data, this`jpeg, this`vioStarts, this`script, lb1, lb2, frame, unit
      ensures DecodeInv()
      ensures SameRequest(old(jpeg), jpeg)
      ensures r == Returned || r == TimedOut
      ensures Consumed(script, old(script), n, r == Returned)
      ensures data.jpuDone == old(data).jpuDone + Strips(old(script)[..n])
      ensures r == TimedOut ==> n == |old(script)| && CaughtUp(data, jpeg, context) && SameStatus(old(data), data)
      ensures r == Returned ==>
        && StatusAfter(old(data), data, old(script)[n - 1])
        && ConvertedAfter(data, jpeg, context, old(script)[n - 1])
    {
      var done := false;
      ghost var events := script;
      n := 0;
      while !done
        invariant DecodeInv() && SameRequest(old(jpeg), jpeg)
        invariant Consumed(script, events, n, done)
        invariant data.jpuDone == old(data).jpuDone + Strips(events[..n])
        invariant if done then StatusAfter(old(data), data, events[n - 1]) else SameStatus(old(data), data)
        invariant done ==> Converted(data, jpeg, context, data.jpuDone - if Counted(events[n - 1]) then 1 else 0)
        decreases |script|
      {
        ghost var rest := script;
        var ok;
        ok, done := DecodePass();
        if !ok {
          return TimedOut, n;
        }
        ConsumedStep(rest, events, n);
        n := n + 1;
      }
      if data.error == 0 {
        ConvertDecoded();
      }
      r := Returned;
    }

    // ---------------------------------------------------------------- encoding

    ghost predicate EncodeInv()
      reads this, unit, lb1, lb2, reload, frame
    {
      && Shape() && InStep() && (Soft(jpeg) ==> SoftArgs(true)) && data.encode
      && Indexed(data, jpeg) && SoftPlace(data, jpeg, context) && VioPlace(data, jpeg, vioStarts, baseY, baseC)
      && EncodeSafe(data)
      && EncodeHeld(data, jpeg, context, unit.encoded, frame[..], lb1[..], lb2[..])
      && HoldsTail(reload[..], unit.coded)
    }

    /**
     * Convert the next strip of an encode; with no rows left, nothing happens. Meanwhile the
     * unit has no line to work on.
     */
    method ConvertSource()
      requires EncodeInv() && data.jpuDone == data.vioDone
      modifies this`data, this`jpeg, this`vioStarts, lb1, lb2
      ensures EncodeInv() && unit.started == unit.finished
      ensures SameInternal(old(data), data) && SameRequest(old(jpeg), jpeg)
      ensures if old(Exhausted(jpeg, context)) then data == old(data) && jpeg == old(jpeg)
              else data.vioDone == old(data).vioDone + 1
    {
      ghost var k: nat, d, q, l1, l2 := data.vioDone, data, jpeg, lb1[..], lb2[..];
      Convert();
      if !Exhausted(q, context) {
        if Soft(jpeg) {
          PlaceAhead(d, q, context, jpeg.softLine);
          ConvertedStrip(LineBuf(k % 2)[..], frame[..], context.pitch, context.width, context.height, k, q.softLine,
                         jpeg.softLine - q.softLine);
        }
        HeldAhead(d, data, q, jpeg, context, unit.encoded, frame[..], l1, l2, lb1[..], lb2[..]);
      }
    }

    /** Wait during an encode. */
    method AwaitEncoding(done: bool) returns (ok: bool, done': bool)
      requires EncodeInv() && 0 < data.pending
      modifies this`script, this`data, reload, unit
      ensures EncodeInv()
      ensures ok == (old(script) != [])
      ensures !ok ==> script == [] && done' == done && data == old(data) && unit.coded == old(unit.coded)
      ensures ok ==>
        && script == old(script)[1..] && done' == (done || Stops(old(script)[0]))
        && data == AfterWord(old(data), old(script)[0])
        && unit.coded == old(unit.coded) + old(script)[0].coded
    {
      ghost var d := data;
      ok, done' := WaitAndProcessJpu(done);
      if ok {
        WordKeepsEncode(d, jpeg, old(script)[0]);
      }
    }

    /**
     * One pass of the encode loop. A pass that starts no line, converts nothing and waits
     * for nothing leaves the state as it found it, and so does every pass after it.
     */
    method EncodePass() returns (waited: bool, ok: bool, done: bool, stuck: bool)
      requires EncodeInv() && !data.end
      modifies this`data, this`jpeg, this`vioStarts, this`script, lb1, lb2, reload, unit
      ensures EncodeInv()
      ensures SameRequest(old(jpeg), jpeg)
      ensures waited == (old(data).jpuDone < old(data).vioDone)
      ensures stuck == (!waited && old(Exhausted(jpeg, context)))
      ensures ok == (waited ==> old(script) != [])
      ensures stuck ==> data == old(data) && jpeg == old(jpeg)
      ensures !waited ==>
        && !done && script == old(script) && unit.coded == old(unit.coded) && SameInternal(old(data), data)
        && (!stuck ==> data.vioDone == data.jpuDone + 1)
      ensures !ok ==> script == [] && data.jpuDone == old(data).jpuDone < data.vioDone && unit.coded == old(unit.coded)
      ensures !ok ==> !done && SameStatus(old(data), data)
      ensures waited && ok ==>
        && script == old(script)[1..] && done == Stops(old(script)[0])
        && WordTaken(old(data), data, old(script)[0])
        && unit.coded == old(unit.coded) + old(script)[0].coded
        && (!Counted(old(script)[0]) ==> data.jpuDone < data.vioDone)
    {
      waited, ok, done, stuck := false, true, false, false;
      if data.jpuDone < data.vioDone && data.pending == 0 {
        StartJpuLine();
      }
      if data.jpuDone == data.vioDone {
        ConvertSource();
        stuck := data.jpuDone == data.vioDone;
      }
      if !data.end && data.pending > 0 {
        waited := true;
        ok, done := AwaitEncoding(done);
      }
    }

    /** Where the encode loop is after `n` words, started from the given record, request and coded bytes. */
    ghost predicate EncodeRun(d0: Internal, q0: Request, coded: seq<bv8>, events: seq<Event>, n: nat, done: bool)
      reads this, unit
    {
      && SameRequest(q0, jpeg) && Consumed(script, events, n, done)
      && data.jpuDone == d0.jpuDone + Strips(events[..n]) && unit.coded == coded + Coded(events[..n])
      && (done ==> StatusAfter(d0, data, events[n - 1]) && (!Counted(events[n - 1]) ==> data.jpuDone < data.vioDone))
      && (!done ==> SameStatus(d0, data))
    }

    /** One pass of the encode loop, and the word it has taken, if any. */
    method EncodeStep(ghost d0: Internal, ghost q0: Request, ghost coded: seq<bv8>, ghost events: seq<Event>,
                      ghost n: nat)
      returns (ok: bool, done: bool, stuck: bool, ghost n': nat)
      requires EncodeInv() && !data.end && EncodeRun(d0, q0, coded, events, n, false)
      modifies this`data, this`jpeg, this`vioStarts, this`script, lb1, lb2, reload, unit
      ensures EncodeInv() && EncodeRun(d0, q0, coded, events, n', done)
      ensures stuck ==> Exhausted(jpeg, context) && data.jpuDone == data.vioDone && !done && n' == n
      ensures !ok ==> n' == |events| && data.jpuDone < data.vioDone && !done
      ensures ok && !stuck ==>
        || |script| < old(|script|)
        || (script == old(script) && old(data.jpuDone == data.vioDone) && data.jpuDone < data.vioDone)
    {
      ghost var rest := script;
      var waited;
      waited, ok, done, stuck := EncodePass();
      n' := n;
      if waited && ok {
        ConsumedStep(rest, events, n);
        ConcatAssoc(coded, Coded(events[..n]), rest[0].coded);
        n' := n + 1;
      }
    }

    /** The encode loop. */
    method JpuEncode() returns (r: Exit, ghost n: nat)
      requires EncodeInv() && !data.end
      modifies this`data, this`jpeg, this`vioStarts, this`script, lb1, lb2, reload, unit
      ensures EncodeInv()
      ensures SameRequest(old(jpeg), jpeg)
      ensures r != Invalid
      ensures Consumed(script, old(script), n, r == Returned)
      ensures data.jpuDone == old(data).jpuDone + Strips(old(script)[..n])
      ensures unit.coded == old(unit.coded) + Coded(old(script)[..n])
      ensures r == TimedOut ==> n == |old(script)| && data.jpuDone < data.vioDone
      ensures r == Spins ==> Exhausted(jpeg, context) && data.jpuDone == data.vioDone
      ensures r == Returned ==>
        && StatusAfter(old(data), data, old(script)[n - 1])
        && (!Counted(old(script)[n - 1]) ==> data.jpuDone < data.vioDone)
    {
      var done := false;
      ghost var d0, q0, coded, events := data, jpeg, unit.coded, script;
      n := 0;
      while !done
        invariant EncodeInv() && EncodeRun(d0, q0, coded, events, n, done)
        decreases |script|, if data.jpuDone == data.vioDone then 1 else 0
      {
        var ok, stuck;
        ok, done, stuck, n := EncodeStep(d0, q0, coded, events, n);
        if stuck {
          return Spins, n;
        }
        if !ok {
          return TimedOut, n;
        }
      }
      r := Returned;
    }

    // ---------------------------------------------------------------- the state machine

    /** A request that has been set up but not started. */
    ghost predicate Startable()
      reads this
    {
      Shape() && (Soft(jpeg) ==> SoftArgs(jpeg.flags.encode) && jpeg.softLine == 0 && jpeg.softOffset == 0)
    }

    /** The invariant of whichever direction is running. */
    ghost predicate Going()
      reads this, unit, lb1, lb2, reload, frame
    {
      data.encode == jpeg.flags.encode && if data.encode then EncodeInv() else DecodeInv()
    }

    /** What holds between calls. */
    ghost predicate Ready()
      reads this, unit, lb1, lb2, reload, frame
    {
      match jpeg.state
      case START => Startable()
      case RUN => Going() && !data.end && data.error == 0 && (!data.encode ==> CaughtUp(data, jpeg, context))
      case END => true
    }

    // What a call starts from: the internal record, the bytes coded so far, the VIO's base.
    ghost function DataAtEntry(): Internal
      reads this
    {
      if jpeg.state == START then StartOf(jpeg) else data.(buffers := Or(data.buffers, jpeg.buffers))
    }

    ghost function RequestAtEntry(): Request
      reads this
    {
      jpeg.(state := RUN, error := if jpeg.state == START then 0 else jpeg.error)
    }

    ghost function CodedAtEntry(): seq<bv8>
      reads this, unit
    {
      if jpeg.state == START then [] else unit.coded
    }

    ghost function BaseAtEntry(): (int, int)
      reads this
    {
      if jpeg.state == START then (jpeg.saY, jpeg.saC) else (baseY, baseC)
    }

    /** The START command: the unit begins a new picture, and decoding starts on both line buffers. */
    method UnitStart(encode: bool)
      modifies unit
      ensures unit.coded == [] && unit.encoded == [] && unit.finished == 0
      ensures unit.started == if encode then 0 else 2
    {
      unit.coded, unit.encoded, unit.finished := [], [], 0;
      unit.started := if encode then 0 else 2;
    }

    /** The START state: everything is reset and an encode converts one strip in advance. */
    method Begin()
      requires Startable()
      modifies this`data, this`jpeg, this`vioStarts, this`baseY, this`baseC, unit, lb1, lb2
      ensures Going() && SameInternal(StartOf(old(jpeg)), data) && (!data.encode ==> CaughtUp(data, jpeg, context))
      ensures SameRequest(old(jpeg).(state := RUN, error := 0), jpeg)
      ensures (baseY, baseC) == (old(jpeg).saY, old(jpeg).saC) && unit.coded == [] && data.jpuDone == 0
      ensures !data.encode ==> unit.started == data.pending == 2 && data.vioDone == 0
      ensures data.encode ==> unit.started == data.pending == 0
      ensures data.encode ==> data.vioDone == if old(Soft(jpeg)) && context.height == 0 then 0 else 1
    {
      var encode := jpeg.flags.encode;
      data := data.(end := false, error := 0, encode := encode, buffer := 0, buffers := jpeg.buffers, linebuf := 0);
      data := data.(pending := if encode then 0 else 2, jpuDone := 0);
      data := data.(vioLinebuf := 0, vioDone := 0);
      jpeg := jpeg.(state := RUN, error := 0);
      UnitStart(encode);
      vioStarts := [];
      baseY, baseC := jpeg.saY, jpeg.saC;
      if encode {
        ConvertSource();
      }
    }

    /** The head of a call: start, or take over the buffers the caller has dealt with. */
    method Enter()
      requires Ready() && jpeg.state != END
      modifies this`data, this`jpeg, this`vioStarts, this`baseY, this`baseC, unit, lb1, lb2
      ensures jpeg.state == RUN && Ready()
      ensures SameInternal(old(DataAtEntry()), data)
      ensures SameRequest(old(RequestAtEntry()), jpeg)
      ensures (baseY, baseC) == old(BaseAtEntry()) && unit.coded == old(CodedAtEntry())
    {
      if jpeg.state == START {
        Begin();
      } else {
        data := data.(buffers := Or(data.buffers, jpeg.buffers));
      }
    }

    /** The tail of a call: report an error, the end, or the buffers to deal with. */
    method Conclude()
      modifies this`jpeg
      ensures jpeg == Report(old(jpeg), data)
      ensures data.error != 0 ==>
        jpeg.state == END && jpeg.error == data.error && jpeg.buffers == old(jpeg).buffers
      ensures data.error == 0 ==>
        && jpeg.state == (if data.end then END else old(jpeg).state) && jpeg.error == old(jpeg).error
        && jpeg.buffers.first == (!data.buffers.first || (data.end && data.buffer == 0))
        && jpeg.buffers.second == (!data.buffers.second || (data.end && data.buffer != 0))
    {
      if data.error != 0 {
        jpeg := jpeg.(state := END, error := data.error);
      } else {
        jpeg := jpeg.(buffers := Flip(data.buffers));
        if data.end {
          jpeg := jpeg.(state := END, buffers := Or(jpeg.buffers, Bit(data.buffer)));
        }
      }
    }

    /** The encode loop and the report on how it ended. */
    method RunEncode() returns (r: Exit, ghost n: nat)
      requires Ready() && jpeg.state == RUN && data.encode
      modifies this`data, this`jpeg, this`vioStarts, this`script, lb1, lb2, reload, unit
      ensures Going() && r != Invalid
      ensures Consumed(script, old(script), n, r == Returned)
      ensures data.jpuDone == old(data).jpuDone + Strips(old(script)[..n])
      ensures unit.coded == old(unit.coded) + Coded(old(script)[..n])
      ensures r == TimedOut ==> n == |old(script)| && data.jpuDone < data.vioDone
      ensures r == Spins ==> Exhausted(jpeg, context) && data.jpuDone == data.vioDone
      ensures r == Returned ==>
        && Ready()
        && StatusAfter(old(data), data, old(script)[n - 1]) && SameRequest(Report(old(jpeg), data), jpeg)
        && (!Counted(old(script)[n - 1]) ==> data.jpuDone < data.vioDone)
      ensures r != Returned ==> SameRequest(old(jpeg), jpeg)
    {
      r, n := JpuEncode();
      if r == Returned {
        Conclude();
      }
    }

    /** The decode loop and the report on how it ended. */
    method RunDecode() returns (r: Exit, ghost n: nat)
      requires Ready() && jpeg.state == RUN && !data.encode
      modifies this`data, this`jpeg, this`vioStarts, this`script, lb1, lb2, frame, unit
      ensures Going() && (r == Returned || r == TimedOut)
      ensures Consumed(script, old(script), n, r == Returned)
      ensures data.jpuDone == old(data).jpuDone + Strips(old(script)[..n])
      ensures r == TimedOut ==> n == |old(script)| && CaughtUp(data, jpeg, context) && SameStatus(old(data), data)
      ensures r == Returned ==>
        && Ready()
        && StatusAfter(old(data), data, old(script)[n - 1]) && SameRequest(Report(old(jpeg), data), jpeg)
        && ConvertedAfter(data, jpeg, context, old(script)[n - 1])
      ensures r != Returned ==> SameRequest(old(jpeg), jpeg)
    {
      r, n := JpuDecode();
      if r == Returned {
        Conclude();
      }
    }

    /** Run until the loops need the caller, at most up to the end of the picture. */
    method Run() returns (r: Exit, ghost n: nat)
      requires Ready()
      modifies this`data, this`jpeg, this`vioStarts, this`script, this`baseY, this`baseC, unit, lb1, lb2
      modifies if jpeg.flags.encode then reload else frame
      ensures (r == Invalid) == (old(jpeg).state == END)
      ensures r == Invalid ==> n == 0 && jpeg == old(jpeg) && script == old(script)
      ensures r != Invalid ==>
        && Going()
        && Consumed(script, old(script), n, r == Returned)
        && data.jpuDone == old(DataAtEntry()).jpuDone + Strips(old(script)[..n])
        && (data.encode ==> unit.coded == old(CodedAtEntry()) + Coded(old(script)[..n]))
        && (baseY, baseC) == old(BaseAtEntry())
        && jpeg.flags == old(jpeg).flags && jpeg.saInc == old(jpeg).saInc
      ensures r == TimedOut ==> n == |old(script)| && (data.encode ==> data.jpuDone < data.vioDone)
      ensures r == TimedOut && !data.encode ==>
        CaughtUp(data, jpeg, context) && SameStatus(old(DataAtEntry()), data)
      ensures r == Spins ==> data.encode && Exhausted(jpeg, context) && data.jpuDone == data.vioDone
      ensures r == Returned ==>
        && Ready()
        && StatusAfter(old(DataAtEntry()), data, old(script)[n - 1])
        && SameRequest(Report(old(RequestAtEntry()), data), jpeg)
        && (data.encode && !Counted(old(script)[n - 1]) ==> data.jpuDone < data.vioDone)
        && (!data.encode ==> ConvertedAfter(data, jpeg, context, old(script)[n - 1]))
    {
      if jpeg.state == END {
        return Invalid, 0;
      }
      ghost var d0, q0, coded := DataAtEntry(), RequestAtEntry(), CodedAtEntry();
      Enter();
      ghost var d1, q1 := data, jpeg;
      assert SameInternal(d0, d1) && SameRequest(q0, q1) && unit.coded == coded && d1.jpuDone == d0.jpuDone;
      if jpeg.flags.encode {
        r, n := RunEncode();
      } else {
        r, n := RunDecode();
      }
    }
  }
}
