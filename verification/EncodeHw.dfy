/** Encoding with the unit: the loop that runs the state machine and writes out what was coded. */
module EncodeHw {
  import opened Basics
  import opened JpuDevice
  import opened FrameStrips
  import opened JpuState
  import opened JpuDriver

  /** The caller's output: what its write operation has taken so far, call by call. Every write is complete. */
  class Sink {
    var calls: seq<seq<bv8>>
    var written: seq<bv8>

    ghost predicate Valid()
      reads this
    {
      written == Concat(calls)
    }

    constructor ()
      ensures Valid() && written == [] && calls == []
    {
      calls, written := [], [];
    }

    method Init()
      modifies this
      ensures Valid() && written == [] && calls == []
    {
      calls, written := [], [];
    }

    method Write(src: array<bv8>, at: nat, len: nat)
      requires Valid() && at + len <= src.Length
      modifies this
      ensures Valid() && written == old(written) + src[at..at + len] && calls == old(calls) + [src[at..at + len]]
    {
      ConcatSnoc(calls, src[at..at + len]);
      calls, written := calls + [src[at..at + len]], written + src[at..at + len];
    }
  }

  /** The coded data count, put together from its three 8-bit registers. */
  function CodedDataAmount(count: nat): nat {
    var (upper, middle, lower) := (count / 0x10000 % 0x100, count / 0x100 % 0x100, count % 0x100);
    upper * 0x10000 + middle * 0x100 + lower
  }

  lemma LowTwo(count: nat, p: nat, middle: nat, lower: nat)
    requires count == 0x1_0000 * p + (0x100 * middle + lower) && middle < 0x100 && lower < 0x100
    ensures count % 0x1_0000 == 0x100 * middle + lower && count / 0x1_0000 == p
  {
  }

  lemma LowThree(count: nat, p: nat, upper: nat, low: nat)
    requires count == 0x100_0000 * p + (0x1_0000 * upper + low) && upper < 0x100 && low < 0x1_0000
    ensures count % 0x100_0000 == 0x1_0000 * upper + low
  {
  }

  lemma CodedDataAmountIs(count: nat)
    ensures CodedDataAmount(count) == count % 0x100_0000
  {
    var q := count / 0x100;
    LowTwo(count, q / 0x100, q % 0x100, count % 0x100);
    var p := count / 0x1_0000;
    LowThree(count, p / 0x100, p % 0x100, count % 0x1_0000);
  }

  /** The number of bytes in `l` full reload buffers. */
  function ChunkTop(l: nat): nat {
    RELOAD_SIZE * l
  }

  // ------------------------------------------------- the unit's side of the contract

  /** The unit has coded what it has reported loaded, at most one buffer more, and no more than it can count. */
  predicate InRing(total: nat, loads: nat) {
    ChunkTop(loads) <= total <= ChunkTop(loads + 1) && total < 0x100_0000
  }

  /**
   * The unit codes into the reload buffers in turn. It reports a buffer loaded only when it
   * is full, never runs more than one buffer ahead of what it has reported, codes fewer
   * bytes than its counter can hold, and has nothing to reload.
   */
  ghost predicate Honest(events: seq<Event>) {
    && (forall k: nat :: k <= |events| ==> InRing(|Coded(events[..k])|, Loads(events[..k])))
    && NeverReloads(events)
  }

  predicate NeverReloads(events: seq<Event>) {
    forall e :: e in events ==> !e.ints.reload
  }

  // ------------------------------------------------- how an encode ends

  /**
   * How an encode ends that `n` words have not ended. Once the unit has finished every strip
   * of a software-converted frame without ending the picture, nothing is left to start,
   * convert or wait for.
   */
  function EncodeOutcome(events: seq<Event>, n: nat, height: nat, soft: bool): Outcome
    requires n <= |events|
    decreases |events| - n
  {
    if soft && height <= StripTop(Strips(events[..n])) then Stuck
    else if n == |events| then NoInterrupt
    else if Failed(events[n]) then Errored
    else if events[n].ints.xferDone then Finished
    else EncodeOutcome(events, n + 1, height, soft)
  }

  /** After the `m`-th word nothing is left to do, although none from the n-th on has ended the picture. */
  predicate StuckAt(events: seq<Event>, n: nat, m: nat, height: nat) {
    && n <= m <= |events| && height <= StripTop(Strips(events[..m]))
    && forall i :: n <= i < m ==> !Final(events[i])
  }

  lemma {:induction false} StuckIfAt(events: seq<Event>, n: nat, m: nat, height: nat)
    requires StuckAt(events, n, m, height)
    ensures EncodeOutcome(events, n, height, true) == Stuck
    decreases m - n
  {
    if n < m {
      StuckIfAt(events, n + 1, m, height);
    }
  }

  lemma {:induction false} AtIfStuck(events: seq<Event>, n: nat, height: nat) returns (m: nat)
    requires n <= |events| && EncodeOutcome(events, n, height, true) == Stuck
    ensures StuckAt(events, n, m, height)
    decreases |events| - n
  {
    m := n;
    if StripTop(Strips(events[..n])) < height {
      m := AtIfStuck(events, n + 1, height);
    }
  }

  /**
   * Exactly when an encode of a software-converted frame gets stuck: some prefix of the
   * words finishes every strip and none of them ends the picture. In particular it never
   * does when the word that finishes the last strip also reports the end of the transfer.
   */
  lemma StuckExactly(events: seq<Event>, height: nat)
    ensures EncodeOutcome(events, 0, height, true) == Stuck <==> exists m: nat :: StuckAt(events, 0, m, height)
  {
    if EncodeOutcome(events, 0, height, true) == Stuck {
      var m := AtIfStuck(events, 0, height);
    }
    if exists m: nat :: StuckAt(events, 0, m, height) {
      var m: nat :| StuckAt(events, 0, m, height);
      StuckIfAt(events, 0, m, height);
    }
  }

  /** The first `n` words have not decided how the encode ends. */
  predicate OpenAt(height: nat, soft: bool, events: seq<Event>, n: nat) {
    n <= |events| && EncodeOutcome(events, 0, height, soft) == EncodeOutcome(events, n, height, soft)
  }

  /** Where an encode stands after `m` more words of which only the last may have ended it. */
  lemma {:induction false} EncodeOutcomeAfter(height: nat, soft: bool, events: seq<Event>, n: nat, m: nat)
    requires n + m <= |events| && OpenAt(height, soft, events, n)
    requires forall i :: n <= i < n + m - 1 ==> !Final(events[i])
    requires soft && 0 < m ==> StripTop(Strips(events[..n + m - 1])) < height
    ensures if 0 < m && Final(events[n + m - 1])
            then EncodeOutcome(events, 0, height, soft) == if Failed(events[n + m - 1]) then Errored else Finished
            else OpenAt(height, soft, events, n + m)
  {
    if 0 < m {
      if 1 < m {
        assert events[..n + m - 1][..n + m - 2] == events[..n + m - 2];
      }
      EncodeOutcomeAfter(height, soft, events, n, m - 1);
    }
  }

  // ------------------------------------------------- writing out the reload buffers

  /** What is written on one visit to reload buffer `b`. */
  function Piece(out: seq<bv8>, mem: seq<bv8>, b: int, total: nat): seq<bv8>
    requires |mem| == RING && |out| <= total && (b == 0 || b == 1)
  {
    mem[b * RELOAD_SIZE..b * RELOAD_SIZE + Min(total - |out|, RELOAD_SIZE)]
  }

  /** The output after one visit to reload buffer `b`. */
  function WriteOne(out: seq<bv8>, mem: seq<bv8>, on: bool, b: int, total: nat): (r: seq<bv8>)
    requires |mem| == RING && |out| <= total && (b == 0 || b == 1)
    ensures out <= r && |r| <= total
  {
    if on then out + Piece(out, mem, b, total) else out
  }

  /** The writes on one visit to reload buffer `b`. */
  function CallOf(out: seq<bv8>, mem: seq<bv8>, on: bool, b: int, total: nat): seq<seq<bv8>>
    requires |mem| == RING && |out| <= total && (b == 0 || b == 1)
  {
    if on then [Piece(out, mem, b, total)] else []
  }

  /** The writes on visiting buffer 1, then buffer 2. */
  function CallsOf(out: seq<bv8>, mem: seq<bv8>, mask: Mask, total: nat): seq<seq<bv8>>
    requires |mem| == RING && |out| <= total
  {
    CallOf(out, mem, mask.first, 0, total)
    + CallOf(WriteOne(out, mem, mask.first, 0, total), mem, mask.second, 1, total)
  }

  /** The writes are whole reload buffers. */
  predicate WholeCalls(calls: seq<seq<bv8>>) {
    forall i :: 0 <= i < |calls| ==> |calls[i]| == RELOAD_SIZE
  }

  /** The writes are whole reload buffers but perhaps for the last one. */
  predicate WholeButLast(calls: seq<seq<bv8>>) {
    forall i :: 0 <= i < |calls| - 1 ==> |calls[i]| == RELOAD_SIZE
  }

  /** Unless they come out of order, the reported buffers are written whole, but for the last one at the end. */
  lemma CallsAreWhole(calls: seq<seq<bv8>>, coded: seq<bv8>, mem: seq<bv8>, l: nat, end: bool, loaded: bool)
    requires WholeCalls(calls) && !OutOfOrder(l, end, loaded) && |mem| == RING
    requires InRing(|coded|, l + if loaded then 1 else 0)
    ensures var calls' := calls + CallsOf(coded[..ChunkTop(l)], mem, Reported(l, end, loaded), |coded|);
            WholeButLast(calls') && (!end ==> WholeCalls(calls'))
  {
    var out := coded[..ChunkTop(l)];
    var mask := Reported(l, end, loaded);
    if loaded {
      assert Min(|coded| - |out|, RELOAD_SIZE) == RELOAD_SIZE;
    }
  }

  /** The output after visiting buffer 1, then buffer 2. */
  function AfterWrites(out: seq<bv8>, mem: seq<bv8>, mask: Mask, total: nat): (r: seq<bv8>)
    requires |mem| == RING && |out| <= total
    ensures out <= r && |r| <= total
  {
    WriteOne(WriteOne(out, mem, mask.first, 0, total), mem, mask.second, 1, total)
  }

  lemma RingSlot(l: nat, j: nat)
    requires j < RELOAD_SIZE
    ensures (ChunkTop(l) + j) % RING == (l % 2) * RELOAD_SIZE + j
  {
    assert l == 2 * (l / 2) + l % 2;
    assert ChunkTop(l) + j == RING * (l / 2) + ((l % 2) * RELOAD_SIZE + j);
  }

  /** Until the unit is two buffers further, chunk `l` of the coded bytes is in the buffer of its parity. */
  lemma ChunkInRing(mem: seq<bv8>, coded: seq<bv8>, l: nat, a: nat)
    requires HoldsTail(mem, coded) && a <= RELOAD_SIZE
    requires ChunkTop(l) + a <= |coded| <= ChunkTop(l + 2)
    ensures mem[(l % 2) * RELOAD_SIZE..(l % 2) * RELOAD_SIZE + a] == coded[ChunkTop(l)..ChunkTop(l) + a]
  {
    var (at, top) := ((l % 2) * RELOAD_SIZE, ChunkTop(l));
    var (held, chunk) := (mem[at..at + a], coded[top..top + a]);
    forall j | 0 <= j < a
      ensures held[j] == chunk[j]
    {
      RingSlot(l, j);
      assert mem[(top + j) % RING] == coded[top + j];
    }
  }

  /** Writing out chunk `l` after the chunks before it. */
  lemma WritesChunk(mem: seq<bv8>, coded: seq<bv8>, l: nat)
    requires HoldsTail(mem, coded) && ChunkTop(l) <= |coded| <= ChunkTop(l + 2)
    ensures WriteOne(coded[..ChunkTop(l)], mem, true, l % 2, |coded|) == coded[..Min(|coded|, ChunkTop(l + 1))]
  {
    var a := Min(|coded| - ChunkTop(l), RELOAD_SIZE);
    ChunkInRing(mem, coded, l, a);
    assert coded[..ChunkTop(l)] + coded[ChunkTop(l)..ChunkTop(l) + a] == coded[..ChunkTop(l) + a];
  }

  /** The buffers the machine reports once the unit has loaded `l` of them and then ended or loaded one more. */
  function Reported(l: nat, end: bool, loaded: bool): Mask {
    if end && loaded then BOTH else if end || loaded then Bit(l % 2) else NEITHER
  }

  /** How much of the stream is due once the last report has been dealt with. */
  function Due(l: nat, total: nat, end: bool, loaded: bool): nat {
    if end then total else ChunkTop(l + if loaded then 1 else 0)
  }

  /** The end of the transfer is reported together with a loaded second buffer. */
  predicate OutOfOrder(l: nat, end: bool, loaded: bool) {
    end && loaded && l % 2 == 1
  }

  /** Writing out both buffers, of which the first holds chunk `l`. */
  lemma WritesTwo(mem: seq<bv8>, coded: seq<bv8>, l: nat)
    requires HoldsTail(mem, coded) && l % 2 == 0 && ChunkTop(l + 1) <= |coded| <= ChunkTop(l + 2)
    ensures AfterWrites(coded[..ChunkTop(l)], mem, BOTH, |coded|) == coded[..|coded|]
  {
    WritesChunk(mem, coded, l);
    WritesChunk(mem, coded, l + 1);
    assert (l + 1) % 2 == 1;
    assert WriteOne(coded[..ChunkTop(l)], mem, true, 0, |coded|) == coded[..ChunkTop(l + 1)];
  }

  /** Unless they come out of order, the reported buffers continue the coded stream. */
  lemma WritesInOrder(mem: seq<bv8>, coded: seq<bv8>, l: nat, end: bool, loaded: bool)
    requires HoldsTail(mem, coded) && !OutOfOrder(l, end, loaded)
    requires InRing(|coded|, l + if loaded then 1 else 0)
    ensures AfterWrites(coded[..ChunkTop(l)], mem, Reported(l, end, loaded), |coded|)
         == coded[..Due(l, |coded|, end, loaded)]
  {
    var out := coded[..ChunkTop(l)];
    if end && loaded {
      WritesTwo(mem, coded, l);
    } else if end || loaded {
      WritesChunk(mem, coded, l);
      OneBit(out, mem, l % 2, |coded|);
    }
  }

  lemma OneBit(out: seq<bv8>, mem: seq<bv8>, b: int, total: nat)
    requires |mem| == RING && |out| <= total && (b == 0 || b == 1)
    ensures AfterWrites(out, mem, Bit(b), total) == WriteOne(out, mem, true, b, total)
  {
  }

  /** The byte of the counterexamples: those that pass through reload buffer `b` are marked. */
  function MarkByte(b: int, p: int): bv8 {
    if (p % RING < RELOAD_SIZE) == (b == 0) then 1 else 0
  }

  /** Bytes at..at + n of a stream marked in that way. */
  function MarkedBytes(b: int, at: nat, n: nat): (bytes: seq<bv8>)
    ensures |bytes| == n && forall i :: 0 <= i < n ==> bytes[i] == MarkByte(b, at + i)
  {
    seq(n, (i: int) => MarkByte(b, at + i))
  }

  /** Such a stream leaves the one reload buffer full of marks, the other without. */
  lemma MarkedTail(b: int, total: nat)
    ensures HoldsTail(MarkedBytes(b, 0, RING), MarkedBytes(b, 0, total))
  {
    var (mem, coded) := (MarkedBytes(b, 0, RING), MarkedBytes(b, 0, total));
    forall p: int | 0 <= p < total && total - RING <= p
      ensures mem[p % RING] == coded[p]
    {
      assert mem[p % RING] == MarkByte(b, p % RING);
    }
  }

  /** The first buffer visited is not the one in turn. */
  predicate FirstWrong(l: nat, mask: Mask) {
    if l % 2 == 1 then mask.first else !mask.first && mask.second
  }

  /** Then a marked byte is due where one without a mark is written. */
  lemma MarkMisplaced(l: nat, total: nat, mask: Mask)
    requires FirstWrong(l, mask) && ChunkTop(l) < total
    ensures var (mem, coded) := (MarkedBytes(l % 2, 0, RING), MarkedBytes(l % 2, 0, total));
            !(AfterWrites(coded[..ChunkTop(l)], mem, mask, total) <= coded)
  {
    var (mem, coded, top) := (MarkedBytes(l % 2, 0, RING), MarkedBytes(l % 2, 0, total), ChunkTop(l));
    var b := 1 - l % 2;
    var (out, first) := (AfterWrites(coded[..top], mem, mask, total), WriteOne(coded[..top], mem, true, b, total));
    RingSlot(l, 0);
    assert coded[top] == 1;
    assert first <= out;
    assert first[top] == mem[b * RELOAD_SIZE] == 0;
  }

  lemma WritesOn(mem: seq<bv8>, coded: seq<bv8>, l: nat, mask: Mask)
    requires HoldsTail(mem, coded) && ChunkTop(l) <= |coded| <= ChunkTop(l + 2)
    requires !FirstWrong(l, mask) || |coded| == ChunkTop(l)
    ensures AfterWrites(coded[..ChunkTop(l)], mem, mask, |coded|) <= coded
  {
    if |coded| == ChunkTop(l) || mask == NEITHER {
    } else if |coded| <= ChunkTop(l + 1) || mask != BOTH {
      WritesChunk(mem, coded, l);
    } else {
      WritesTwo(mem, coded, l);
    }
  }

  /**
   * Exactly when visiting the buffers of a mask continues the coded stream, whatever the
   * bytes are: unless there is something to write and the first buffer visited is not the
   * one in turn.
   */
  lemma VisitOrder(l: nat, total: nat, mask: Mask)
    requires ChunkTop(l) <= total <= ChunkTop(l + 2)
    ensures
      (forall mem: seq<bv8>, coded: seq<bv8> :: HoldsTail(mem, coded) && |coded| == total ==>
         AfterWrites(coded[..ChunkTop(l)], mem, mask, total) <= coded)
      <==> !FirstWrong(l, mask) || total == ChunkTop(l)
  {
    if FirstWrong(l, mask) && ChunkTop(l) < total {
      MarkedTail(l % 2, total);
      MarkMisplaced(l, total, mask);
    } else {
      forall mem: seq<bv8>, coded: seq<bv8> | HoldsTail(mem, coded) && |coded| == total
        ensures AfterWrites(coded[..ChunkTop(l)], mem, mask, total) <= coded
      {
        WritesOn(mem, coded, l, mask);
      }
    }
  }

  /**
   * Exactly when a report leaves the output in order whatever the bytes are: unless the
   * end of the transfer comes with a loaded second buffer, because buffer 1 is always
   * written before buffer 2.
   */
  lemma WriteOrder(l: nat, total: nat, end: bool, loaded: bool)
    requires InRing(total, l + if loaded then 1 else 0)
    ensures
      (forall mem: seq<bv8>, coded: seq<bv8> :: HoldsTail(mem, coded) && |coded| == total ==>
         AfterWrites(coded[..ChunkTop(l)], mem, Reported(l, end, loaded), total) == coded[..Due(l, total, end, loaded)])
      <==> !OutOfOrder(l, end, loaded)
  {
    if OutOfOrder(l, end, loaded) {
      MarkedTail(l % 2, total);
      MarkMisplaced(l, total, BOTH);
    } else {
      forall mem: seq<bv8>, coded: seq<bv8> | HoldsTail(mem, coded) && |coded| == total
        ensures AfterWrites(coded[..ChunkTop(l)], mem, Reported(l, end, loaded), total)
             == coded[..Due(l, total, end, loaded)]
      {
        WritesInOrder(mem, coded, l, end, loaded);
      }
    }
  }

  /** How much of the next buffer there is to write. */
  method AmountLeft(total: nat, written: nat) returns (amount: nat)
    requires written <= total < 0x100_0000
    ensures amount == Min(total - written, RELOAD_SIZE)
  {
    CodedDataAmountIs(total);
    amount := CodedDataAmount(total) - written;
    if amount > RELOAD_SIZE {
      amount := RELOAD_SIZE;
    }
  }

  /** Write out what reload buffer `b` holds of the bytes not yet written. */
  method WriteBuffer(d: Jpu, sink: Sink, b: int, written: nat) returns (written': nat)
    requires d.Shape() && sink.Valid() && written == |sink.written| <= |d.unit.coded| < 0x100_0000 && (b == 0 || b == 1)
    requires (sink as object) != d && (sink as object) != d.unit
    modifies sink
    ensures sink.written == WriteOne(old(sink.written), d.reload[..], true, b, |d.unit.coded|)
    ensures sink.calls == old(sink.calls) + CallOf(old(sink.written), d.reload[..], true, b, |d.unit.coded|)
    ensures sink.Valid() && written' == |sink.written|
  {
    var amount := AmountLeft(|d.unit.coded|, written);
    sink.Write(d.reload, b * RELOAD_SIZE, amount);
    ghost var at := b * RELOAD_SIZE;
    assert d.reload[..][at..at + amount] == d.reload[at..at + amount];
    written' := written + amount;
  }

  /** Write out the buffers the machine reports, buffer 1 before buffer 2. */
  method WriteLoaded(d: Jpu, sink: Sink, written: nat) returns (written': nat)
    requires d.Shape() && sink.Valid() && written == |sink.written| <= |d.unit.coded| < 0x100_0000
    requires (sink as object) != d && (sink as object) != d.unit
    modifies sink
    ensures sink.written == AfterWrites(old(sink.written), d.reload[..], d.jpeg.buffers, |d.unit.coded|)
    ensures sink.calls == old(sink.calls) + CallsOf(old(sink.written), d.reload[..], d.jpeg.buffers, |d.unit.coded|)
    ensures sink.Valid() && written' == |sink.written|
  {
    written' := written;
    ghost var (mem, mask, total) := (d.reload[..], d.jpeg.buffers, |d.unit.coded|);
    ghost var (out, calls) := (sink.written, sink.calls);
    ghost var first := WriteOne(out, mem, mask.first, 0, total);
    ghost var call1, call2 := CallOf(out, mem, mask.first, 0, total), CallOf(first, mem, mask.second, 1, total);
    var i := 1;
    while i <= 2
      invariant 1 <= i <= 3 && sink.Valid() && written' == |sink.written| <= total
      invariant sink.written == if i == 1 then out else if i == 2 then first
                                else WriteOne(first, mem, mask.second, 1, total)
      invariant sink.calls == if i == 1 then calls else if i == 2 then calls + call1 else (calls + call1) + call2
    {
      if if i == 1 then d.jpeg.buffers.first else d.jpeg.buffers.second {
        written' := WriteBuffer(d, sink, i - 1, written');
      }
      i := i + 1;
    }
    assert (calls + call1) + call2 == calls + (call1 + call2);
  }

  // ------------------------------------------------- the whole encode

  /** The request is an encode in the given mode of a frame at the given address. */
  ghost predicate Addressed(d: Jpu, mode: Mode, phys: int)
    reads d
  {
    && d.jpeg.flags == Flags(true, mode == VioMode, true, mode == SoftMode)
    && d.jpeg.saInc == RowAt(LINEBUFFER_HEIGHT, d.context.pitch)
    && d.BaseAtEntry() == (phys, (phys + RowAt(d.context.height, d.context.pitch)) % U32)
  }

  /** These are the bytes coded by the n-th word. */
  ghost predicate Coding(rest: seq<Event>, coded: seq<bv8>, events: seq<Event>, n: nat) {
    n <= |events| && rest == events[n..] && coded == Coded(events[..n])
  }

  /** What `m` more words mean for the coded bytes and the reload buffers. */
  lemma CodingOn(rest: seq<Event>, coded: seq<bv8>, coded': seq<bv8>, events: seq<Event>, n: nat, m: nat, done: bool)
    requires n <= |events| && Coding(events[n..], coded, events, n) && Consumed(rest, events[n..], m, done)
    requires coded' == coded + Coded(events[n..][..m])
    ensures Coding(rest, coded', events, n + m)
    ensures !done ==> Loads(events[..n + m]) == Loads(events[..n])
    ensures done ==>
      && Loads(events[..n + m - 1]) == Loads(events[..n])
      && Loads(events[..n + m]) == Loads(events[..n]) + (if events[n + m - 1].ints.loaded then 1 else 0)
  {
    CountOn(events, n, m);
    if done {
      CountOne(events, n + m);
    } else {
      assert 0 < m ==> !Stops(events[n..][m - 1]) && events[n..][m - 1] == events[n + m - 1];
    }
  }

  /** All reload buffers have been dealt with, and buffer `l` is in turn. */
  predicate AllClear(d: Internal, l: nat) {
    d.buffers == BOTH && d.buffer == l % 2
  }

  /** What the machine reports about the reload buffers after a word that ends its call, unless the unit failed. */
  lemma ReportIs(q: Request, d: Internal, d': Internal, l: nat, e: Event)
    requires AllClear(d, l) && StatusAfter(d, d', e) && !e.ints.reload && d.error == 0
    ensures Failed(e) == (d'.error != 0)
    ensures Failed(e) ==> Report(q, d').state == END && Report(q, d').buffers == q.buffers
    ensures !Failed(e) ==>
      && Report(q, d').buffers == Reported(l, e.ints.xferDone, e.ints.loaded)
      && Report(q, d').state == (if e.ints.xferDone then END else q.state)
      && Report(q, d').error == q.error
    ensures !Final(e) ==>
      AllClear(d'.(buffers := Or(d'.buffers, Report(q, d').buffers)), l + if e.ints.loaded then 1 else 0)
  {
  }

  /** Up to the last word taken there was a strip to start. */
  lemma StripsWereLeft(events: seq<Event>, n: nat, vioDone: nat, height: nat)
    requires 0 < n <= |events| && StripTop(vioDone) < height + LINEBUFFER_HEIGHT
    requires Strips(events[..n]) + (if Counted(events[n - 1]) then 0 else 1) <= vioDone
    ensures StripTop(Strips(events[..n - 1])) < height
  {
    assert events[..n][..n - 1] == events[..n - 1];
  }

  /** Between two calls, after `n` words. */
  ghost predicate Resting(d: Jpu, mode: Mode, phys: int, events: seq<Event>, n: nat)
    reads d, d.unit, d.lb1, d.lb2, d.reload, d.frame
  {
    && d.Shape() && d.Ready() && (d.jpeg.state == START || d.jpeg.state == RUN)
    && (d.jpeg.state == RUN ==> d.jpeg.error == 0) && Addressed(d, mode, phys)
    && Coding(d.script, d.CodedAtEntry(), events, n)
    && AllClear(d.DataAtEntry(), Loads(events[..n]))
    && d.DataAtEntry().jpuDone == Strips(events[..n]) && d.jpeg.buffers == LastReported(events, n)
    && OpenAt(d.context.height, mode == SoftMode, events, n) && Open(events, n)
  }

  /** The buffers that the last call before the n-th word reported, or those that the first call was told of. */
  function LastReported(events: seq<Event>, n: nat): Mask
    requires n <= |events|
  {
    if n == 0 then BOTH
    else if Stops(events[n - 1]) then Reported(Loads(events[..n - 1]), false, events[n - 1].ints.loaded)
    else LastReported(events, n - 1)
  }

  /** Words that do not stop the driver end no call. */
  lemma {:induction false} SameReport(events: seq<Event>, n: nat, m: nat)
    requires n + m <= |events| && forall i :: n <= i < n + m ==> !Stops(events[i])
    ensures LastReported(events, n + m) == LastReported(events, n)
  {
    if 0 < m {
      SameReport(events, n, m - 1);
    }
  }

  /** After a call, after `n` words. */
  ghost predicate Called(d: Jpu, mode: Mode, phys: int, events: seq<Event>, n: nat)
    reads d, d.unit, d.lb1, d.lb2, d.reload, d.frame
  {
    && d.Going() && d.data.encode
    && d.jpeg.flags == Flags(true, mode == VioMode, true, mode == SoftMode)
    && d.jpeg.saInc == RowAt(LINEBUFFER_HEIGHT, d.context.pitch)
    && (d.baseY, d.baseC) == (phys, (phys + RowAt(d.context.height, d.context.pitch)) % U32)
    && Coding(d.script, d.unit.coded, events, n)
    && d.data.jpuDone == Strips(events[..n])
  }

  /** Only the last word of a call can have ended the picture, and then the call came back. */
  lemma NotFinal(events: seq<Event>, n: nat, m: nat, rest: seq<Event>, done: bool)
    requires n <= |events| && Consumed(rest, events[n..], m, done)
    ensures forall i :: n <= i < n + m - (if done then 1 else 0) ==> !Stops(events[i]) && !Final(events[i])
  {
    forall i | n <= i < n + m - if done then 1 else 0
      ensures !Stops(events[i])
    {
      assert events[i] == events[n..][i - n];
    }
  }

  /** What the calls up to the last have reported, and what the last one reports unless it ends the picture. */
  lemma ReportedLast(events: seq<Event>, n: nat, m: nat, rest: seq<Event>)
    requires n <= |events| && Consumed(rest, events[n..], m, true)
    ensures LastReported(events, n + m - 1) == LastReported(events, n)
    ensures LastReported(events, n + m) == Reported(Loads(events[..n + m - 1]), false, events[n + m - 1].ints.loaded)
  {
    NotFinal(events, n, m, rest, true);
    SameReport(events, n, m - 1);
    assert events[n + m - 1] == events[n..][m - 1];
  }

  /** How a call that waited to its end, and took `m` words, decides the outcome of the encode. */
  lemma WaitDecides(height: nat, soft: bool, events: seq<Event>, n: nat, m: nat, rest: seq<Event>, done: bool,
                    vioDone: nat)
    requires OpenAt(height, soft, events, n) && Consumed(rest, events[n..], m, done) && (done || n + m == |events|)
    requires var strips := Strips(events[..n]) + Strips(events[n..][..m]);
             strips + (if done && Counted(events[n..][m - 1]) then 0 else 1) <= vioDone
    requires soft ==> StripTop(vioDone) < height + LINEBUFFER_HEIGHT
    ensures !done ==> EncodeOutcome(events, 0, height, soft) == NoInterrupt
    ensures done && Final(events[n + m - 1]) ==>
      EncodeOutcome(events, 0, height, soft) == if Failed(events[n + m - 1]) then Errored else Finished
    ensures done && !Final(events[n + m - 1]) ==> OpenAt(height, soft, events, n + m)
  {
    CountOn(events, n, m);
    NotFinal(events, n, m, rest, done);
    assert done ==> events[n..][m - 1] == events[n + m - 1];
    if soft && 0 < m {
      StripsWereLeft(events, n + m, vioDone, height);
    }
    EncodeOutcomeAfter(height, soft, events, n, m);
  }

  /** How a call that took `m` words and left the given counts decides the outcome of the encode. */
  lemma CallDecides(height: nat, soft: bool, events: seq<Event>, n: nat, m: nat, rest: seq<Event>, r: Exit,
                    jpuDone: nat, vioDone: nat)
    requires OpenAt(height, soft, events, n) && Consumed(rest, events[n..], m, r == Returned) && r != Invalid
    requires jpuDone == Strips(events[..n]) + Strips(events[n..][..m]) && jpuDone <= vioDone
    requires soft ==> StripTop(vioDone) < height + LINEBUFFER_HEIGHT
    requires r == TimedOut ==> m == |events[n..]| && jpuDone < vioDone
    requires r == Spins ==> soft && height <= StripTop(jpuDone)
    requires r == Returned && !Counted(events[n..][m - 1]) ==> jpuDone < vioDone
    ensures var outcome := EncodeOutcome(events, 0, height, soft);
            && (r == Spins ==> outcome == Stuck) && (r == TimedOut ==> outcome == NoInterrupt)
            && (r == Returned && Final(events[n + m - 1]) ==>
                  outcome == if Failed(events[n + m - 1]) then Errored else Finished)
    ensures r == Returned && !Final(events[n + m - 1]) ==> OpenAt(height, soft, events, n + m)
  {
    if r == Spins {
      CountOn(events, n, m);
      NotFinal(events, n, m, rest, false);
      StuckIfAt(events, n, n + m, height);
    } else {
      WaitDecides(height, soft, events, n, m, rest, r == Returned, vioDone);
    }
  }

  /** A call that came back without ending the picture leaves things at rest. */
  lemma Rests(d: Jpu, mode: Mode, phys: int, events: seq<Event>, n: nat)
    requires Called(d, mode, phys, events, n) && d.Ready() && d.jpeg.state == RUN && d.jpeg.error == 0
    requires AllClear(d.data.(buffers := Or(d.data.buffers, d.jpeg.buffers)), Loads(events[..n]))
    requires OpenAt(d.context.height, mode == SoftMode, events, n) && Open(events, n)
    requires d.jpeg.buffers == LastReported(events, n)
    ensures Resting(d, mode, phys, events, n)
  {
  }

  /** What a call that took `m` words has left, started from the given script, record, coded bytes and request. */
  ghost predicate Ran(d: Jpu, mode: Mode, phys: int, script: seq<Event>, d0: Internal, coded: seq<bv8>, q0: Request,
                      m: nat, r: Exit)
    reads d, d.unit, d.lb1, d.lb2, d.reload, d.frame
  {
    && r != Invalid && d.Going() && d.data.encode
    && d.jpeg.flags == Flags(true, mode == VioMode, true, mode == SoftMode)
    && d.jpeg.saInc == RowAt(LINEBUFFER_HEIGHT, d.context.pitch)
    && (d.baseY, d.baseC) == (phys, (phys + RowAt(d.context.height, d.context.pitch)) % U32)
    && Consumed(d.script, script, m, r == Returned)
    && d.data.jpuDone == d0.jpuDone + Strips(script[..m])
    && d.unit.coded == coded + Coded(script[..m])
    && (r == TimedOut ==> m == |script| && d.data.jpuDone < d.data.vioDone)
    && (r == Spins ==> Exhausted(d.jpeg, d.context) && d.data.jpuDone == d.data.vioDone)
    && (r == Returned ==>
          && d.Ready() && (!Counted(script[m - 1]) ==> d.data.jpuDone < d.data.vioDone)
          && StatusAfter(d0, d.data, script[m - 1]) && SameRequest(Report(q0, d.data), d.jpeg))
  }

  /** One call of the state machine and what it leaves to the caller. */
  method RunMachine(d: Jpu, mode: Mode, ghost phys: int, ghost script: seq<Event>, ghost d0: Internal,
                    ghost coded: seq<bv8>, ghost q0: Request)
    returns (r: Exit, ghost m: nat)
    requires d.Ready() && (d.jpeg.state == START || d.jpeg.state == RUN) && Addressed(d, mode, phys)
    requires script == d.script && d0 == d.DataAtEntry() && coded == d.CodedAtEntry() && q0 == d.RequestAtEntry()
    modifies d`data, d`jpeg, d`vioStarts, d`script, d`baseY, d`baseC, d.unit, d.lb1, d.lb2, d.reload
    ensures Ran(d, mode, phys, script, d0, coded, q0, m, r)
  {
    r, m := d.Run();
  }

  /** An encode has ended after `n` words: by the last of them, by silence, or by having nothing left to do. */
  predicate EndsOrSticks(events: seq<Event>, n: nat, outcome: Outcome, height: nat) {
    if outcome == Stuck then Open(events, n) && height <= StripTop(Strips(events[..n]))
    else EndsAt(events, n, outcome)
  }

  /** What a call has decided, and what it reports in `q`: the words from the n-th to the n'-th were taken in it. */
  ghost predicate Decided(height: nat, soft: bool, q: Request, events: seq<Event>, n: nat, n': nat, r: Exit) {
    && n <= n' <= |events| && Coded(events[..n]) <= Coded(events[..n']) && (r == Returned ==> n < n')
    && (r != Returned || Final(events[n' - 1]) ==>
          EndsOrSticks(events, n', EncodeOutcome(events, 0, height, soft), height))
    && var outcome := EncodeOutcome(events, 0, height, soft);
       if r != Returned then
         outcome == (if r == Spins then Stuck else NoInterrupt) && Loads(events[..n']) == Loads(events[..n])
       else
         var (e, l) := (events[n' - 1], Loads(events[..n]));
            && Loads(events[..n' - 1]) == l && Loads(events[..n']) == l + (if e.ints.loaded then 1 else 0)
            && if Failed(e) then
                 outcome == Errored && q.state == END && q.error != 0 && q.buffers == LastReported(events, n' - 1)
               else
                 && q.error == 0 && q.buffers == Reported(l, e.ints.xferDone, e.ints.loaded)
                 && if e.ints.xferDone then outcome == Finished && q.state == END else q.state == RUN
  }

  /** What a call that took `m` words after the first `n` leaves to the encode loop. */
  ghost predicate Answered(d: Jpu, mode: Mode, phys: int, events: seq<Event>, n: nat, n': nat, r: Exit)
    reads d, d.unit, d.lb1, d.lb2, d.reload, d.frame
  {
    && r != Invalid && Called(d, mode, phys, events, n')
    && Decided(d.context.height, mode == SoftMode, d.jpeg, events, n, n', r)
    && (r == Returned && !Final(events[n' - 1]) ==> Resting(d, mode, phys, events, n'))
  }

  /** What a call that took `m` words of the script has left in the record and the request, and of the script. */
  ghost predicate Leaves(height: nat, soft: bool, script: seq<Event>, rest: seq<Event>, m: nat, r: Exit,
                         d0: Internal, d: Internal, q0: Request, q: Request)
  {
    && r != Invalid && Consumed(rest, script, m, r == Returned)
    && 0 <= d0.jpuDone && d.jpuDone == d0.jpuDone + Strips(script[..m]) && d.jpuDone <= d.vioDone
    && (soft ==> StripTop(d.vioDone) < height + LINEBUFFER_HEIGHT)
    && (r == TimedOut ==> m == |script| && d.jpuDone < d.vioDone)
    && (r == Spins ==> soft && height <= StripTop(d.jpuDone))
    && (r == Returned ==>
          && (!Counted(script[m - 1]) ==> d.jpuDone < d.vioDone)
          && StatusAfter(d0, d, script[m - 1]) && SameRequest(Report(q0, d), q))
  }

  lemma RanLeaves(d: Jpu, mode: Mode, phys: int, script: seq<Event>, d0: Internal, coded: seq<bv8>, q0: Request,
                  m: nat, r: Exit)
    requires Ran(d, mode, phys, script, d0, coded, q0, m, r) && 0 <= d0.jpuDone
    ensures Leaves(d.context.height, mode == SoftMode, script, d.script, m, r, d0, d.data, q0, d.jpeg)
  {
  }

  lemma CalledAfter(d: Jpu, mode: Mode, phys: int, events: seq<Event>, n: nat, m: nat, r: Exit,
                    d0: Internal, coded: seq<bv8>, q0: Request)
    requires n <= |events| && Coding(events[n..], coded, events, n) && d0.jpuDone == Strips(events[..n])
    requires Ran(d, mode, phys, events[n..], d0, coded, q0, m, r)
    ensures Called(d, mode, phys, events, n + m)
  {
    CountOn(events, n, m);
    CodingOn(d.script, coded, d.unit.coded, events, n, m, r == Returned);
  }

  /** What a call starts from after the first `n` words: the record, the coded bytes, the request. */
  ghost predicate Begun(d0: Internal, coded: seq<bv8>, q0: Request, height: nat, soft: bool, events: seq<Event>,
                        n: nat)
  {
    && OpenAt(height, soft, events, n) && Open(events, n) && Coding(events[n..], coded, events, n)
    && AllClear(d0, Loads(events[..n])) && d0.jpuDone == Strips(events[..n]) && d0.error == 0
    && q0.state == RUN && q0.error == 0 && q0.buffers == LastReported(events, n)
  }

  lemma Begins(d: Jpu, mode: Mode, phys: int, events: seq<Event>, n: nat)
    requires Resting(d, mode, phys, events, n)
    ensures Begun(d.DataAtEntry(), d.CodedAtEntry(), d.RequestAtEntry(), d.context.height, mode == SoftMode, events, n)
  {
  }

  lemma Decides(height: nat, soft: bool, events: seq<Event>, n: nat, m: nat, r: Exit, rest: seq<Event>,
                d0: Internal, coded: seq<bv8>, d: Internal, q0: Request, q: Request)
    requires n <= |events| && NeverReloads(events) && Begun(d0, coded, q0, height, soft, events, n)
    requires Leaves(height, soft, events[n..], rest, m, r, d0, d, q0, q)
    ensures Decided(height, soft, q, events, n, n + m, r)
    ensures r == Returned && !Final(events[n + m - 1]) ==>
      && AllClear(d.(buffers := Or(d.buffers, q.buffers)), Loads(events[..n + m]))
      && OpenAt(height, soft, events, n + m) && Open(events, n + m) && q.buffers == LastReported(events, n + m)
  {
    CodingOn(rest, Coded(events[..n]), Coded(events[..n]) + Coded(events[n..][..m]), events, n, m, r == Returned);
    CallDecides(height, soft, events, n, m, rest, r, d.jpuDone, d.vioDone);
    OpenAfter(events, n, m, rest, r == Returned);
    CountOn(events, n, m);
    if r == Returned {
      assert events[n..][m - 1] == events[n + m - 1];
      ReportIs(q0, d0, d, Loads(events[..n]), events[n + m - 1]);
      ReportedLast(events, n, m, rest);
    }
  }

  lemma Answers(d: Jpu, mode: Mode, phys: int, events: seq<Event>, n: nat, m: nat, r: Exit,
                d0: Internal, coded: seq<bv8>, q0: Request)
    requires n <= |events| && NeverReloads(events)
    requires Begun(d0, coded, q0, d.context.height, mode == SoftMode, events, n)
    requires Ran(d, mode, phys, events[n..], d0, coded, q0, m, r)
    ensures Answered(d, mode, phys, events, n, n + m, r)
  {
    CalledAfter(d, mode, phys, events, n, m, r, d0, coded, q0);
    RanLeaves(d, mode, phys, events[n..], d0, coded, q0, m, r);
    Decides(d.context.height, mode == SoftMode, events, n, m, r, d.script, d0, coded, d.data, q0, d.jpeg);
    if r == Returned && !Final(events[n + m - 1]) {
      Rests(d, mode, phys, events, n + m);
    }
  }

  /** One call of the state machine, started from the given record, coded bytes and request. */
  method RunFrom(d: Jpu, mode: Mode, ghost phys: int, ghost events: seq<Event>, ghost n: nat, ghost d0: Internal,
                 ghost coded: seq<bv8>, ghost q0: Request)
    returns (r: Exit, ghost n': nat)
    requires n <= |events| && NeverReloads(events)
    requires Begun(d0, coded, q0, d.context.height, mode == SoftMode, events, n)
    requires d.Ready() && (d.jpeg.state == START || d.jpeg.state == RUN) && Addressed(d, mode, phys)
    requires events[n..] == d.script && d0 == d.DataAtEntry() && coded == d.CodedAtEntry() && q0 == d.RequestAtEntry()
    modifies d`data, d`jpeg, d`vioStarts, d`script, d`baseY, d`baseC, d.unit, d.lb1, d.lb2, d.reload
    ensures Answered(d, mode, phys, events, n, n', r)
  {
    ghost var m;
    r, m := RunMachine(d, mode, phys, events[n..], d0, coded, q0);
    n' := n + m;
    Answers(d, mode, phys, events, n, m, r, d0, coded, q0);
  }

  /** One call of the state machine. */
  method RunOnce(d: Jpu, mode: Mode, ghost phys: int, ghost events: seq<Event>, ghost n: nat)
    returns (r: Exit, ghost n': nat)
    requires NeverReloads(events) && Resting(d, mode, phys, events, n)
    modifies d`data, d`jpeg, d`vioStarts, d`script, d`baseY, d`baseC, d.unit, d.lb1, d.lb2, d.reload
    ensures Answered(d, mode, phys, events, n, n', r)
  {
    Begins(d, mode, phys, events, n);
    r, n' := RunFrom(d, mode, phys, events, n, d.DataAtEntry(), d.CodedAtEntry(), d.RequestAtEntry());
  }

  /** Set up the request. */
  method SetUp(d: Jpu, sink: Sink, mode: Mode, phys: int)
    requires d.Shape() && (mode == SoftMode ==> d.SoftArgs(true)) && 0 <= phys < U32 && Honest(d.script)
    requires (sink as object) != d && (sink as object) != d.unit
    modifies d`jpeg, sink
    ensures Resting(d, mode, phys, d.script, 0) && sink.Valid() && sink.written == [] && sink.calls == []
  {
    sink.Init();
    var saC := (phys + RowAt(d.context.height, d.context.pitch)) % U32;
    d.jpeg := Request(START, Flags(true, mode == VioMode, true, mode == SoftMode), BOTH, 0, phys, saC,
                      RowAt(LINEBUFFER_HEIGHT, d.context.pitch), 0, 0);
  }

  /** What the unit has read and the VIO has converted in an encode that has finished `strips` strips. */
  ghost predicate Encoded(d: Jpu, mode: Mode, phys: int, strips: nat)
    reads d, d.unit, d.frame
  {
    && |d.unit.encoded| == strips
    && (mode == SoftMode ==>
          forall k: nat :: k < strips ==>
            HoldsStrip(d.unit.encoded[k], d.frame[..], d.context.pitch, d.context.width, d.context.height, k))
    && (mode == VioMode ==>
          && strips <= |d.vioStarts| <= strips + 1
          && d.vioStarts == VioTrace(true, phys, (phys + RowAt(d.context.height, d.context.pitch)) % U32,
                                     RowAt(LINEBUFFER_HEIGHT, d.context.pitch), |d.vioStarts|))
  }

  /**
   * The k-th conversion of an encode on the VIO reads the luma 1024 rows further down for
   * every strip, and the chroma as far behind the end of the luma plane, modulo the 32-bit
   * address space.
   */
  lemma VioAddresses(d: Jpu, phys: int, strips: nat, k: nat)
    requires Encoded(d, VioMode, phys, strips) && 0 <= phys < U32 && k < |d.vioStarts|
    ensures var (pitch, luma) := (d.context.pitch, phys + d.context.height * d.context.pitch);
            d.vioStarts[k] == VioStart((phys + k * (1024 * pitch)) % 0x1_0000_0000,
                                       (luma + k * (1024 * pitch)) % 0x1_0000_0000, k % 2)
  {
    var (pitch, inc) := (d.context.pitch, RowAt(LINEBUFFER_HEIGHT, d.context.pitch));
    RowAtIsProduct(LINEBUFFER_HEIGHT, pitch);
    RowAtIsProduct(d.context.height, pitch);
    var chroma := phys + d.context.height * pitch;
    VioStartIs(phys, chroma % U32, inc, |d.vioStarts|, k);
    StepModulo(chroma, k * inc);
  }

  lemma CalledEncoded(d: Jpu, mode: Mode, phys: int, events: seq<Event>, n: nat)
    requires Called(d, mode, phys, events, n) && 0 <= phys < U32
    ensures Encoded(d, mode, phys, Strips(events[..n]))
  {
    if mode == VioMode && 0 < d.data.vioDone {
      VioStartIs(d.baseY, d.baseC, d.jpeg.saInc, d.data.vioDone, 0);
    }
  }

  /** What the first `l` full reload buffers hold of the coded bytes. */
  function Loaded(coded: seq<bv8>, l: nat): seq<bv8> {
    if ChunkTop(l) <= |coded| then coded[..ChunkTop(l)] else coded
  }

  /** The n-th word ends the transfer out of order. */
  predicate EndsOutOfOrder(events: seq<Event>, n: nat) {
    0 < n <= |events| && OutOfOrder(Loads(events[..n - 1]), events[n - 1].ints.xferDone, events[n - 1].ints.loaded)
  }

  /**
   * The bytes written when an encode ends after `n` words with `mem` in the reload buffers.
   * If it finished, the buffers of the last report were written behind those reported
   * before: every coded byte, in whole reload buffers but for the last, unless that was
   * out of order. After an error the driver goes by the report of the call before, and
   * writes those buffers again, as they are now. Otherwise it has written just the buffers
   * reported loaded.
   */
  ghost predicate WrittenAsCoded(out: seq<bv8>, calls: seq<seq<bv8>>, mem: seq<bv8>, events: seq<Event>, n: nat,
                                 outcome: Outcome)
    requires n <= |events|
  {
    match outcome
    case Finished =>
      && 0 < n && events[n - 1].ints.xferDone && HoldsTail(mem, Coded(events[..n]))
      && var (coded, l) := (Coded(events[..n]), Loads(events[..n - 1]));
         && out == AfterWrites(Loaded(coded, l), mem, Reported(l, true, events[n - 1].ints.loaded), |coded|)
         && (!EndsOutOfOrder(events, n) ==> out == coded && WholeButLast(calls))
    case Errored =>
      && 0 < n && Failed(events[n - 1]) && HoldsTail(mem, Coded(events[..n]))
      && var coded := Coded(events[..n]);
         out == AfterWrites(Loaded(coded, Loads(events[..n - 1])), mem, LastReported(events, n - 1), |coded|)
    case _ => out == Loaded(Coded(events[..n]), Loads(events[..n]))
  }

  lemma WrittenInOrder(out: seq<bv8>, calls: seq<seq<bv8>>, mem: seq<bv8>, events: seq<Event>, n: nat)
    requires n <= |events| && WrittenAsCoded(out, calls, mem, events, n, Finished) && !EndsOutOfOrder(events, n)
    ensures out == Coded(events[..n]) && WholeButLast(calls)
  {
  }

  /** A call that coded more bytes and loaded no more buffers leaves the written bytes right. */
  lemma StillLoaded(coded: seq<bv8>, coded': seq<bv8>, l: nat)
    requires coded <= coded' && ChunkTop(l) <= |coded|
    ensures Loaded(coded, l) == Loaded(coded', l)
  {
  }

  /** Words that report no loaded buffer leave the output right. */
  lemma OutputKept(d: Jpu, mode: Mode, phys: int, events: seq<Event>, n: nat, n': nat, r: Exit)
    requires Honest(events) && n <= |events| && Answered(d, mode, phys, events, n, n', r) && r != Returned
    ensures Loaded(Coded(events[..n]), Loads(events[..n])) == Loaded(Coded(events[..n']), Loads(events[..n']))
  {
    assert InRing(|Coded(events[..n])|, Loads(events[..n]));
    StillLoaded(Coded(events[..n]), Coded(events[..n']), Loads(events[..n]));
  }

  /**
   * Unless they come out of order, writing the reported buffers brings the output up to
   * date, in whole reload buffers.
   */
  lemma OutputInOrder(mem: seq<bv8>, coded: seq<bv8>, l: nat, end: bool, loaded: bool, calls: seq<seq<bv8>>)
    requires HoldsTail(mem, coded) && !OutOfOrder(l, end, loaded) && WholeCalls(calls)
    requires ChunkTop(l) <= |coded| && InRing(|coded|, l + if loaded then 1 else 0)
    ensures var (out, mask) := (Loaded(coded, l), Reported(l, end, loaded));
            var calls' := calls + CallsOf(out, mem, mask, |coded|);
            && AfterWrites(out, mem, mask, |coded|)
               == (if end then coded else Loaded(coded, l + if loaded then 1 else 0))
            && WholeButLast(calls') && (!end ==> WholeCalls(calls'))
  {
    WritesInOrder(mem, coded, l, end, loaded);
    CallsAreWhole(calls, coded, mem, l, end, loaded);
    assert coded[..|coded|] == coded;
  }

  /** What the output becomes by writing out the buffers reported after the n-th word. */
  lemma OutputIs(mem: seq<bv8>, events: seq<Event>, n: nat, l: nat, mask: Mask, calls: seq<seq<bv8>>)
    requires 0 < n <= |events| && HoldsTail(mem, Coded(events[..n])) && WholeCalls(calls)
    requires l == Loads(events[..n - 1]) && Loads(events[..n]) == l + if events[n - 1].ints.loaded then 1 else 0
    requires ChunkTop(l) <= |Coded(events[..n])| && InRing(|Coded(events[..n])|, Loads(events[..n]))
    requires mask == if Failed(events[n - 1]) then LastReported(events, n - 1)
                     else Reported(l, events[n - 1].ints.xferDone, events[n - 1].ints.loaded)
    ensures var (e, coded) := (events[n - 1], Coded(events[..n]));
            var out := Loaded(coded, l);
            var (out', calls') := (AfterWrites(out, mem, mask, |coded|), calls + CallsOf(out, mem, mask, |coded|));
            if Failed(e) then WrittenAsCoded(out', calls', mem, events, n, Errored)
            else if e.ints.xferDone then WrittenAsCoded(out', calls', mem, events, n, Finished)
            else out' == Loaded(coded, Loads(events[..n])) && WholeCalls(calls')
  {
    var e := events[n - 1];
    if !Failed(e) && !OutOfOrder(l, e.ints.xferDone, e.ints.loaded) {
      OutputInOrder(mem, Coded(events[..n]), l, e.ints.xferDone, e.ints.loaded, calls);
    }
  }

  /** The same after a call. */
  lemma OutputAfter(d: Jpu, mode: Mode, phys: int, events: seq<Event>, n: nat, n': nat, out: seq<bv8>,
                    calls: seq<seq<bv8>>)
    requires Honest(events) && n <= |events| && Answered(d, mode, phys, events, n, n', Returned)
    requires out == Loaded(Coded(events[..n]), Loads(events[..n])) && WholeCalls(calls)
    ensures |out| <= |d.unit.coded| < 0x100_0000
    ensures var out' := AfterWrites(out, d.reload[..], d.jpeg.buffers, |d.unit.coded|);
            var calls' := calls + CallsOf(out, d.reload[..], d.jpeg.buffers, |d.unit.coded|);
            if d.jpeg.state == END then
              WrittenAsCoded(out', calls', d.reload[..], events, n',
                             EncodeOutcome(events, 0, d.context.height, mode == SoftMode))
            else
              out' == Loaded(Coded(events[..n']), Loads(events[..n'])) && WholeCalls(calls')
  {
    var l := Loads(events[..n]);
    assert InRing(|Coded(events[..n])|, l) && InRing(|Coded(events[..n'])|, Loads(events[..n']));
    StillLoaded(Coded(events[..n]), Coded(events[..n']), l);
    OutputIs(d.reload[..], events, n', l, d.jpeg.buffers, calls);
  }

  /** What the encode loop keeps from one call of the state machine to the next. */
  ghost predicate LoopInv(d: Jpu, sink: Sink, mode: Mode, phys: int, events: seq<Event>, n: nat, written: nat)
    reads d, d.unit, d.lb1, d.lb2, d.reload, d.frame, sink
  {
    && Resting(d, mode, phys, events, n) && sink.Valid() && WholeCalls(sink.calls)
    && written == |sink.written| && sink.written == Loaded(Coded(events[..n]), Loads(events[..n]))
  }

  /** How an encode has ended after `n` words. A stuck one has not: the driver does not come back from it. */
  ghost predicate Ended(d: Jpu, sink: Sink, mode: Mode, phys: int, events: seq<Event>, n: nat, ret: int,
                        outcome: Outcome)
    reads d, d.unit, d.frame, d.reload, sink
  {
    && outcome == EncodeOutcome(events, 0, d.context.height, mode == SoftMode)
    && EndsOrSticks(events, n, outcome, d.context.height)
    && (outcome != Stuck ==> ret == if outcome == Finished then 0 else -1)
    && Coding(d.script, d.unit.coded, events, n)
    && Encoded(d, mode, phys, Strips(events[..n]))
    && sink.Valid() && WrittenAsCoded(sink.written, sink.calls, d.reload[..], events, n, outcome)
  }

  /** The rest of a pass after a call that came back: write what was loaded, and look whether that was all. */
  method AfterCall(d: Jpu, sink: Sink, mode: Mode, ghost phys: int, ghost events: seq<Event>, ghost n0: nat,
                   ghost n: nat, written: nat)
    returns (over: bool, ret: int, ghost outcome: Outcome, written': nat)
    requires Honest(events) && 0 <= phys < U32 && n0 <= |events| && Answered(d, mode, phys, events, n0, n, Returned)
    requires sink.Valid() && WholeCalls(sink.calls) && written == |sink.written|
    requires sink.written == Loaded(Coded(events[..n0]), Loads(events[..n0]))
    requires (sink as object) != d && (sink as object) != d.unit
    modifies sink
    ensures over ==> Ended(d, sink, mode, phys, events, n, ret, outcome)
    ensures !over ==> LoopInv(d, sink, mode, phys, events, n, written')
  {
    CalledEncoded(d, mode, phys, events, n);
    OutputAfter(d, mode, phys, events, n0, n, sink.written, sink.calls);
    written' := WriteLoaded(d, sink, written);
    over, ret, outcome := false, 0, Finished;
    if d.jpeg.state == END {
      over := true;
      if d.jpeg.error != 0 {
        ret, outcome := -1, Errored;
      }
    }
  }

  /** One pass of the encode loop. */
  method EncodeOnce(d: Jpu, sink: Sink, mode: Mode, ghost phys: int, ghost events: seq<Event>, ghost n: nat,
                    written: nat)
    returns (over: bool, ret: int, ghost outcome: Outcome, ghost n': nat, written': nat)
    requires Honest(events) && 0 <= phys < U32 && LoopInv(d, sink, mode, phys, events, n, written)
    requires (sink as object) != d && (sink as object) != d.unit
    modifies d`data, d`jpeg, d`vioStarts, d`script, d`baseY, d`baseC, d.unit, d.lb1, d.lb2, d.reload, sink
    ensures over ==> Ended(d, sink, mode, phys, events, n', ret, outcome)
    ensures !over ==> n < n' && LoopInv(d, sink, mode, phys, events, n', written')
  {
    var r;
    r, n' := RunOnce(d, mode, phys, events, n);
    if r == Returned {
      over, ret, outcome, written' := AfterCall(d, sink, mode, phys, events, n, n', written);
    } else {
      CalledEncoded(d, mode, phys, events, n');
      OutputKept(d, mode, phys, events, n, n', r);
      over, ret, outcome, written' := true, -1, if r == Spins then Stuck else NoInterrupt, written;
    }
  }

  /** Encode a picture. `n` words are taken from the unit. */
  method EncodePicture(d: Jpu, sink: Sink, mode: Mode, phys: int)
    returns (ret: int, ghost outcome: Outcome, ghost n: nat)
    requires d.Shape() && (mode == SoftMode ==> d.SoftArgs(true)) && 0 <= phys < U32 && Honest(d.script)
    requires (sink as object) != d && (sink as object) != d.unit
    modifies d`data, d`jpeg, d`vioStarts, d`script, d`baseY, d`baseC, d.unit, d.lb1, d.lb2, d.reload, sink
    ensures Ended(d, sink, mode, phys, old(d.script), n, ret, outcome)
  {
    ghost var events := d.script;
    SetUp(d, sink, mode, phys);
    var over, written := false, 0;
    n, ret, outcome := 0, 0, Finished;
    while !over
      invariant over ==> Ended(d, sink, mode, phys, events, n, ret, outcome)
      invariant !over ==> n <= |events| && LoopInv(d, sink, mode, phys, events, n, written)
      decreases !over, |events| - n
    {
      over, ret, outcome, n, written := EncodeOnce(d, sink, mode, phys, events, n, written);
    }
  }

  // ------------------------------------------------- the order of the output, over whole runs

  /** The two scripts report the same and code equally many bytes. */
  predicate SameShape(events: seq<Event>, other: seq<Event>) {
    && |events| == |other|
    && forall k :: 0 <= k < |events| ==>
         events[k].ints == other[k].ints && events[k].jcderr == other[k].jcderr
         && |events[k].coded| == |other[k].coded|
  }

  lemma {:induction false} SameLoads(events: seq<Event>, other: seq<Event>, n: nat)
    requires SameShape(events, other) && n <= |events|
    ensures Loads(events[..n]) == Loads(other[..n]) && |Coded(events[..n])| == |Coded(other[..n])|
    ensures LastReported(events, n) == LastReported(other, n)
  {
    if 0 < n {
      CountOne(events, n);
      CountOne(other, n);
      SameLoads(events, other, n - 1);
    }
  }

  /** The script with bytes marked that pass through reload buffer `b`. */
  function MarkedScript(events: seq<Event>, b: int): (other: seq<Event>)
    ensures SameShape(events, other)
  {
    seq(|events|, k requires 0 <= k < |events| =>
      events[k].(coded := MarkedBytes(b, |Coded(events[..k])|, |events[k].coded|)))
  }

  lemma {:induction false} MarkedCoded(events: seq<Event>, b: int, n: nat)
    requires n <= |events|
    ensures Coded(MarkedScript(events, b)[..n]) == MarkedBytes(b, 0, |Coded(events[..n])|)
  {
    if 0 < n {
      MarkedCoded(events, b, n - 1);
      CountOne(MarkedScript(events, b), n);
      CountOne(events, n);
      MarkedMore(b, |Coded(events[..n - 1])|, |events[n - 1].coded|);
    }
  }

  lemma MarkedMore(b: int, n: nat, m: nat)
    ensures MarkedBytes(b, 0, n) + MarkedBytes(b, n, m) == MarkedBytes(b, 0, n + m)
  {
  }

  /** How the marked bytes are written when the driver visits the wrong buffer first after the n-th word. */
  lemma MarkedRun(events: seq<Event>, n: nat, mask: Mask) returns (other: seq<Event>, mem: seq<bv8>, out: seq<bv8>)
    requires 0 < n <= |events| && FirstWrong(Loads(events[..n - 1]), mask)
    requires ChunkTop(Loads(events[..n - 1])) < |Coded(events[..n])|
    ensures SameShape(events, other) && HoldsTail(mem, Coded(other[..n])) && !(out <= Coded(other[..n]))
    ensures var coded := Coded(other[..n]);
            out == AfterWrites(Loaded(coded, Loads(events[..n - 1])), mem, mask, |coded|)
  {
    var l, total := Loads(events[..n - 1]), |Coded(events[..n])|;
    other, mem := MarkedScript(events, l % 2), MarkedBytes(l % 2, 0, RING);
    MarkedCoded(events, l % 2, n);
    MarkedTail(l % 2, total);
    MarkMisplaced(l, total, mask);
    out := AfterWrites(MarkedBytes(l % 2, 0, total)[..ChunkTop(l)], mem, mask, total);
  }

  /** The n-th word leaves the coded bytes where the reload buffers still hold what is not written. */
  lemma InTwoBuffers(events: seq<Event>, n: nat)
    requires Honest(events) && 0 < n <= |events|
    ensures var l := Loads(events[..n - 1]);
            ChunkTop(l) <= |Coded(events[..n])| <= ChunkTop(l + if events[n - 1].ints.loaded then 2 else 1)
  {
    CountOne(events, n);
    assert InRing(|Coded(events[..n])|, Loads(events[..n])) && InRing(|Coded(events[..n - 1])|, Loads(events[..n - 1]));
  }

  /**
   * Exactly when an encode that finishes at its n-th word writes what was coded, whatever
   * the unit's bytes are: when that word does not end the transfer out of order.
   */
  lemma WholeRunOrder(events: seq<Event>, n: nat)
    requires 0 < n <= |events| && Honest(events) && events[n - 1].ints.xferDone
    ensures
      (forall other: seq<Event>, mem: seq<bv8>, out: seq<bv8>, calls: seq<seq<bv8>> ::
         SameShape(events, other) && WrittenAsCoded(out, calls, mem, other, n, Finished) ==> out == Coded(other[..n]))
      <==> !EndsOutOfOrder(events, n)
  {
    if EndsOutOfOrder(events, n) {
      CountOne(events, n);
      assert InRing(|Coded(events[..n])|, Loads(events[..n]));
      var other, mem, out := MarkedRun(events, n, BOTH);
      SameLoads(events, other, n - 1);
      assert WrittenAsCoded(out, [], mem, other, n, Finished);
    } else {
      forall other: seq<Event>, mem: seq<bv8>, out: seq<bv8>, calls: seq<seq<bv8>> |
        SameShape(events, other) && WrittenAsCoded(out, calls, mem, other, n, Finished)
        ensures out == Coded(other[..n])
      {
        SameLoads(events, other, n - 1);
      }
    }
  }

  /** What the calls before the n-th word may have reported last: nothing, or the last buffer loaded. */
  lemma {:induction false} ReportKinds(events: seq<Event>, n: nat)
    requires n <= |events|
    ensures var (mask, l) := (LastReported(events, n), Loads(events[..n]));
            mask == NEITHER || (mask == BOTH && l == 0) || (0 < l && mask == Bit((l - 1) % 2))
  {
    if 0 < n {
      CountOne(events, n);
      ReportKinds(events, n - 1);
    }
  }

  /**
   * The n-th word is taken when the last report was of a loaded buffer, and more has been
   * coded than was reported loaded: if the word is an error, the driver visits that buffer
   * again and takes what it holds for the bytes behind.
   */
  predicate Revisits(events: seq<Event>, n: nat) {
    && 0 < n <= |events| && LastReported(events, n - 1) != NEITHER
    && 0 < Loads(events[..n - 1]) && ChunkTop(Loads(events[..n - 1])) < |Coded(events[..n])|
  }

  /**
   * Exactly when an encode that fails at its n-th word has at least written a beginning of
   * what was coded, whatever the unit's bytes are: when the driver does not visit a buffer
   * again that it has written out before.
   */
  lemma FailedRunOrder(events: seq<Event>, n: nat)
    requires 0 < n <= |events| && Honest(events) && Failed(events[n - 1])
    ensures
      (forall other: seq<Event>, mem: seq<bv8>, out: seq<bv8>, calls: seq<seq<bv8>> ::
         SameShape(events, other) && WrittenAsCoded(out, calls, mem, other, n, Errored) ==> out <= Coded(other[..n]))
      <==> !Revisits(events, n)
  {
    if Revisits(events, n) {
      var other, mem, out := FailedRun(events, n);
    } else {
      NotRevisited(events, n);
      var total, l, mask := |Coded(events[..n])|, Loads(events[..n - 1]), LastReported(events, n - 1);
      forall other: seq<Event>, mem: seq<bv8>, out: seq<bv8>, calls: seq<seq<bv8>> |
        SameShape(events, other) && WrittenAsCoded(out, calls, mem, other, n, Errored)
        ensures out <= Coded(other[..n])
      {
        FailedKept(events, other, n, mem, out, calls, total, l, mask);
      }
    }
  }

  lemma FailedRun(events: seq<Event>, n: nat) returns (other: seq<Event>, mem: seq<bv8>, out: seq<bv8>)
    requires Revisits(events, n) && Failed(events[n - 1])
    ensures SameShape(events, other) && WrittenAsCoded(out, [], mem, other, n, Errored) && !(out <= Coded(other[..n]))
  {
    ReportKinds(events, n - 1);
    other, mem, out := MarkedRun(events, n, LastReported(events, n - 1));
    SameLoads(events, other, n - 1);
  }

  lemma FailedKept(events: seq<Event>, other: seq<Event>, n: nat, mem: seq<bv8>, out: seq<bv8>, calls: seq<seq<bv8>>,
                   total: nat, l: nat, mask: Mask)
    requires 0 < n <= |events| && SameShape(events, other) && WrittenAsCoded(out, calls, mem, other, n, Errored)
    requires total == |Coded(events[..n])| && l == Loads(events[..n - 1]) && mask == LastReported(events, n - 1)
    requires ChunkTop(l) <= total <= ChunkTop(l + 2) && (mask == NEITHER || l == 0 || total == ChunkTop(l))
    requires l == 0 && mask != NEITHER ==> mask == BOTH
    ensures out <= Coded(other[..n])
  {
    SameLoads(events, other, n);
    SameLoads(events, other, n - 1);
    KeptInOrder(mem, Coded(other[..n]), l, mask);
  }

  lemma NotRevisited(events: seq<Event>, n: nat)
    requires 0 < n <= |events| && Honest(events) && !Revisits(events, n)
    ensures var (total, l, mask) := (|Coded(events[..n])|, Loads(events[..n - 1]), LastReported(events, n - 1));
            && ChunkTop(l) <= total <= ChunkTop(l + 2)
            && (mask == NEITHER || l == 0 || total == ChunkTop(l)) && (l == 0 && mask != NEITHER ==> mask == BOTH)
  {
    ReportKinds(events, n - 1);
    InTwoBuffers(events, n);
  }

  lemma KeptInOrder(mem: seq<bv8>, coded: seq<bv8>, l: nat, mask: Mask)
    requires HoldsTail(mem, coded) && ChunkTop(l) <= |coded| <= ChunkTop(l + 2)
    requires mask == NEITHER || l == 0 || |coded| == ChunkTop(l)
    requires l == 0 && mask != NEITHER ==> mask == BOTH
    ensures AfterWrites(Loaded(coded, l), mem, mask, |coded|) <= coded
  {
    WritesOn(mem, coded, l, mask);
  }

  /**
   * A script that keeps the contract and ends out of order: two full buffers, the second
   * with the end of the transfer.
   */
  lemma OutOfOrderHappens(lb: LineBuffer, height: nat) returns (events: seq<Event>)
    ensures Honest(events) && EndsOutOfOrder(events, 2) && EncodeOutcome(events, 0, height, false) == Finished
  {
    var bytes := MarkedBytes(0, 0, RELOAD_SIZE);
    var first := Event(QUIET.(loaded := true), 0, lb, lb, bytes);
    var second := Event(QUIET.(loaded := true, xferDone := true), 0, lb, lb, bytes);
    events := [first, second];
    CountOne(events, 1);
    CountOne(events, 2);
    assert events[..0] == [];
    forall k: nat | k <= 2
      ensures InRing(|Coded(events[..k])|, Loads(events[..k]))
    {
    }
  }

  /**
   * A script that keeps the contract and fails when its first buffer has been written out:
   * a full buffer, then a byte and an error.
   */
  lemma RevisitHappens(lb: LineBuffer, height: nat) returns (events: seq<Event>)
    ensures Honest(events) && Revisits(events, 2) && EncodeOutcome(events, 0, height, false) == Errored
  {
    var first := Event(QUIET.(loaded := true), 0, lb, lb, MarkedBytes(0, 0, RELOAD_SIZE));
    var second := Event(QUIET.(error := true), 1, lb, lb, [0]);
    events := [first, second];
    CountOne(events, 1);
    CountOne(events, 2);
    assert events[..0] == [];
    forall k: nat | k <= 2
      ensures InRing(|Coded(events[..k])|, Loads(events[..k]))
    {
    }
    assert LastReported(events, 1) == Bit(0);
  }
}
