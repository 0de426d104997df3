/** Decoding with the unit: the loop that feeds it coded data and runs the state machine. */
module DecodeHw {
  import opened Basics
  import opened JpuDevice
  import opened FrameStrips
  import opened JpuState
  import opened JpuDriver

  /** One answer of the caller's read operation. */
  datatype ReadResult = ReadResult(ret: int, bytes: seq<bv8>)

  /** The caller's stream: the answers its read operation has still to give, then end of file. */
  class Stream {
    var answers: seq<ReadResult>

    constructor (answers: seq<ReadResult>)
      ensures this.answers == answers
    {
      this.answers := answers;
    }

    /** Read never delivers more than it is asked for. */
    ghost predicate Bounded()
      reads this
    {
      forall r :: r in answers ==> |r.bytes| <= RELOAD_SIZE
    }

    method Read(dst: array<bv8>, at: nat) returns (ret: int, len: nat)
      requires Bounded() && at + RELOAD_SIZE <= dst.Length
      modifies this, dst
      ensures Bounded() && len <= RELOAD_SIZE
      ensures answers == if old(answers) == [] then [] else old(answers)[1..]
      ensures var r := if old(answers) == [] then ReadResult(0, []) else old(answers)[0];
              ret == r.ret && len == |r.bytes| && dst[at..at + len] == r.bytes
      ensures dst[..at] == old(dst[..at]) && dst[at + RELOAD_SIZE..] == old(dst[at + RELOAD_SIZE..])
    {
      if answers == [] {
        return 0, 0;
      }
      var r := answers[0];
      answers := answers[1..];
      forall i | 0 <= i < |r.bytes| {
        dst[at + i] := r.bytes[i];
      }
      ret, len := r.ret, |r.bytes|;
    }
  }

  /** The j-th answer, an empty one past the end. */
  function Answer(answers: seq<ReadResult>, j: nat): ReadResult {
    if j < |answers| then answers[j] else ReadResult(0, [])
  }

  /** Reload buffers in use when chunks c..r are loaded and not used up. */
  function InUse(c: nat, r: nat): Mask {
    if r <= c then NEITHER else if r == c + 1 then Bit(c % 2) else BOTH
  }

  /** The chunks that have been loaded and not used up are in the buffers of their parity. */
  ghost predicate Queued(mem: seq<bv8>, chunks: seq<seq<bv8>>, c: nat) {
    && |mem| == RING && |chunks| <= c + 2
    && (forall j: nat :: c <= j < |chunks| ==> InBuffer(mem, j, chunks[j]))
  }

  /** Chunk number `j` is at the start of its reload buffer. */
  ghost predicate InBuffer(mem: seq<bv8>, j: nat, chunk: seq<bv8>)
    requires |mem| == RING
  {
    && |chunk| <= RELOAD_SIZE
    && mem[(j % 2) * RELOAD_SIZE..(j % 2) * RELOAD_SIZE + |chunk|] == chunk
  }

  /** The chunks are the answers read so far, all successful, all but the last full. */
  ghost predicate FromStream(chunks: seq<seq<bv8>>, answers: seq<ReadResult>, more: bool) {
    && (forall j: nat :: j < |chunks| ==> Answer(answers, j).ret == 0 && chunks[j] == Answer(answers, j).bytes)
    && (forall j: nat :: j < |chunks| - (if more then 0 else 1) ==> |chunks[j]| == RELOAD_SIZE)
  }

  /**
   * The two reload buffers, the mask and the buffer in turn are a queue of at most two
   * chunks: chunk c is next, and while there is more to read the queue is topped up
   * before the unit runs again.
   */
  ghost predicate Fifo(d: Internal, more: bool, mem: seq<bv8>, chunks: seq<seq<bv8>>, c: nat) {
    && Queued(mem, chunks, c)
    && d.buffer == c % 2
    && d.buffers == InUse(c, |chunks|)
    && (more ==> |chunks| == c + 2 || (c == 0 && |chunks| == 1))
  }

  /** Using up the buffer in turn takes the first chunk off the queue. */
  lemma UsedUp(c: nat, r: nat)
    requires r <= c + 2
    ensures Without(InUse(c, r), c % 2) == InUse(c + 1, r)
  {
  }

  /** Once the unit has used up chunk c - 1, what is missing from the queue comes next in the stream. */
  ghost predicate Missing(jpeg: Request, c: nat, r: nat, b: int) {
    (if b == 0 then jpeg.buffers.first else jpeg.buffers.second) && jpeg.flags.reload ==> r % 2 == b && r <= c + 1
  }

  /** The mask with bit `b` set or cleared. */
  function WithBit(m: Mask, b: int, on: bool): Mask {
    if b == 0 then m.(first := on) else m.(second := on)
  }

  /** Chunk `j` was read into its buffer; the chunk in the other buffer stays. */
  lemma ChunkAdded(mem: seq<bv8>, mem': seq<bv8>, chunks: seq<seq<bv8>>, c: nat, chunk: seq<bv8>)
    requires Queued(mem, chunks, c) && |chunks| <= c + 1 && |mem'| == RING
    requires var at := (|chunks| % 2) * RELOAD_SIZE;
             && mem'[..at] == mem[..at] && mem'[at + RELOAD_SIZE..] == mem[at + RELOAD_SIZE..]
             && |chunk| <= RELOAD_SIZE && mem'[at..at + |chunk|] == chunk
    ensures Queued(mem', chunks + [chunk], c)
  {
    var r := |chunks|;
    forall j: nat | c <= j < r + 1
      ensures InBuffer(mem', j, (chunks + [chunk])[j])
    {
      if j < r {
        assert InBuffer(mem, j, chunks[j]);
        assert j % 2 != r % 2;
        var n := |chunks[j]|;
        if j % 2 == 0 {
          assert mem'[0..n] == mem'[..RELOAD_SIZE][0..n] == mem[..RELOAD_SIZE][0..n] == mem[0..n];
        } else {
          assert mem'[RELOAD_SIZE..RELOAD_SIZE + n] == mem'[RELOAD_SIZE..][..n] == mem[RELOAD_SIZE..][..n]
              == mem[RELOAD_SIZE..RELOAD_SIZE + n];
        }
      }
    }
  }

  lemma StreamGrows(chunks: seq<seq<bv8>>, answers: seq<ReadResult>)
    requires FromStream(chunks, answers, true) && Answer(answers, |chunks|).ret == 0
    ensures FromStream(chunks + [Answer(answers, |chunks|).bytes], answers,
                       |Answer(answers, |chunks|).bytes| == RELOAD_SIZE)
  {
  }

  /** Reading goes on until an answer falls short or a read fails. */
  ghost predicate ReadUp(answers: seq<ReadResult>, chunks: seq<seq<bv8>>, more: bool) {
    && chunks != []
    && (more || |chunks[|chunks| - 1]| < RELOAD_SIZE || Answer(answers, |chunks|).ret != 0)
  }

  /** A decode's return value so far: zero, or the code of the read that failed, after which none is tried. */
  ghost predicate ReadCode(ret: int, answers: seq<ReadResult>, chunks: seq<seq<bv8>>, more: bool) {
    && ReadUp(answers, chunks, more)
    && ret == if more || |chunks[|chunks| - 1]| < RELOAD_SIZE then 0 else Answer(answers, |chunks|).ret
  }

  /** The same request but for the buffers asked for, and reload may have been switched off. */
  predicate SameButReload(q: Request, q': Request) {
    && q' == q.(buffers := q'.buffers, flags := q.flags.(reload := q'.flags.reload))
    && (q'.flags.reload ==> q.flags.reload)
  }

  /** The queue holds what has been read, and the stream is where that ends. */
  ghost predicate Filling(d: Jpu, src: Stream, ret: int, answers: seq<ReadResult>, chunks: seq<seq<bv8>>, c: nat)
    reads d, d.reload, src
  {
    && src.Bounded() && Queued(d.reload[..], chunks, c) && FromStream(chunks, answers, d.jpeg.flags.reload)
    && (d.jpeg.flags.reload ==> src.answers == answers[Min(|chunks|, |answers|)..])
    && ReadCode(ret, answers, chunks, d.jpeg.flags.reload)
  }

  /** Fill reload buffer `b` if the machine asks for it and there is more to read. */
  method Refill(d: Jpu, src: Stream, b: int, ret: int, ghost answers: seq<ReadResult>, ghost chunks: seq<seq<bv8>>,
                ghost c: nat)
    returns (ret': int, ghost chunks': seq<seq<bv8>>)
    requires b == 0 || b == 1
    requires d.Shape() && (src as object) != d
    requires Filling(d, src, ret, answers, chunks, c) && Missing(d.jpeg, c, |chunks|, b)
    modifies d`jpeg, d.reload, src
    ensures Filling(d, src, ret', answers, chunks', c)
    ensures SameButReload(old(d.jpeg), d.jpeg) && d.jpeg.buffers == WithBit(old(d.jpeg).buffers, b, chunks' != chunks)
    ensures chunks' == chunks || (|chunks'| == |chunks| + 1 && chunks <= chunks' && |chunks| % 2 == b)
    ensures d.jpeg.flags.reload && (if b == 0 then old(d.jpeg).buffers.first else old(d.jpeg).buffers.second) ==>
      chunks' != chunks
    ensures !old(d.jpeg).flags.reload ==> chunks' == chunks
  {
    ret', chunks' := ret, chunks;
    if (if b == 0 then d.jpeg.buffers.first else d.jpeg.buffers.second) && d.jpeg.flags.reload {
      ghost var mem := d.reload[..];
      var len;
      ret', len := src.Read(d.reload, b * RELOAD_SIZE);
      if ret' != 0 {
        d.jpeg := d.jpeg.(buffers := Without(d.jpeg.buffers, b), flags := d.jpeg.flags.(reload := false));
        BufferSpoiled(mem, d.reload[..], chunks, c);
      } else {
        ghost var chunk := Answer(answers, |chunks|).bytes;
        ChunkAdded(mem, d.reload[..], chunks, c, chunk);
        StreamGrows(chunks, answers);
        chunks' := chunks + [chunk];
        if len < RELOAD_SIZE {
          d.jpeg := d.jpeg.(flags := d.jpeg.flags.(reload := false));
        }
      }
    } else {
      d.jpeg := d.jpeg.(buffers := Without(d.jpeg.buffers, b));
    }
  }

  /** A failed read may spoil the buffer it was for, but that buffer held no chunk. */
  lemma BufferSpoiled(mem: seq<bv8>, mem': seq<bv8>, chunks: seq<seq<bv8>>, c: nat)
    requires Queued(mem, chunks, c) && |chunks| <= c + 1 && |mem'| == RING
    requires var at := (|chunks| % 2) * RELOAD_SIZE;
             mem'[..at] == mem[..at] && mem'[at + RELOAD_SIZE..] == mem[at + RELOAD_SIZE..]
    ensures Queued(mem', chunks, c)
  {
    ChunkAdded(mem, mem', chunks, c, []);
    forall j: nat | c <= j < |chunks|
      ensures InBuffer(mem', j, chunks[j])
    {
      assert (chunks + [[]])[j] == chunks[j];
    }
  }

  /** Progress of the refill loop, which still has to visit buffers i - 1 down to 0. */
  ghost predicate Refilling(used: Mask, q: Request, c: nat, r: nat, i: int) {
    && Or(used, Mask(i <= 0 && q.buffers.first, i <= 1 && q.buffers.second)) == InUse(c, r)
    && (2 <= i ==> q.buffers.second == !used.second)
    && (1 <= i ==> q.buffers.first == !used.first)
    && (q.flags.reload ==>
          || r == c + 2
          || (i == 2 && (r == c + 1 || (r == c && r % 2 == 1)))
          || (i == 1 && r == c + 1 && r % 2 == 0))
  }

  /** A visit to buffer i - 1 that loads the missing chunk exactly when there is one to load. */
  lemma RefillStep(used: Mask, q: Request, q': Request, c: nat, r: nat, r': nat, i: int)
    requires 1 <= i <= 2 && Refilling(used, q, c, r, i) && r <= c + 2
    requires r' == r || (r' == r + 1 && r % 2 == i - 1 && r <= c + 1 && c <= r)
    requires q'.buffers == WithBit(q.buffers, i - 1, r' != r)
    requires q'.flags.reload ==> q.flags.reload
    requires q'.flags.reload && (if i == 1 then q.buffers.first else q.buffers.second) ==> r' != r
    ensures Refilling(used, q', c, r', i - 1)
  {
  }

  /** One visit of the refill loop, to buffer i - 1. */
  method RefillVisit(d: Jpu, src: Stream, i: int, ret: int, ghost answers: seq<ReadResult>, ghost chunks: seq<seq<bv8>>,
                     ghost c: nat)
    returns (ret': int, ghost chunks': seq<seq<bv8>>)
    requires d.Shape() && (src as object) != d && 1 <= i <= 2
    requires Filling(d, src, ret, answers, chunks, c) && Refilling(d.data.buffers, d.jpeg, c, |chunks|, i)
    modifies d`jpeg, d.reload, src
    ensures Filling(d, src, ret', answers, chunks', c) && Refilling(d.data.buffers, d.jpeg, c, |chunks'|, i - 1)
    ensures SameButReload(old(d.jpeg), d.jpeg)
    ensures chunks <= chunks' && (!old(d.jpeg).flags.reload ==> chunks' == chunks)
  {
    ghost var q := d.jpeg;
    ret', chunks' := Refill(d, src, i - 1, ret, answers, chunks, c);
    RefillStep(d.data.buffers, q, d.jpeg, c, |chunks|, |chunks'|, i);
  }

  /** Visit reload buffer 2, then buffer 1, and fill those the machine asks for. */
  method RefillBoth(d: Jpu, src: Stream, ret: int, ghost answers: seq<ReadResult>, ghost chunks: seq<seq<bv8>>,
                    ghost c: nat)
    returns (ret': int, ghost chunks': seq<seq<bv8>>)
    requires d.Shape() && (src as object) != d
    requires Filling(d, src, ret, answers, chunks, c) && Refilling(d.data.buffers, d.jpeg, c, |chunks|, 2)
    modifies d`jpeg, d.reload, src
    ensures Filling(d, src, ret', answers, chunks', c)
    ensures SameButReload(old(d.jpeg), d.jpeg)
    ensures chunks <= chunks' && (!old(d.jpeg).flags.reload ==> chunks' == chunks)
    ensures Or(d.data.buffers, d.jpeg.buffers) == InUse(c, |chunks'|)
    ensures d.jpeg.flags.reload ==> |chunks'| == c + 2
  {
    ret', chunks' := ret, chunks;
    ghost var q := d.jpeg;
    var i := 2;
    while i >= 1
      invariant 0 <= i <= 2 && Filling(d, src, ret', answers, chunks', c)
      invariant Refilling(d.data.buffers, d.jpeg, c, |chunks'|, i)
      invariant SameButReload(q, d.jpeg)
      invariant chunks <= chunks' && (!q.flags.reload ==> chunks' == chunks)
    {
      ret', chunks' := RefillVisit(d, src, i, ret', answers, chunks', c);
      i := i - 1;
    }
  }

  /** After a call the queue has lost the chunk of a reload, and the machine asks for what is missing. */
  lemma FifoAfterRun(d: Internal, d': Internal, e: Event, more: bool, mem: seq<bv8>, chunks: seq<seq<bv8>>,
                     c: nat, q: Request)
    requires Fifo(d, more, mem, chunks, c) && StatusAfter(d, d', e) && !e.ints.loaded
    requires q.buffers == Flip(d'.buffers) && (q.flags.reload ==> more)
    ensures var c' := if e.ints.reload then c + 1 else c;
            && Queued(mem, chunks, c') && d'.buffer == c' % 2 && d'.buffers == InUse(c', |chunks|)
            && Refilling(d'.buffers, q, c', |chunks|, 2)
  {
    UsedUp(c, |chunks|);
  }

  // ---------------------------------------------------------------- the whole decode

  /** What the buffer in turn holds for the unit when it has used up `c` chunks: the next one, if that was loaded. */
  function InTurn(mem: seq<bv8>, b: int, chunks: seq<seq<bv8>>, c: nat): seq<bv8>
    requires |mem| == RING && (b == 0 || b == 1) && (c < |chunks| ==> |chunks[c]| <= RELOAD_SIZE)
  {
    if c < |chunks| then mem[b * RELOAD_SIZE..b * RELOAD_SIZE + |chunks[c]|] else []
  }

  /**
   * The bytes the unit has been given: those in the buffers it has used up, and those in
   * the buffer in turn. A reload makes the latter some of the former.
   */
  function Given(eaten: seq<bv8>, mem: seq<bv8>, b: int, chunks: seq<seq<bv8>>, c: nat): seq<bv8>
    requires |mem| == RING && (b == 0 || b == 1) && (c < |chunks| ==> |chunks[c]| <= RELOAD_SIZE)
  {
    eaten + InTurn(mem, b, chunks, c)
  }

  /** The buffer in turn holds chunk c. */
  lemma GivenIsNextChunk(mem: seq<bv8>, chunks: seq<seq<bv8>>, c: nat)
    requires Queued(mem, chunks, c)
    ensures Given(Concat(chunks[..Min(c, |chunks|)]), mem, c % 2, chunks, c) == Concat(chunks[..Min(c + 1, |chunks|)])
  {
    if c < |chunks| {
      assert InBuffer(mem, c, chunks[c]);
      ConcatSnoc(chunks[..c], chunks[c]);
      assert chunks[..c + 1] == chunks[..c] + [chunks[c]];
    }
  }

  /** Reading on does not change what has been eaten. */
  lemma EatenKept(chunks: seq<seq<bv8>>, chunks': seq<seq<bv8>>, c: nat)
    requires chunks <= chunks' && (chunks' != chunks ==> c <= |chunks|)
    ensures Concat(chunks'[..Min(c, |chunks'|)]) == Concat(chunks[..Min(c, |chunks|)])
  {
    if chunks' != chunks {
      assert chunks'[..c] == chunks[..c];
    }
  }

  /** What the decode loop keeps from one call of the state machine to the next. */
  ghost predicate LoopInv(d: Jpu, src: Stream, mode: Mode, answers: seq<ReadResult>, events: seq<Event>, n: nat,
                          chunks: seq<seq<bv8>>, eaten: seq<bv8>, ret: int)
    reads d, d.unit, d.lb1, d.lb2, d.reload, d.frame, src
  {
    && d.Shape() && d.Ready() && (d.jpeg.state == START || d.jpeg.state == RUN)
    && (d.jpeg.state == RUN ==> d.jpeg.error == 0)
    && d.jpeg.flags.convert == (mode == VioMode) && d.jpeg.flags.soft == (mode == SoftMode) && !d.jpeg.flags.encode
    && src.Bounded()
    && Open(events, n) && d.script == events[n..]
    && d.DataAtEntry().jpuDone == Strips(events[..n])
    && Fifo(d.DataAtEntry(), d.jpeg.flags.reload, d.reload[..], chunks, Reloads(events[..n]))
    && FromStream(chunks, answers, d.jpeg.flags.reload)
    && (d.jpeg.flags.reload ==> src.answers == answers[Min(|chunks|, |answers|)..])
    && eaten == Concat(chunks[..Min(Reloads(events[..n]), |chunks|)])
    && ReadCode(ret, answers, chunks, d.jpeg.flags.reload)
  }

  ghost function EatenAfter(eaten: seq<bv8>, mem: seq<bv8>, b: int, chunks: seq<seq<bv8>>, c: nat,
                            reload: bool): seq<bv8>
    requires |mem| == RING && (b == 0 || b == 1) && (c < |chunks| ==> |chunks[c]| <= RELOAD_SIZE)
  {
    if reload then Given(eaten, mem, b, chunks, c) else eaten
  }

  /** What a call that took `m` words means for the counts and the outcome. */
  lemma CountsAfterRun(rest: seq<Event>, events: seq<Event>, n: nat, m: nat, done: bool)
    requires Open(events, n) && Consumed(rest, events[n..], m, done)
    ensures n + m <= |events| && rest == events[n + m..]
    ensures Strips(events[..n + m]) == Strips(events[..n]) + Strips(events[n..][..m])
    ensures Reloads(events[..n + m]) == Reloads(events[..n]) + if done && events[n + m - 1].ints.reload then 1 else 0
    ensures !done || !Final(events[n + m - 1]) ==> Open(events, n + m)
    ensures done && Final(events[n + m - 1]) ==>
      EndsAt(events, n + m, if Failed(events[n + m - 1]) then Errored else Finished)
  {
    CountOn(events, n, m);
    OpenAfter(events, n, m, rest, done);
    assert 0 < m ==> events[n..][m - 1] == events[n + m - 1];
  }

  /** What a call that came back means for the queue: its last word is the only one that can have used up a buffer. */
  lemma QueueAfterRun(d: Internal, d': Internal, e: Event, c: nat, c': nat, more: bool, mem: seq<bv8>,
                      chunks: seq<seq<bv8>>, eaten: seq<bv8>, q: Request)
    requires Fifo(d, more, mem, chunks, c) && !e.ints.loaded && StatusAfter(d, d', e)
    requires c' == c + (if e.ints.reload then 1 else 0) && eaten == Concat(chunks[..Min(c, |chunks|)])
    requires d'.error == 0 && !d'.end ==> q.buffers == Flip(d'.buffers) && (q.flags.reload ==> more)
    ensures Queued(mem, chunks, c')
    ensures EatenAfter(eaten, mem, d.buffer, chunks, c, e.ints.reload) == Concat(chunks[..Min(c', |chunks|)])
    ensures d'.buffer == c' % 2 && d'.buffers == InUse(c', |chunks|)
    ensures d'.error == 0 && !d'.end ==> Refilling(d'.buffers, q, c', |chunks|, 2)
  {
    FifoAfterRun(d, d', e, more, mem, chunks, c,
                 q.(buffers := Flip(d'.buffers), flags := q.flags.(reload := q.flags.reload && more)));
    if e.ints.reload {
      GivenIsNextChunk(mem, chunks, c);
    }
  }

  /**
   * How many strips a decode has converted when a call has taken its words up to the n-th,
   * and come back or not: all that were finished, but for one that the word of an error
   * has finished.
   */
  function StripsKept(events: seq<Event>, n: nat, done: bool): nat
    requires n <= |events|
  {
    if done && 0 < n && Failed(events[n - 1]) then Strips(events[..n - 1]) else Strips(events[..n])
  }

  lemma KeptIs(d: Internal, q: Request, c: Picture, events: seq<Event>, n: nat, done: bool)
    requires n <= |events| && d.jpuDone == Strips(events[..n])
    requires !done ==> CaughtUp(d, q, c)
    requires done ==> 0 < n && ConvertedAfter(d, q, c, events[n - 1]) && (Failed(events[n - 1]) <==> d.error != 0)
    ensures Converted(d, q, c, StripsKept(events, n, done))
  {
    if done {
      CountOne(events, n);
    }
  }

  /**
   * What a call has decided that took the words from the n-th to the n'-th, and what it has
   * left in the record `d`, the request `q` and the reload buffers.
   */
  ghost predicate Decided(d: Internal, q: Request, c: Picture, mem: seq<bv8>, events: seq<Event>, n: nat, n': nat,
                          chunks: seq<seq<bv8>>, eaten: seq<bv8>, done: bool)
  {
    && n <= n' <= |events| && d.jpuDone == Strips(events[..n'])
    && eaten == Concat(chunks[..Min(Reloads(events[..n']), |chunks|)])
    && (q.flags.reload ==> Reloads(events[..n']) <= |chunks|)
    && Queued(mem, chunks, Reloads(events[..n']))
    && d.buffer == Reloads(events[..n']) % 2 && d.buffers == InUse(Reloads(events[..n']), |chunks|)
    && Converted(d, q, c, StripsKept(events, n', done))
    && if !done then EndsAt(events, n', NoInterrupt)
       else
         && n < n'
         && var e := events[n' - 1];
            if Failed(e) then EndsAt(events, n', Errored) && q.state == END && q.error != 0
            else if e.ints.xferDone then EndsAt(events, n', Finished) && q.state == END && q.error == 0
            else
              && q.state == RUN && q.error == 0 && Open(events, n')
              && Refilling(d.buffers, q, Reloads(events[..n']), |chunks|, 2)
  }

  /** What a call that took the words n..n' leaves to the decode loop. */
  ghost predicate Answered(d: Jpu, mode: Mode, events: seq<Event>, n: nat, n': nat, chunks: seq<seq<bv8>>,
                           eaten: seq<bv8>,
                           done: bool)
    reads d, d.unit, d.lb1, d.lb2, d.reload, d.frame
  {
    && Decided(d.data, d.jpeg, d.context, d.reload[..], events, n, n', chunks, eaten, done)
    && d.script == events[n'..] && (done ==> d.Ready())
    && d.Going() && !d.data.encode
    && d.jpeg.flags.convert == (mode == VioMode) && d.jpeg.flags.soft == (mode == SoftMode)
  }

  /** What a call that took `m` words has left, started from the given script, record, request and reload buffers. */
  ghost predicate Ran(d: Jpu, mode: Mode, script: seq<Event>, d0: Internal, q0: Request, mem: seq<bv8>, m: nat,
                      done: bool)
    reads d, d.unit, d.lb1, d.lb2, d.reload, d.frame
  {
    && Consumed(d.script, script, m, done) && (m == |script| || done)
    && d.Going() && !d.data.encode && q0.flags == d.jpeg.flags && d.reload[..] == mem
    && d.jpeg.flags.convert == (mode == VioMode) && d.jpeg.flags.soft == (mode == SoftMode)
    && d.data.jpuDone == d0.jpuDone + Strips(script[..m])
    && (!done ==> CaughtUp(d.data, d.jpeg, d.context) && SameStatus(d0, d.data))
    && (done ==>
          && d.Ready() && StatusAfter(d0, d.data, script[m - 1]) && SameRequest(Report(q0, d.data), d.jpeg)
          && ConvertedAfter(d.data, d.jpeg, d.context, script[m - 1]))
  }

  /** One call of the state machine and what it leaves to the caller. */
  method RunMachine(d: Jpu, mode: Mode, ghost script: seq<Event>, ghost d0: Internal, ghost q0: Request,
                    ghost mem: seq<bv8>)
    returns (r: Exit, ghost m: nat)
    requires d.Ready() && (d.jpeg.state == START || d.jpeg.state == RUN) && !d.jpeg.flags.encode
    requires d.jpeg.flags.convert == (mode == VioMode) && d.jpeg.flags.soft == (mode == SoftMode)
    requires script == d.script && d0 == d.DataAtEntry() && q0 == d.RequestAtEntry() && mem == d.reload[..]
    modifies d`data, d`jpeg, d`vioStarts, d`script, d`baseY, d`baseC, d.unit, d.lb1, d.lb2, d.frame
    ensures r == Returned || r == TimedOut
    ensures d.jpeg.flags == old(d.jpeg).flags && Ran(d, mode, script, d0, q0, mem, m, r == Returned)
  {
    r, m := d.Run();
  }

  /** What a call starts from after the first `n` words: the record, the request, the queue. */
  ghost predicate Begun(d0: Internal, q0: Request, more: bool, mem: seq<bv8>, events: seq<Event>, n: nat,
                        chunks: seq<seq<bv8>>, eaten: seq<bv8>)
  {
    && Open(events, n) && d0.jpuDone == Strips(events[..n])
    && Fifo(d0, more, mem, chunks, Reloads(events[..n]))
    && eaten == Concat(chunks[..Min(Reloads(events[..n]), |chunks|)])
    && q0.state == RUN && q0.error == 0 && (q0.flags.reload ==> more) && d0.error == 0
  }

  lemma Begins(d: Jpu, src: Stream, mode: Mode, answers: seq<ReadResult>, events: seq<Event>, n: nat,
               chunks: seq<seq<bv8>>, eaten: seq<bv8>, ret: int)
    requires LoopInv(d, src, mode, answers, events, n, chunks, eaten, ret)
    ensures Begun(d.DataAtEntry(), d.RequestAtEntry(), d.jpeg.flags.reload, d.reload[..], events, n, chunks, eaten)
  {
  }

  lemma Decides(d0: Internal, d: Internal, q0: Request, q: Request, p: Picture, rest: seq<Event>, events: seq<Event>,
                n: nat, m: nat, done: bool, more: bool, mem: seq<bv8>, chunks: seq<seq<bv8>>, eaten: seq<bv8>)
    returns (eaten': seq<bv8>)
    requires forall e :: e in events ==> !e.ints.loaded
    requires Begun(d0, q0, more, mem, events, n, chunks, eaten) && q0.flags == q.flags
    requires Consumed(rest, events[n..], m, done) && (m == |events[n..]| || done)
    requires d.jpuDone == d0.jpuDone + Strips(events[n..][..m])
    requires !done ==> CaughtUp(d, q, p) && SameStatus(d0, d)
    requires done ==>
      && StatusAfter(d0, d, events[n..][m - 1]) && SameRequest(Report(q0, d), q)
      && ConvertedAfter(d, q, p, events[n..][m - 1])
    ensures Decided(d, q, p, mem, events, n, n + m, chunks, eaten', done)
  {
    var c := Reloads(events[..n]);
    CountsAfterRun(rest, events, n, m, done);
    eaten' := eaten;
    if done {
      var e := events[n + m - 1];
      assert events[n..][m - 1] == e;
      QueueAfterRun(d0, d, e, c, Reloads(events[..n + m]), more, mem, chunks, eaten, q);
      eaten' := EatenAfter(eaten, mem, d0.buffer, chunks, c, e.ints.reload);
    }
    KeptIs(d, q, p, events, n + m, done);
  }

  lemma Answers(d: Jpu, mode: Mode, events: seq<Event>, n: nat, m: nat, done: bool, more: bool, chunks: seq<seq<bv8>>,
                eaten: seq<bv8>, d0: Internal, q0: Request, mem: seq<bv8>)
    returns (eaten': seq<bv8>)
    requires forall e :: e in events ==> !e.ints.loaded
    requires Begun(d0, q0, more, mem, events, n, chunks, eaten) && Ran(d, mode, events[n..], d0, q0, mem, m, done)
    ensures Answered(d, mode, events, n, n + m, chunks, eaten', done)
  {
    eaten' := Decides(d0, d.data, q0, d.jpeg, d.context, d.script, events, n, m, done, more, mem, chunks, eaten);
    assert events[n..][m..] == events[n + m..];
  }

  /** One call of the state machine. */
  method RunOnce(d: Jpu, src: Stream, mode: Mode, ghost answers: seq<ReadResult>, ghost events: seq<Event>,
                 ghost n: nat,
                 ghost chunks: seq<seq<bv8>>, ghost eaten: seq<bv8>, ghost ret: int)
    returns (r: Exit, ghost n': nat, ghost eaten': seq<bv8>)
    requires LoopInv(d, src, mode, answers, events, n, chunks, eaten, ret) && (src as object) != d
    requires forall e :: e in events ==> !e.ints.loaded
    modifies d`data, d`jpeg, d`vioStarts, d`script, d`baseY, d`baseC, d.unit, d.lb1, d.lb2, d.frame
    ensures r == Returned || r == TimedOut
    ensures d.jpeg.flags == old(d.jpeg).flags
    ensures Answered(d, mode, events, n, n', chunks, eaten', r == Returned)
  {
    ghost var d0, q0, mem, more := d.DataAtEntry(), d.RequestAtEntry(), d.reload[..], d.jpeg.flags.reload;
    Begins(d, src, mode, answers, events, n, chunks, eaten, ret);
    ghost var m;
    r, m := RunMachine(d, mode, events[n..], d0, q0, mem);
    n' := n + m;
    eaten' := Answers(d, mode, events, n, m, r == Returned, more, chunks, eaten, d0, q0, mem);
  }

  /** The rows that a decode which finished `strips` strips has put into the frame. */
  ghost predicate Decoded(d: Jpu, mode: Mode, strips: nat)
    reads d, d.frame
  {
    && (mode == SoftMode ==>
          FrameShows(d.frame[..], d.context.pitch, d.context.width, Min(d.context.height, StripTop(strips)),
                     d.image, d.context.mode420))
    && (mode == VioMode ==> d.vioStarts == VioTrace(false, d.baseY, d.baseC, d.jpeg.saInc, strips))
  }

  /** Rows that are shown stay shown when fewer are asked for. */
  lemma ShownEnough(d: Jpu, mode: Mode, strips: nat)
    requires d.Going() && !d.data.encode && Converted(d.data, d.jpeg, d.context, strips)
    requires d.jpeg.flags.convert == (mode == VioMode) && d.jpeg.flags.soft == (mode == SoftMode)
    ensures Decoded(d, mode, strips)
  {
  }

  /** The queue after the first chunk has been read. */
  lemma FirstChunk(d0: Internal, mem: seq<bv8>, answers: seq<ReadResult>, chunk: seq<bv8>, more: bool)
    requires Answer(answers, 0) == ReadResult(0, chunk) && |chunk| <= RELOAD_SIZE && more == (|chunk| == RELOAD_SIZE)
    requires |mem| == RING && mem[0..|chunk|] == chunk && d0.buffer == 0 && d0.buffers == Bit(0)
    ensures Fifo(d0, more, mem, [chunk], 0) && FromStream([chunk], answers, more) && ReadCode(0, answers, [chunk], more)
  {
  }

  /** Set up the request after the first chunk has been read. */
  method SetUp(d: Jpu, src: Stream, mode: Mode, len: nat, ghost answers: seq<ReadResult>)
    requires d.Shape() && (mode == SoftMode ==> d.SoftArgs(false)) && src.Bounded()
    requires Answer(answers, 0).ret == 0 && len == |Answer(answers, 0).bytes| <= RELOAD_SIZE
    requires d.reload[0..len] == Answer(answers, 0).bytes
    requires src.answers == answers[Min(1, |answers|)..]
    modifies d`jpeg
    ensures LoopInv(d, src, mode, answers, d.script, 0, [Answer(answers, 0).bytes], [], 0)
  {
    var flags := Flags(len == RELOAD_SIZE, mode == VioMode, false, mode == SoftMode);
    d.jpeg := Request(START, flags, Bit(0), 0, 0, 0, 0, 0, 0);
    FirstChunk(d.DataAtEntry(), d.reload[..], answers, Answer(answers, 0).bytes, len == RELOAD_SIZE);
  }

  /** The machine runs on after `n` words and `c` reloads. */
  ghost predicate Running(d: Jpu, mode: Mode, events: seq<Event>, n: nat, c: nat)
    reads d, d.unit, d.lb1, d.lb2, d.reload, d.frame
  {
    && d.Shape() && d.Ready() && d.jpeg.state == RUN && d.jpeg.error == 0
    && d.jpeg.flags.convert == (mode == VioMode) && d.jpeg.flags.soft == (mode == SoftMode) && !d.jpeg.flags.encode
    && Open(events, n) && d.script == events[n..]
    && d.data.jpuDone == Strips(events[..n]) && c == Reloads(events[..n]) && d.data.buffer == c % 2
  }

  /** With the queue topped up the next call can be made. */
  lemma ToppedUp(d: Jpu, src: Stream, mode: Mode, ret: int, answers: seq<ReadResult>, events: seq<Event>, n: nat,
                 chunks: seq<seq<bv8>>, eaten: seq<bv8>, c: nat)
    requires Running(d, mode, events, n, c) && Filling(d, src, ret, answers, chunks, c)
    requires Or(d.data.buffers, d.jpeg.buffers) == InUse(c, |chunks|) && (d.jpeg.flags.reload ==> |chunks| == c + 2)
    requires eaten == Concat(chunks[..Min(c, |chunks|)])
    ensures LoopInv(d, src, mode, answers, events, n, chunks, eaten, ret)
  {
  }

  /** Top the queue up before the next call. */
  method TopUp(d: Jpu, src: Stream, mode: Mode, ret: int, ghost answers: seq<ReadResult>, ghost events: seq<Event>,
               ghost n: nat, ghost chunks: seq<seq<bv8>>, ghost eaten: seq<bv8>, ghost c: nat)
    returns (ret': int, ghost chunks': seq<seq<bv8>>)
    requires Running(d, mode, events, n, c) && Filling(d, src, ret, answers, chunks, c) && (src as object) != d
    requires Refilling(d.data.buffers, d.jpeg, c, |chunks|, 2) && eaten == Concat(chunks[..Min(c, |chunks|)])
    modifies d`jpeg, d.reload, src
    ensures LoopInv(d, src, mode, answers, events, n, chunks', eaten, ret')
  {
    ret', chunks' := RefillBoth(d, src, ret, answers, chunks, c);
    EatenKept(chunks, chunks', c);
    ToppedUp(d, src, mode, ret', answers, events, n, chunks', eaten, c);
  }

  /**
   * How a decode has ended after `n` words. `chunks` are the answers that were read and
   * `eaten` is what the unit has used up of them: while there was more to read, a whole
   * chunk for every reload. The chunks behind those are still in their buffers, the next
   * one in the buffer in turn. Every strip finished before the word of an error is in the
   * frame, or converted by the VIO; the end of the transfer finishes one more.
   */
  ghost predicate Ended(d: Jpu, src: Stream, mode: Mode, answers: seq<ReadResult>, events: seq<Event>, n: nat,
                        chunks: seq<seq<bv8>>, eaten: seq<bv8>, ret: int, outcome: Outcome)
    reads d, d.frame, d.reload, src
  {
    && outcome == (if Answer(answers, 0).ret != 0 then NoInput else DecodeOutcome(events))
    && (outcome != NoInput ==> EndsAt(events, n, outcome))
    && n <= |events| && d.script == events[n..]
    && eaten == Concat(chunks[..Min(Reloads(events[..n]), |chunks|)])
    && (outcome != Finished ==> ret == -1)
    && (outcome != NoInput ==>
          && FromStream(chunks, answers, d.jpeg.flags.reload) && ReadUp(answers, chunks, d.jpeg.flags.reload)
          && Queued(d.reload[..], chunks, Reloads(events[..n]))
          && d.data.buffer == Reloads(events[..n]) % 2 && d.data.buffers == InUse(Reloads(events[..n]), |chunks|)
          && (d.jpeg.flags.reload ==>
                Reloads(events[..n]) <= |chunks| && src.answers == answers[Min(|chunks|, |answers|)..])
          && Decoded(d, mode, StripsKept(events, n, outcome == Errored)))
    && (outcome == Finished ==>
          ReadCode(ret, answers, chunks, d.jpeg.flags.reload) && Decoded(d, mode, Strips(events[..n - 1]) + 1))
  }

  /** A call that ended the picture, or did not come back, ends the decode. */
  lemma EndsHere(d: Jpu, src: Stream, mode: Mode, answers: seq<ReadResult>, events: seq<Event>, n: nat, n': nat,
                 chunks: seq<seq<bv8>>, eaten: seq<bv8>, ret: int, done: bool)
    requires Answered(d, mode, events, n, n', chunks, eaten, done) && (done ==> d.jpeg.state == END)
    requires Answer(answers, 0).ret == 0 && FromStream(chunks, answers, d.jpeg.flags.reload)
    requires d.jpeg.flags.reload ==> src.answers == answers[Min(|chunks|, |answers|)..]
    requires ReadCode(ret, answers, chunks, d.jpeg.flags.reload)
    ensures var outcome := if !done then NoInterrupt else if d.jpeg.error != 0 then Errored else Finished;
            Ended(d, src, mode, answers, events, n', chunks, eaten, if outcome == Finished then ret else -1, outcome)
  {
    ShownEnough(d, mode, StripsKept(events, n', done));
    if done {
      CountOne(events, n');
    }
    DecodeOutcomeIs(events, n', if !done then NoInterrupt else if d.jpeg.error != 0 then Errored else Finished);
  }

  /** One pass of the decode loop: run the machine, and unless that ended the decode, top the queue up. */
  method DecodeOnce(d: Jpu, src: Stream, mode: Mode, ret: int, ghost answers: seq<ReadResult>, ghost events: seq<Event>,
                    ghost n: nat, ghost chunks: seq<seq<bv8>>, ghost eaten: seq<bv8>)
    returns (over: bool, ret': int, ghost outcome: Outcome, ghost n': nat, ghost chunks': seq<seq<bv8>>,
             ghost eaten': seq<bv8>)
    requires LoopInv(d, src, mode, answers, events, n, chunks, eaten, ret)
    requires (src as object) != d && (src as object) != d.unit
    requires Answer(answers, 0).ret == 0 && forall e :: e in events ==> !e.ints.loaded
    modifies d`data, d`jpeg, d`vioStarts, d`script, d`baseY, d`baseC, d.unit, d.lb1, d.lb2, d.reload, d.frame, src
    ensures over ==> Ended(d, src, mode, answers, events, n', chunks', eaten', ret', outcome)
    ensures !over ==> n < n' && LoopInv(d, src, mode, answers, events, n', chunks', eaten', ret')
  {
    var r;
    r, n', eaten' := RunOnce(d, src, mode, answers, events, n, chunks, eaten, ret);
    over, ret', outcome, chunks' := r != Returned || d.jpeg.state == END, ret, Finished, chunks;
    if over {
      EndsHere(d, src, mode, answers, events, n, n', chunks, eaten', ret, r == Returned);
      if r != Returned {
        ret', outcome := -1, NoInterrupt;
      } else if d.jpeg.error != 0 {
        ret', outcome := -1, Errored;
      }
    } else {
      ret', chunks' := TopUp(d, src, mode, ret, answers, events, n', chunks, eaten', Reloads(events[..n']));
    }
  }

  /** Decode a picture. `n` words are taken from the unit. */
  method DecodePicture(d: Jpu, src: Stream, mode: Mode)
    returns (ret: int, ghost outcome: Outcome, ghost n: nat, ghost chunks: seq<seq<bv8>>, ghost eaten: seq<bv8>)
    requires d.Shape() && (mode == SoftMode ==> d.SoftArgs(false))
    requires src.Bounded() && (src as object) != d && (src as object) != d.unit
    requires forall e :: e in d.script ==> !e.ints.loaded
    modifies d`data, d`jpeg, d`vioStarts, d`script, d`baseY, d`baseC, d.unit, d.lb1, d.lb2, d.reload, d.frame, src
    ensures Ended(d, src, mode, old(src.answers), old(d.script), n, chunks, eaten, ret, outcome)
  {
    ghost var events, answers := d.script, src.answers;
    n, chunks, eaten := 0, [], [];
    var len;
    ret, len := src.Read(d.reload, 0);
    if ret != 0 {
      return -1, NoInput, n, chunks, eaten;
    }
    chunks := [Answer(answers, 0).bytes];
    SetUp(d, src, mode, len, answers);
    var over := false;
    outcome := Finished;
    while !over
      invariant over ==> Ended(d, src, mode, answers, events, n, chunks, eaten, ret, outcome)
      invariant !over ==> n <= |events| && LoopInv(d, src, mode, answers, events, n, chunks, eaten, ret)
      decreases !over, |events| - n
    {
      over, ret, outcome, n, chunks, eaten := DecodeOnce(d, src, mode, ret, answers, events, n, chunks, eaten);
    }
  }
}
