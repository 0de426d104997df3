/** The status words of the JPEG unit and what a sequence of them means. */
module JpuDevice {
  import opened Basics

  /** The bits of the interrupt status register that the driver looks at (INS3 to INS14). */
  datatype Ints = Ints(header: bool, error: bool, codingDone: bool, xferDone: bool,
                       linebuf0: bool, linebuf1: bool, loaded: bool, reload: bool)

  const QUIET: Ints := Ints(false, false, false, false, false, false, false, false)

  /** The contents of one line buffer: a Y plane followed by a CbCr plane. */
  type LineBuffer = s: seq<bv8> | |s| == LINEBUFFER_SIZE witness seq(LINEBUFFER_SIZE, _ => 0)

  /**
   * What one wait finds: the status word, the error register, what the unit has left so
   * far in line buffers it is still decoding into, and the bytes it has coded meanwhile.
   */
  datatype Event = Event(ints: Ints, jcderr: nat, partial1: LineBuffer, partial2: LineBuffer, coded: seq<bv8>)

  /** The word reports an error that the error register confirms. */
  predicate Failed(e: Event) { e.ints.error && e.jcderr != 0 }

  /** The unit finishes a line buffer: either of the two, or the last of a transfer. */
  predicate FinishesLine(ints: Ints) {
    ints.xferDone || ints.linebuf0 || ints.linebuf1
  }

  /** The word reports a finished line buffer; the end of the transfer finishes one as well. */
  predicate Counted(e: Event) {
    e.ints.xferDone || e.ints.linebuf0 || e.ints.linebuf1
  }

  /** The word makes the driver leave its loop. */
  predicate Stops(e: Event) {
    e.ints.error || e.ints.xferDone || e.ints.loaded || e.ints.reload
  }

  /** How many line buffers a sequence of words reports finished. */
  function Strips(events: seq<Event>): nat {
    if events == [] then 0
    else Strips(events[..|events| - 1]) + if Counted(events[|events| - 1]) then 1 else 0
  }

  /** The bytes coded during a sequence of waits. */
  function Coded(events: seq<Event>): seq<bv8> {
    if events == [] then [] else Coded(events[..|events| - 1]) + events[|events| - 1].coded
  }

  /** `script` is what is left of `events` after `n` words; of these only the last may have stopped the driver. */
  ghost predicate Consumed(script: seq<Event>, events: seq<Event>, n: nat, done: bool) {
    && n <= |events| && script == events[n..]
    && (done ==> 0 < n && Stops(events[n - 1]))
    && (forall i :: 0 <= i < n - (if done then 1 else 0) ==> !Stops(events[i]))
  }

  /** Taking one more word. */
  lemma ConsumedStep(script: seq<Event>, events: seq<Event>, n: nat)
    requires Consumed(script, events, n, false) && script != []
    ensures events[n] == script[0]
    ensures Consumed(script[1..], events, n + 1, Stops(script[0]))
    ensures Strips(events[..n + 1]) == Strips(events[..n]) + if Counted(script[0]) then 1 else 0
    ensures Coded(events[..n + 1]) == Coded(events[..n]) + script[0].coded
  {
    assert events[..n + 1][..n] == events[..n];
  }

  /** The word ends the picture, well or badly. */
  predicate Final(e: Event) {
    Failed(e) || e.ints.xferDone
  }

  /** How many reload buffers a sequence of words reports used up by decoding. */
  function Reloads(events: seq<Event>): nat {
    if events == [] then 0
    else Reloads(events[..|events| - 1]) + if events[|events| - 1].ints.reload then 1 else 0
  }

  /** How many reload buffers a sequence of words reports filled by encoding. */
  function Loads(events: seq<Event>): nat {
    if events == [] then 0
    else Loads(events[..|events| - 1]) + if events[|events| - 1].ints.loaded then 1 else 0
  }

  /** Counting the m-th word. */
  lemma CountOne(events: seq<Event>, m: nat)
    requires 0 < m <= |events|
    ensures Strips(events[..m]) == Strips(events[..m - 1]) + if Counted(events[m - 1]) then 1 else 0
    ensures Coded(events[..m]) == Coded(events[..m - 1]) + events[m - 1].coded
    ensures Reloads(events[..m]) == Reloads(events[..m - 1]) + if events[m - 1].ints.reload then 1 else 0
    ensures Loads(events[..m]) == Loads(events[..m - 1]) + if events[m - 1].ints.loaded then 1 else 0
  {
    assert events[..m][..m - 1] == events[..m - 1];
  }

  /** Counting over `m` more words. */
  lemma {:induction false} AddOn(events: seq<Event>, n: nat, m: nat, script: seq<Event>)
    requires n + m <= |events| && script == events[n..]
    ensures Strips(events[..n + m]) == Strips(events[..n]) + Strips(script[..m])
    ensures Coded(events[..n + m]) == Coded(events[..n]) + Coded(script[..m])
  {
    if m > 0 {
      AddOn(events, n, m - 1, script);
      CountOne(events, n + m);
      CountOne(script, m);
      assert script[m - 1] == events[n + m - 1];
      ConcatAssoc(Coded(events[..n]), Coded(script[..m - 1]), script[m - 1].coded);
    }
  }

  /** Words that do not stop the driver report no buffer used up or filled. */
  lemma {:induction false} QuietOn(events: seq<Event>, n: nat, m: nat)
    requires n + m <= |events| && forall i :: n <= i < n + m ==> !Stops(events[i])
    ensures Reloads(events[..n + m]) == Reloads(events[..n]) && Loads(events[..n + m]) == Loads(events[..n])
  {
    if m > 0 {
      QuietOn(events, n, m - 1);
      CountOne(events, n + m);
    }
  }

  /** Counting over `m` more words, of which only the last may stop the driver. */
  lemma CountOn(events: seq<Event>, n: nat, m: nat)
    requires n + m <= |events|
    requires forall i :: 0 <= i < m - 1 ==> !Stops(events[n..][i])
    ensures Strips(events[..n + m]) == Strips(events[..n]) + Strips(events[n..][..m])
    ensures Coded(events[..n + m]) == Coded(events[..n]) + Coded(events[n..][..m])
    ensures Reloads(events[..n + m]) == Reloads(events[..n]) + if 0 < m && events[n + m - 1].ints.reload then 1 else 0
    ensures Loads(events[..n + m]) == Loads(events[..n]) + if 0 < m && events[n + m - 1].ints.loaded then 1 else 0
  {
    AddOn(events, n, m, events[n..]);
    if m > 0 {
      forall i | n <= i < n + (m - 1)
        ensures !Stops(events[i])
      {
        assert events[i] == events[n..][i - n];
      }
      QuietOn(events, n, m - 1);
      CountOne(events, n + m);
    }
  }

  // ------------------------------------------------- how a picture ends

  datatype Outcome =
    | Finished     // the unit reported the end of the transfer
    | Errored      // the unit reported an error
    | NoInterrupt  // the unit fell silent
    | Stuck        // the driver waits for nothing and has nothing to do
    | NoInput      // no coded data could be read

  /** How a decode ends is decided by the first final word. */
  function DecodeOutcome(events: seq<Event>): (outcome: Outcome)
    ensures outcome == Finished || outcome == Errored || outcome == NoInterrupt
  {
    if events == [] then NoInterrupt
    else if Failed(events[0]) then Errored
    else if events[0].ints.xferDone then Finished
    else DecodeOutcome(events[1..])
  }

  /** None of the first `n` words has ended the picture: no end of transfer, and no error that the register confirms. */
  predicate Open(events: seq<Event>, n: nat) {
    && n <= |events|
    && forall i :: 0 <= i < n ==> !events[i].ints.xferDone && !(events[i].ints.error && events[i].jcderr != 0)
  }

  /** The n-th word is the first to end the picture, and it ends it in this way; or the words run out before that. */
  predicate EndsAt(events: seq<Event>, n: nat, outcome: Outcome) {
    match outcome
    case Finished =>
      && 0 < n && Open(events, n - 1) && n <= |events|
      && events[n - 1].ints.xferDone && !(events[n - 1].ints.error && events[n - 1].jcderr != 0)
    case Errored =>
      && 0 < n && Open(events, n - 1) && n <= |events|
      && events[n - 1].ints.error && events[n - 1].jcderr != 0
    case NoInterrupt => n == |events| && Open(events, n)
    case _ => false
  }

  /** A word that ends the picture in one way or the other. */
  lemma OpenOn(events: seq<Event>, n: nat)
    requires 0 < n <= |events| && Open(events, n - 1)
    ensures if Failed(events[n - 1]) then EndsAt(events, n, Errored)
            else if Final(events[n - 1]) then EndsAt(events, n, Finished)
            else Open(events, n)
  {
  }

  /** Where a picture stands after a call that took `m` words. */
  lemma OpenAfter(events: seq<Event>, n: nat, m: nat, rest: seq<Event>, done: bool)
    requires Open(events, n) && Consumed(rest, events[n..], m, done)
    ensures !done || !Final(events[n + m - 1]) ==> Open(events, n + m)
    ensures done && Final(events[n + m - 1]) ==>
      EndsAt(events, n + m, if Failed(events[n + m - 1]) then Errored else Finished)
  {
    forall i | n <= i < n + m - if done then 1 else 0
      ensures !Stops(events[i])
    {
      assert events[i] == events[n..][i - n];
    }
    if done {
      OpenOn(events, n + m);
    }
  }

  /** A decode ends as the first word says that ends the picture. */
  lemma {:induction false} DecodeOutcomeIs(events: seq<Event>, n: nat, outcome: Outcome)
    requires EndsAt(events, n, outcome)
    ensures DecodeOutcome(events) == outcome
  {
    if events != [] && !Final(events[0]) {
      var tail := events[1..];
      forall i | 0 <= i < n - 1
        ensures tail[i] == events[i + 1]
      {
      }
      DecodeOutcomeIs(tail, n - 1, outcome);
    }
  }

  /** The words that report either line buffer or the end of the transfer, by their numbers. */
  ghost function LineWords(events: seq<Event>): set<nat> {
    set i: nat | i < |events| && (events[i].ints.xferDone || events[i].ints.linebuf0 || events[i].ints.linebuf1)
  }

  lemma LastLineWord(events: seq<Event>)
    requires events != []
    ensures var (n, e) := (|events| - 1, events[|events| - 1].ints);
            var before := LineWords(events[..n]);
            && n !in before
            && LineWords(events) == if e.xferDone || e.linebuf0 || e.linebuf1 then before + {n} else before
  {
    var (n, before) := (|events| - 1, LineWords(events[..|events| - 1]));
    forall i: nat | i < n
      ensures i in LineWords(events) <==> i in before
    {
      assert events[i] == events[..n][i];
    }
  }

  /** As many strips are finished as there are words that report either line buffer or the end of the transfer. */
  lemma {:induction false} StripsAre(events: seq<Event>)
    ensures Strips(events) == |LineWords(events)|
  {
    if events == [] {
      assert LineWords(events) == {};
    } else {
      StripsAre(events[..|events| - 1]);
      LastLineWord(events);
    }
  }

  // ------------------------------------------------- the reload buffer mask

  /** A two-bit mask over the reload buffers. */
  datatype Mask = Mask(first: bool, second: bool)

  const BOTH: Mask := Mask(true, true)
  const NEITHER: Mask := Mask(false, false)

  /** The mask with just the bit of buffer `b`. */
  function Bit(b: int): Mask {
    if b == 0 then Mask(true, false) else Mask(false, true)
  }

  function Or(m: Mask, n: Mask): Mask {
    Mask(m.first || n.first, m.second || n.second)
  }

  /** The mask without the bit of buffer `b`. */
  function Without(m: Mask, b: int): Mask {
    if b == 0 then m.(first := false) else m.(second := false)
  }

  /** The mask with both bits flipped. */
  function Flip(m: Mask): Mask {
    Mask(!m.first, !m.second)
  }

  /** Mask and current buffer after a word: every load or reload uses up one buffer. */
  function Handed(mask: Mask, b: int, e: Event): (Mask, int) {
    var (mask', b') := if e.ints.loaded then (Without(mask, b), (b + 1) % 2) else (mask, b);
    if e.ints.reload then (Without(mask', b'), (b' + 1) % 2) else (mask', b')
  }

  // ------------------------------------------------- the reload buffers as a ring

  const RING: nat := 2 * RELOAD_SIZE

  /**
   * Coded byte number p is stored at p modulo the size of both reload buffers, so the
   * buffers together hold the last coded bytes.
   */
  ghost predicate HoldsTail(mem: seq<bv8>, coded: seq<bv8>) {
    && |mem| == RING
    && forall p: int :: 0 <= p < |coded| && |coded| - RING <= p ==> mem[p % RING] == coded[p]
  }

  lemma RingSlotsDiffer(p: int, n: int)
    requires 0 <= p < n < p + RING
    ensures p % RING != n % RING
  {
  }

  /** Storing the next byte in its slot keeps the tail, one byte on. */
  lemma TailGrows(mem: seq<bv8>, coded: seq<bv8>, b: bv8)
    requires HoldsTail(mem, coded)
    ensures HoldsTail(mem[|coded| % RING := b], coded + [b])
  {
    var n := |coded|;
    var mem', coded' := mem[n % RING := b], coded + [b];
    forall p: int | 0 <= p < |coded'| && |coded'| - RING <= p
      ensures mem'[p % RING] == coded'[p]
    {
      if p < n {
        RingSlotsDiffer(p, n);
        assert mem[p % RING] == coded[p];
      }
    }
  }
}
