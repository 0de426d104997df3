/** The read operation built on libjpeg's callbacks: the header is recorded, replayed and followed by the source. */
module JpegIo {
  import opened Basics
  import opened JpegSource
  import opened MarkerReads

  /** What libjpeg does to its source while it parses a header: use bytes of the buffer, or have it filled again. */
  datatype Step = Use(k: nat) | Refill

  /** A buffer_cache_context_t. Its pointers are offsets into the cache and into the source's buffer. */
  datatype CacheContext = CacheContext(
    cacheRead: nat,   // cache_read
    total: nat,       // total_buffer_size
    started: bool,    // current_start is not NULL
    start: nat,       // current_start
    read: nat,        // current_read
    last: nat)        // last_buffer_size

  /** The record fits the buffers: the bytes from current_read on are those used and those unread. */
  predicate Fits(c: CacheContext, cacheSize: nat, next: nat, bytes: nat) {
    && c.cacheRead + c.total <= cacheSize && bytes <= c.last
    && if c.started then c.read + c.last == next + bytes else c.last == 0
  }

  /** Nothing has been replayed yet. */
  predicate Unread(c: CacheContext) {
    c.read == c.start && (c.total == 0 || c.cacheRead == 0)
  }

  /** What is saved and not replayed yet. */
  function Saved(c: CacheContext, cache: seq<bv8>): seq<bv8>
    requires c.cacheRead + c.total <= |cache|
  {
    cache[c.cacheRead..c.cacheRead + c.total]
  }

  /** What the buffer at hand still holds: bytes used and not replayed yet, then unread ones. */
  function Held(c: CacheContext, data: seq<bv8>): seq<bv8>
    requires c.started ==> c.read + c.last <= |data|
  {
    if c.started then data[c.read..c.read + c.last] else []
  }

  /** A new buffer with the first `n` bytes of one buffer and `m` bytes of another. */
  method Join(a: array<bv8>, n: nat, b: array<bv8>, at: nat, m: nat) returns (temp: array<bv8>)
    requires n <= a.Length && at + m <= b.Length
    ensures fresh(temp) && temp.Length == n + m && temp[0..n + m] == a[..n] + b[at..at + m]
  {
    temp := new bv8[n + m];
    MemCpy(temp, 0, a, 0, n);
    ghost var first := temp[..n];
    MemCpy(temp, n, b, at, m);
    assert temp[..n] == first && temp[n..n + m] == b[at..at + m];
  }

  lemma StreamAfterFill(saved: seq<bv8>, held: seq<bv8>, incoming: seq<seq<bv8>>)
    ensures var (held', incoming') := FirstFill(incoming);
            saved + (held + Concat(incoming)) == (saved + held) + (held' + Concat(incoming'))
  {
  }

  /** Unless everything has been read, the marker will be found. */
  predicate StillMarked(live: seq<bv8>, incoming: seq<seq<bv8>>) {
    live + Concat(incoming) != [] ==> OneEnd(live, incoming)
  }

  /** Where one step of the parser leaves the source: the unread bytes of the buffer, and the fills to come. */
  function Stepped(at: (seq<bv8>, seq<seq<bv8>>), step: Step): (seq<bv8>, seq<seq<bv8>>) {
    match step
    case Use(k) => (at.0[Min(k, |at.0|)..], at.1)
    case Refill => FirstFill(at.1)
  }

  /** Where the parser leaves the source. */
  function Parsed(at: (seq<bv8>, seq<seq<bv8>>), steps: seq<Step>): (seq<bv8>, seq<seq<bv8>>) {
    if steps == [] then at else Stepped(Parsed(at, steps[..|steps| - 1]), steps[|steps| - 1])
  }

  lemma MarkedAfterStep(at: (seq<bv8>, seq<seq<bv8>>), step: Step)
    requires StillMarked(at.0, at.1)
    ensures StillMarked(Stepped(at, step).0, Stepped(at, step).1)
  {
    match step
    case Use(k) =>
      if Min(k, |at.0|) < |at.0| {
        OneEndSuffix(at.0, at.1, Min(k, |at.0|));
      }
    case Refill =>
      if at.1 != [] && at.0 + Concat(at.1) == [] {
        assert Concat(at.1) == [];
      }
  }

  /** Unless the parser has read everything, the marker will still be found behind it. */
  lemma {:induction false} MarkedAfterHeader(at: (seq<bv8>, seq<seq<bv8>>), steps: seq<Step>)
    requires StillMarked(at.0, at.1)
    ensures StillMarked(Parsed(at, steps).0, Parsed(at, steps).1)
  {
    if steps != [] {
      MarkedAfterHeader(at, steps[..|steps| - 1]);
      MarkedAfterStep(Parsed(at, steps[..|steps| - 1]), steps[|steps| - 1]);
    }
  }

  /** A read of `n` bytes of the stream `s` delivers `out` and leaves `rest`. */
  predicate Reads(s: seq<bv8>, n: nat, out: seq<bv8>, rest: seq<bv8>, padded: bool, marked: bool) {
    Conserved(s, out, rest, padded) && (marked ==> out == Reply(s, n) && rest == After(s, n))
  }

  /**
   * With `out` delivered in all, a read from the source with the result `r` makes a read of
   * `n` bytes of the stream.
   */
  predicate Delivers(s: seq<bv8>, n: nat, out: seq<bv8>, marked: bool, r: Result) {
    var rest := r.live + Concat(r.incoming);
    && Reads(s, n, out, rest, r.padded, marked) && (|out| < n ==> r.live == [])
    && (marked && rest != [] ==> OneEnd(r.live, r.incoming))
  }

  lemma LiveIsHeld(c: CacheContext, data: seq<bv8>, next: nat, bytes: nat)
    requires next + bytes <= |data| && bytes <= c.last
    requires if c.started then c.read + c.last == next + bytes else c.last == 0
    ensures data[next..next + bytes] == Held(c, data)[|Held(c, data)| - bytes..]
    ensures bytes == c.last ==> data[next..next + bytes] == Held(c, data)
  {
  }

  /** Replaying `k` bytes moves on in the buffer at hand, until just its unread bytes are left. */
  lemma HeldOn(c: CacheContext, data: seq<bv8>, next: nat, bytes: nat, k: nat, held: seq<bv8>)
    requires next + bytes <= |data| && k + bytes <= c.last
    requires if c.started then c.read + c.last == next + bytes else c.last == 0
    requires held == Held(c, data)
    ensures k + bytes == c.last ==> data[next..next + bytes] == held[k..]
    ensures k + bytes < c.last ==> Held(c.(last := c.last - k, read := c.read + k), data) == held[k..]
  {
  }

  /**
   * The context of a libjpeg object: while libjpeg parses the header, every buffer it uses up is saved; the read
   * operation replays what was saved and what was used of the buffer at hand before it
   * goes on with the source.
   */
  class CinfoContext {
    const src: Source
    var cache: array<bv8>      // buffer_cache
    var con: CacheContext
    var direct: bool           // sops.read is jpeg_src_read, no longer jpeg_src_read_header

    ghost predicate Recorded()
      reads this, src
    {
      src.Valid() && cache != src.data && Fits(con, cache.Length, src.next, src.bytes) && !direct
    }

    /** Every byte the read operation has still to deliver while it replays the header. */
    ghost function Pending(): seq<bv8>
      requires Recorded()
      reads this, src, src.data, cache
    {
      Saved(con, cache[..]) + (Held(con, src.data[..]) + Concat(src.incoming))
    }

    constructor (src: Source)
      ensures this.src == src && fresh(cache) && con.total == 0 && con.cacheRead == 0
    {
      this.src, cache, con, direct := src, new bv8[0], CacheContext(0, 0, false, 0, 0, 0), false;
    }

    // ---------------------------------------------------------------- parsing the header

    /**
     * Set the cache up before libjpeg parses the header. `hasBuffer` is false while the
     * source has no buffer at all.
     */
    method BeginHeader(hasBuffer: bool)
      requires src.Valid() && cache != src.data && con.cacheRead <= cache.Length && (!hasBuffer ==> src.bytes == 0)
      modifies this`con, this`direct
      ensures Recorded() && Unread(con) && Pending() == src.Rest()
    {
      con := con.(total := 0, last := src.bytes, start := src.next, read := src.next, started := hasBuffer);
      direct := false;
    }

    /** libjpeg uses `k` bytes of the buffer. */
    method UseBytes(k: nat)
      requires Recorded() && k <= src.bytes
      modifies src`next, src`bytes
      ensures Recorded() && src.Live() == old(src.Live())[k..] && src.bytes == old(src.bytes) - k
    {
      src.Advance(k);
    }

    /** Append the buffer at hand to the cache. */
    method SaveBuffer()
      requires Recorded() && Unread(con)
      modifies this`cache, this`con
      ensures Recorded() && Unread(con) && (cache == old(cache) || fresh(cache))
      ensures con == old(con).(cacheRead := con.cacheRead, total := con.total)
      ensures Saved(con, cache[..]) == old(Saved(con, cache[..])) + Held(con, src.data[..])
    {
      if con.started {
        var temp := Join(cache, con.total, src.data, con.start, con.last);
        cache, con := temp, con.(cacheRead := 0, total := con.total + con.last);
      }
    }

    /** Have the source fill its buffer and record where that starts. */
    method FillBuffer()
      requires Recorded() && Unread(con)
      modifies this`con, src, src.data
      ensures Recorded() && Unread(con) && cache[..] == old(cache[..])
      ensures con == old(con).(last := src.bytes, start := con.start, read := con.read, started := true)
      ensures (Held(con, src.data[..]), src.incoming) == FirstFill(old(src.incoming))
    {
      src.Fill();
      con := con.(last := src.bytes, start := src.next, read := src.next, started := true);
    }

    /** cache_input_buffer: save the buffer at hand, then have the source fill it. */
    method CacheInputBuffer(ghost saved: seq<bv8>, ghost held: seq<bv8>, ghost incoming: seq<seq<bv8>>)
      requires Recorded() && Unread(con)
      requires Saved(con, cache[..]) == saved && Held(con, src.data[..]) == held && src.incoming == incoming
      modifies this`cache, this`con, src, src.data
      ensures Recorded() && Unread(con) && con.last == src.bytes && (cache == old(cache) || fresh(cache))
      ensures Saved(con, cache[..]) == saved + held && (Held(con, src.data[..]), src.incoming) == FirstFill(incoming)
    {
      SaveBuffer();
      FillBuffer();
    }

    /** The header is being parsed, the stream is still `s`, and the source is where the parser has got to. */
    ghost predicate Parsing(s: seq<bv8>, at: (seq<bv8>, seq<seq<bv8>>))
      reads this, src, src.data, cache
    {
      Recorded() && Unread(con) && s == Pending() && src.Live() == at.0 && src.incoming == at.1
    }

    method ParseUse(k: nat, ghost s: seq<bv8>, ghost at: (seq<bv8>, seq<seq<bv8>>))
      requires Parsing(s, at) && k <= src.bytes
      modifies src`next, src`bytes
      ensures Parsing(s, (at.0[k..], at.1))
    {
      UseBytes(k);
    }

    method ParseRefill(ghost s: seq<bv8>, ghost at: (seq<bv8>, seq<seq<bv8>>))
      requires Parsing(s, at)
      modifies this`cache, this`con, src, src.data
      ensures Parsing(s, FirstFill(at.1)) && (cache == old(cache) || fresh(cache))
    {
      ghost var saved, held := Saved(con, cache[..]), Held(con, src.data[..]);
      CacheInputBuffer(saved, held, at.1);
      StillParsing(s, saved, held, at.1);
    }

    lemma StillParsing(s: seq<bv8>, saved: seq<bv8>, held: seq<bv8>, incoming: seq<seq<bv8>>)
      requires Recorded() && Unread(con) && s == saved + (held + Concat(incoming)) && con.last == src.bytes
      requires Saved(con, cache[..]) == saved + held && (Held(con, src.data[..]), src.incoming) == FirstFill(incoming)
      ensures Parsing(s, FirstFill(incoming))
    {
      StreamAfterFill(saved, held, incoming);
      assert Pending() == (saved + held) + (FirstFill(incoming).0 + Concat(FirstFill(incoming).1));
      LiveIsHeld(con, src.data[..], src.next, src.bytes);
    }

    /** One step of libjpeg's parser. */
    method ParseStep(step: Step, ghost s: seq<bv8>, ghost at: (seq<bv8>, seq<seq<bv8>>))
      requires Parsing(s, at)
      modifies this`cache, this`con, src, src.data
      ensures Parsing(s, Stepped(at, step)) && (cache == old(cache) || fresh(cache))
    {
      match step
      case Use(k) => ParseUse(Min(k, src.bytes), s, at);
      case Refill => ParseRefill(s, at);
    }

    /**
     * shjpeg_read_header: whatever the parser does, the stream from its first byte on
     * remains to be read, and the source is where the parser has left it.
     */
    method ReadHeader(steps: seq<Step>, hasBuffer: bool)
      requires src.Valid() && cache != src.data && con.cacheRead <= cache.Length && (!hasBuffer ==> src.bytes == 0)
      modifies this, src, src.data
      ensures Recorded() && Pending() == old(src.Rest()) && (cache == old(cache) || fresh(cache))
      ensures (src.Live(), src.incoming) == Parsed((old(src.Live()), old(src.incoming)), steps)
    {
      ghost var s, start := src.Rest(), (src.Live(), src.incoming);
      BeginHeader(hasBuffer);
      for i := 0 to |steps|
        invariant Parsing(s, Parsed(start, steps[..i])) && (cache == old(cache) || fresh(cache))
      {
        assert steps[..i + 1][..i] == steps[..i];
        ParseStep(steps[i], s, Parsed(start, steps[..i]));
      }
      assert steps[..|steps|] == steps;
    }

    // ---------------------------------------------------------------- replaying it

    /** Replay from the cache. */
    method ReplaySaved(dst: array<bv8>, at: nat, n: nat, ghost lo: seq<bv8>, ghost hi: seq<bv8>, ghost saved: seq<bv8>)
      returns (copied: nat)
      requires Recorded() && saved == Saved(con, cache[..])
      requires dst != cache && dst != src.data && Window(dst, lo, [], n, hi) && at == |lo|
      modifies this`cache, this`con, dst
      ensures Recorded() && copied == Min(n, |saved|) && Saved(con, cache[..]) == saved[copied..]
      ensures cache == old(cache) || fresh(cache)
      ensures con == old(con).(cacheRead := con.cacheRead, total := |saved| - copied)
      ensures Window(dst, lo, saved[..copied], n - copied, hi)
    {
      copied := if n > con.total then con.total else n;
      assert cache[con.cacheRead..con.cacheRead + copied] == saved[..copied];
      Append(cache, con.cacheRead, dst, at, copied, lo, [], n, hi);
      con := con.(total := con.total - copied);
      if con.total == 0 {
        cache := new bv8[0];
        con := con.(cacheRead := 0);
      } else {
        con := con.(cacheRead := con.cacheRead + copied);
      }
    }

    /** Replay from the cache, if anything is left there; `full` when that is all that was asked for. */
    method FromCache(dst: array<bv8>, at: nat, n: nat, ghost lo: seq<bv8>, ghost hi: seq<bv8>, ghost saved: seq<bv8>)
      returns (copied: nat, full: bool)
      requires Recorded() && saved == Saved(con, cache[..])
      requires dst != cache && dst != src.data && Window(dst, lo, [], n, hi) && at == |lo|
      modifies this`cache, this`con, dst
      ensures Recorded() && (cache == old(cache) || fresh(cache))
      ensures con == old(con).(cacheRead := con.cacheRead, total := con.total)
      ensures copied <= n
      ensures full ==>
        copied == n < |saved| && Saved(con, cache[..]) == saved[n..] && Window(dst, lo, saved[..n], 0, hi)
      ensures !full ==> copied == |saved| && Saved(con, cache[..]) == [] && Window(dst, lo, saved, n - copied, hi)
    {
      copied, full := 0, false;
      if con.total != 0 {
        copied := ReplaySaved(dst, at, n, lo, hi, saved);
        full := con.total != 0;
        assert saved[..|saved|] == saved;
      }
    }

    /** Copy what was used of the buffer at hand. */
    method CopyUsed(dst: array<bv8>, pos: nat, n: nat, ghost lo: seq<bv8>, ghost had: seq<bv8>, ghost hi: seq<bv8>,
                    ghost held: seq<bv8>)
      returns (copied: nat)
      requires Recorded() && held == Held(con, src.data[..])
      requires dst != src.data && Window(dst, lo, had, n, hi) && pos == |lo| + |had|
      modifies dst
      ensures copied == Min(n, con.last - src.bytes) && copied <= |held|
      ensures Window(dst, lo, had + held[..copied], n - copied, hi)
    {
      copied := con.last - src.bytes;
      if n < copied {
        copied := n;
      }
      if con.started {
        assert held[..copied] == src.data[con.read..con.read + copied];
        Append(src.data, con.read, dst, pos, copied, lo, had, n, hi);
      } else {
        assert had + held[..copied] == had;
      }
    }

    /** Count `copied` bytes of the buffer at hand as replayed; `done` when that is all that was used of it. */
    method CountUsed(copied: nat, ghost held: seq<bv8>) returns (done: bool)
      requires Recorded() && held == Held(con, src.data[..]) && copied <= con.last - src.bytes
      modifies this`con
      ensures done == (copied == old(con).last - src.bytes)
      ensures con.cacheRead == old(con).cacheRead && con.total == old(con).total
      ensures done ==> src.Live() == held[copied..]
      ensures !done ==> Recorded() && Held(con, src.data[..]) == held[copied..]
    {
      HeldOn(con, src.data[..], src.next, src.bytes, copied, held);
      var left := con.last - copied;
      done := left == src.bytes;
      con := if done then con.(started := false, last := 0) else con.(last := left, read := con.read + copied);
    }

    /** Replay what was used of the buffer at hand; `done` when that is all that was used of it. */
    method ReplayUsed(dst: array<bv8>, pos: nat, n: nat, ghost lo: seq<bv8>, ghost had: seq<bv8>, ghost hi: seq<bv8>,
                      ghost held: seq<bv8>)
      returns (copied: nat, done: bool)
      requires Recorded() && held == Held(con, src.data[..])
      requires dst != src.data && Window(dst, lo, had, n, hi) && pos == |lo| + |had|
      modifies this`con, dst
      ensures copied <= n && copied <= |held| && Window(dst, lo, had + held[..copied], n - copied, hi)
      ensures con.cacheRead == old(con).cacheRead && con.total == old(con).total
      ensures if done then src.Live() == held[copied..]
              else copied == n < |held| && Recorded() && Held(con, src.data[..]) == held[copied..]
    {
      copied := CopyUsed(dst, pos, n, lo, had, hi, held);
      done := CountUsed(copied, held);
    }

    /** Between two reads. */
    ghost predicate Ready()
      reads this, src
    {
      src.Valid() && cache != src.data && (!direct ==> Fits(con, cache.Length, src.next, src.bytes))
    }

    /** Every byte the read operation has still to deliver. */
    ghost function Remaining(): seq<bv8>
      requires Ready()
      reads this, src, src.data, cache
    {
      if direct then src.Rest() else Pending()
    }

    /** The marker will be found; the parser of the header has not reached it. */
    ghost predicate Marked()
      requires src.Valid()
      reads this`direct, src, src.data
    {
      OneEnd(src.Live(), src.incoming) && (!direct ==> 2 <= |src.Rest()|)
    }

    /** What a read of `n` bytes of the stream `s` has done, having read `out`. */
    ghost predicate Answered(s: seq<bv8>, out: seq<bv8>, n: nat, marked: bool, padded: bool)
      reads this, src, src.data, cache
    {
      && Ready() && Reads(s, n, out, Remaining(), padded, marked)
      && (|out| < n ==> direct && src.Live() == [])
      && (marked && Remaining() != [] ==> Marked())
    }

    /** A read that was answered from the record alone. */
    lemma ReplayStops(s: seq<bv8>, out: seq<bv8>, n: nat, marked: bool)
      requires Recorded() && out + Pending() == s && |out| == n < |s| && (marked ==> Marked())
      ensures Answered(s, out, n, marked, false)
    {
    }

    /** A read from the source, with what was delivered before it. */
    lemma ReadFinished(s: seq<bv8>, out: seq<bv8>, n: nat, marked: bool, was: bool, r: Result)
      requires direct && cache != src.data && Left(src, was, r) && Delivers(s, n, out, marked, r)
      ensures Answered(s, out, n, marked, r.padded)
    {
    }

    /** Read from the source, behind the bytes already delivered. */
    method ReadBehind(dst: array<bv8>, at: nat, n: nat, ghost lo: seq<bv8>, ghost had: seq<bv8>, ghost hi: seq<bv8>,
                      ghost r: Result)
      returns (count: nat)
      requires src.Valid() && r == ReadOf(src.Live(), src.incoming, n)
      requires dst != src.data && Window(dst, lo, had, n, hi) && at == |lo| + |had|
      modifies src, src.data, dst
      ensures count == |r.out| <= n && Window(dst, lo, had + r.out, n - count, hi) && Left(src, old(src.starved), r)
    {
      WindowMoves(dst, lo, had, n, hi);
      count := SrcRead(src, dst, at, n, lo + had, hi, r);
      WindowMovesBack(dst, lo, had, r.out, n - count, hi);
    }

    /** What a read from the source will do. */
    lemma ReadOfIs(n: nat, marked: bool, r: Result)
      requires src.Valid() && r == ReadOf(src.Live(), src.incoming, n)
      requires marked ==> OneEnd(src.Live(), src.incoming)
      ensures Faithful(src.Rest(), n, r) && (marked ==> AsStream(src.Rest(), n, r) && !r.starved)
    {
      ReadOfIsFaithful(src.Live(), src.incoming, n);
      if marked {
        ReadOfAsStream(src.Live(), src.incoming, n);
      }
    }

    /** Switch to the source's own bytes, behind those already delivered. */
    method GoDirect(dst: array<bv8>, at: nat, n: nat, ghost lo: seq<bv8>, ghost had: seq<bv8>, ghost hi: seq<bv8>,
                    ghost s: seq<bv8>, ghost rest: seq<bv8>, ghost total: nat, ghost marked: bool)
      returns (count: nat, ghost out: seq<bv8>, ghost padded: bool)
      requires src.Valid() && cache != src.data && rest == src.Rest() && s == had + rest && total == |had| + n
      requires marked ==> OneEnd(src.Live(), src.incoming) && 2 <= |rest|
      requires dst != src.data && Window(dst, lo, had, n, hi) && at == |lo| + |had|
      modifies this`direct, src, src.data, dst
      ensures direct && count <= n && |out| == |had| + count && Window(dst, lo, out, n - count, hi)
      ensures Answered(s, out, total, marked, padded)
      ensures marked ==> src.starved == old(src.starved)
    {
      ghost var r, was := ReadOf(src.Live(), src.incoming, n), src.starved;
      ReadOfIs(n, marked, r);
      count := ReadBehind(dst, at, n, lo, had, hi, r);
      direct := true;
      out, padded := had + r.out, r.padded;
      PrependedTo(s, had, rest, out, n, total, marked, r);
      ReadFinished(s, out, total, marked, was, r);
    }

    /** Of the stream `s` the bytes `had` have been delivered, and nothing saved is left. */
    ghost predicate Replayed(s: seq<bv8>, had: seq<bv8>)
      reads this, src, src.data, cache
    {
      && Recorded() && Saved(con, cache[..]) == []
      && s == had + (Held(con, src.data[..]) + Concat(src.incoming))
    }

    /** Replay what was used of the buffer at hand, then go on with the source if that was all. */
    method FromBuffer(dst: array<bv8>, at: nat, n: nat, ghost lo: seq<bv8>, ghost had: seq<bv8>, ghost hi: seq<bv8>,
                      ghost s: seq<bv8>, ghost total: nat, ghost marked: bool)
      returns (count: nat, ghost out: seq<bv8>, ghost padded: bool)
      requires Replayed(s, had) && (marked ==> Marked()) && total == |had| + n
      requires dst != cache && dst != src.data && Window(dst, lo, had, n, hi) && at == |lo| + |had|
      modifies this`con, this`direct, src, src.data, dst
      ensures count <= n && |out| == |had| + count && Window(dst, lo, out, n - count, hi)
      ensures Answered(s, out, total, marked, padded)
      ensures marked ==> src.starved == old(src.starved)
    {
      ghost var held := Held(con, src.data[..]);
      var used, done := ReplayUsed(dst, at, n, lo, had, hi, held);
      ghost var given := had + held[..used];
      ReplayedPart(had, held, Concat(src.incoming), used);
      if done {
        var more;
        more, out, padded := GoDirect(dst, at + used, n - used, lo, given, hi, s, src.Rest(), total, marked);
        count := used + more;
      } else {
        StopsInBuffer(s, given, held[used..], total, marked);
        count, out, padded := n, given, false;
      }
    }

    /** A read that was answered from the buffer at hand. */
    lemma StopsInBuffer(s: seq<bv8>, out: seq<bv8>, held: seq<bv8>, n: nat, marked: bool)
      requires Recorded() && Saved(con, cache[..]) == [] && Held(con, src.data[..]) == held != []
      requires s == out + ([] + (held + Concat(src.incoming))) && |out| == n && (marked ==> Marked())
      ensures Answered(s, out, n, marked, false)
    {
      ReplayStops(s, out, n, marked);
    }

    /** A read that was answered from the cache. */
    lemma StopsInCache(s: seq<bv8>, saved: seq<bv8>, rest: seq<bv8>, n: nat, marked: bool)
      requires Recorded() && n < |saved| && Saved(con, cache[..]) == saved[n..] && s == saved + rest
      requires rest == Held(con, src.data[..]) + Concat(src.incoming) && (marked ==> Marked())
      ensures Answered(s, saved[..n], n, marked, false)
    {
      assert s == saved[..n] + (saved[n..] + rest);
      ReplayStops(s, saved[..n], n, marked);
    }

    /** A read that has used the cache up. */
    lemma CacheReplayed(s: seq<bv8>, saved: seq<bv8>, rest: seq<bv8>)
      requires Recorded() && Saved(con, cache[..]) == [] && s == saved + rest
      requires rest == Held(con, src.data[..]) + Concat(src.incoming)
      ensures Replayed(s, saved)
    {
    }

    /**
     * jpeg_src_read_header: replay the header, and once all of it has been replayed go on
     * with the source.
     */
    method SrcReadHeader(dst: array<bv8>, at: nat, n: nat, ghost lo: seq<bv8>, ghost hi: seq<bv8>, ghost s: seq<bv8>,
                         ghost marked: bool)
      returns (count: nat, ghost out: seq<bv8>, ghost padded: bool)
      requires Recorded() && s == Pending() && (marked ==> Marked())
      requires dst != cache && dst != src.data && Window(dst, lo, [], n, hi) && at == |lo|
      modifies this, src, src.data, dst
      ensures cache == old(cache) || fresh(cache)
      ensures count == |out| <= n && Window(dst, lo, out, n - count, hi)
      ensures Answered(s, out, n, marked, padded)
      ensures marked ==> src.starved == old(src.starved)
    {
      ghost var saved, rest := Saved(con, cache[..]), Held(con, src.data[..]) + Concat(src.incoming);
      var copied, full := FromCache(dst, at, n, lo, hi, saved);
      if full {
        StopsInCache(s, saved, rest, n, marked);
        count, out, padded := n, saved[..n], false;
      } else {
        CacheReplayed(s, saved, rest);
        var more;
        more, out, padded := FromBuffer(dst, at + copied, n - copied, lo, saved, hi, s, n, marked);
        count := copied + more;
      }
    }

    /** jpeg_src_read, once it is installed. */
    method ReadDirect(dst: array<bv8>, at: nat, n: nat, ghost lo: seq<bv8>, ghost hi: seq<bv8>, ghost s: seq<bv8>,
                      ghost marked: bool)
      returns (count: nat, ghost out: seq<bv8>, ghost padded: bool)
      requires direct && Ready() && s == Remaining() && (marked ==> Marked())
      requires dst != src.data && Window(dst, lo, [], n, hi) && at == |lo|
      modifies src, src.data, dst
      ensures count == |out| <= n && Window(dst, lo, out, n - count, hi)
      ensures Answered(s, out, n, marked, padded)
      ensures marked ==> src.starved == old(src.starved)
    {
      ghost var r, was := ReadOf(src.Live(), src.incoming, n), src.starved;
      ReadOfIs(n, marked, r);
      count := SrcRead(src, dst, at, n, lo, hi, r);
      out, padded := r.out, r.padded;
      ReadFinished(s, out, n, marked, was, r);
    }

    /** The installed read operation. */
    method Read(dst: array<bv8>, at: nat, n: nat, ghost lo: seq<bv8>, ghost hi: seq<bv8>, ghost s: seq<bv8>,
                ghost marked: bool)
      returns (count: nat, ghost out: seq<bv8>, ghost padded: bool)
      requires Ready() && s == Remaining() && (marked ==> Marked())
      requires dst != cache && dst != src.data && Window(dst, lo, [], n, hi) && at == |lo|
      modifies this, src, src.data, dst
      ensures cache == old(cache) || fresh(cache)
      ensures count == |out| <= n && Window(dst, lo, out, n - count, hi)
      ensures Answered(s, out, n, marked, padded)
      ensures marked ==> src.starved == old(src.starved)
    {
      if direct {
        count, out, padded := ReadDirect(dst, at, n, lo, hi, s, marked);
      } else {
        count, out, padded := SrcReadHeader(dst, at, n, lo, hi, s, marked);
      }
    }
  }

  /** The bytes copied so far can be counted among those in front. */
  lemma WindowMoves(dst: array<bv8>, lo: seq<bv8>, had: seq<bv8>, room: nat, hi: seq<bv8>)
    requires Window(dst, lo, had, room, hi)
    ensures Window(dst, lo + had, [], room, hi)
  {
    assert dst[..|lo + had|] == dst[..|lo|] + dst[|lo|..|lo| + |had|];
  }

  lemma WindowMovesBack(dst: array<bv8>, lo: seq<bv8>, had: seq<bv8>, more: seq<bv8>, room: nat, hi: seq<bv8>)
    requires Window(dst, lo + had, more, room, hi)
    ensures Window(dst, lo, had + more, room, hi)
  {
    var p := |lo + had|;
    assert dst[..|lo|] == dst[..p][..|lo|] == lo;
    assert dst[|lo|..p] == dst[..p][|lo|..] == had;
    assert dst[|lo|..p + |more|] == dst[|lo|..p] + dst[p..p + |more|];
  }

  lemma ReplayedPart(before: seq<bv8>, held: seq<bv8>, tail: seq<bv8>, used: nat)
    requires used <= |held|
    ensures before + (held + tail) == (before + held[..used]) + (held[used..] + tail)
         == (before + held[..used]) + ([] + (held[used..] + tail))
  {
    assert held == held[..used] + held[used..];
  }

  /** Bytes replayed before a read from the source belong to it. */
  lemma PrependedTo(s: seq<bv8>, before: seq<bv8>, rest: seq<bv8>, out: seq<bv8>, n: nat, total: nat, marked: bool,
                    r: Result)
    requires s == before + rest && out == before + r.out && total == |before| + n
    requires Faithful(rest, n, r) && (marked ==> AsStream(rest, n, r) && 2 <= |rest|)
    ensures Delivers(s, total, out, marked, r)
  {
    ConservedBehind(before, rest, r.out, r.live + Concat(r.incoming), r.padded);
    if marked {
      AsStreamBehind(before, rest, n, r);
    }
  }
}
