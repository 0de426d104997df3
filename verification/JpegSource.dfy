/** Reading coded data through a libjpeg source manager. */
module JpegSource {
  import opened Basics
  import opened MarkerReads

  /**
   * A jpeg_source_mgr: a buffer of which `bytes` bytes from `next` on are unread, and what
   * its fills will deliver. A fill past the end of that delivers nothing.
   */
  class Source {
    const data: array<bv8>
    var next: nat
    var bytes: nat
    var incoming: seq<seq<bv8>>
    var starved: bool  // a fill was asked for past the end

    ghost predicate Valid()
      reads this
    {
      next + bytes <= data.Length && forall i :: 0 <= i < |incoming| ==> |incoming[i]| <= data.Length
    }

    /** The unread bytes of the buffer. */
    ghost function Live(): seq<bv8>
      requires Valid()
      reads this, data
    {
      data[next..next + bytes]
    }

    /** Every byte that is still unread. */
    ghost function Rest(): seq<bv8>
      requires Valid()
      reads this, data
    {
      Live() + Concat(incoming)
    }

    /** The source's own fill_input_buffer. */
    method Fill()
      requires Valid()
      modifies this, data
      ensures Valid()
      ensures (Live(), incoming) == FirstFill(old(incoming))
      ensures starved == (old(starved) || old(incoming) == [])
      ensures Rest() == old(Concat(incoming))
    {
      if incoming == [] {
        next, bytes, starved := 0, 0, true;
      } else {
        var chunk := incoming[0];
        forall i | 0 <= i < |chunk| {
          data[i] := chunk[i];
        }
        next, bytes, incoming := 0, |chunk|, incoming[1..];
        assert Live() == chunk;
      }
    }

    /** Read `k` bytes of the buffer. */
    method Advance(k: nat)
      requires Valid() && k <= bytes
      modifies this`next, this`bytes
      ensures Valid() && Live() == old(Live())[k..] && bytes == old(bytes) - k && next == old(next) + k
    {
      next, bytes := next + k, bytes - k;
    }
  }

  /**
   * A buffer that is being filled: behind the bytes `lo` come the bytes `out` copied so
   * far, room for `room` more, and the bytes `hi`.
   */
  ghost predicate Window(dst: array<bv8>, lo: seq<bv8>, out: seq<bv8>, room: nat, hi: seq<bv8>)
    reads dst
  {
    && dst.Length == |lo| + |out| + room + |hi|
    && dst[..|lo|] == lo && dst[|lo|..|lo| + |out|] == out && dst[dst.Length - |hi|..] == hi
  }

  /** Any stretch of a buffer can be filled. */
  lemma WindowAt(dst: array<bv8>, at: nat, n: nat)
    requires at + n <= dst.Length
    ensures Window(dst, dst[..at], [], n, dst[at + n..])
  {
  }

  /** Append `k` bytes of one buffer to those already copied to another. */
  method Append(a: array<bv8>, from: nat, dst: array<bv8>, pos: nat, k: nat,
                ghost lo: seq<bv8>, ghost out: seq<bv8>, ghost room: nat, ghost hi: seq<bv8>)
    requires dst != a && from + k <= a.Length && k <= room && Window(dst, lo, out, room, hi) && pos == |lo| + |out|
    modifies dst
    ensures Window(dst, lo, out + a[from..from + k], room - k, hi)
  {
    ghost var before := dst[..];
    MemCpy(dst, pos, a, from, k);
    AppendedTo(before, dst[..], lo, out, a[from..from + k], room, hi);
  }

  lemma AppendedTo(before: seq<bv8>, after: seq<bv8>, lo: seq<bv8>, out: seq<bv8>, more: seq<bv8>, room: nat,
                   hi: seq<bv8>)
    requires |before| == |after| == |lo| + |out| + room + |hi| && |more| <= room
    requires before[..|lo|] == lo && before[|lo|..|lo| + |out|] == out && before[|before| - |hi|..] == hi
    requires var (pos, end) := (|lo| + |out|, |lo| + |out| + |more|);
             after[..pos] == before[..pos] && after[pos..end] == more && after[end..] == before[end..]
    ensures after[..|lo|] == lo && after[|lo|..|lo| + |out + more|] == out + more && after[|after| - |hi|..] == hi
  {
    var (pos, end) := (|lo| + |out|, |lo| + |out| + |more|);
    assert after[..|lo|] == after[..pos][..|lo|] && before[..|lo|] == before[..pos][..|lo|];
    assert after[|lo|..pos] == after[..pos][|lo|..] && before[|lo|..pos] == before[..pos][|lo|..];
    assert after[|lo|..end] == after[|lo|..pos] + after[pos..end];
    assert after[|after| - |hi|..] == after[end..][room - |more|..];
    assert before[|before| - |hi|..] == before[end..][room - |more|..];
  }

  /**
   * The state of a read in progress: `out` has been copied, `datacnt` bytes are still to
   * come, and reading on from here gives the result `r` of the whole read. `asked` says
   * that the read has asked for a fill past the end, `was` that one had been before it.
   */
  ghost predicate Reading(src: Source, out: seq<bv8>, datacnt: nat, asked: bool, was: bool, r: Result)
    reads src, src.data
  {
    && src.Valid() && src.starved == (was || asked)
    && r == Behind(out, asked, ReadOn(src.Live(), src.incoming, datacnt))
  }

  /** The source is as the read should leave it. */
  ghost predicate Left(src: Source, was: bool, r: Result)
    reads src, src.data
  {
    src.Valid() && src.Live() == r.live && src.incoming == r.incoming && src.starved == (was || r.starved)
  }

  /** The start of a read. */
  method FillIfEmpty(src: Source, ghost n: nat, ghost r: Result) returns (ghost asked: bool)
    requires src.Valid() && r == ReadOf(src.Live(), src.incoming, n)
    modifies src, src.data
    ensures Reading(src, [], n, asked, old(src.starved), r)
  {
    asked := src.bytes == 0 && src.incoming == [];
    if src.bytes == 0 {
      src.Fill();
    }
    assert [] + ReadOn(src.Live(), src.incoming, n).out == ReadOn(src.Live(), src.incoming, n).out;
  }

  /** Fill the buffer that has been used up. */
  method FillAgain(src: Source, ghost out: seq<bv8>, ghost datacnt: nat, ghost asked: bool, ghost was: bool,
                   ghost r: Result)
    returns (ghost asked': bool)
    requires src.Valid() && src.starved == (was || asked)
    requires var (live', incoming') := FirstFill(src.incoming);
             r == Behind(out, asked || src.incoming == [], ReadOn(live', incoming', datacnt))
    modifies src, src.data
    ensures Reading(src, out, datacnt, asked', was, r)
    ensures if old(src.incoming) == [] then src.incoming == [] && src.bytes == 0
            else |src.incoming| < old(|src.incoming|)
  {
    asked' := asked || src.incoming == [];
    src.Fill();
  }

  /** Reading on when the buffer is used up and the marker does not end it. */
  lemma ReadsOn(src: Source, had: seq<bv8>, datacnt: nat, asked: bool, was: bool, r: Result)
    requires Reading(src, had, datacnt, asked, was, r) && 0 < src.bytes <= datacnt && !Ends(src.Live())
    ensures var (live', incoming') := FirstFill(src.incoming);
            r == Behind(had + src.Live(), asked || src.incoming == [], ReadOn(live', incoming', datacnt - src.bytes))
  {
    BehindTwice(had, asked, src.Live(), src.incoming, datacnt);
  }

  /** Copy the rest of the buffer. */
  method CopyLive(src: Source, dst: array<bv8>, pos: nat, ghost lo: seq<bv8>, ghost had: seq<bv8>, ghost room: nat,
                  ghost hi: seq<bv8>, ghost out: seq<bv8>, ghost left: nat)
    requires src.Valid() && dst != src.data && Window(dst, lo, had, room, hi) && pos == |lo| + |had|
    requires src.bytes <= room && out == had + src.Live() && left == room - src.bytes
    modifies dst
    ensures Window(dst, lo, out, left, hi)
  {
    Append(src.data, src.next, dst, pos, src.bytes, lo, had, room, hi);
  }

  /** Use up the buffer and fill it again; `left` bytes are then still to come. */
  method CopyAll(src: Source, dst: array<bv8>, pos: nat, datacnt: nat, ghost lo: seq<bv8>, ghost had: seq<bv8>,
                 ghost hi: seq<bv8>, ghost asked: bool, ghost was: bool, ghost r: Result, ghost left: nat)
    returns (ghost out: seq<bv8>, ghost asked': bool)
    requires Window(dst, lo, had, datacnt, hi) && pos == |lo| + |had| && dst != src.data
    requires Reading(src, had, datacnt, asked, was, r) && left == datacnt - src.bytes
    requires 0 < src.bytes <= datacnt && !Ends(src.Live())
    modifies src, src.data, dst
    ensures Window(dst, lo, out, left, hi) && |out| + left == |had| + datacnt
    ensures Reading(src, out, left, asked', was, r)
    ensures if old(src.incoming) == [] then src.incoming == [] && src.bytes == 0
            else |src.incoming| < old(|src.incoming|)
  {
    out := had + src.Live();
    ReadsOn(src, had, datacnt, asked, was, r);
    CopyLive(src, dst, pos, lo, had, datacnt, hi, out, left);
    asked' := FillAgain(src, out, left, asked, was, r);
  }

  lemma BehindTwice(had: seq<bv8>, asked: bool, live: seq<bv8>, incoming: seq<seq<bv8>>, n: nat)
    requires live != [] && |live| <= n && !Ends(live)
    ensures var (live', incoming') := FirstFill(incoming);
            Behind(had, asked, ReadOn(live, incoming, n))
            == Behind(had + live, asked || incoming == [], ReadOn(live', incoming', n - |live|))
  {
    var (live', incoming') := FirstFill(incoming);
    ConcatAssoc(had, live, ReadOn(live', incoming', n - |live|).out);
  }

  /** The check of the last two bytes of the buffer, or of its only byte. */
  method MarkerAtEnd(src: Source) returns (found: bool)
    requires src.Valid() && 0 < src.bytes
    ensures found == Ends(src.Live())
  {
    var last := src.next + src.bytes - 1;
    if src.bytes == 1 {
      found := src.data[last] == EOI;
    } else {
      found := src.data[last - 1] == FF && src.data[last] == EOI;
    }
  }

  /** The last copy of a read, which uses up no buffer but perhaps one that the marker ends. */
  method CopyRest(src: Source, dst: array<bv8>, pos: nat, datacnt: nat, ghost lo: seq<bv8>, ghost had: seq<bv8>,
                  ghost room: nat,
                  ghost hi: seq<bv8>)
    requires src.Valid() && datacnt <= src.bytes && datacnt <= room && dst != src.data
    requires Window(dst, lo, had, room, hi) && pos == |lo| + |had|
    modifies src`next, src`bytes, dst
    ensures src.Valid() && src.Live() == old(src.Live())[datacnt..]
    ensures Window(dst, lo, had + old(src.Live())[..datacnt], room - datacnt, hi)
  {
    assert src.Live()[..datacnt] == src.data[src.next..src.next + datacnt];
    Append(src.data, src.next, dst, pos, datacnt, lo, had, room, hi);
    src.Advance(datacnt);
  }

  /**
   * The loop of a read: use up buffers until one has more than is asked for, or none
   * could be filled, or one ends in the marker.
   */
  method SrcReadWhole(src: Source, dst: array<bv8>, at: nat, n: nat, ghost lo: seq<bv8>, ghost hi: seq<bv8>,
                      ghost r: Result)
    returns (pos: nat, datacnt: nat, found: bool, ghost out: seq<bv8>, ghost asked: bool)
    requires Window(dst, lo, [], n, hi) && at == |lo| && dst != src.data
    requires src.Valid() && r == ReadOf(src.Live(), src.incoming, n)
    modifies src, src.data, dst
    ensures Window(dst, lo, out, datacnt, hi) && pos == |lo| + |out| && |out| + datacnt == n
    ensures Reading(src, out, datacnt, asked, old(src.starved), r)
    ensures if found then 0 < src.bytes <= datacnt && Ends(src.Live()) else src.bytes == 0 || datacnt < src.bytes
  {
    pos, datacnt, found, out := at, n, false, [];
    ghost var was := src.starved;
    asked := FillIfEmpty(src, n, r);
    while src.bytes <= datacnt
      invariant Window(dst, lo, out, datacnt, hi) && pos == |lo| + |out| && |out| + datacnt == n && !found
      invariant Reading(src, out, datacnt, asked, was, r)
      decreases |src.incoming|, src.bytes
    {
      if src.bytes == 0 {
        break;
      }
      found := MarkerAtEnd(src);
      if found {
        break;
      }
      var size := src.bytes;
      out, asked := CopyAll(src, dst, pos, datacnt, lo, out, hi, asked, was, r, datacnt - size);
      pos, datacnt := pos + size, datacnt - size;
    }
  }

  /**
   * Read `n` bytes from the source, looking for the end-of-image marker at the end of
   * every buffer that is used up.
   */
  method SrcRead(src: Source, dst: array<bv8>, at: nat, n: nat, ghost lo: seq<bv8>, ghost hi: seq<bv8>, ghost r: Result)
    returns (count: nat)
    requires Window(dst, lo, [], n, hi) && at == |lo| && dst != src.data
    requires src.Valid() && r == ReadOf(src.Live(), src.incoming, n)
    modifies src, src.data, dst
    ensures count == |r.out| <= n && Window(dst, lo, r.out, n - count, hi)
    ensures Left(src, old(src.starved), r)
  {
    ghost var was := src.starved;
    ReadOfIsFaithful(src.Live(), src.incoming, n);
    ghost var out, asked;
    var pos, datacnt, found;
    pos, datacnt, found, out, asked := SrcReadWhole(src, dst, at, n, lo, hi, r);
    if found {
      count := SrcReadEnd(src, dst, pos, datacnt, n, lo, out, hi, asked, was, r);
    } else if src.bytes == 0 {
      ReadDry(src, out, datacnt, asked, was, r);
      count := n - datacnt;
    } else {
      SrcReadPart(src, dst, pos, datacnt, lo, out, hi, asked, was, r);
      count := n;
    }
  }

  /** The end of a read for which no more bytes could be had. */
  lemma ReadDry(src: Source, had: seq<bv8>, datacnt: nat, asked: bool, was: bool, r: Result)
    requires Reading(src, had, datacnt, asked, was, r) && src.bytes == 0
    ensures r.out == had && Left(src, was, r)
  {
    assert had + [] == had;
  }

  /** The end of a read inside the buffer. */
  method SrcReadPart(src: Source, dst: array<bv8>, pos: nat, datacnt: nat, ghost lo: seq<bv8>, ghost had: seq<bv8>,
                     ghost hi: seq<bv8>, ghost asked: bool, ghost was: bool, ghost r: Result)
    requires Window(dst, lo, had, datacnt, hi) && pos == |lo| + |had| && dst != src.data
    requires Reading(src, had, datacnt, asked, was, r) && datacnt < src.bytes
    modifies src`next, src`bytes, dst
    ensures |r.out| == |had| + datacnt && Window(dst, lo, r.out, 0, hi) && Left(src, was, r)
  {
    CopyRest(src, dst, pos, datacnt, lo, had, datacnt, hi);
  }

  /** The end of a read that the marker would fill exactly: all but its last byte, and a fill byte. */
  method SrcReadPadded(src: Source, dst: array<bv8>, pos: nat, datacnt: nat, ghost lo: seq<bv8>, ghost had: seq<bv8>,
                       ghost hi: seq<bv8>, ghost asked: bool, ghost was: bool, ghost r: Result)
    requires Window(dst, lo, had, datacnt, hi) && pos == |lo| + |had| && dst != src.data
    requires Reading(src, had, datacnt, asked, was, r) && 2 <= src.bytes == datacnt && Ends(src.Live())
    modifies src`next, src`bytes, dst
    ensures |r.out| == |had| + datacnt && Window(dst, lo, r.out, 0, hi) && Left(src, was, r)
  {
    ghost var some := src.Live()[..datacnt - 1];
    assert had + (some + [FF]) == (had + some) + [FF];
    CopyRest(src, dst, pos, datacnt - 1, lo, had, datacnt, hi);
    PutFill(dst, pos + datacnt - 1, lo, had + some, hi);
  }

  /** The end of a read that the marker ends. */
  method SrcReadAll(src: Source, dst: array<bv8>, pos: nat, datacnt: nat, ghost lo: seq<bv8>, ghost had: seq<bv8>,
                    ghost hi: seq<bv8>, ghost asked: bool, ghost was: bool, ghost r: Result)
    requires Window(dst, lo, had, datacnt, hi) && pos == |lo| + |had| && dst != src.data
    requires Reading(src, had, datacnt, asked, was, r) && 0 < src.bytes <= datacnt && Ends(src.Live())
    requires datacnt == src.bytes ==> src.bytes == 1
    modifies src`next, src`bytes, dst
    ensures |r.out| == |had| + old(src.bytes) && Window(dst, lo, r.out, datacnt - old(src.bytes), hi)
    ensures Left(src, was, r)
  {
    assert src.Live()[..src.bytes] == src.Live();
    CopyRest(src, dst, pos, src.bytes, lo, had, datacnt, hi);
  }

  /** The end of a read that has found the marker. */
  method SrcReadEnd(src: Source, dst: array<bv8>, pos: nat, datacnt: nat, n: nat, ghost lo: seq<bv8>,
                    ghost had: seq<bv8>,
                    ghost hi: seq<bv8>, ghost asked: bool, ghost was: bool, ghost r: Result)
    returns (count: nat)
    requires Window(dst, lo, had, datacnt, hi) && pos == |lo| + |had| && |had| + datacnt == n && dst != src.data
    requires Reading(src, had, datacnt, asked, was, r) && 0 < src.bytes <= datacnt && Ends(src.Live())
    modifies src`next, src`bytes, dst
    ensures count == |r.out| <= n && Window(dst, lo, r.out, n - count, hi)
    ensures Left(src, was, r)
  {
    if datacnt == src.bytes && 2 <= src.bytes {
      count := n;
      SrcReadPadded(src, dst, pos, datacnt, lo, had, hi, asked, was, r);
    } else {
      count := n - (datacnt - src.bytes);
      SrcReadAll(src, dst, pos, datacnt, lo, had, hi, asked, was, r);
    }
  }

  /** Put the fill byte behind what has been copied. */
  method PutFill(dst: array<bv8>, pos: nat, ghost lo: seq<bv8>, ghost had: seq<bv8>, ghost hi: seq<bv8>)
    requires Window(dst, lo, had, 1, hi) && pos == |lo| + |had|
    modifies dst
    ensures Window(dst, lo, had + [FF], 0, hi)
  {
    ghost var before := dst[..];
    dst[pos] := FF;
    AppendedTo(before, dst[..], lo, had, [FF], 1, hi);
  }
}
