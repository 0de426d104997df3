/** Writing coded data through a libjpeg destination manager. */
module JpegDest {
  import opened Basics

  /** The buffer of a jpeg_destination_mgr and what has been flushed from it. */
  datatype Buffered = Buffered(flushed: seq<bv8>, buffer: seq<bv8>, free: nat)

  predicate Ok(d: Buffered) {
    0 < |d.buffer| && d.free <= |d.buffer|
  }

  /** What has been flushed and what the buffer holds behind it. */
  function Delivered(d: Buffered): seq<bv8>
    requires Ok(d)
  {
    d.flushed + d.buffer[..|d.buffer| - d.free]
  }

  /** The buffer after `w` has been copied to its start, which is where next_output_byte always points. */
  function Over(buffer: seq<bv8>, w: seq<bv8>): seq<bv8>
    requires |w| <= |buffer|
  {
    w + buffer[|w|..]
  }

  /** Fill the free part of the buffer with the first bytes of `w` and flush it. */
  function Flush(d: Buffered, w: seq<bv8>): (e: Buffered)
    requires Ok(d) && d.free <= |w|
    ensures Ok(e) && e.free == |d.buffer| == |e.buffer|
  {
    var b := Over(d.buffer, w[..d.free]);
    Buffered(d.flushed + b, b, |b|)
  }

  /** The state after a write of `w`. */
  function Written(d: Buffered, w: seq<bv8>): (e: Buffered)
    requires Ok(d)
    ensures Ok(e) && |e.buffer| == |d.buffer|
    decreases |w|, |d.buffer| - d.free
  {
    if d.free < |w| then Written(Flush(d, w), w[d.free..])
    else Buffered(d.flushed, Over(d.buffer, w), d.free - |w|)
  }

  /** A write conserves the bytes when it starts with a buffer that is empty or full. */
  predicate Aligned(d: Buffered) {
    d.free == 0 || d.free == |d.buffer|
  }

  lemma FlushConserves(d: Buffered, w: seq<bv8>)
    requires Ok(d) && Aligned(d) && d.free <= |w|
    ensures Delivered(Flush(d, w)) == Delivered(d) + w[..d.free]
  {
    var b := Over(d.buffer, w[..d.free]);
    assert b == d.buffer[..|d.buffer| - d.free] + w[..d.free];
  }

  lemma {:induction false} WriteConserves(d: Buffered, w: seq<bv8>)
    requires Ok(d) && Aligned(d)
    ensures Delivered(Written(d, w)) == Delivered(d) + w
    decreases |w|, |d.buffer| - d.free
  {
    if d.free < |w| {
      FlushConserves(d, w);
      WriteConserves(Flush(d, w), w[d.free..]);
      ConcatAssoc(Delivered(d), w[..d.free], w[d.free..]);
      assert w == w[..d.free] + w[d.free..];
    } else {
      assert Over(d.buffer, w)[..|w|] == w;
    }
  }

  lemma MultipleIsLarge(size: nat, x: nat)
    requires 0 < x
    ensures size <= x * size
  {
    RowAtIsProduct(x, size);
    RowBelow(0, x, size);
  }

  /** A multiple of `size` that is smaller than it is none of it. */
  lemma NoMultiple(size: nat, x: int)
    requires x * size < size && -x * size < size
    ensures x == 0
  {
    if x != 0 {
      MultipleIsLarge(size, if x < 0 then -x else x);
    }
  }

  lemma RemainderIs(n: nat, size: nat, q: int, r: nat)
    requires r < size && n == q * size + r
    ensures n % size == r
  {
    var (p, s) := (n / size, n % size);
    assert n == p * size + s;
    assert (q - p) * size == q * size - p * size == s - r && -(q - p) * size == r - s;
    NoMultiple(size, q - p);
  }

  /** One buffer more or less leaves the same remainder. */
  lemma RemainderOn(n: nat, size: nat)
    requires 0 < size <= n
    ensures (n - size) % size == n % size
  {
    var q := n / size;
    assert (q - 1) * size == q * size - size;
    RemainderIs(n - size, size, q - 1, n % size);
  }

  /** A write ends with an empty or full buffer exactly when it is of whole buffers. */
  lemma {:induction false} WholeBuffers(d: Buffered, w: seq<bv8>)
    requires Ok(d) && Aligned(d)
    ensures Aligned(Written(d, w)) <==> |w| % |d.buffer| == 0
    decreases |w|, |d.buffer| - d.free
  {
    if d.free < |w| {
      WholeBuffers(Flush(d, w), w[d.free..]);
      if 0 < d.free {
        RemainderOn(|w|, |d.buffer|);
      }
    } else if |w| == |d.buffer| {
      RemainderIs(|w|, |d.buffer|, 1, 0);
    } else {
      RemainderIs(|w|, |d.buffer|, 0, |w|);
    }
  }

  /**
   * Exactly when a write conserves the bytes whatever they are: when it is empty, or the
   * buffer is empty or full as it starts. In between it overwrites the start of the
   * buffer, because next_output_byte has stayed there.
   */
  lemma WriteConservesExactly(size: nat, free: nat, n: nat)
    requires 0 < size && free <= size
    ensures
      (forall f: seq<bv8>, b: seq<bv8>, w: seq<bv8> :: |b| == size && |w| == n ==>
         Delivered(Written(Buffered(f, b, free), w)) == Delivered(Buffered(f, b, free)) + w)
      <==> n == 0 || free == 0 || free == size
  {
    if n == 0 || free == 0 || free == size {
      forall f: seq<bv8>, b: seq<bv8>, w: seq<bv8> | |b| == size && |w| == n
        ensures Delivered(Written(Buffered(f, b, free), w)) == Delivered(Buffered(f, b, free)) + w
      {
        if n == 0 {
          assert w == [] && Over(b, w) == b;
        } else {
          WriteConserves(Buffered(f, b, free), w);
        }
      }
    } else {
      var b, w := seq(size, _ => 0), seq(n, _ => 1);
      FirstByteLost(Buffered([], b, free), w);
      assert (Delivered(Buffered([], b, free)) + w)[0] == 0;
    }
  }

  /** A write into a partly filled buffer replaces the first byte that was not flushed. */
  lemma FirstByteLost(d: Buffered, w: seq<bv8>)
    requires Ok(d) && 0 < d.free < |d.buffer| && w != []
    ensures |d.flushed| < |Delivered(Written(d, w))| && Delivered(Written(d, w))[|d.flushed|] == w[0]
  {
    if d.free < |w| {
      var e := Flush(d, w);
      WriteConserves(e, w[d.free..]);
      assert Delivered(e) == e.flushed;
    }
  }

  // ------------------------------------------------- the driver's writes

  /** The state after a sequence of writes. */
  function AllWritten(d: Buffered, writes: seq<seq<bv8>>): (e: Buffered)
    requires Ok(d)
    ensures Ok(e) && |e.buffer| == |d.buffer|
    decreases |writes|
  {
    if writes == [] then d else AllWritten(Written(d, writes[0]), writes[1..])
  }

  /** Every write but the last is a reload buffer. */
  predicate Disciplined(writes: seq<seq<bv8>>) {
    forall i :: 0 <= i < |writes| - 1 ==> |writes[i]| == RELOAD_SIZE
  }

  /** Writing whole reload buffers and then a last piece conserves every byte if the buffer divides a reload buffer. */
  lemma {:induction false} DisciplineConserves(d: Buffered, writes: seq<seq<bv8>>)
    requires Ok(d) && Aligned(d) && Disciplined(writes) && RELOAD_SIZE % |d.buffer| == 0
    ensures Delivered(AllWritten(d, writes)) == Delivered(d) + Concat(writes)
    decreases |writes|
  {
    if writes != [] {
      var e := Written(d, writes[0]);
      WriteConserves(d, writes[0]);
      if 1 < |writes| {
        WholeBuffers(d, writes[0]);
        assert forall i :: 0 <= i < |writes[1..]| - 1 ==> writes[1..][i] == writes[i + 1];
        DisciplineConserves(e, writes[1..]);
        ConcatAssoc(Delivered(d), writes[0], Concat(writes[1..]));
      } else {
        assert writes[1..] == [];
      }
    }
  }

  predicate All(w: seq<bv8>, b: bv8) {
    forall i :: 0 <= i < |w| ==> w[i] == b
  }

  /** Byte number `p` of those delivered is a one, or will be once it is delivered. */
  predicate OneAt(d: Buffered, p: nat)
    requires Ok(d)
  {
    if p < |d.flushed| then d.flushed[p] == 1 else p == |d.flushed| && d.buffer[0] == 1
  }

  /** Writing ones over the start of the buffer puts a one there, and it stays. */
  lemma {:induction false} OnesStay(d: Buffered, w: seq<bv8>, p: nat)
    requires Ok(d) && All(w, 1) && (OneAt(d, p) || (p == |d.flushed| && 0 < d.free && w != []))
    ensures OneAt(Written(d, w), p)
    decreases |w|, |d.buffer| - d.free
  {
    if d.free < |w| {
      OnesStay(Flush(d, w), w[d.free..], p);
    }
  }

  lemma {:induction false} AllOnesStay(d: Buffered, writes: seq<seq<bv8>>, p: nat)
    requires Ok(d) && OneAt(d, p) && forall i :: 0 <= i < |writes| ==> All(writes[i], 1)
    ensures OneAt(AllWritten(d, writes), p)
    decreases |writes|
  {
    if writes != [] {
      OnesStay(d, writes[0], p);
      AllOnesStay(Written(d, writes[0]), writes[1..], p);
    }
  }

  /** Writes of the given sizes. */
  predicate Sized(writes: seq<seq<bv8>>, sizes: seq<nat>) {
    |writes| == |sizes| && forall i :: 0 <= i < |sizes| ==> |writes[i]| == sizes[i]
  }

  /** Byte number `p` of those delivered is a one, if that many are. */
  lemma OneDelivered(d: Buffered, p: nat)
    requires Ok(d) && OneAt(d, p) && p < |Delivered(d)|
    ensures Delivered(d)[p] == 1
  {
  }

  /** A write of a reload buffer that the buffer does not divide leaves some of it in a buffer not yet full. */
  lemma PartLeft(d: Buffered, w: seq<bv8>)
    requires Ok(d) && d.flushed == [] && d.free == |d.buffer| && |w| == RELOAD_SIZE && RELOAD_SIZE % |d.buffer| != 0
    ensures var e := Written(d, w); |e.flushed| < RELOAD_SIZE && 0 < e.free
  {
    WholeBuffers(d, w);
    WriteConserves(d, w);
    assert |Delivered(d)| == 0;
  }

  /** A reload buffer of zeros and ones behind it: a one takes the place of a zero that had not been flushed. */
  lemma ZeroLost(d: Buffered, first: seq<bv8>, second: seq<bv8>, more: seq<seq<bv8>>)
    requires Ok(d) && d.flushed == [] && d.free == |d.buffer| && RELOAD_SIZE % |d.buffer| != 0
    requires |first| == RELOAD_SIZE && All(first, 0) && second != [] && All(second, 1)
    requires forall i :: 0 <= i < |more| ==> All(more[i], 1)
    ensures Delivered(AllWritten(Written(Written(d, first), second), more)) != first + (second + Concat(more))
  {
    var e := Written(d, first);
    PartLeft(d, first);
    var p := |e.flushed|;
    OnesStay(e, second, p);
    AllOnesStay(Written(e, second), more, p);
    var last := AllWritten(Written(e, second), more);
    if p < |Delivered(last)| {
      OneDelivered(last, p);
      assert (first + (second + Concat(more)))[p] == first[p];
    }
  }

  /**
   * Exactly when the driver's writes of the given sizes into an empty buffer conserve the
   * bytes whatever they are: when the buffer divides a reload buffer.
   */
  lemma DisciplineExactly(size: nat, sizes: seq<nat>)
    requires 0 < size && 2 <= |sizes| && sizes[|sizes| - 1] != 0
    requires forall i :: 0 <= i < |sizes| - 1 ==> sizes[i] == RELOAD_SIZE
    ensures
      (forall b: seq<bv8>, writes: seq<seq<bv8>> :: |b| == size && Sized(writes, sizes) ==>
         Delivered(AllWritten(Buffered([], b, size), writes)) == Concat(writes))
      <==> RELOAD_SIZE % size == 0
  {
    if RELOAD_SIZE % size == 0 {
      forall b: seq<bv8>, writes: seq<seq<bv8>> | |b| == size && Sized(writes, sizes)
        ensures Delivered(AllWritten(Buffered([], b, size), writes)) == Concat(writes)
      {
        DisciplineConserves(Buffered([], b, size), writes);
      }
    } else {
      var b := seq(size, _ => 0);
      var writes := seq(|sizes|, i requires 0 <= i < |sizes| => seq(sizes[i], _ => if i == 0 then 0 else 1));
      assert Sized(writes, sizes);
      var tail := writes[1..];
      ZeroLost(Buffered([], b, size), writes[0], tail[0], tail[1..]);
      assert Concat(writes) == writes[0] + (tail[0] + Concat(tail[1..]));
    }
  }

  /** A jpeg_destination_mgr whose empty_output_buffer hands the whole buffer on. */
  class Destination {
    const buffer: array<bv8>
    var flushed: seq<bv8>
    var free: nat

    ghost predicate Valid()
      reads this
    {
      0 < buffer.Length && free <= buffer.Length
    }

    ghost function Value(): Buffered
      requires Valid()
      reads this, buffer
    {
      Buffered(flushed, buffer[..], free)
    }

    constructor (size: nat)
      requires 0 < size
      ensures Valid() && fresh(buffer) && buffer.Length == size && flushed == [] && free == size
    {
      buffer := new bv8[size];
      flushed, free := [], size;
    }

    /** empty_output_buffer: next_output_byte goes back to the start of the buffer. */
    method EmptyOutputBuffer()
      requires Valid()
      modifies this
      ensures Valid() && flushed == old(flushed) + buffer[..] && free == buffer.Length
    {
      flushed := flushed + buffer[..];
      free := buffer.Length;
    }

    /** Copy to next_output_byte, which is not advanced. */
    method CopyOver(src: array<bv8>, at: nat, n: nat)
      requires Valid() && src != buffer && at + n <= src.Length && n <= free
      modifies buffer
      ensures buffer[..] == Over(old(buffer[..]), src[at..at + n])
    {
      MemCpy(buffer, 0, src, at, n);
    }

    /** Fill what is free and flush. */
    method FillAndFlush(src: array<bv8>, pos: nat, ghost w: seq<bv8>)
      requires Valid() && src != buffer && free <= |w| && pos + |w| <= src.Length && w == src[pos..pos + |w|]
      modifies this, buffer
      ensures Valid() && Value() == Flush(old(Value()), w)
    {
      assert w[..free] == src[pos..pos + free];
      CopyOver(src, pos, free);
      EmptyOutputBuffer();
    }

    /** Copy the last piece. */
    method CopyLast(src: array<bv8>, pos: nat, n: nat)
      requires Valid() && src != buffer && n <= free && pos + n <= src.Length
      modifies this, buffer
      ensures Valid() && Value() == Written(old(Value()), src[pos..pos + n])
    {
      CopyOver(src, pos, n);
      free := free - n;
    }

    /** jpeg_dest_write. */
    method DestWrite(src: array<bv8>, at: nat, n: nat)
      requires Valid() && src != buffer && at + n <= src.Length
      modifies this, buffer
      ensures Valid() && Value() == Written(old(Value()), src[at..at + n])
    {
      var pos: nat, datacnt: nat := at, n;
      ghost var w, result := src[at..at + n], Written(Value(), src[at..at + n]);
      while free < datacnt
        invariant Valid() && pos + datacnt == at + n && |w| == datacnt && w == src[pos..pos + datacnt]
        invariant Written(Value(), w) == result
        decreases datacnt, buffer.Length - free
      {
        var k := free;
        FillAndFlush(src, pos, w);
        pos, datacnt, w := pos + k, datacnt - k, w[k..];
      }
      CopyLast(src, pos, datacnt);
    }
  }
}
