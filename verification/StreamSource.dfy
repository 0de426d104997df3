/** The driver's own libjpeg source: filling its buffer from the read operation, and skipping. */
module StreamSource {
  import opened Basics
  import opened DecodeHw

  const FAKE_EOI: seq<bv8> := [FF, EOI]

  /** What one fill delivers: the bytes read, or a fake end-of-image marker if there are none. */
  function Filled(r: ReadResult): (b: seq<bv8>)
    ensures b != []
  {
    if r.ret != 0 || r.bytes == [] then FAKE_EOI else r.bytes
  }

  /** What the answers still to come deliver. */
  function AllFilled(answers: seq<ReadResult>): seq<bv8> {
    if answers == [] then [] else Filled(answers[0]) + AllFilled(answers[1..])
  }

  /** The bytes of the answers. */
  function BytesOf(answers: seq<ReadResult>): seq<seq<bv8>> {
    if answers == [] then [] else [answers[0].bytes] + BytesOf(answers[1..])
  }

  /** When every read succeeds and yields something, all that is read is delivered, and nothing else. */
  lemma {:induction false} AllReadIsFilled(answers: seq<ReadResult>)
    requires forall i :: 0 <= i < |answers| ==> answers[i].ret == 0 && answers[i].bytes != []
    ensures AllFilled(answers) == Concat(BytesOf(answers))
  {
    if answers != [] {
      AllReadIsFilled(answers[1..]);
      assert BytesOf(answers)[1..] == BytesOf(answers[1..]);
    }
  }

  /** A read that fails or yields nothing puts a marker in its place, and the fills go on behind it. */
  lemma {:induction false} FailedReadIsMarker(before: seq<ReadResult>, r: ReadResult, behind: seq<ReadResult>)
    requires r.ret != 0 || r.bytes == []
    ensures AllFilled(before + ([r] + behind)) == AllFilled(before) + ([0xFF, 0xD9] + AllFilled(behind))
  {
    if before == [] {
      assert before + ([r] + behind) == [r] + behind;
      assert ([r] + behind)[1..] == behind;
    } else {
      FailedReadIsMarker(before[1..], r, behind);
      assert (before + ([r] + behind))[1..] == before[1..] + ([r] + behind);
      ConcatAssoc(Filled(before[0]), AllFilled(before[1..]), [0xFF, 0xD9] + AllFilled(behind));
    }
  }

  /** Byte `i` of an endless stream: the bytes `fin`, then end-of-image markers for ever. */
  function ByteAt(fin: seq<bv8>, i: nat): bv8 {
    if i < |fin| then fin[i] else if (i - |fin|) % 2 == 0 then 0xFF else 0xD9
  }

  /** The stream `fin'` is the stream `fin` with its first `n` bytes dropped. */
  ghost predicate Dropped(fin': seq<bv8>, fin: seq<bv8>, n: nat) {
    forall i: nat :: ByteAt(fin', i) == ByteAt(fin, n + i)
  }

  /** `j` end-of-image markers. */
  function Markers(j: nat): seq<bv8> {
    if j == 0 then [] else Markers(j - 1) + FAKE_EOI
  }

  lemma {:induction false} MarkersAre(j: nat, i: nat)
    requires i < |Markers(j)|
    ensures |Markers(j)| == 2 * j && Markers(j)[i] == if i % 2 == 0 then 0xFF else 0xD9
  {
    if 1 < j {
      MarkersAre(j - 1, 0);
      if i < 2 * (j - 1) {
        MarkersAre(j - 1, i);
      }
    }
  }

  /** With some of its endless markers written out, the stream `fin` is `before` followed by `fin'`. */
  predicate Split(fin: seq<bv8>, j: nat, before: seq<bv8>, fin': seq<bv8>) {
    fin + Markers(j) == before + fin'
  }

  lemma SplitIsDropped(fin: seq<bv8>, j: nat, before: seq<bv8>, fin': seq<bv8>)
    requires Split(fin, j, before, fin')
    ensures Dropped(fin', fin, |before|)
  {
    var all := fin + Markers(j);
    assert all == before + fin';
    forall i: nat
      ensures ByteAt(fin', i) == ByteAt(fin, |before| + i)
    {
      var p := |before| + i;
      MarkersLength(j);
      if p < |all| {
        assert fin'[i] == all[p];
        if |fin| <= p {
          MarkersAre(j, p - |fin|);
        }
      } else {
        assert p - |fin| == 2 * j + (i - |fin'|);
      }
    }
  }

  lemma {:induction false} MarkersLength(j: nat)
    ensures |Markers(j)| == 2 * j
  {
    if 0 < j {
      MarkersLength(j - 1);
    }
  }

  lemma SplitMore(fin: seq<bv8>, j: nat, before: seq<bv8>, a: seq<bv8>, b: seq<bv8>)
    requires Split(fin, j, before, a + b)
    ensures Split(fin, j, before + a, b)
  {
  }

  lemma SplitMarker(fin: seq<bv8>, j: nat, before: seq<bv8>)
    requires Split(fin, j, before, [])
    ensures Split(fin, j + 1, before, FAKE_EOI)
  {
    assert fin + Markers(j + 1) == (fin + Markers(j)) + FAKE_EOI;
  }

  /** Skipping the rest of a buffer, and what the fill after it makes of the rest of the stream. */
  lemma SplitFill(fin: seq<bv8>, j: nat, before: seq<bv8>, live: seq<bv8>, coming: seq<bv8>)
    requires Split(fin, j, before, live + coming)
    ensures if coming == [] then Split(fin, j + 1, before + live, FAKE_EOI) else Split(fin, j, before + live, coming)
  {
    SplitMore(fin, j, before, live, coming);
    if coming == [] {
      SplitMarker(fin, j, before + live);
    }
  }

  lemma AllSkipped(fin: seq<bv8>, j: nat, before: seq<bv8>, live: seq<bv8>)
    requires Split(fin, j, before, live + [])
    ensures |fin| <= |before| + |live|
  {
    assert |fin + Markers(j)| == |before + (live + [])|;
  }

  /** Skipping `n` bytes of a buffer. */
  lemma SplitWithin(live: seq<bv8>, n: nat, coming: seq<bv8>, fin: seq<bv8>, j: nat, before: seq<bv8>)
    requires n <= |live| && Split(fin, j, before, live + coming)
    ensures Split(fin, j, before + live[..n], live[n..] + coming)
  {
    assert live + coming == live[..n] + (live[n..] + coming);
    SplitMore(fin, j, before, live[..n], live[n..] + coming);
  }

  /** A libjpeg source over the read operation. */
  class Manager {
    const data: array<bv8>
    const stream: Stream
    const hasRead: bool     // the read operation is set
    var next: nat
    var bytes: nat          // bytes_in_buffer

    ghost predicate Valid()
      reads this, stream
    {
      data.Length == RELOAD_SIZE && next + bytes <= data.Length && stream.Bounded() && (stream as object) != this
    }

    /** The part of the endless stream before the endless markers. */
    ghost function Fin(): seq<bv8>
      requires Valid()
      reads this, data, stream
    {
      data[next..next + bytes] + Coming()
    }

    /** shjpeg_init_src: an empty buffer, to be filled on the first read. */
    constructor (stream: Stream, hasRead: bool)
      requires stream.Bounded()
      ensures Valid() && this.stream == stream && this.hasRead == hasRead && bytes == 0 && fresh(data)
      ensures Fin() == if hasRead then AllFilled(stream.answers) else []
    {
      this.stream, this.hasRead := stream, hasRead;
      data := new bv8[RELOAD_SIZE];
      next, bytes := 0, 0;
    }

    /** What the fills still to come deliver before the endless markers. */
    ghost function Coming(): seq<bv8>
      reads stream
    {
      if hasRead then AllFilled(stream.answers) else []
    }

    /** shjpeg_libjpeg_fill_input_buffer: what was left of the buffer is dropped, and there is always a byte more. */
    method FillInputBuffer()
      requires Valid()
      modifies this, data, stream
      ensures Valid() && 0 < bytes
      ensures Fin() == if old(Coming()) == [] then FAKE_EOI else old(Coming())
      ensures var answers := old(stream.answers);
              stream.answers == if hasRead && answers != [] then answers[1..] else answers
      ensures var answers := old(stream.answers);
              data[next..next + bytes]
              == if hasRead && answers != [] && answers[0].ret == 0 && answers[0].bytes != [] then answers[0].bytes
                 else [0xFF, 0xD9]
    {
      var ret, nbytes := 1, RELOAD_SIZE;
      ghost var answers := stream.answers;
      if hasRead {
        ret, nbytes := stream.Read(data, 0);
      }
      if ret != 0 || nbytes <= 0 {
        data[0], data[1] := FF, EOI;
        nbytes := 2;
      }
      next, bytes := 0, nbytes;
      assert data[0..nbytes] == if hasRead && answers != [] then Filled(answers[0]) else FAKE_EOI;
    }

    /** Skip the rest of the buffer, which is not enough, and fill it again. */
    method SkipBuffer(ghost fin: seq<bv8>, ghost j: nat, ghost before: seq<bv8>, ghost num: nat)
      returns (ghost j': nat, ghost before': seq<bv8>)
      requires Valid() && Split(fin, j, before, Fin()) && |before| + bytes < num && (j == 0 || |fin| < num)
      modifies this, data, stream
      ensures Valid() && 0 < bytes && Split(fin, j', before', Fin()) && |before'| == |before| + old(bytes)
      ensures j' == 0 || |fin| < num
    {
      ghost var coming, live := Coming(), data[next..next + bytes];
      j', before' := if coming == [] then j + 1 else j, before + live;
      SplitFill(fin, j, before, live, coming);
      if coming == [] {
        AllSkipped(fin, j, before, live);
      }
      FillInputBuffer();
    }

    /** Skip inside the buffer. */
    method SkipWithin(n: nat, ghost fin: seq<bv8>, ghost j: nat, ghost before: seq<bv8>)
      returns (ghost before': seq<bv8>)
      requires Valid() && n <= bytes && Split(fin, j, before, Fin())
      modifies this`next, this`bytes
      ensures Valid() && Split(fin, j, before', Fin()) && |before'| == |before| + n
    {
      ghost var coming, live := Coming(), data[next..next + bytes];
      before' := before + live[..n];
      SplitWithin(live, n, coming, fin, j, before);
      assert live[n..] == data[next + n..next + bytes];
      next, bytes := next + n, bytes - n;
      assert Fin() == live[n..] + coming;
    }

    /** shjpeg_libjpeg_skip_input_data: drop `num` bytes of the endless stream, however many there are in the buffer. */
    method SkipInputData(num: int)
      requires Valid()
      modifies this, data, stream
      ensures Valid()
      ensures 0 < num ==> Dropped(Fin(), old(Fin()), num)
      ensures 0 < num <= |old(Fin())| ==> Fin() == old(Fin())[num..]
      ensures num <= 0 ==> Fin() == old(Fin())
    {
      if num > 0 {
        var left: nat := num;
        ghost var fin, j: nat, before := Fin(), 0, [];
        while left > bytes
          invariant Valid() && |before| + left == num && Split(fin, j, before, Fin()) && (j == 0 || |fin| < num)
          decreases left, if bytes == 0 then 1 else 0
        {
          var size := bytes;
          j, before := SkipBuffer(fin, j, before, num);
          left := left - size;
        }
        before := SkipWithin(left, fin, j, before);
        SplitIsDropped(fin, j, before, Fin());
        if j == 0 {
          NoMarkers(fin, before, Fin());
        }
      }
    }
  }

  lemma NoMarkers(fin: seq<bv8>, before: seq<bv8>, fin': seq<bv8>)
    requires Split(fin, 0, before, fin')
    ensures |before| <= |fin| && fin' == fin[|before|..]
  {
    assert fin == fin + Markers(0);
  }
}
