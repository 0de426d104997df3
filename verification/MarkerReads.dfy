/** Reading a stream whose end is a marker: what one read returns, and what a sequence of reads returns. */
module MarkerReads {
  import opened Basics

  /**
   * The stream ends in an end-of-image marker, the bytes 0xFF and 0xD9 (table B.1 of ITU-T
   * T.81), of which at most the first has been read.
   */
  predicate Ends(s: seq<bv8>) {
    s != [] && s[|s| - 1] == 0xD9 && (2 <= |s| ==> s[|s| - 2] == 0xFF)
  }

  /**
   * The marker ends the last fill and no other fill ends in its second byte: the
   * assumption under which looking at the end of each buffer finds it.
   */
  predicate OneEnd(live: seq<bv8>, incoming: seq<seq<bv8>>)
    decreases |incoming|
  {
    if incoming == [] then Ends(live)
    else
      && (live == [] || live[|live| - 1] != 0xD9)
      && incoming[0] != [] && (|incoming| == 1 ==> 2 <= |incoming[0]|)
      && OneEnd(incoming[0], incoming[1..])
  }

  lemma {:induction false} OneEndEnds(live: seq<bv8>, incoming: seq<seq<bv8>>)
    requires OneEnd(live, incoming)
    ensures Ends(live + Concat(incoming))
    ensures incoming != [] ==> |live| + 2 <= |live + Concat(incoming)|
    decreases |incoming|
  {
    if incoming == [] {
      assert live + [] == live;
    } else {
      OneEndEnds(incoming[0], incoming[1..]);
      var tail := Concat(incoming);
      assert tail == incoming[0] + Concat(incoming[1..]);
      assert 2 <= |tail|;
      assert (live + tail)[|live + tail| - 1] == tail[|tail| - 1];
      assert (live + tail)[|live + tail| - 2] == tail[|tail| - 2];
    }
  }

  /**
   * The bytes a read of `n` returns. A read that the marker would fill exactly gets a
   * fill byte instead of the marker's last byte.
   */
  function Reply(s: seq<bv8>, n: nat): seq<bv8> {
    if n < |s| then s[..n]
    else if n == |s| && 2 <= n then s[..n - 1] + [0xFF]
    else s
  }

  /** What the read leaves unread. */
  function After(s: seq<bv8>, n: nat): seq<bv8> {
    if n < |s| then s[n..]
    else if n == |s| && 2 <= n then s[n - 1..]
    else []
  }

  /**
   * `out` has been read and `rest` is left of `s`: nothing is lost or repeated, and what is
   * added is at most a fill byte before the second byte of the marker.
   */
  predicate Conserved(s: seq<bv8>, out: seq<bv8>, rest: seq<bv8>, padded: bool) {
    if padded then Padded(out, rest) && out[..|out| - 1] + rest == s else out + rest == s
  }

  predicate Padded(out: seq<bv8>, rest: seq<bv8>) {
    2 <= |out| && out[|out| - 2] == out[|out| - 1] == 0xFF && rest != [] && rest[0] == 0xD9
  }

  // ------------------------------------------------- one read

  /** What a fill delivers, and what then remains to be delivered. */
  function FirstFill(incoming: seq<seq<bv8>>): (seq<bv8>, seq<seq<bv8>>) {
    if incoming == [] then ([], []) else (incoming[0], incoming[1..])
  }

  /**
   * What a read returns and leaves: the bytes, the unread part of the buffer, the fills to
   * come, whether a fill byte was added, and whether a fill was asked for past the end.
   */
  datatype Result = Result(out: seq<bv8>, live: seq<bv8>, incoming: seq<seq<bv8>>, padded: bool, starved: bool)

  /** The result of a read that has copied `before` already, and asked for a fill past the end if `asked`. */
  function Behind(before: seq<bv8>, asked: bool, r: Result): Result {
    r.(out := before + r.out, starved := asked || r.starved)
  }

  /** A read of `n` bytes when `live` is unread in the buffer. */
  function ReadOn(live: seq<bv8>, incoming: seq<seq<bv8>>, n: nat): Result
    decreases |incoming|, |live|
  {
    if n < |live| then Result(live[..n], live[n..], incoming, false, false)
    else if live == [] then Result([], [], incoming, false, false)
    else if Ends(live) then
      if n == |live| && 2 <= n then Result(live[..n - 1] + [0xFF], live[n - 1..], incoming, true, false)
      else Result(live, [], incoming, false, false)
    else
      var (live', incoming') := FirstFill(incoming);
      Behind(live, incoming == [], ReadOn(live', incoming', n - |live|))
  }

  /** A read starts with a fill when nothing is unread. */
  function ReadOf(live: seq<bv8>, incoming: seq<seq<bv8>>, n: nat): Result {
    if live == [] then Behind([], incoming == [], ReadOn(FirstFill(incoming).0, FirstFill(incoming).1, n))
    else ReadOn(live, incoming, n)
  }

  lemma FirstFillKeeps(incoming: seq<seq<bv8>>)
    ensures FirstFill(incoming).0 + Concat(FirstFill(incoming).1) == Concat(incoming)
  {
  }

  lemma ConservedBehind(before: seq<bv8>, s: seq<bv8>, out: seq<bv8>, rest: seq<bv8>, padded: bool)
    requires Conserved(s, out, rest, padded)
    ensures Conserved(before + s, before + out, rest, padded)
  {
    var out' := before + out;
    if padded {
      assert out'[..|out'| - 1] == before + out[..|out| - 1];
    }
  }

  /** The read has lost and repeated nothing, and fallen short only at the end of a buffer. */
  predicate Faithful(s: seq<bv8>, n: nat, r: Result) {
    && Conserved(s, r.out, r.live + Concat(r.incoming), r.padded)
    && |r.out| <= n && (|r.out| < n ==> r.live == [])
  }

  lemma FaithfulInside(live: seq<bv8>, incoming: seq<seq<bv8>>, n: nat)
    requires n < |live|
    ensures Faithful(live + Concat(incoming), n, ReadOn(live, incoming, n))
  {
    assert live[..n] + (live[n..] + Concat(incoming)) == live + Concat(incoming);
  }

  lemma FaithfulAtEnd(live: seq<bv8>, incoming: seq<seq<bv8>>, n: nat)
    requires Ends(live) && |live| <= n
    ensures Faithful(live + Concat(incoming), n, ReadOn(live, incoming, n))
  {
    if n == |live| && 2 <= n {
      var out := live[..n - 1] + [0xFF];
      assert out[..|out| - 1] == live[..n - 1];
      assert live[..n - 1] + (live[n - 1..] + Concat(incoming)) == live + Concat(incoming);
    } else {
      assert live + ([] + Concat(incoming)) == live + Concat(incoming);
    }
  }

  lemma FaithfulBehind(before: seq<bv8>, s: seq<bv8>, n: nat, r: Result, asked: bool)
    requires Faithful(s, n, r)
    ensures Faithful(before + s, |before| + n, Behind(before, asked, r))
  {
    ConservedBehind(before, s, r.out, r.live + Concat(r.incoming), r.padded);
  }

  /** Whatever the source, a read is faithful. */
  lemma {:induction false} ReadIsFaithful(live: seq<bv8>, incoming: seq<seq<bv8>>, n: nat)
    ensures Faithful(live + Concat(incoming), n, ReadOn(live, incoming, n))
    decreases |incoming|, |live|
  {
    if n < |live| {
      FaithfulInside(live, incoming, n);
    } else if live == [] {
      assert [] + ([] + Concat(incoming)) == [] + Concat(incoming);
    } else if Ends(live) {
      FaithfulAtEnd(live, incoming, n);
    } else {
      var (live', incoming') := FirstFill(incoming);
      ReadIsFaithful(live', incoming', n - |live|);
      FirstFillKeeps(incoming);
      FaithfulBehind(live, live' + Concat(incoming'), n - |live|, ReadOn(live', incoming', n - |live|), incoming == []);
    }
  }

  lemma ReadOfIsFaithful(live: seq<bv8>, incoming: seq<seq<bv8>>, n: nat)
    ensures Faithful(live + Concat(incoming), n, ReadOf(live, incoming, n))
  {
    if live == [] {
      var (live', incoming') := FirstFill(incoming);
      ReadIsFaithful(live', incoming', n);
      FirstFillKeeps(incoming);
      assert live + Concat(incoming) == live' + Concat(incoming');
      FaithfulBehind([], live' + Concat(incoming'), n, ReadOn(live', incoming', n), incoming == []);
    } else {
      ReadIsFaithful(live, incoming, n);
    }
  }

  /** The read answered as the whole stream would, and asked for nothing past its end. */
  predicate AsStream(s: seq<bv8>, n: nat, r: Result) {
    && r.out == Reply(s, n) && r.live + Concat(r.incoming) == After(s, n) && !r.starved
    && (r.live + Concat(r.incoming) != [] ==> OneEnd(r.live, r.incoming))
  }

  lemma OneEndSuffix(live: seq<bv8>, incoming: seq<seq<bv8>>, k: nat)
    requires OneEnd(live, incoming) && k < |live|
    ensures OneEnd(live[k..], incoming)
  {
  }

  lemma AsStreamInside(live: seq<bv8>, incoming: seq<seq<bv8>>, n: nat)
    requires OneEnd(live, incoming) && n < |live|
    ensures AsStream(live + Concat(incoming), n, ReadOn(live, incoming, n))
  {
    OneEndSuffix(live, incoming, n);
    assert (live + Concat(incoming))[..n] == live[..n];
    assert (live + Concat(incoming))[n..] == live[n..] + Concat(incoming);
  }

  lemma AsStreamAtEnd(live: seq<bv8>, n: nat)
    requires Ends(live) && |live| <= n
    ensures AsStream(live, n, ReadOn(live, [], n))
  {
    if n == |live| && 2 <= n {
      OneEndSuffix(live, [], n - 1);
      assert live[n - 1..] + Concat([]) == live[n - 1..];
    }
  }

  lemma AsStreamBehind(before: seq<bv8>, s: seq<bv8>, n: nat, r: Result)
    requires AsStream(s, n, r) && 2 <= |s|
    ensures AsStream(before + s, |before| + n, Behind(before, false, r))
  {
    assert Reply(before + s, |before| + n) == before + Reply(s, n);
    assert After(before + s, |before| + n) == After(s, n);
  }

  /** A buffer that the marker does not end is used up, and the read goes on with the next fill. */
  lemma ReadGoesOn(live: seq<bv8>, incoming: seq<seq<bv8>>, n: nat)
    requires OneEnd(live, incoming) && live != [] && |live| <= n && incoming != []
    ensures ReadOn(live, incoming, n) == Behind(live, false, ReadOn(incoming[0], incoming[1..], n - |live|))
  {
  }

  lemma AsStreamOn(live: seq<bv8>, incoming: seq<seq<bv8>>, n: nat)
    requires OneEnd(live, incoming) && live != [] && |live| <= n && incoming != []
    requires AsStream(Concat(incoming), n - |live|, ReadOn(incoming[0], incoming[1..], n - |live|))
    requires 2 <= |Concat(incoming)|
    ensures AsStream(live + Concat(incoming), n, ReadOn(live, incoming, n))
  {
    ReadGoesOn(live, incoming, n);
    AsStreamBehind(live, Concat(incoming), n - |live|, ReadOn(incoming[0], incoming[1..], n - |live|));
  }

  /**
   * When the marker ends the last fill and no other fill ends in its second byte, a read
   * depends only on the stream, not on how fills divide it.
   */
  lemma {:induction false} ReadAsStream(live: seq<bv8>, incoming: seq<seq<bv8>>, n: nat)
    requires OneEnd(live, incoming) && live != []
    ensures AsStream(live + Concat(incoming), n, ReadOn(live, incoming, n))
    decreases |incoming|
  {
    if n < |live| {
      AsStreamInside(live, incoming, n);
    } else if incoming == [] {
      assert live + Concat([]) == live;
      AsStreamAtEnd(live, n);
    } else {
      ReadAsStream(incoming[0], incoming[1..], n - |live|);
      FirstFillKeeps(incoming);
      OneEndEnds(incoming[0], incoming[1..]);
      AsStreamOn(live, incoming, n);
    }
  }

  lemma ReadOfAsStream(live: seq<bv8>, incoming: seq<seq<bv8>>, n: nat)
    requires OneEnd(live, incoming)
    ensures AsStream(live + Concat(incoming), n, ReadOf(live, incoming, n))
  {
    if live == [] {
      var (live', incoming') := FirstFill(incoming);
      ReadAsStream(live', incoming', n);
      FirstFillKeeps(incoming);
      assert live + Concat(incoming) == live' + Concat(incoming');
    } else {
      ReadAsStream(live, incoming, n);
    }
  }

  /** The stream ends in its marker, no fill is empty, and the last one is not a single byte. */
  ghost predicate WellFilled(live: seq<bv8>, incoming: seq<seq<bv8>>) {
    && live != [] && (forall i :: 0 <= i < |incoming| ==> incoming[i] != [])
    && (incoming != [] ==> 2 <= |incoming[|incoming| - 1]|)
    && Ends(live + Concat(incoming))
  }

  /** A read of `m` bytes and then one of `n` answer as the whole stream would. */
  predicate TwoReads(live: seq<bv8>, incoming: seq<seq<bv8>>, m: nat, n: nat) {
    var (s, r) := (live + Concat(incoming), ReadOf(live, incoming, m));
    && r.out == Reply(s, m)
    && (r.live != [] ==> ReadOf(r.live, r.incoming, n).out == Reply(After(s, m), n))
  }

  lemma WellFilledNext(live: seq<bv8>, incoming: seq<seq<bv8>>)
    requires WellFilled(live, incoming) && incoming != []
    ensures WellFilled(incoming[0], incoming[1..]) && 2 <= |Concat(incoming)|
    decreases |incoming|
  {
    var (fill, rest, tail) := (incoming[0], incoming[1..], Concat(incoming));
    assert tail == fill + Concat(rest);
    if rest != [] {
      LastIsLong(rest);
      assert rest[|rest| - 1] == incoming[|incoming| - 1];
      assert forall i :: 0 <= i < |rest| ==> rest[i] == incoming[i + 1];
    }
    assert (live + tail)[|live + tail| - 1] == tail[|tail| - 1] && (live + tail)[|live + tail| - 2] == tail[|tail| - 2];
  }

  lemma {:induction false} LastIsLong(fills: seq<seq<bv8>>)
    requires fills != [] && 2 <= |fills[|fills| - 1]|
    ensures 2 <= |Concat(fills)|
    decreases |fills|
  {
    if 1 < |fills| {
      LastIsLong(fills[1..]);
    }
  }

  /** A fill before the last that ends in the marker's second byte: a read up to there leaves just that byte. */
  lemma {:induction false} StrayByte(live: seq<bv8>, incoming: seq<seq<bv8>>) returns (m: nat)
    requires WellFilled(live, incoming) && !OneEnd(live, incoming)
    ensures m + 2 < |live + Concat(incoming)| && ReadOn(live, incoming, m).live == [0xD9]
    decreases |incoming|
  {
    assert live + [] == live;
    m := 0;
    if incoming != [] {
      WellFilledNext(live, incoming);
      if live[|live| - 1] == 0xD9 {
        m := |live| - 1;
        assert live[m..] == [0xD9];
      } else {
        var k := StrayByte(incoming[0], incoming[1..]);
        m := |live| + k;
        FirstFillKeeps(incoming);
      }
    }
  }

  /**
   * Exactly when looking at the end of each buffer finds the marker: when no fill before
   * the last ends in the marker's second byte. Otherwise a read can leave that byte alone
   * in the buffer, and the next read takes it for the end.
   */
  lemma MarkerFoundExactly(live: seq<bv8>, incoming: seq<seq<bv8>>)
    requires WellFilled(live, incoming)
    ensures (forall m: nat, n: nat :: TwoReads(live, incoming, m, n)) <==> OneEnd(live, incoming)
  {
    var s := live + Concat(incoming);
    if OneEnd(live, incoming) {
      forall m: nat, n: nat
        ensures TwoReads(live, incoming, m, n)
      {
        var r := ReadOf(live, incoming, m);
        ReadOfAsStream(live, incoming, m);
        if r.live != [] {
          ReadOfAsStream(r.live, r.incoming, n);
        }
      }
    } else {
      var m := StrayByte(live, incoming);
      var r := ReadOf(live, incoming, m);
      assert |Reply(After(s, m), 2)| == 2 && ReadOf(r.live, r.incoming, 2).out == [0xD9];
      assert !TwoReads(live, incoming, m, 2);
    }
  }

  // ------------------------------------------------- a whole sequence of reads

  /** What reads of the given sizes return, up to the first that returns less than it was asked for. */
  function Replies(s: seq<bv8>, sizes: seq<nat>): seq<seq<bv8>>
    decreases |sizes|
  {
    if sizes == [] then []
    else [Reply(s, sizes[0])] + if |s| < sizes[0] then [] else Replies(After(s, sizes[0]), sizes[1..])
  }

  /** Some of the first reads add up to exactly `m` bytes. */
  predicate AddsUpTo(sizes: seq<nat>, m: nat) {
    sizes != [] && (sizes[0] == m || (sizes[0] < m && AddsUpTo(sizes[1..], m - sizes[0])))
  }

  /** The stream with a fill byte before the last byte of its marker. */
  function WithFill(s: seq<bv8>): seq<bv8>
    requires s != []
  {
    s[..|s| - 1] + [0xFF] + s[|s| - 1..]
  }

  /** What the reader gets to see: the stream itself, or the stream with a fill byte if a read would end with it. */
  function Seen(s: seq<bv8>, sizes: seq<nat>): seq<bv8>
    requires s != []
  {
    if AddsUpTo(sizes, |s|) then WithFill(s) else s
  }

  /** The first `n` bytes, or all of them. */
  function UpTo(s: seq<bv8>, n: nat): seq<bv8> {
    if n < |s| then s[..n] else s
  }

  /** Every read asks for two bytes or more. */
  predicate Wide(sizes: seq<nat>) {
    sizes == [] || (2 <= sizes[0] && Wide(sizes[1..]))
  }

  lemma NoSumOfOne(sizes: seq<nat>)
    requires Wide(sizes)
    ensures !AddsUpTo(sizes, 1)
  {
  }

  /** A full read leaves a stream of the same kind. */
  lemma EndsAfter(s: seq<bv8>, n: nat)
    requires Ends(s) && 2 <= n <= |s|
    ensures Ends(After(s, n)) && |Reply(s, n)| == n
  {
  }

  lemma SeenInside(s: seq<bv8>, sizes: seq<nat>)
    requires sizes != [] && sizes[0] < |s|
    ensures Seen(s, sizes) == s[..sizes[0]] + Seen(s[sizes[0]..], sizes[1..])
  {
  }

  lemma SeenAtEnd(s: seq<bv8>, sizes: seq<nat>)
    requires Ends(s) && sizes != [] && 2 <= sizes[0] == |s| && Wide(sizes[1..])
    ensures Seen(s, sizes) == s[..|s| - 1] + [0xFF] + Seen(s[|s| - 1..], sizes[1..])
  {
    NoSumOfOne(sizes[1..]);
    assert |s[|s| - 1..]| == 1;
  }

  /** What the reads return after a full one is what they would return from there. */
  lemma SeenSplits(s: seq<bv8>, sizes: seq<nat>)
    requires Ends(s) && sizes != [] && 2 <= sizes[0] <= |s| && Wide(sizes[1..])
    ensures Ends(After(s, sizes[0])) && |Reply(s, sizes[0])| == sizes[0]
    ensures Seen(s, sizes) == Reply(s, sizes[0]) + Seen(After(s, sizes[0]), sizes[1..])
  {
    EndsAfter(s, sizes[0]);
    if sizes[0] < |s| {
      SeenInside(s, sizes);
    } else {
      SeenAtEnd(s, sizes);
    }
  }

  lemma RepliesConcat(s: seq<bv8>, sizes: seq<nat>)
    requires sizes != [] && sizes[0] <= |s|
    ensures Concat(Replies(s, sizes)) == Reply(s, sizes[0]) + Concat(Replies(After(s, sizes[0]), sizes[1..]))
  {
    ConcatCons(Reply(s, sizes[0]), Replies(After(s, sizes[0]), sizes[1..]));
  }

  lemma TakeBehind(a: seq<bv8>, all: seq<bv8>, seen: seq<bv8>, some: seq<bv8>, more: seq<bv8>, n: nat, m: nat)
    requires all == a + more && seen == a + some && more == UpTo(some, n) && m == |a| + n
    ensures all == UpTo(seen, m)
  {
  }

  /** The replies of a full read and of those after it. */
  lemma RepliesOn(s: seq<bv8>, sizes: seq<nat>, s': seq<bv8>, rest: seq<nat>)
    requires Ends(s) && Wide(sizes) && sizes != [] && sizes[0] <= |s| && s' == After(s, sizes[0]) && rest == sizes[1..]
    requires Concat(Replies(s', rest)) == UpTo(Seen(s', rest), Sum(rest))
    ensures Concat(Replies(s, sizes)) == UpTo(Seen(s, sizes), Sum(sizes))
  {
    RepliesConcat(s, sizes);
    SeenSplits(s, sizes);
    TakeBehind(Reply(s, sizes[0]), Concat(Replies(s, sizes)), Seen(s, sizes), Seen(s', rest), Concat(Replies(s', rest)),
               Sum(rest), Sum(sizes));
  }

  lemma ConcatCons(part: seq<bv8>, parts: seq<seq<bv8>>)
    ensures Concat([part] + parts) == part + Concat(parts)
  {
    assert ([part] + parts)[1..] == parts;
  }

  /**
   * Reads of two bytes or more return, all together, the stream or the stream with one
   * fill byte before the last byte of its marker, the latter just when the marker would
   * have ended a full read.
   */
  lemma {:induction false} RepliesAre(s: seq<bv8>, sizes: seq<nat>)
    requires Ends(s) && Wide(sizes)
    ensures Concat(Replies(s, sizes)) == UpTo(Seen(s, sizes), Sum(sizes))
    decreases |sizes|
  {
    if sizes != [] {
      var (n, rest, r) := (sizes[0], sizes[1..], Replies(s, sizes));
      if n <= |s| {
        var s' := After(s, n);
        EndsAfter(s, n);
        RepliesAre(s', rest);
        RepliesOn(s, sizes, s', rest);
      } else {
        assert r[0] == s && r[1..] == [];
      }
    }
  }

  /** Every read before the last is full. */
  lemma {:induction false} RepliesFull(s: seq<bv8>, sizes: seq<nat>, i: nat)
    requires Ends(s) && Wide(sizes)
    requires i + 1 < |Replies(s, sizes)|
    ensures i < |sizes| && |Replies(s, sizes)[i]| == sizes[i]
    decreases |sizes|
  {
    var (n, rest) := (sizes[0], sizes[1..]);
    EndsAfter(s, n);
    assert Replies(s, sizes) == [Reply(s, n)] + Replies(After(s, n), rest);
    if 0 < i {
      RepliesFull(After(s, n), rest, i - 1);
    }
  }

  /** The reads go on exactly until the stream is used up, and then the last one falls short. */
  lemma {:induction false} RepliesEnd(s: seq<bv8>, sizes: seq<nat>)
    requires Ends(s) && Wide(sizes)
    ensures EndsWhere(Replies(s, sizes), sizes, |Seen(s, sizes)|)
    decreases |sizes|
  {
    if sizes != [] {
      var (n, rest) := (sizes[0], sizes[1..]);
      if n <= |s| {
        SeenSplits(s, sizes);
        RepliesEnd(After(s, n), rest);
        EndsLater(Reply(s, n), Replies(After(s, n), rest), sizes, |Seen(After(s, n), rest)|);
      }
    }
  }

  /** The replies end with a short one if there are fewer than `m` bytes, and go on to the last request otherwise. */
  predicate EndsWhere(r: seq<seq<bv8>>, sizes: seq<nat>, m: nat) {
    if m < Sum(sizes) then 0 < |r| <= |sizes| && |r[|r| - 1]| < sizes[|r| - 1]
    else |r| == |sizes| && (r != [] ==> |r[|r| - 1]| == sizes[|r| - 1])
  }

  lemma EndsLater(reply: seq<bv8>, r: seq<seq<bv8>>, sizes: seq<nat>, m: nat)
    requires sizes != [] && |reply| == sizes[0] && EndsWhere(r, sizes[1..], m)
    ensures EndsWhere([reply] + r, sizes, sizes[0] + m)
  {
    assert Sum(sizes) == sizes[0] + Sum(sizes[1..]);
    if r != [] {
      assert ([reply] + r)[|r|] == r[|r| - 1] && sizes[|r|] == sizes[1..][|r| - 1];
    }
  }

  // ------------------------------------------------- a stream byte by byte

  /** A stream is what comes before its marker, and the marker. */
  lemma EndsInMarker(body: seq<bv8>)
    ensures Ends(body + [0xFF, 0xD9]) && OneEnd(body + [0xFF, 0xD9], [])
  {
  }

  /** One read of such a stream, however fills divide it. */
  lemma ReadOfMarker(live: seq<bv8>, incoming: seq<seq<bv8>>, n: nat, body: seq<bv8>)
    requires OneEnd(live, incoming) && live + Concat(incoming) == body + [0xFF, 0xD9]
    ensures var (r, s) := (ReadOf(live, incoming, n), body + [0xFF, 0xD9]);
            var rest := r.live + Concat(r.incoming);
            && !r.starved
            && (n < |s| ==> r.out == s[..n] && rest == s[n..])
            && (n == |s| ==> r.out == body + [0xFF, 0xFF] && rest == [0xD9])
            && (n > |s| ==> r.out == s && rest == [])
  {
    ReadOfAsStream(live, incoming, n);
  }

  /** A sequence of reads of such a stream. */
  lemma RepliesOfMarker(body: seq<bv8>, sizes: seq<nat>)
    requires Wide(sizes)
    ensures var s := body + [0xFF, 0xD9];
            Concat(Replies(s, sizes))
            == UpTo(if AddsUpTo(sizes, |s|) then body + [0xFF, 0xFF, 0xD9] else s, Sum(sizes))
  {
    var s := body + [0xFF, 0xD9];
    RepliesAre(s, sizes);
    assert WithFill(s) == body + [0xFF, 0xFF, 0xD9];
  }
}
