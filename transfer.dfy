/**
  * The chunked transfer behind the four `mmap_list_*` functions: a list of
  * fixed-width records crosses the shared region in rounds. Each round
  * starts at offset 0 with a `>HI` header and is followed by a call into
  * the Java side, which is not visible here and is modelled as `Peer`.
  */
module Transfer {
  import opened Outcomes
  import opened Wire
  import opened Channel

  /** A Python list that a receive appends to in place. */
  class PyList<T> {
    var items: seq<T>

    constructor ()
      ensures items == []
    {
      items := [];
    }
  }

  // ================================================================ the Java side

  /** What the Java side writes at offset 0 when it is asked for a round. */
  datatype Message = Message(tag: U16, count: U32, body: seq<byte>)

  function MessageBytes(m: Message): (r: seq<byte>)
    ensures |r| == HEADER_SIZE + |m.body|
    ensures r[..HEADER_SIZE] == EncodeHeader(Header(m.tag, m.count))
  {
    HeaderRoundTrip(Header(m.tag, m.count));
    EncodeHeader(Header(m.tag, m.count)) + m.body
  }

  /**
    * A Java list seen from Python: `java_list.size()`, and the message that
    * `write_List_*(java_list, num_read)` puts into the region.
    */
  datatype RemoteList = RemoteList(size: nat, reply: nat -> Message)

  /** The Java end of the gateway (`PyBoofEntryPoint.mmap`). */
  class Peer {
    /** The region as the Java side found it at each `read_List_*` call. */
    ghost var seen: seq<seq<byte>>

    constructor ()
      ensures seen == []
    {
      seen := [];
    }

    /** read_List_*(java_list): the Java side consumes the round now in the region. */
    method ReadList(mm: MmapFile)
      modifies this
      ensures seen == old(seen) + [mm.data[..]]
    {
      seen := seen + [mm.data[..]];
    }

    /** write_List_*(java_list, num_read): the Java side writes one round at offset 0. */
    method WriteList(mm: MmapFile, list: RemoteList, numRead: nat)
      requires |MessageBytes(list.reply(numRead))| <= mm.data.Length
      modifies mm.data
      ensures mm.data[..] == Overlay(old(mm.data[..]), MessageBytes(list.reply(numRead)))
    {
      var bytes := MessageBytes(list.reply(numRead));
      forall i | 0 <= i < |bytes| {
        mm.data[i] := bytes[i];
      }
    }
  }

  // ================================================================ send: specification

  /** max_elements = (mmap_size - 100) / record_size; Python 2 floors, as Dafny does for a positive divisor. */
  function MaxElements(mmapSize: nat, recordSize: nat): int
    requires recordSize > 0
  {
    (mmapSize - 100) / recordSize
  }

  /** max_elements is the largest count whose records fit in mmap_size - 100 bytes. */
  lemma MaxElementsFloor(mmapSize: nat, recordSize: nat)
    requires recordSize > 0
    ensures var q := MaxElements(mmapSize, recordSize);
      recordSize * q <= mmapSize - 100 < recordSize * (q + 1)
  {
  }

  /**
    * The send loop ends: there is nothing to send, or the first round raises
    * (struct.pack because the count does not fit a u32, or mm.write because
    * the header does not fit the region), or every round writes at least
    * one record. Otherwise Python loops for ever.
    */
  predicate SendTerminates(n: nat, mmapSize: nat, recordSize: nat)
    requires recordSize > 0
  {
    n == 0 || n >= 0x1_0000_0000 || mmapSize < HEADER_SIZE || MaxElements(mmapSize, recordSize) >= 1
  }

  /** The rounds of a send: successive slices of at most `m` elements. */
  function Chunks<T>(s: seq<T>, m: nat): (r: seq<seq<T>>)
    requires m >= 1
    decreases |s|
  {
    if |s| == 0 then []
    else
      var w := Min(m, |s|);
      [s[..w]] + Chunks(s[w..], m)
  }

  function Flatten<T>(ss: seq<seq<T>>): seq<T>
  {
    if ss == [] then [] else ss[0] + Flatten(ss[1..])
  }

  /** The bytes written at offset 0 in each round: the header with the TOTAL count, then the round's records. */
  function SendMessages<T(!new)>(pylist: seq<T>, tag: U16, codec: Codec<T>, m: nat): (r: seq<seq<byte>>)
    requires codec.Valid() && m >= 1 && |pylist| < 0x1_0000_0000
    ensures |r| == |Chunks(pylist, m)|
  {
    var cs := Chunks(pylist, m);
    seq(|cs|, k requires 0 <= k < |cs| => EncodeHeader(Header(tag, |pylist|)) + EncodeAll(codec, cs[k]))
  }

  ghost predicate AllFit(msgs: seq<seq<byte>>, n: nat)
  {
    forall k :: 0 <= k < |msgs| ==> |msgs[k]| <= n
  }

  function Final(base: seq<byte>, snaps: seq<seq<byte>>): seq<byte>
  {
    if snaps == [] then base else snaps[|snaps| - 1]
  }

  /** The region after each of `msgs` in turn has been written at offset 0 over `base`. */
  function Snapshots(base: seq<byte>, msgs: seq<seq<byte>>): (r: seq<seq<byte>>)
    requires AllFit(msgs, |base|)
    ensures |r| == |msgs|
    ensures forall k :: 0 <= k < |r| ==> |r[k]| == |base|
    decreases |msgs|
  {
    if msgs == [] then []
    else
      var prev := Snapshots(base, msgs[..|msgs| - 1]);
      prev + [Overlay(Final(base, prev), msgs[|msgs| - 1])]
  }

  /** Everything a send leaves behind, as a relation between the state before and after. */
  ghost predicate SendPost<T(!new)>(oldBuf: seq<byte>, oldPos: nat, oldSeen: seq<seq<byte>>,
                                    buf: seq<byte>, pos: nat, seen: seq<seq<byte>>,
                                    pylist: seq<T>, tag: U16, codec: Codec<T>, r: Outcome)
    requires codec.Valid() && SendTerminates(|pylist|, |oldBuf|, codec.size)
  {
    if |pylist| == 0 then
      r == Success && buf == oldBuf && pos == oldPos && seen == oldSeen
    else if |pylist| >= 0x1_0000_0000 then
      r == Failure(StructError) && buf == oldBuf && pos == 0 && seen == oldSeen
    else if |oldBuf| < HEADER_SIZE then
      r == Failure(ValueError) && buf == oldBuf && pos == 0 && seen == oldSeen
    else
      var m := MaxElements(|oldBuf|, codec.size);
      var msgs := SendMessages(pylist, tag, codec, m);
      SendMessagesFit(pylist, tag, codec, |oldBuf|);
      var snaps := Snapshots(oldBuf, msgs);
      |msgs| > 0 &&
      r == Success && seen == oldSeen + snaps && buf == Final(oldBuf, snaps) && pos == |msgs[|msgs| - 1]|
  }

  // ================================================================ send: properties

  lemma {:induction false} ChunksFlatten<T>(s: seq<T>, m: nat)
    requires m >= 1
    ensures Flatten(Chunks(s, m)) == s
  {
    if |s| > 0 {
      var w := Min(m, |s|);
      ChunksFlatten(s[w..], m);
      assert s == s[..w] + s[w..];
    }
  }

  lemma DivStep(x: nat, m: nat)
    requires m >= 1
    ensures (x + m) / m == x / m + 1
  {
    var q, r := x / m, x % m;
    var d, e := (x + m) / m, (x + m) % m;
    assert x == q * m + r && 0 <= r < m;
    assert x + m == d * m + e && 0 <= e < m;
    assert (d - q - 1) * m == r - e;
    if d - q - 1 >= 1 {
      MulMono(m, 1, d - q - 1);
    } else if d - q - 1 <= -1 {
      MulMono(m, 1, q + 1 - d);
    }
  }

  /** The loop runs ceil(N / m) rounds: none for an empty list, one more after every full round. */
  lemma {:induction false} ChunksCount<T>(s: seq<T>, m: nat)
    requires m >= 1
    ensures |Chunks(s, m)| == (|s| + m - 1) / m
  {
    if |s| > 0 {
      var w := Min(m, |s|);
      var rest := s[w..];
      assert |Chunks(s, m)| == 1 + |Chunks(rest, m)|;
      ChunksCount(rest, m);
      if |s| <= m {
        assert rest == [];
        DivOne(|s| + m - 1, m);
      } else {
        var x := |rest| + m - 1;
        assert |s| + m - 1 == x + m;
        DivStep(x, m);
      }
    }
  }

  lemma DivOne(x: nat, m: nat)
    requires m <= x < 2 * m
    ensures x / m == 1
  {
    DivStep(x - m, m);
  }

  /** Round k sends elements [k*m, k*m + min(m, N - k*m)) of the list, in order. */
  lemma {:induction false} ChunkAt<T>(s: seq<T>, m: nat, k: nat)
    requires m >= 1 && k < |Chunks(s, m)|
    ensures k * m < |s|
    ensures |Chunks(s, m)[k]| == Min(m, |s| - k * m)
    ensures Chunks(s, m)[k] == s[k * m .. k * m + Min(m, |s| - k * m)]
  {
    ChunkAtOffset(s, m, k);
    OffsetIsProduct(k, m);
  }

  /** k * m, counted up one round at a time. */
  function Offset(k: nat, m: nat): nat
  {
    if k == 0 then 0 else Offset(k - 1, m) + m
  }

  lemma {:induction false} OffsetIsProduct(k: nat, m: nat)
    ensures Offset(k, m) == k * m
  {
    if k > 0 {
      OffsetIsProduct(k - 1, m);
      assert (k - 1) * m + m == k * m;
    }
  }

  lemma {:induction false} ChunkAtOffset<T>(s: seq<T>, m: nat, k: nat)
    requires m >= 1 && k < |Chunks(s, m)|
    ensures var p := Offset(k, m);
      p < |s| && Chunks(s, m)[k] == s[p..p + Min(m, |s| - p)]
  {
    var w := Min(m, |s|);
    var rest := s[w..];
    assert Chunks(s, m) == [s[..w]] + Chunks(rest, m);
    if k > 0 {
      assert Chunks(s, m)[k] == Chunks(rest, m)[k - 1];
      ChunkAtOffset(rest, m, k - 1);
      var j := Offset(k - 1, m);
      assert w == m && |rest| == |s| - m;
      SliceOfSuffix(s, m, j, Min(m, |rest| - j));
    }
  }

  lemma SliceOfSuffix<T>(s: seq<T>, w: nat, j: nat, c: nat)
    requires w + j + c <= |s|
    ensures s[w..][j..j + c] == s[w + j..w + j + c]
  {
  }

  lemma ChunksBounded<T>(s: seq<T>, m: nat)
    requires m >= 1
    ensures forall k :: 0 <= k < |Chunks(s, m)| ==> 1 <= |Chunks(s, m)[k]| <= m
  {
    forall k | 0 <= k < |Chunks(s, m)|
      ensures 1 <= |Chunks(s, m)[k]| <= m
    {
      ChunkAt(s, m, k);
    }
  }

  lemma MulSucc(c: nat, n: nat)
    ensures c * n + c == c * (n + 1)
  {
  }

  lemma MulMono(c: nat, a: nat, b: nat)
    requires a <= b
    ensures c * a <= c * b
  {
  }

  /** A round's bytes, 6 + record_size * num_write, never exceed mmap_size. */
  lemma RoundFits(mmapSize: nat, recordSize: nat, n: nat)
    requires recordSize > 0 && n <= MaxElements(mmapSize, recordSize)
    ensures HEADER_SIZE + recordSize * n <= mmapSize
  {
    var q := MaxElements(mmapSize, recordSize);
    MulMono(recordSize, n, q);
    assert recordSize * q <= mmapSize - 100;
  }

  lemma SendMessagesFit<T(!new)>(pylist: seq<T>, tag: U16, codec: Codec<T>, mmapSize: nat)
    requires codec.Valid() && |pylist| < 0x1_0000_0000 && MaxElements(mmapSize, codec.size) >= 1
    ensures AllFit(SendMessages(pylist, tag, codec, MaxElements(mmapSize, codec.size)), mmapSize)
  {
    var m := MaxElements(mmapSize, codec.size);
    var cs := Chunks(pylist, m);
    var msgs := SendMessages(pylist, tag, codec, m);
    ChunksBounded(pylist, m);
    forall k | 0 <= k < |msgs|
      ensures |msgs[k]| <= mmapSize
    {
      HeaderRoundTrip(Header(tag, |pylist|));
      RoundFits(mmapSize, codec.size, |cs[k]|);
    }
  }

  /**
    * Every round's header carries the list's type tag and the TOTAL element
    * count, and its records decode back to exactly that round's slice.
    */
  lemma SendMessagesDecode<T(!new)>(pylist: seq<T>, tag: U16, codec: Codec<T>, m: nat, k: nat)
    requires codec.Valid() && m >= 1 && |pylist| < 0x1_0000_0000
    requires k < |SendMessages(pylist, tag, codec, m)|
    ensures var msg := SendMessages(pylist, tag, codec, m)[k];
      var chunk := Chunks(pylist, m)[k];
      |msg| == HEADER_SIZE + codec.size * |chunk| &&
      DecodeHeader(msg[..HEADER_SIZE]) == Some(Header(tag, |pylist|)) &&
      DecodeAll(codec, msg[HEADER_SIZE..], |chunk|) == chunk
  {
    var h := Header(tag, |pylist|);
    var chunk := Chunks(pylist, m)[k];
    var msg := SendMessages(pylist, tag, codec, m)[k];
    HeaderRoundTrip(h);
    assert msg == EncodeHeader(h) + EncodeAll(codec, chunk);
    assert msg[..HEADER_SIZE] == EncodeHeader(h);
    assert msg[HEADER_SIZE..] == EncodeAll(codec, chunk);
    DecodeEncodeAll(codec, chunk);
  }

  /** The Java side finds each round's message at offset 0 of the region it reads. */
  lemma {:induction false} SnapshotsShowMessages(base: seq<byte>, msgs: seq<seq<byte>>, k: nat)
    requires AllFit(msgs, |base|) && k < |msgs|
    ensures Snapshots(base, msgs)[k][..|msgs[k]|] == msgs[k]
    decreases |msgs|
  {
    var init := msgs[..|msgs| - 1];
    if k < |msgs| - 1 {
      SnapshotsShowMessages(base, init, k);
      assert init[k] == msgs[k];
    }
  }

  /** Decoding the records of every round, in round order, gives back the whole list. */
  lemma SendRoundTrip<T(!new)>(pylist: seq<T>, tag: U16, codec: Codec<T>, m: nat)
    requires codec.Valid() && m >= 1 && |pylist| < 0x1_0000_0000
    ensures var msgs := SendMessages(pylist, tag, codec, m);
      var cs := Chunks(pylist, m);
      |msgs| == |cs| &&
      Flatten(seq(|msgs|, k requires 0 <= k < |msgs| => DecodeAll(codec, msgs[k][HEADER_SIZE..], |cs[k]|))) == pylist
  {
    var msgs := SendMessages(pylist, tag, codec, m);
    var cs := Chunks(pylist, m);
    var decoded := seq(|msgs|, k requires 0 <= k < |msgs| => DecodeAll(codec, msgs[k][HEADER_SIZE..], |cs[k]|));
    forall k | 0 <= k < |msgs|
      ensures decoded[k] == cs[k]
    {
      SendMessagesDecode(pylist, tag, codec, m, k);
    }
    assert decoded == cs;
    ChunksFlatten(pylist, m);
  }

  /**
    * Seven points through a region with room for three records per round
    * (150 bytes): rounds of 3, 3 and 1 points, each header counting all 7.
    */
  lemma SevenPointsInThreeRounds(pylist: seq<PointTuple>, tag: U16)
    requires |pylist| == 7
    ensures PointCodec().Valid() && MaxElements(150, PointCodec().size) == 3
    ensures var cs := Chunks(pylist, 3);
      |cs| == 3 && |cs[0]| == 3 && |cs[1]| == 3 && |cs[2]| == 1 && cs[0] + cs[1] + cs[2] == pylist
    ensures forall k :: 0 <= k < 3 ==>
      DecodeHeader(SendMessages(pylist, tag, PointCodec(), 3)[k][..HEADER_SIZE]) == Some(Header(tag, 7))
  {
    PointCodecValid();
    var cs := Chunks(pylist, 3);
    ChunksCount(pylist, 3);
    assert (7 + 3 - 1) / 3 == 3;
    ChunkAt(pylist, 3, 0);
    ChunkAt(pylist, 3, 1);
    ChunkAt(pylist, 3, 2);
    assert pylist == pylist[0..3] + pylist[3..6] + pylist[6..7];
    forall k | 0 <= k < 3
      ensures DecodeHeader(SendMessages(pylist, tag, PointCodec(), 3)[k][..HEADER_SIZE]) == Some(Header(tag, 7))
    {
      SendMessagesDecode(pylist, tag, PointCodec(), 3, k);
    }
  }

  // ================================================================ send: the loop

  /** Extending the message list by one round extends the Java side's log by one snapshot. */
  lemma SnapshotsSnoc(base: seq<byte>, msgs: seq<seq<byte>>, k: nat, snaps: seq<seq<byte>>, msg: seq<byte>)
    requires AllFit(msgs, |base|) && k < |msgs|
    requires snaps == Snapshots(base, msgs[..k]) && msg == msgs[k]
    ensures |msg| <= |base| && |Final(base, snaps)| == |base|
    ensures Snapshots(base, msgs[..k + 1]) == snaps + [Overlay(Final(base, snaps), msg)]
  {
    assert msgs[..k + 1][..k] == msgs[..k];
    assert msgs[..k + 1][k] == msgs[k];
  }

  /** The round that starts at `curr` is the next chunk, and the chunks after it cut the rest of the list. */
  lemma NextChunk<T>(pylist: seq<T>, m: nat, curr: nat)
    requires m >= 1 && curr < |pylist|
    ensures var w := Min(m, |pylist| - curr);
      Chunks(pylist[curr..], m) == [pylist[curr..curr + w]] + Chunks(pylist[curr + w..], m)
  {
    var rest := pylist[curr..];
    var w := Min(m, |pylist| - curr);
    assert rest[..w] == pylist[curr..curr + w];
    assert rest[w..] == pylist[curr + w..];
  }

  /** Encoding one more record of a list appends its bytes, and stays within the encoding of the whole list. */
  lemma EncodePrefixStep<T(!new)>(codec: Codec<T>, records: seq<T>, i: nat)
    requires codec.Valid() && i < |records|
    ensures EncodeAll(codec, records[..i + 1]) == EncodeAll(codec, records[..i]) + codec.enc(records[i])
    ensures |EncodeAll(codec, records[..i + 1])| <= |EncodeAll(codec, records)|
  {
    assert records[..i + 1] == records[..i] + [records[i]];
    assert records == records[..i + 1] + records[i + 1..];
    EncodeAllAppend(codec, records[..i], [records[i]]);
    EncodeAllAppend(codec, records[..i + 1], records[i + 1..]);
    assert EncodeAll(codec, [records[i]]) == codec.enc(records[i]) + EncodeAll(codec, []);
  }

  /**
    * One round of the send loop after `mm.seek(0)`: the packed header, then
    * each record of the round in turn, from the cursor on. A header longer
    * than the region makes `mm.write` raise before anything is written.
    */
  method WriteRound<T(!new)>(mm: MmapFile, header: seq<byte>, records: seq<T>, codec: Codec<T>) returns (r: Outcome)
    requires mm.Valid() && codec.Valid() && mm.pos == 0
    requires |header| <= mm.data.Length ==> |header| + |EncodeAll(codec, records)| <= mm.data.Length
    modifies mm, mm.data
    ensures mm.Valid()
    ensures |header| > mm.data.Length ==>
      r == Failure(ValueError) && mm.data[..] == old(mm.data[..]) && mm.pos == 0
    ensures |header| <= mm.data.Length ==>
      r == Success && mm.data[..] == Overlay(old(mm.data[..]), header + EncodeAll(codec, records)) &&
      mm.pos == |header| + |EncodeAll(codec, records)|
  {
    ghost var base := mm.data[..];
    r := mm.Write(header);
    if r.Failure? {
      return;
    }
    assert records[..0] == [] && header + EncodeAll(codec, records[..0]) == header;
    var i := 0;
    while i < |records|
      invariant 0 <= i <= |records| && mm.Valid()
      invariant mm.pos == |header| + |EncodeAll(codec, records[..i])|
      invariant mm.data[..] == Overlay(base, header + EncodeAll(codec, records[..i]))
    {
      var rec := codec.enc(records[i]);
      EncodePrefixStep(codec, records, i);
      ghost var prefix := header + EncodeAll(codec, records[..i]);
      OverlayExtend(base, prefix, rec);
      assert prefix + rec == header + EncodeAll(codec, records[..i + 1]);
      var written := mm.Write(rec);
      i := i + 1;
    }
    assert records[..i] == records;
  }

  /**
    * The send loop's state after `k` rounds that covered `curr` elements:
    * the remaining chunks cut the rest of the list, and the Java side has
    * seen one snapshot per round sent.
    */
  ghost predicate SendInv<T(!new)>(pylist: seq<T>, tag: U16, codec: Codec<T>, m: nat, base: seq<byte>,
                                   curr: nat, k: nat, snaps: seq<seq<byte>>)
    requires codec.Valid() && m >= 1 && |pylist| < 0x1_0000_0000
  {
    var cs := Chunks(pylist, m);
    var msgs := SendMessages(pylist, tag, codec, m);
    curr <= |pylist| && k <= |cs| && |msgs| == |cs| && (k == 0 <==> curr == 0) &&
    cs[k..] == Chunks(pylist[curr..], m) &&
    AllFit(msgs, |base|) && snaps == Snapshots(base, msgs[..k])
  }

  lemma SendInvInit<T(!new)>(pylist: seq<T>, tag: U16, codec: Codec<T>, base: seq<byte>)
    requires codec.Valid() && |pylist| < 0x1_0000_0000 && MaxElements(|base|, codec.size) >= 1
    ensures SendInv(pylist, tag, codec, MaxElements(|base|, codec.size), base, 0, 0, [])
  {
    SendMessagesFit(pylist, tag, codec, |base|);
    var msgs := SendMessages(pylist, tag, codec, MaxElements(|base|, codec.size));
    assert msgs[..0] == [];
  }

  /**
    * One iteration of the send loop: the round that starts at `curr` is
    * chunk `k`, its message fits the region, and writing it and letting the
    * Java side read it re-establishes the loop's state.
    */
  lemma SendStep<T(!new)>(pylist: seq<T>, tag: U16, codec: Codec<T>, base: seq<byte>,
                          curr: nat, k: nat, snaps: seq<seq<byte>>, w: nat)
    requires codec.Valid() && |pylist| < 0x1_0000_0000
    requires MaxElements(|base|, codec.size) >= 1
    requires SendInv(pylist, tag, codec, MaxElements(|base|, codec.size), base, curr, k, snaps)
    requires curr < |pylist| && w == Min(MaxElements(|base|, codec.size), |pylist| - curr)
    ensures var m := MaxElements(|base|, codec.size);
      var msgs := SendMessages(pylist, tag, codec, m);
      var msg := EncodeHeader(Header(tag, |pylist|)) + EncodeAll(codec, pylist[curr..curr + w]);
      k < |msgs| && w >= 1 && msgs[k] == msg && |msg| <= |base| &&
      SendInv(pylist, tag, codec, m, base, curr + w, k + 1, snaps + [Overlay(Final(base, snaps), msg)])
  {
    var m := MaxElements(|base|, codec.size);
    var cs := Chunks(pylist, m);
    var msgs := SendMessages(pylist, tag, codec, m);
    NextChunk(pylist, m, curr);
    var chunk := pylist[curr..curr + w];
    var later := Chunks(pylist[curr + w..], m);
    assert cs[k..] == [chunk] + later;
    assert cs[k..][0] == cs[k] && cs[k..][1..] == cs[k + 1..];
    assert ([chunk] + later)[1..] == later;
    assert cs[k] == chunk && cs[k + 1..] == later;
    var msg := EncodeHeader(Header(tag, |pylist|)) + EncodeAll(codec, chunk);
    assert msgs[k] == msg;
    SnapshotsSnoc(base, msgs, k, snaps, msg);
    var next := snaps + [Overlay(Final(base, snaps), msg)];
    assert SendInv(pylist, tag, codec, m, base, curr + w, k + 1, next);
  }

  /** When the loop has covered the whole list, every round has been sent. */
  lemma SendDone<T(!new)>(pylist: seq<T>, tag: U16, codec: Codec<T>, m: nat, base: seq<byte>,
                          k: nat, snaps: seq<seq<byte>>)
    requires codec.Valid() && m >= 1 && 0 < |pylist| < 0x1_0000_0000
    requires SendInv(pylist, tag, codec, m, base, |pylist|, k, snaps)
    ensures var msgs := SendMessages(pylist, tag, codec, m);
      k == |msgs| > 0 && AllFit(msgs, |base|) && snaps == Snapshots(base, msgs)
  {
    var msgs := SendMessages(pylist, tag, codec, m);
    assert Chunks(pylist[|pylist|..], m) == [];
    assert msgs[..k] == msgs;
  }

  /**
    * The send loop's whole state between rounds, on values: the region
    * holds the last round written (or what it held before), the cursor sits
    * after that round, and the rounds so far are the first `k` chunks.
    */
  ghost predicate SendLoop<T(!new)>(pylist: seq<T>, tag: U16, codec: Codec<T>, base: seq<byte>, oldPos: nat,
                                    buf: seq<byte>, pos: nat, curr: nat, k: nat, snaps: seq<seq<byte>>)
    requires codec.Valid() && SendTerminates(|pylist|, |base|, codec.size)
  {
    buf == Final(base, snaps) && |buf| == |base| &&
    if 0 < |pylist| < 0x1_0000_0000 && |base| >= HEADER_SIZE then
      var m := MaxElements(|base|, codec.size);
      SendInv(pylist, tag, codec, m, base, curr, k, snaps) &&
      pos == (if k == 0 then oldPos else |SendMessages(pylist, tag, codec, m)[k - 1]|)
    else
      curr == 0 && snaps == [] && pos == oldPos
  }

  lemma SendLoopInit<T(!new)>(pylist: seq<T>, tag: U16, codec: Codec<T>, base: seq<byte>, oldPos: nat)
    requires codec.Valid() && SendTerminates(|pylist|, |base|, codec.size)
    ensures SendLoop(pylist, tag, codec, base, oldPos, base, oldPos, 0, 0, [])
  {
    if 0 < |pylist| < 0x1_0000_0000 && |base| >= HEADER_SIZE {
      SendInvInit(pylist, tag, codec, base);
    }
  }

  /** The round a send writes next, and the loop state once it has been written and seen. */
  lemma SendLoopStep<T(!new)>(pylist: seq<T>, tag: U16, codec: Codec<T>, base: seq<byte>, oldPos: nat,
                              buf: seq<byte>, pos: nat, curr: nat, k: nat, snaps: seq<seq<byte>>, w: int)
    returns (msg: seq<byte>, next: seq<seq<byte>>)
    requires codec.Valid() && SendTerminates(|pylist|, |base|, codec.size)
    requires SendLoop(pylist, tag, codec, base, oldPos, buf, pos, curr, k, snaps) && |base| >= HEADER_SIZE
    requires curr < |pylist| < 0x1_0000_0000 && w == Min(MaxElements(|base|, codec.size), |pylist| - curr)
    ensures 1 <= w && curr + w <= |pylist| && |msg| <= |buf|
    ensures msg == EncodeHeader(Header(tag, |pylist|)) + EncodeAll(codec, pylist[curr..curr + w])
    ensures next == snaps + [Overlay(buf, msg)]
    ensures SendLoop(pylist, tag, codec, base, oldPos, Overlay(buf, msg), |msg|, curr + w, k + 1, next)
  {
    var m := MaxElements(|base|, codec.size);
    SendStep(pylist, tag, codec, base, curr, k, snaps, w);
    msg := EncodeHeader(Header(tag, |pylist|)) + EncodeAll(codec, pylist[curr..curr + w]);
    next := snaps + [Overlay(buf, msg)];
    assert Final(base, next) == Overlay(buf, msg);
    assert |SendMessages(pylist, tag, codec, m)[k]| == |msg|;
  }

  /** The send loop ran to the end of the list. */
  lemma SendLoopDone<T(!new)>(pylist: seq<T>, tag: U16, codec: Codec<T>, base: seq<byte>, oldPos: nat,
                              buf: seq<byte>, pos: nat, curr: nat, k: nat, snaps: seq<seq<byte>>, oldSeen: seq<seq<byte>>)
    requires codec.Valid() && SendTerminates(|pylist|, |base|, codec.size)
    requires SendLoop(pylist, tag, codec, base, oldPos, buf, pos, curr, k, snaps) && curr >= |pylist|
    requires |pylist| < 0x1_0000_0000
    ensures SendPost(base, oldPos, oldSeen, buf, pos, oldSeen + snaps, pylist, tag, codec, Success)
  {
    if 0 < |pylist| {
      SendDone(pylist, tag, codec, MaxElements(|base|, codec.size), base, k, snaps);
    } else {
      assert oldSeen + snaps == oldSeen;
    }
  }

  lemma AppendOne<T>(a: seq<T>, b: seq<T>, x: T)
    ensures (a + b) + [x] == a + (b + [x])
  {
  }

  /**
    * The first round raised after `mm.seek(0)` and before anything was
    * written: struct.pack refused the count, or mm.write refused the header.
    */
  lemma SendLoopFails<T(!new)>(pylist: seq<T>, tag: U16, codec: Codec<T>, base: seq<byte>, oldPos: nat,
                               buf: seq<byte>, pos: nat, curr: nat, k: nat, snaps: seq<seq<byte>>, oldSeen: seq<seq<byte>>)
    requires codec.Valid() && SendTerminates(|pylist|, |base|, codec.size)
    requires SendLoop(pylist, tag, codec, base, oldPos, buf, pos, curr, k, snaps)
    requires 0 < |pylist| && (|pylist| >= 0x1_0000_0000 || |base| < HEADER_SIZE)
    ensures SendPost(base, oldPos, oldSeen, buf, 0, oldSeen + snaps, pylist, tag, codec,
                     Failure(if |pylist| >= 0x1_0000_0000 then StructError else ValueError))
  {
    assert oldSeen + snaps == oldSeen;
  }

  /**
    * One iteration of the send loop: `mm.seek(0)`, the `>HI` header with the
    * TOTAL count, the records `pylist[curr..curr + num_write]`, then the
    * call that lets the Java side read the round. It either raises as the
    * whole send does, or leaves the loop's state one round further on.
    */
  method SendRound<T(!new)>(mm: MmapFile, peer: Peer, pylist: seq<T>, tag: U16, codec: Codec<T>, curr: nat, numWrite: int,
                            ghost base: seq<byte>, ghost oldPos: nat, ghost oldSeen: seq<seq<byte>>,
                            ghost k: nat, ghost snaps: seq<seq<byte>>)
    returns (r: Outcome, ghost next: seq<seq<byte>>)
    requires mm.Valid() && codec.Valid() && SendTerminates(|pylist|, |base|, codec.size)
    requires SendLoop(pylist, tag, codec, base, oldPos, mm.data[..], mm.pos, curr, k, snaps)
    requires peer.seen == oldSeen + snaps
    requires curr < |pylist| && numWrite == Min(MaxElements(|base|, codec.size), |pylist| - curr)
    modifies mm, mm.data, peer
    ensures mm.Valid()
    ensures r.Failure? ==>
      SendPost(base, oldPos, oldSeen, mm.data[..], mm.pos, peer.seen, pylist, tag, codec, r)
    ensures r.Success? ==>
      numWrite >= 1 && peer.seen == oldSeen + next &&
      SendLoop(pylist, tag, codec, base, oldPos, mm.data[..], mm.pos, curr + numWrite, k + 1, next)
  {
    ghost var before, beforePos := mm.data[..], mm.pos;
    ghost var msg: seq<byte> := [];
    next := snaps;
    if |pylist| < 0x1_0000_0000 && |base| >= HEADER_SIZE {
      msg, next := SendLoopStep(pylist, tag, codec, base, oldPos, before, beforePos, curr, k, snaps, numWrite);
    }
    mm.Seek(0);
    if |pylist| >= 0x1_0000_0000 {
      // struct.pack('>HI', ...) rejects the count before anything is written
      SendLoopFails(pylist, tag, codec, base, oldPos, before, beforePos, curr, k, snaps, oldSeen);
      return Failure(StructError), next;
    }
    var header := EncodeHeader(Header(tag, |pylist|));
    // range(curr, curr + num_write) is empty when num_write is not positive
    var records := if numWrite >= 1 then pylist[curr..curr + numWrite] else [];
    r := WriteRound(mm, header, records, codec);
    if r.Failure? {
      SendLoopFails(pylist, tag, codec, base, oldPos, before, beforePos, curr, k, snaps, oldSeen);
      return r, next;
    }
    peer.ReadList(mm);
    AppendOne(oldSeen, snaps, mm.data[..]);
    return Success, next;
  }

  /**
    * mmap_list_python_to_*: sends `pylist` round by round through `mm`,
    * calling the Java side after each round.
    */
  method SendList<T(!new)>(mm: MmapFile, peer: Peer, pylist: seq<T>, tag: U16, codec: Codec<T>) returns (r: Outcome)
    requires mm.Valid() && codec.Valid()
    requires SendTerminates(|pylist|, mm.data.Length, codec.size)
    modifies mm, mm.data, peer
    ensures mm.Valid()
    ensures SendPost(old(mm.data[..]), old(mm.pos), old(peer.seen), mm.data[..], mm.pos, peer.seen, pylist, tag, codec, r)
  {
    var numElements := |pylist|;
    var maxElements := (mm.data.Length - 100) / codec.size;
    ghost var base, oldPos, oldSeen := mm.data[..], mm.pos, peer.seen;
    SendLoopInit(pylist, tag, codec, base, oldPos);
    var curr := 0;
    ghost var k := 0;
    ghost var snaps: seq<seq<byte>> := [];
    while curr < numElements
      invariant mm.Valid() && peer.seen == oldSeen + snaps
      invariant SendLoop(pylist, tag, codec, base, oldPos, mm.data[..], mm.pos, curr, k, snaps)
      decreases numElements - curr
    {
      var numWrite := Min(maxElements, numElements - curr);
      ghost var next;
      r, next := SendRound(mm, peer, pylist, tag, codec, curr, numWrite, base, oldPos, oldSeen, k, snaps);
      if r.Failure? {
        return r;
      }
      ghost var nextCurr, nextK := curr + numWrite, k + 1;
      assert SendLoop(pylist, tag, codec, base, oldPos, mm.data[..], mm.pos, nextCurr, nextK, next);
      snaps := next;
      curr := curr + numWrite;
      k := k + 1;
      assert curr == nextCurr && k == nextK;
    }
    SendLoopDone(pylist, tag, codec, base, oldPos, mm.data[..], mm.pos, curr, k, snaps, oldSeen);
    return Success;
  }

  // ================================================================ receive: specification

  /** The Java side's replies fit the region (a header plus a body each). */
  ghost predicate RemoteFits(list: RemoteList, mmapSize: nat)
  {
    forall k: nat :: k < list.size ==> ReplyFits(list, mmapSize, k)
  }

  ghost predicate ReplyFits(list: RemoteList, mmapSize: nat, k: nat)
  {
    |MessageBytes(list.reply(k))| <= mmapSize
  }

  /**
    * A reply with the expected tag reports at least one element. With a
    * count of 0 the Python loop never ends.
    */
  ghost predicate Progress(list: RemoteList, tag: U16)
  {
    forall k: nat :: k < list.size ==> ReplyCounts(list, tag, k)
  }

  ghost predicate ReplyCounts(list: RemoteList, tag: U16, k: nat)
  {
    list.reply(k).tag == tag ==> list.reply(k).count > 0
  }

  /** The region, its cursor, and what has been appended to the Python list so far. */
  datatype RecvState<T> = RecvState(buf: seq<byte>, pos: nat, appended: seq<T>)

  datatype RecvResult<T> = RecvResult(outcome: Outcome, st: RecvState<T>)

  /** The header the receive loop reads back after the Java side wrote message `m`. */
  lemma MessageHeaderDecodes(buf: seq<byte>, m: Message)
    requires |MessageBytes(m)| <= |buf|
    ensures |buf| >= HEADER_SIZE
    ensures DecodeHeader(Overlay(buf, MessageBytes(m))[..HEADER_SIZE]) == Some(Header(m.tag, m.count))
  {
    var o := Overlay(buf, MessageBytes(m));
    assert o[..HEADER_SIZE] == MessageBytes(m)[..HEADER_SIZE];
    HeaderRoundTrip(Header(m.tag, m.count));
  }

  /**
    * `n` iterations of `desc = struct.unpack(fmt, mm.read(size)); pylist.append(desc)`.
    * A short read at the end of the region raises struct.error, after the
    * cursor moved and after the earlier records were appended.
    */
  function ReadRecords<T(!new)>(st: RecvState<T>, codec: Codec<T>, n: nat): (r: RecvResult<T>)
    requires st.pos <= |st.buf|
    ensures r.st.buf == st.buf && r.st.pos <= |st.buf|
    decreases n
  {
    if n == 0 then RecvResult(Success, st)
    else
      var end := Min(st.pos + codec.size, |st.buf|);
      match codec.dec(st.buf[st.pos..end])
      case None => RecvResult(Failure(StructError), RecvState(st.buf, end, st.appended))
      case Some(t) => ReadRecords(RecvState(st.buf, end, st.appended + [t]), codec, n - 1)
  }

  /**
    * One round of the receive loop after the Java side wrote `m`: read and
    * check the header at offset 0, then read `num_found` records.
    * `expected` is `num_elements - num_read`.
    */
  function RecvRound<T(!new)>(st: RecvState<T>, m: Message, expected: nat, tag: U16, codec: Codec<T>): (r: RecvResult<T>)
    requires codec.Valid() && |MessageBytes(m)| <= |st.buf|
    ensures |r.st.buf| == |st.buf| && st.appended <= r.st.appended
    ensures r.outcome.Success? ==>
      m.tag == tag && m.count <= expected && |r.st.appended| == |st.appended| + m.count
  {
    var buf := Overlay(st.buf, MessageBytes(m));
    MessageHeaderDecodes(st.buf, m);
    var h := DecodeHeader(buf[..HEADER_SIZE]).value;
    var after := RecvState(buf, HEADER_SIZE, st.appended);
    if h.tag != tag then RecvResult(Failure(UnexpectedDataType(h.tag)), after)
    else if h.count > expected then RecvResult(Failure(TooManyElements(h.count)), after)
    else
      ReadRecordsSucceeds(after, codec, h.count);
      ReadRecords(after, codec, h.count)
  }

  /** The receive loop from `num_read` on, as a function of the state it starts in. */
  ghost function RecvLoop<T(!new)>(st: RecvState<T>, list: RemoteList, tag: U16, codec: Codec<T>, numRead: nat): (r: RecvResult<T>)
    requires codec.Valid() && numRead <= list.size && RemoteFits(list, |st.buf|) && Progress(list, tag)
    ensures |r.st.buf| == |st.buf|
    decreases list.size - numRead
  {
    if numRead == list.size then RecvResult(Success, st)
    else
      assert ReplyFits(list, |st.buf|, numRead) && ReplyCounts(list, tag, numRead);
      var m := list.reply(numRead);
      var rr := RecvRound(st, m, list.size - numRead, tag, codec);
      if rr.outcome.Failure? then rr
      else RecvLoop(rr.st, list, tag, codec, numRead + m.count)
  }

  // ================================================================ receive: properties

  /** A round's records are read completely exactly when they lie inside the region. */
  lemma {:induction false} ReadRecordsSucceeds<T(!new)>(st: RecvState<T>, codec: Codec<T>, n: nat)
    requires codec.Valid() && st.pos <= |st.buf|
    ensures var r := ReadRecords(st, codec, n);
      (r.outcome.Success? <==> st.pos + codec.size * n <= |st.buf|) &&
      (r.outcome.Success? ==> r.st.pos == st.pos + codec.size * n && |r.st.appended| == |st.appended| + n) &&
      (r.outcome.Failure? ==> r.outcome.error == StructError && r.st.pos == |st.buf|) &&
      st.appended <= r.st.appended
    decreases n
  {
    if n > 0 {
      var end := Min(st.pos + codec.size, |st.buf|);
      var bytes := st.buf[st.pos..end];
      assert codec.DecodesExactly(bytes);
      if st.pos + codec.size <= |st.buf| {
        var t := codec.dec(bytes).value;
        var next := RecvState(st.buf, end, st.appended + [t]);
        ReadRecordsSucceeds(next, codec, n - 1);
        MulSucc(codec.size, n - 1);
      } else {
        assert codec.dec(bytes).None?;
        assert codec.size * n >= codec.size by { MulMono(codec.size, 1, n); }
      }
    }
  }

  /** Reading `|chunk|` records laid out by EncodeAll appends exactly `chunk`, in order. */
  lemma {:induction false} ReadRecordsDecodes<T(!new)>(st: RecvState<T>, codec: Codec<T>, chunk: seq<T>)
    requires codec.Valid() && st.pos <= |st.buf| && EncodeAll(codec, chunk) <= st.buf[st.pos..]
    ensures ReadRecords(st, codec, |chunk|) ==
      RecvResult(Success, RecvState(st.buf, st.pos + |EncodeAll(codec, chunk)|, st.appended + chunk))
    decreases |chunk|
  {
    if chunk != [] {
      var all := EncodeAll(codec, chunk);
      var first := codec.enc(chunk[0]);
      var rest := EncodeAll(codec, chunk[1..]);
      assert all == first + rest;
      var end := st.pos + |first|;
      assert st.buf[st.pos..end] == first;
      assert codec.RoundTrips(chunk[0]);
      var next := RecvState(st.buf, end, st.appended + [chunk[0]]);
      assert rest <= st.buf[end..];
      ReadRecordsDecodes(next, codec, chunk[1..]);
      assert st.appended + [chunk[0]] + chunk[1..] == st.appended + chunk;
    }
  }

  /** The receive loop after one round, with the next `num_read` named. */
  lemma RecvLoopNext<T(!new)>(st: RecvState<T>, list: RemoteList, tag: U16, codec: Codec<T>, numRead: nat, next: nat)
    requires codec.Valid() && numRead < list.size && RemoteFits(list, |st.buf|) && Progress(list, tag)
    requires next == numRead + list.reply(numRead).count
    ensures ReplyFits(list, |st.buf|, numRead)
    ensures var rr := RecvRound(st, list.reply(numRead), list.size - numRead, tag, codec);
      (rr.outcome.Failure? ==> RecvLoop(st, list, tag, codec, numRead) == rr) &&
      (rr.outcome.Success? ==>
        (numRead < next <= list.size && RemoteFits(list, |rr.st.buf|) &&
         RecvLoop(st, list, tag, codec, numRead) == RecvLoop(rr.st, list, tag, codec, next)))
  {
    assert ReplyFits(list, |st.buf|, numRead) && ReplyCounts(list, tag, numRead);
    var m := list.reply(numRead);
    var rr := RecvRound(st, m, list.size - numRead, tag, codec);
    assert RecvLoop(st, list, tag, codec, numRead) ==
      if rr.outcome.Failure? then rr else RecvLoop(rr.st, list, tag, codec, next);
  }

  /**
    * The receive loop only ever appends, and when it ends normally it has
    * appended exactly the number of elements still expected.
    */
  lemma {:induction false} RecvLoopCount<T(!new)>(st: RecvState<T>, list: RemoteList, tag: U16, codec: Codec<T>, numRead: nat)
    requires codec.Valid()
    requires numRead <= list.size && RemoteFits(list, |st.buf|) && Progress(list, tag)
    ensures var r := RecvLoop(st, list, tag, codec, numRead);
      st.appended <= r.st.appended &&
      (r.outcome.Success? ==> |r.st.appended| == |st.appended| + (list.size - numRead))
    decreases list.size - numRead
  {
    if numRead < list.size {
      var m := list.reply(numRead);
      var next := numRead + m.count;
      RecvLoopNext(st, list, tag, codec, numRead, next);
      var rr := RecvRound(st, m, list.size - numRead, tag, codec);
      if rr.outcome.Success? {
        RecvLoopCount(rr.st, list, tag, codec, next);
      }
    }
  }

  /** A reply with the wrong type tag raises before anything of that round is appended. */
  lemma RecvRejectsTag<T(!new)>(st: RecvState<T>, list: RemoteList, tag: U16, codec: Codec<T>, numRead: nat)
    requires codec.Valid() && numRead < list.size && RemoteFits(list, |st.buf|) && Progress(list, tag)
    requires list.reply(numRead).tag != tag
    ensures var r := RecvLoop(st, list, tag, codec, numRead);
      r.outcome == Failure(UnexpectedDataType(list.reply(numRead).tag)) && r.st.appended == st.appended
  {
    assert ReplyFits(list, |st.buf|, numRead);
    MessageHeaderDecodes(st.buf, list.reply(numRead));
  }

  /** A reply reporting more elements than are still expected raises before anything of that round is appended. */
  lemma RecvRejectsOverReport<T(!new)>(st: RecvState<T>, list: RemoteList, tag: U16, codec: Codec<T>, numRead: nat)
    requires codec.Valid() && numRead < list.size && RemoteFits(list, |st.buf|) && Progress(list, tag)
    requires list.reply(numRead).tag == tag && list.reply(numRead).count > list.size - numRead
    ensures var r := RecvLoop(st, list, tag, codec, numRead);
      r.outcome == Failure(TooManyElements(list.reply(numRead).count)) && r.st.appended == st.appended
  {
    assert ReplyFits(list, |st.buf|, numRead);
    MessageHeaderDecodes(st.buf, list.reply(numRead));
  }

  /**
    * A Java side that replies with consecutive slices of `l`, each well
    * formed and counted, in whatever round sizes it chooses.
    */
  ghost predicate Honest<T(!new)>(list: RemoteList, l: seq<T>, tag: U16, codec: Codec<T>)
    requires codec.Valid()
  {
    list.size == |l| && forall k: nat :: k < |l| ==> HonestReply(list, l, tag, codec, k)
  }

  /** The reply at `num_read == k` carries the next 1 or more elements of `l`. */
  ghost predicate HonestReply<T(!new)>(list: RemoteList, l: seq<T>, tag: U16, codec: Codec<T>, k: nat)
    requires codec.Valid() && k < |l|
  {
    list.reply(k).tag == tag && 1 <= list.reply(k).count <= |l| - k &&
    list.reply(k).body == EncodeAll(codec, l[k..k + list.reply(k).count])
  }

  /** Against an honest Java side, one round appends the reply's slice of the list. */
  lemma RecvRoundHonest<T(!new)>(st: RecvState<T>, list: RemoteList, l: seq<T>, tag: U16, codec: Codec<T>, numRead: nat)
    requires codec.Valid() && Honest(list, l, tag, codec)
    requires numRead < list.size && ReplyFits(list, |st.buf|, numRead)
    ensures var m := list.reply(numRead);
      var rr := RecvRound(st, m, list.size - numRead, tag, codec);
      numRead + m.count <= |l| &&
      rr.outcome == Success && rr.st.appended == st.appended + l[numRead..numRead + m.count]
  {
    assert HonestReply(list, l, tag, codec, numRead);
    var m := list.reply(numRead);
    var buf := Overlay(st.buf, MessageBytes(m));
    MessageHeaderDecodes(st.buf, m);
    var after := RecvState(buf, HEADER_SIZE, st.appended);
    var chunk := l[numRead..numRead + m.count];
    assert buf[HEADER_SIZE..HEADER_SIZE + |m.body|] == m.body;
    ReadRecordsDecodes(after, codec, chunk);
  }

  /** An honest Java side always reports at least one element, so the receive loop advances. */
  lemma HonestProgress<T(!new)>(list: RemoteList, l: seq<T>, tag: U16, codec: Codec<T>)
    requires codec.Valid() && Honest(list, l, tag, codec)
    ensures Progress(list, tag)
  {
    forall k: nat | k < list.size
      ensures ReplyCounts(list, tag, k)
    {
      assert HonestReply(list, l, tag, codec, k);
    }
  }

  /** Against an honest Java side, one round of the receive loop appends the next slice and leaves the rest to do. */
  lemma RecvHonestStep<T(!new)>(st: RecvState<T>, list: RemoteList, l: seq<T>, tag: U16, codec: Codec<T>, numRead: nat)
    returns (after: RecvState<T>, next: nat)
    requires codec.Valid() && Honest(list, l, tag, codec) && Progress(list, tag)
    requires numRead < list.size && RemoteFits(list, |st.buf|)
    ensures numRead < next <= list.size && RemoteFits(list, |after.buf|)
    ensures after.appended == st.appended + l[numRead..next]
    ensures RecvLoop(st, list, tag, codec, numRead) == RecvLoop(after, list, tag, codec, next)
  {
    var m := list.reply(numRead);
    next := numRead + m.count;
    assert ReplyFits(list, |st.buf|, numRead);
    RecvRoundHonest(st, list, l, tag, codec, numRead);
    RecvLoopNext(st, list, tag, codec, numRead, next);
    after := RecvRound(st, m, list.size - numRead, tag, codec).st;
  }

  /** Against an honest Java side, the receive loop appends the rest of its list, in order. */
  lemma {:induction false} RecvHonest<T(!new)>(st: RecvState<T>, list: RemoteList, l: seq<T>, tag: U16, codec: Codec<T>, numRead: nat)
    requires codec.Valid() && Honest(list, l, tag, codec)
    requires numRead <= list.size && RemoteFits(list, |st.buf|)
    ensures Progress(list, tag)
    ensures var r := RecvLoop(st, list, tag, codec, numRead);
      r.outcome == Success && r.st.appended == st.appended + l[numRead..]
    decreases list.size - numRead
  {
    HonestProgress(list, l, tag, codec);
    if numRead < list.size {
      var after, next := RecvHonestStep(st, list, l, tag, codec, numRead);
      RecvHonest(after, list, l, tag, codec, next);
      AppendSlices(st.appended, l, numRead, next);
    }
  }

  lemma AppendSlices<T>(a: seq<T>, l: seq<T>, i: nat, j: nat)
    requires i <= j <= |l|
    ensures a + l[i..j] + l[j..] == a + l[i..]
  {
    assert l[i..j] + l[j..] == l[i..];
  }

  /**
    * The Java side echoing a list back: `num_read` selects the next slice of
    * at most `m` elements, as the send direction cuts it.
    */
  function EchoOf<T(!new)>(l: seq<T>, tag: U16, codec: Codec<T>, m: nat): (list: RemoteList)
    requires codec.Valid() && m >= 1 && |l| < 0x1_0000_0000
  {
    RemoteList(|l|, (k: nat) =>
      if k < |l| then
        var c := Min(m, |l| - k);
        Message(tag, c, EncodeAll(codec, l[k..k + c]))
      else Message(tag, 0, []))
  }

  /** The echo is an honest Java side whose replies fit a region that the send's rounds fit. */
  lemma EchoHonest<T(!new)>(l: seq<T>, tag: U16, codec: Codec<T>, mmapSize: nat)
    requires codec.Valid() && |l| < 0x1_0000_0000 && MaxElements(mmapSize, codec.size) >= 1
    ensures var echo := EchoOf(l, tag, codec, MaxElements(mmapSize, codec.size));
      Honest(echo, l, tag, codec) && RemoteFits(echo, mmapSize)
  {
    var m := MaxElements(mmapSize, codec.size);
    var echo := EchoOf(l, tag, codec, m);
    forall k: nat | k < |l|
      ensures HonestReply(echo, l, tag, codec, k) && ReplyFits(echo, mmapSize, k)
    {
      var c := Min(m, |l| - k);
      assert echo.reply(k) == Message(tag, c, EncodeAll(codec, l[k..k + c]));
      RoundFits(mmapSize, codec.size, c);
    }
  }

  /**
    * Round trip: the rounds a send writes carry the list in order, and the
    * list echoed back through a receive of the same record type comes back
    * unchanged, whatever the region held before.
    */
  lemma SendReceiveRoundTrip<T(!new)>(pylist: seq<T>, tag: U16, codec: Codec<T>, buf: seq<byte>)
    requires codec.Valid() && |pylist| < 0x1_0000_0000 && MaxElements(|buf|, codec.size) >= 1
    ensures var m := MaxElements(|buf|, codec.size);
      var echo := EchoOf(pylist, tag, codec, m);
      Flatten(Chunks(pylist, m)) == pylist &&
      RemoteFits(echo, |buf|) && Progress(echo, tag) &&
      var run := RecvLoop(RecvState(buf, 0, []), echo, tag, codec, 0);
      run.outcome == Success && run.st.appended == pylist
  {
    var m := MaxElements(|buf|, codec.size);
    var echo := EchoOf(pylist, tag, codec, m);
    ChunksFlatten(pylist, m);
    EchoHonest(pylist, tag, codec, |buf|);
    RecvHonest(RecvState(buf, 0, []), echo, pylist, tag, codec, 0);
    assert [] + pylist[0..] == pylist;
  }

  // ================================================================ receive: the loop

  /** One record read by the inner receive loop, as the loop body sees it. */
  lemma ReadRecordsStep<T(!new)>(st: RecvState<T>, codec: Codec<T>, n: nat, end: nat, bytes: seq<byte>, rest: nat)
    requires n > 0 && st.pos <= end <= |st.buf| && end == Min(st.pos + codec.size, |st.buf|)
    requires bytes == st.buf[st.pos..end] && rest == n - 1
    ensures var d := codec.dec(bytes);
      ReadRecords(st, codec, n) ==
        if d.None? then RecvResult(Failure(StructError), RecvState(st.buf, end, st.appended))
        else ReadRecords(RecvState(st.buf, end, st.appended + [d.value]), codec, rest)
  {
  }

  /**
    * The inner loop of a receive round: `num_found` times, read one record
    * at the cursor, unpack it and append it to `pylist`.
    */
  method ReadRound<T(!new)>(mm: MmapFile, codec: Codec<T>, count: nat, pylist: PyList<T>) returns (r: Outcome)
    requires mm.Valid()
    modifies mm, pylist
    ensures mm.Valid()
    ensures var rr := ReadRecords(RecvState(mm.data[..], old(mm.pos), old(pylist.items)), codec, count);
      r == rr.outcome && mm.pos == rr.st.pos && pylist.items == rr.st.appended
  {
    ghost var st := RecvState(mm.data[..], mm.pos, pylist.items);
    ghost var run := ReadRecords(st, codec, count);
    ghost var left := count;
    var i := 0;
    while i < count
      invariant 0 <= i <= count && left == count - i && mm.Valid()
      invariant st == RecvState(mm.data[..], mm.pos, pylist.items)
      invariant run == ReadRecords(st, codec, left)
    {
      var bytes := mm.Read(codec.size);
      ghost var rest := left - 1;
      ReadRecordsStep(st, codec, left, mm.pos, bytes, rest);
      var d := codec.dec(bytes);
      if d.None? {
        return Failure(StructError);
      }
      pylist.items := pylist.items + [d.value];
      st := RecvState(st.buf, mm.pos, st.appended + [d.value]);
      i := i + 1;
      left := rest;
    }
    return Success;
  }

  /**
    * One iteration of the receive loop: ask the Java side for the round at
    * `num_read`, check its header, read its records. `found` is the count
    * the header reports.
    */
  method ReceiveRound<T(!new)>(mm: MmapFile, peer: Peer, list: RemoteList, numRead: nat, tag: U16, codec: Codec<T>,
                               pylist: PyList<T>, ghost st: RecvState<T>) returns (r: Outcome, found: nat)
    requires mm.Valid() && codec.Valid() && st == RecvState(mm.data[..], mm.pos, pylist.items)
    requires numRead < list.size && |MessageBytes(list.reply(numRead))| <= mm.data.Length
    modifies mm, mm.data, pylist
    ensures mm.Valid() && found == list.reply(numRead).count
    ensures var rr := RecvRound(st, list.reply(numRead), list.size - numRead, tag, codec);
      r == rr.outcome && RecvState(mm.data[..], mm.pos, pylist.items) == rr.st
  {
    ghost var m := list.reply(numRead);
    MessageHeaderDecodes(mm.data[..], m);
    peer.WriteList(mm, list, numRead);
    mm.Seek(0);
    var hb := mm.Read(HEADER_SIZE);
    assert hb == mm.data[..][..HEADER_SIZE];
    var header := DecodeHeader(hb).value;
    found := header.count;
    if header.tag != tag {
      return Failure(UnexpectedDataType(header.tag)), found;
    }
    if header.count > list.size - numRead {
      return Failure(TooManyElements(header.count)), found;
    }
    r := ReadRound(mm, codec, header.count, pylist);
  }

  /** What the receive loop has left to do equals what the whole loop does. */
  ghost predicate RecvInv<T(!new)>(run: RecvResult<T>, st: RecvState<T>, list: RemoteList, tag: U16, codec: Codec<T>,
                                   numRead: nat)
  {
    codec.Valid() && numRead <= list.size && RemoteFits(list, |st.buf|) && Progress(list, tag) &&
    run == RecvLoop(st, list, tag, codec, numRead)
  }

  /** One round of the receive loop keeps RecvInv, or ends the loop with that round's result. */
  lemma RecvInvStep<T(!new)>(run: RecvResult<T>, st: RecvState<T>, list: RemoteList, tag: U16, codec: Codec<T>,
                             numRead: nat, next: nat, rr: RecvResult<T>)
    requires RecvInv(run, st, list, tag, codec, numRead) && numRead < list.size
    requires next == numRead + list.reply(numRead).count
    requires rr == RecvRound(st, list.reply(numRead), list.size - numRead, tag, codec)
    ensures |MessageBytes(list.reply(numRead))| <= |st.buf|
    ensures rr.outcome.Failure? ==> run == rr
    ensures rr.outcome.Success? ==> numRead < next && RecvInv(run, rr.st, list, tag, codec, next)
  {
    RecvLoopNext(st, list, tag, codec, numRead, next);
  }

  /**
    * mmap_list_*_to_python: asks the Java side for rounds until `num_read`
    * reaches `java_list.size()`, appending the decoded records to `pylist`.
    */
  method ReceiveList<T(!new)>(mm: MmapFile, peer: Peer, list: RemoteList, tag: U16, codec: Codec<T>, pylist: PyList<T>)
    returns (r: Outcome)
    requires mm.Valid() && codec.Valid()
    requires RemoteFits(list, mm.data.Length) && Progress(list, tag)
    modifies mm, mm.data, pylist
    ensures mm.Valid()
    ensures var run := RecvLoop(RecvState(old(mm.data[..]), old(mm.pos), old(pylist.items)), list, tag, codec, 0);
      r == run.outcome && mm.data[..] == run.st.buf && mm.pos == run.st.pos && pylist.items == run.st.appended
  {
    var numElements := list.size;
    var numRead := 0;
    ghost var st := RecvState(mm.data[..], mm.pos, pylist.items);
    ghost var run := RecvLoop(st, list, tag, codec, 0);
    while numRead < numElements
      invariant numRead <= numElements && mm.Valid()
      invariant st == RecvState(mm.data[..], mm.pos, pylist.items) && |st.buf| == mm.data.Length
      invariant RecvInv(run, st, list, tag, codec, numRead)
      decreases numElements - numRead
    {
      ghost var next := numRead + list.reply(numRead).count;
      ghost var rr := RecvRound(st, list.reply(numRead), list.size - numRead, tag, codec);
      RecvInvStep(run, st, list, tag, codec, numRead, next, rr);
      var found;
      r, found := ReceiveRound(mm, peer, list, numRead, tag, codec, pylist, st);
      if r.Failure? {
        return r;
      }
      st := rr.st;
      numRead := numRead + found;
      assert numRead == next;
    }
    return Success;
  }
}
