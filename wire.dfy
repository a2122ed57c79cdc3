/**
  * The byte layouts of the memory-mapped transfer: the `>HI` message header
  * (u16 type tag, u32 element count, big-endian), the `>2d` point record and
  * the `>4d` associated-pair record. A double is an opaque 64-bit pattern:
  * `struct` writes its eight bytes most significant first, and nothing here
  * depends on IEEE-754 arithmetic.
  */
module Wire {
  import opened Outcomes

  type byte = b: int | 0 <= b < 256
  type U16 = v: int | 0 <= v < 0x1_0000
  type U32 = v: int | 0 <= v < 0x1_0000_0000
  /** The bit pattern of an IEEE-754 double. */
  type Double = v: int | 0 <= v < 0x1_0000_0000_0000_0000

  const HEADER_SIZE: nat := 6   // struct.calcsize('>HI')
  const DOUBLE_SIZE: nat := 8   // struct.calcsize('>d')

  function Pow256(n: nat): (r: nat)
    ensures r >= 1
  {
    if n == 0 then 1 else 256 * Pow256(n - 1)
  }

  lemma Pow256Widths()
    ensures Pow256(2) == 0x1_0000
    ensures Pow256(4) == 0x1_0000_0000
    ensures Pow256(8) == 0x1_0000_0000_0000_0000
  {
    assert Pow256(1) == 256;
    assert Pow256(2) == 0x1_0000;
    assert Pow256(3) == 0x100_0000;
    assert Pow256(4) == 0x1_0000_0000;
    assert Pow256(6) == 0x1_0000_0000_0000;
    assert Pow256(8) == 0x1_0000_0000_0000_0000;
  }

  /** The `width` bytes of `v`, most significant first. */
  function ToBigEndian(v: nat, width: nat): (r: seq<byte>)
    requires v < Pow256(width)
    ensures |r| == width
  {
    if width == 0 then []
    else ToBigEndian(v / 256, width - 1) + [v % 256]
  }

  /** The unsigned integer whose big-endian bytes are `s`. */
  function FromBigEndian(s: seq<byte>): (r: nat)
    ensures r < Pow256(|s|)
  {
    if |s| == 0 then 0
    else FromBigEndian(s[..|s| - 1]) * 256 + s[|s| - 1]
  }

  lemma {:induction false} FromToBigEndian(v: nat, width: nat)
    requires v < Pow256(width)
    ensures FromBigEndian(ToBigEndian(v, width)) == v
  {
    if width > 0 {
      var s := ToBigEndian(v, width);
      assert s[..width - 1] == ToBigEndian(v / 256, width - 1);
      FromToBigEndian(v / 256, width - 1);
    }
  }

  lemma {:induction false} ToFromBigEndian(s: seq<byte>)
    ensures ToBigEndian(FromBigEndian(s), |s|) == s
  {
    if |s| > 0 {
      var prefix, last := s[..|s| - 1], s[|s| - 1];
      var v := FromBigEndian(s);
      assert v / 256 == FromBigEndian(prefix) && v % 256 == last;
      ToFromBigEndian(prefix);
      assert s == prefix + [last];
    }
  }

  // ---------------------------------------------------------------- header

  datatype Header = Header(tag: U16, count: U32)

  /** struct.pack('>HI', tag, count). */
  function EncodeHeader(h: Header): (r: seq<byte>)
    ensures |r| == HEADER_SIZE
  {
    Pow256Widths();
    ToBigEndian(h.tag, 2) + ToBigEndian(h.count, 4)
  }

  /** struct.unpack('>HI', s): exactly six bytes, otherwise struct.error. */
  function DecodeHeader(s: seq<byte>): (r: Option<Header>)
    ensures r.Some? <==> |s| == HEADER_SIZE
  {
    if |s| != HEADER_SIZE then None
    else
      Pow256Widths();
      Some(Header(FromBigEndian(s[..2]), FromBigEndian(s[2..])))
  }

  lemma HeaderRoundTrip(h: Header)
    ensures |EncodeHeader(h)| == HEADER_SIZE
    ensures DecodeHeader(EncodeHeader(h)) == Some(h)
  {
    Pow256Widths();
    var s := EncodeHeader(h);
    assert s[..2] == ToBigEndian(h.tag, 2) && s[2..] == ToBigEndian(h.count, 4);
    FromToBigEndian(h.tag, 2);
    FromToBigEndian(h.count, 4);
  }

  /** Every six bytes are the encoding of exactly one header. */
  lemma HeaderBytesRoundTrip(s: seq<byte>)
    requires |s| == HEADER_SIZE
    ensures DecodeHeader(s).Some? && EncodeHeader(DecodeHeader(s).value) == s
  {
    Pow256Widths();
    ToFromBigEndian(s[..2]);
    ToFromBigEndian(s[2..]);
    assert s == s[..2] + s[2..];
  }

  // ---------------------------------------------------------------- doubles

  /** struct.pack('>nd', ds...) for n == |ds|. */
  function PackDoubles(ds: seq<Double>): (r: seq<byte>)
    ensures |r| == DOUBLE_SIZE * |ds|
  {
    if ds == [] then []
    else
      Pow256Widths();
      ToBigEndian(ds[0], 8) + PackDoubles(ds[1..])
  }

  /** struct.unpack('>nd', s) for n == |s| / 8. */
  function UnpackDoubles(s: seq<byte>): (r: seq<Double>)
    requires |s| % DOUBLE_SIZE == 0
    ensures DOUBLE_SIZE * |r| == |s|
  {
    if |s| == 0 then []
    else
      Pow256Widths();
      [FromBigEndian(s[..8])] + UnpackDoubles(s[8..])
  }

  lemma {:induction false} UnpackPackDoubles(ds: seq<Double>)
    ensures UnpackDoubles(PackDoubles(ds)) == ds
  {
    if ds != [] {
      Pow256Widths();
      var s := PackDoubles(ds);
      assert s[..8] == ToBigEndian(ds[0], 8) && s[8..] == PackDoubles(ds[1..]);
      FromToBigEndian(ds[0], 8);
      UnpackPackDoubles(ds[1..]);
    }
  }

  lemma {:induction false} PackUnpackDoubles(s: seq<byte>)
    requires |s| % DOUBLE_SIZE == 0
    ensures PackDoubles(UnpackDoubles(s)) == s
  {
    if |s| > 0 {
      Pow256Widths();
      var ds := UnpackDoubles(s);
      assert ds[0] == FromBigEndian(s[..8]) && ds[1..] == UnpackDoubles(s[8..]);
      ToFromBigEndian(s[..8]);
      PackUnpackDoubles(s[8..]);
      assert s == s[..8] + s[8..];
    }
  }

  // ---------------------------------------------------------------- records

  /** A Python point tuple (x, y). */
  type PointTuple = (Double, Double)
  /** A Python associated pair ((x0, y0), (x1, y1)). */
  type PairTuple = (PointTuple, PointTuple)

  const POINT_SIZE: nat := 2 * DOUBLE_SIZE   // struct.calcsize('>2d')
  const PAIR_SIZE: nat := 4 * DOUBLE_SIZE    // struct.calcsize('>4d')

  /** struct.pack('>2d', x, y). */
  function EncodePoint(p: PointTuple): (r: seq<byte>)
    ensures |r| == POINT_SIZE
  {
    PackDoubles([p.0, p.1])
  }

  /** struct.unpack('>2d', s), kept as the tuple (x, y). */
  function DecodePoint(s: seq<byte>): (r: Option<PointTuple>)
    ensures r.Some? <==> |s| == POINT_SIZE
  {
    if |s| != POINT_SIZE then None
    else
      var ds := UnpackDoubles(s);
      Some((ds[0], ds[1]))
  }

  /** struct.pack('>4d', x0, y0, x1, y1). */
  function EncodePair(p: PairTuple): (r: seq<byte>)
    ensures |r| == PAIR_SIZE
  {
    PackDoubles([p.0.0, p.0.1, p.1.0, p.1.1])
  }

  /** struct.unpack('>4d', s), regrouped as ((x0, y0), (x1, y1)). */
  function DecodePair(s: seq<byte>): (r: Option<PairTuple>)
    ensures r.Some? <==> |s| == PAIR_SIZE
  {
    if |s| != PAIR_SIZE then None
    else
      var ds := UnpackDoubles(s);
      Some(((ds[0], ds[1]), (ds[2], ds[3])))
  }

  lemma PointRoundTrip(p: PointTuple)
    ensures |EncodePoint(p)| == POINT_SIZE
    ensures DecodePoint(EncodePoint(p)) == Some(p)
  {
    UnpackPackDoubles([p.0, p.1]);
  }

  /** Any sixteen bytes decode to a point that encodes back to them. */
  lemma PointBytesRoundTrip(s: seq<byte>)
    requires |s| == POINT_SIZE
    ensures DecodePoint(s).Some? && EncodePoint(DecodePoint(s).value) == s
  {
    var ds := UnpackDoubles(s);
    PackUnpackDoubles(s);
    assert ds == [ds[0], ds[1]];
  }

  lemma PairRoundTrip(p: PairTuple)
    ensures |EncodePair(p)| == PAIR_SIZE
    ensures DecodePair(EncodePair(p)) == Some(p)
  {
    UnpackPackDoubles([p.0.0, p.0.1, p.1.0, p.1.1]);
  }

  /** The record layout is x0, y0, x1, y1: each 8-byte field is one double. */
  lemma PairLayout(p: PairTuple)
    ensures var s := EncodePair(p);
      Pow256(8) == 0x1_0000_0000_0000_0000 &&
      s[0..8] == ToBigEndian(p.0.0, 8) && s[8..16] == ToBigEndian(p.0.1, 8) &&
      s[16..24] == ToBigEndian(p.1.0, 8) && s[24..32] == ToBigEndian(p.1.1, 8)
  {
    Pow256Widths();
    var ds := [p.0.0, p.0.1, p.1.0, p.1.1];
    assert PackDoubles(ds[4..]) == [];
    assert PackDoubles(ds[3..]) == ToBigEndian(ds[3], 8) + PackDoubles(ds[4..]);
    assert PackDoubles(ds[2..]) == ToBigEndian(ds[2], 8) + PackDoubles(ds[3..]);
    assert PackDoubles(ds[1..]) == ToBigEndian(ds[1], 8) + PackDoubles(ds[2..]);
    assert PackDoubles(ds) == ToBigEndian(ds[0], 8) + PackDoubles(ds[1..]);
  }

  lemma PairBytesRoundTrip(s: seq<byte>)
    requires |s| == PAIR_SIZE
    ensures DecodePair(s).Some? && EncodePair(DecodePair(s).value) == s
  {
    var ds := UnpackDoubles(s);
    PackUnpackDoubles(s);
    assert ds == [ds[0], ds[1], ds[2], ds[3]];
  }

  // ---------------------------------------------------------------- codecs

  /** A fixed-width record layout: what the chunked transfer needs of a type. */
  datatype Codec<!T(!new)> = Codec(size: nat, enc: T -> seq<byte>, dec: seq<byte> -> Option<T>)
  {
    ghost predicate Valid()
    {
      size > 0 &&
      (forall t :: |enc(t)| == size) &&
      (forall t :: RoundTrips(t)) &&
      (forall s :: DecodesExactly(s)) &&
      (forall s :: EncodesBack(s))
    }

    /** Decoding the encoding of `t` gives back `t`. */
    ghost predicate RoundTrips(t: T)
    {
      dec(enc(t)) == Some(t)
    }

    /** Decoding `s` succeeds exactly when `s` is one record long (struct.error otherwise). */
    ghost predicate DecodesExactly(s: seq<byte>)
    {
      dec(s).Some? <==> |s| == size
    }

    /** Encoding what a record's bytes decode to gives back those bytes. */
    ghost predicate EncodesBack(s: seq<byte>)
    {
      |s| == size && dec(s).Some? ==> enc(dec(s).value) == s
    }
  }

  function PointCodec(): Codec<PointTuple>
  {
    Codec(POINT_SIZE, EncodePoint, DecodePoint)
  }

  function PairCodec(): Codec<PairTuple>
  {
    Codec(PAIR_SIZE, EncodePair, DecodePair)
  }

  lemma PointCodecValid()
    ensures PointCodec().Valid() && PointCodec().size == 16
  {
    var c := PointCodec();
    forall p: PointTuple ensures |EncodePoint(p)| == POINT_SIZE && c.RoundTrips(p) {
      PointRoundTrip(p);
    }
    forall s ensures c.DecodesExactly(s) && c.EncodesBack(s) {
      if |s| == POINT_SIZE { PointBytesRoundTrip(s); }
    }
  }

  lemma PairCodecValid()
    ensures PairCodec().Valid() && PairCodec().size == 32
  {
    var c := PairCodec();
    forall p: PairTuple ensures |EncodePair(p)| == PAIR_SIZE && c.RoundTrips(p) {
      PairRoundTrip(p);
    }
    forall s ensures c.DecodesExactly(s) && c.EncodesBack(s) {
      if |s| == PAIR_SIZE { PairBytesRoundTrip(s); }
    }
  }

  /** The records of `s`, one after another, with no delimiters. */
  function EncodeAll<T(!new)>(codec: Codec<T>, s: seq<T>): (r: seq<byte>)
    requires codec.Valid()
    ensures |r| == codec.size * |s|
  {
    if s == [] then [] else codec.enc(s[0]) + EncodeAll(codec, s[1..])
  }

  /** Decodes `n` consecutive records. */
  function DecodeAll<T(!new)>(codec: Codec<T>, bytes: seq<byte>, n: nat): (r: seq<T>)
    requires codec.Valid() && |bytes| == codec.size * n
    ensures |r| == n
  {
    if n == 0 then []
    else
      assert codec.DecodesExactly(bytes[..codec.size]);
      [codec.dec(bytes[..codec.size]).value] + DecodeAll(codec, bytes[codec.size..], n - 1)
  }

  lemma {:induction false} EncodeAllAppend<T(!new)>(codec: Codec<T>, a: seq<T>, b: seq<T>)
    requires codec.Valid()
    ensures EncodeAll(codec, a + b) == EncodeAll(codec, a) + EncodeAll(codec, b)
  {
    if a != [] {
      var ab := a + b;
      assert ab[0] == a[0] && ab[1..] == a[1..] + b;
      EncodeAllAppend(codec, a[1..], b);
      assert EncodeAll(codec, ab) == codec.enc(a[0]) + EncodeAll(codec, a[1..] + b);
    } else {
      assert a + b == b;
    }
  }

  lemma {:induction false} DecodeEncodeAll<T(!new)>(codec: Codec<T>, s: seq<T>)
    requires codec.Valid()
    ensures DecodeAll(codec, EncodeAll(codec, s), |s|) == s
  {
    if s != [] {
      var bytes := EncodeAll(codec, s);
      assert bytes[..codec.size] == codec.enc(s[0]);
      assert bytes[codec.size..] == EncodeAll(codec, s[1..]);
      assert codec.RoundTrips(s[0]);
      DecodeEncodeAll(codec, s[1..]);
    }
  }
}
