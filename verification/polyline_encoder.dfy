/** A ghost encoder for Google's Encoded Polyline Algorithm Format, the
    inverse the decoder of `MapUtil.decodePolyline` is checked against. The
    app never encodes; the encoder exists only to state the round trip. */
module PolylineEncoder {
  import opened Wrappers
  import opened Polyline

  /** The character that carries a 6-bit chunk. */
  ghost function CharOf(chunk: nat): (c: char)
    requires chunk < 2 * ContinuationBit
    ensures Chunk(c) == chunk
  {
    (chunk + Offset) as char
  }

  /** Zig-zag encoding: non-negative deltas to even raw values, negative
      ones to odd raw values. The decoder's `ZigZag` undoes it. */
  ghost function ZigZagEncode(d: int): (raw: nat)
    ensures ZigZag(raw) == d
  {
    if d >= 0 then 2 * d else -2 * d - 1
  }

  /** Groups of five bits, least significant first; every group but the
      last carries the continuation bit. */
  ghost function EncodeVarint(n: nat): string
    decreases n
  {
    if n < ContinuationBit then [CharOf(n)]
    else [CharOf(n % ContinuationBit + ContinuationBit)] + EncodeVarint(n / ContinuationBit)
  }

  ghost function EncodeValue(d: int): string {
    EncodeVarint(ZigZagEncode(d))
  }

  /** Each delta as a latitude varint followed by a longitude varint. */
  ghost function EncodeDeltas(ds: seq<Point>): string {
    if ds == [] then []
    else EncodeValue(ds[0].lat) + EncodeValue(ds[0].lng) + EncodeDeltas(ds[1..])
  }

  /** The deltas between consecutive points, the first taken from `prev`. */
  ghost function Differences(pts: seq<Point>, prev: Point): seq<Point> {
    if pts == [] then []
    else [Point(pts[0].lat - prev.lat, pts[0].lng - prev.lng)] + Differences(pts[1..], pts[0])
  }

  /** The Google encoding of a sequence of E5 points. */
  ghost function Encode(pts: seq<Point>): string {
    EncodeDeltas(Differences(pts, Point(0, 0)))
  }

  /*************************************************************************
   * Varints
   *************************************************************************/

  /** An encoded varint is a run of continuation characters closed by one
      terminating character. */
  lemma {:induction false} EncodeVarintShape(n: nat)
    ensures |EncodeVarint(n)| >= 1
    ensures forall k :: 0 <= k < |EncodeVarint(n)| - 1 ==> Continues(EncodeVarint(n)[k])
    ensures !Continues(EncodeVarint(n)[|EncodeVarint(n)| - 1])
    decreases n
  {
    if n >= ContinuationBit {
      EncodeVarintShape(n / ContinuationBit);
    }
  }

  /** The groups of an encoded varint, weighted from position `k` on, add
      up to the encoded number shifted left by `5 * k`. */
  lemma {:induction false} EncodeVarintWeights(n: nat, k: nat)
    ensures WeightedSum(EncodeVarint(n), k) == n * Pow2(GroupBits * k)
    decreases n
  {
    var e := EncodeVarint(n);
    var p := Pow2(GroupBits * k);
    if n < ContinuationBit {
      assert e[1..] == [];
      assert Group(e[0]) == n;
    } else {
      var q := n / ContinuationBit;
      assert e[1..] == EncodeVarint(q);
      assert Group(e[0]) == n % ContinuationBit;
      EncodeVarintWeights(q, k + 1);
      assert WeightedSum(e, k) == (n % ContinuationBit) * p + WeightedSum(EncodeVarint(q), k + 1);
      assert Pow2(GroupBits * (k + 1)) == 32 * p by {
        Pow2Step(GroupBits * k);
        assert GroupBits * (k + 1) == GroupBits * k + GroupBits;
      }
      Recombine(n, p);
    }
  }

  /** Splitting a number into its low group and the rest, both weighted. */
  lemma Recombine(n: nat, p: nat)
    ensures (n % 32) * p + (n / 32) * (32 * p) == n * p
  {
    var lo := n % 32;
    var hi := n / 32;
    assert n == lo + 32 * hi;
    calc {
      lo * p + hi * (32 * p);
      { assert hi * (32 * p) == (32 * hi) * p; }
      lo * p + (32 * hi) * p;
      (lo + 32 * hi) * p;
    }
  }

  /** `VarintAt` fixes where a varint starting at `i` ends. */
  lemma VarintEndUnique(s: string, i: nat, j: nat, j': nat)
    requires VarintAt(s, i, j) && VarintAt(s, i, j')
    ensures j == j'
  {
  }

  /** Reading at the start of an encoded varint, whatever precedes or
      follows it, consumes exactly that varint and returns its number. */
  lemma ReadEncodedVarint(pre: string, n: nat, post: string)
    ensures var s := pre + EncodeVarint(n) + post;
            ReadVarint(s, |pre|) == Success(Varint(n, |pre| + |EncodeVarint(n)|))
  {
    SliceMiddle(pre, EncodeVarint(n), post);
    ReadVarintOfEncoding(pre + EncodeVarint(n) + post, |pre|, n);
  }

  /** The same, for a string that holds the encoding of `n` at `i`. */
  lemma ReadVarintOfEncoding(s: string, i: nat, n: nat)
    requires i + |EncodeVarint(n)| <= |s|
    requires s[i..i + |EncodeVarint(n)|] == EncodeVarint(n)
    ensures ReadVarint(s, i) == Success(Varint(n, i + |EncodeVarint(n)|))
  {
    var j := i + |EncodeVarint(n)|;
    EncodedVarintAt(s, i, n);
    var r := ReadVarint(s, i);
    assert !Continues(s[j - 1]);
    assert r.Success?;
    VarintEndUnique(s, i, j, r.value.next);
    EncodeVarintWeights(n, 0);
  }

  /** An encoded varint embedded anywhere is a complete varint there. */
  lemma EncodedVarintAt(s: string, i: nat, n: nat)
    requires i + |EncodeVarint(n)| <= |s|
    requires s[i..i + |EncodeVarint(n)|] == EncodeVarint(n)
    ensures VarintAt(s, i, i + |EncodeVarint(n)|)
  {
    var e := EncodeVarint(n);
    EncodeVarintShape(n);
    forall k | i <= k < i + |e|
      ensures s[k] == e[k - i]
    {
    }
  }

  /*************************************************************************
   * Round trip
   *************************************************************************/

  /** The decoder's pair reader recovers every delta the encoder wrote, and
      nothing else. */
  lemma {:induction false} DeltasOfEncoding(pre: string, ds: seq<Point>)
    ensures |pre| <= |pre + EncodeDeltas(ds)|
    ensures DeltasFrom(pre + EncodeDeltas(ds), |pre|) == Success(ds)
    decreases |ds|
  {
    var s := pre + EncodeDeltas(ds);
    if ds == [] {
      assert s == pre;
    } else {
      var a := ZigZagEncode(ds[0].lat);
      var b := ZigZagEncode(ds[0].lng);
      var e := EncodeVarint(a) + EncodeVarint(b);
      var tail := EncodeDeltas(ds[1..]);
      assert s == pre + e + tail;
      ReadEncodedPair(pre, a, b, tail);
      assert Point(ZigZag(a), ZigZag(b)) == ds[0];
      assert s == (pre + e) + tail;
      DeltasOfEncoding(pre + e, ds[1..]);
      assert ds == [ds[0]] + ds[1..];
    }
  }

  /** Reading a pair at the start of two encoded varints, whatever surrounds
      them, consumes exactly those varints and zig-zag decodes their numbers. */
  lemma ReadEncodedPair(pre: string, a: nat, b: nat, post: string)
    ensures ReadPair(pre + (EncodeVarint(a) + EncodeVarint(b)) + post, |pre|)
         == Success(Pair(Point(ZigZag(a), ZigZag(b)), |pre| + |EncodeVarint(a)| + |EncodeVarint(b)|))
  {
    var e1 := EncodeVarint(a);
    var e2 := EncodeVarint(b);
    var s := pre + (e1 + e2) + post;
    var j := |pre| + |e1|;
    Regroup(pre, e1, e2, post);
    SliceMiddle(pre, e1, e2 + post);
    SliceMiddle(pre + e1, e2, post);
    ReadVarintOfEncoding(s, |pre|, a);
    ReadVarintOfEncoding(s, j, b);
    ReadPairOf(s, |pre|, Varint(a, j), Varint(b, j + |e2|));
  }

  lemma Regroup<T>(a: seq<T>, b: seq<T>, c: seq<T>, d: seq<T>)
    ensures a + (b + c) + d == a + b + (c + d)
    ensures a + (b + c) + d == (a + b) + c + d
  {
  }

  lemma SliceMiddle<T>(a: seq<T>, b: seq<T>, c: seq<T>)
    ensures (a + b + c)[|a|..|a| + |b|] == b
  {
  }

  /** `ReadPair` is the zig-zag of the two `ReadVarint` results it chains. */
  lemma ReadPairOf(s: string, i: nat, lat: Varint, lng: Varint)
    requires i <= lat.next <= |s|
    requires ReadVarint(s, i) == Success(lat)
    requires ReadVarint(s, lat.next) == Success(lng)
    ensures ReadPair(s, i) == Success(Pair(Point(ZigZag(lat.raw), ZigZag(lng.raw)), lng.next))
  {
  }

  lemma {:induction false} DifferencesLength(pts: seq<Point>, prev: Point)
    ensures |Differences(pts, prev)| == |pts|
    decreases |pts|
  {
    if pts != [] {
      DifferencesLength(pts[1..], pts[0]);
    }
  }

  /** Summing the differences back up telescopes to the points. */
  lemma {:induction false} DifferencesTelescope(pts: seq<Point>, prev: Point, i: nat)
    requires i < |pts|
    ensures |Differences(pts, prev)| == |pts|
    ensures Add(prev, Total(Differences(pts, prev)[..i + 1])) == pts[i]
    decreases |pts|
  {
    DifferencesLength(pts, prev);
    var ds := Differences(pts, prev);
    var d0 := Point(pts[0].lat - prev.lat, pts[0].lng - prev.lng);
    assert ds == [d0] + Differences(pts[1..], pts[0]);
    if i == 0 {
      assert ds[..1][1..] == [];
    } else {
      DifferencesTelescope(pts[1..], pts[0], i - 1);
      assert ds[..i + 1][1..] == Differences(pts[1..], pts[0])[..i];
    }
  }

  /** Decoding is a left inverse of the encoder: the Google encoding of any
      sequence of E5 points decodes to exactly those points. */
  lemma RoundTrip(pts: seq<Point>)
    ensures Decode(Encode(pts)) == Success(pts)
  {
    var s := Encode(pts);
    var ds := Differences(pts, Point(0, 0));
    DeltasOfEncoding([], ds);
    assert [] + s == s;
    assert DeltasFrom(s, 0) == Success(ds);
    DecodeFromIsPrefixSums(s, 0, 0, 0);
    DifferencesLength(pts, Point(0, 0));
    var r := DecodeFrom(s, 0, 0, 0);
    assert r.Success? && |r.value| == |pts|;
    forall i | 0 <= i < |pts|
      ensures r.value[i] == pts[i]
    {
      DifferencesTelescope(pts, Point(0, 0), i);
      assert r.value[i] == Add(Point(0, 0), Total(ds[..i + 1]));
    }
    assert r.value == pts;
    assert Decode(s) == r;
  }

  /** Decoding a delta sequence's encoding recovers the deltas. */
  lemma DeltasRoundTrip(ds: seq<Point>)
    ensures Deltas(EncodeDeltas(ds)) == Success(ds)
  {
    DeltasOfEncoding([], ds);
    assert [] + EncodeDeltas(ds) == EncodeDeltas(ds);
  }

  /** The reference example of the format's documentation: the points
      (38.5, -120.2), (40.7, -120.95), (43.252, -126.453). */
  lemma StandardVector()
    ensures Decode("_p~iF~ps|U_ulLnnqC_mqNvxq`@")
         == Success([Point(3850000, -12020000), Point(4070000, -12095000), Point(4325200, -12645300)])
  {
    var pts := [Point(3850000, -12020000), Point(4070000, -12095000), Point(4325200, -12645300)];
    StandardVectorEncoding();
    RoundTrip(pts);
  }

  lemma StandardVectorEncoding()
    ensures Encode([Point(3850000, -12020000), Point(4070000, -12095000), Point(4325200, -12645300)])
         == "_p~iF~ps|U_ulLnnqC_mqNvxq`@"
  {
    StandardVectorDifferences();
    StandardVectorDeltas();
  }

  lemma StandardVectorDifferences()
    ensures Differences([Point(3850000, -12020000), Point(4070000, -12095000), Point(4325200, -12645300)], Point(0, 0))
         == [Point(3850000, -12020000), Point(220000, -75000), Point(255200, -550300)]
  {
    var pts := [Point(3850000, -12020000), Point(4070000, -12095000), Point(4325200, -12645300)];
    assert pts[2..][1..] == [];
    assert pts[1..][1..] == pts[2..];
  }

  lemma StandardVectorDeltas()
    ensures EncodeDeltas([Point(3850000, -12020000), Point(220000, -75000), Point(255200, -550300)])
         == "_p~iF~ps|U_ulLnnqC_mqNvxq`@"
  {
    var ds := [Point(3850000, -12020000), Point(220000, -75000), Point(255200, -550300)];
    StandardVectorTail();
    assert ds[1..] == [Point(220000, -75000), Point(255200, -550300)];
    StandardVectorValues();
  }

  lemma StandardVectorTail()
    ensures EncodeDeltas([Point(220000, -75000), Point(255200, -550300)]) == "_ulLnnqC_mqNvxq`@"
  {
    var two := [Point(220000, -75000), Point(255200, -550300)];
    var last := [Point(255200, -550300)];
    StandardVectorValues();
    assert EncodeDeltas(last) == "_mqNvxq`@" by {
      assert last[1..] == [];
    }
    assert two[1..] == last;
  }

  lemma StandardVectorValues()
    ensures EncodeValue(3850000) == "_p~iF" && EncodeValue(-12020000) == "~ps|U"
    ensures EncodeValue(220000) == "_ulL" && EncodeValue(-75000) == "nnqC"
    ensures EncodeValue(255200) == "_mqN" && EncodeValue(-550300) == "vxq`@"
  {
    FirstPointValues();
    SecondPointValues();
    ThirdPointValues();
  }

  lemma FirstPointValues()
    ensures EncodeValue(3850000) == "_p~iF" && EncodeValue(-12020000) == "~ps|U"
  {
    assert EncodeValue(3850000) == "_p~iF" by {
      assert EncodeVarint(7) == "F";
      assert EncodeVarint(234) == "iF";
      assert EncodeVarint(7519) == "~iF";
      assert EncodeVarint(240625) == "p~iF";
      assert EncodeVarint(7700000) == "_p~iF";
    }
    assert EncodeValue(-12020000) == "~ps|U" by {
      assert EncodeVarint(22) == "U";
      assert EncodeVarint(733) == "|U";
      assert EncodeVarint(23476) == "s|U";
      assert EncodeVarint(751249) == "ps|U";
      assert EncodeVarint(24039999) == "~ps|U";
    }
  }

  lemma SecondPointValues()
    ensures EncodeValue(220000) == "_ulL" && EncodeValue(-75000) == "nnqC"
  {
    assert EncodeValue(220000) == "_ulL" by {
      assert EncodeVarint(13) == "L";
      assert EncodeVarint(429) == "lL";
      assert EncodeVarint(13750) == "ulL";
      assert EncodeVarint(440000) == "_ulL";
    }
    assert EncodeValue(-75000) == "nnqC" by {
      assert EncodeVarint(4) == "C";
      assert EncodeVarint(146) == "qC";
      assert EncodeVarint(4687) == "nqC";
      assert EncodeVarint(149999) == "nnqC";
    }
  }

  lemma ThirdPointValues()
    ensures EncodeValue(255200) == "_mqN" && EncodeValue(-550300) == "vxq`@"
  {
    assert EncodeValue(255200) == "_mqN" by {
      assert EncodeVarint(15) == "N";
      assert EncodeVarint(498) == "qN";
      assert EncodeVarint(15950) == "mqN";
      assert EncodeVarint(510400) == "_mqN";
    }
    assert EncodeValue(-550300) == "vxq`@" by {
      assert EncodeVarint(1) == "@";
      assert EncodeVarint(33) == "`@";
      assert EncodeVarint(1074) == "q`@";
      assert EncodeVarint(34393) == "xq`@";
      assert EncodeVarint(1100599) == "vxq`@";
    }
  }
}
