/** The decoder of Google's Encoded Polyline Algorithm Format used by
    `MapUtil.decodePolyline`.

    An encoded polyline is a string of printable characters. Each character
    carries one 6-bit chunk (its code minus 63). A chunk's low five bits are
    payload and its 0x20 bit says that the value continues in the next
    character, least-significant group first. Every value is zig-zag encoded,
    and values come in (latitude delta, longitude delta) pairs that are summed
    into running E5 coordinates (units of 1e-5 degree).

    Points stay E5 integers here; the final division by 1e5 into doubles is
    not modelled. */
module Polyline {
  import opened Wrappers

  /** Added to every chunk to make it a printable character. */
  const Offset: int := 63
  /** Payload bits of a chunk (`b and 0x1f`). */
  const GroupMask: int := 0x1f
  /** The continuation bit of a chunk (`b >= 0x20`). */
  const ContinuationBit: int := 0x20
  /** Payload bits per group (`shift += 5`). */
  const GroupBits: nat := 5

  /** A coordinate pair in E5 units. Decoded points and the deltas between
      them share this shape. */
  datatype Point = Point(lat: int, lng: int)

  /** `encoded[index++]` past the end of the string throws; that is the only
      way decoding can fail. */
  datatype DecodeError = Truncated

  /** One decoded variable-length value: its raw (still zig-zagged) value and
      the index just past its last character. */
  datatype Varint = Varint(raw: nat, next: nat)

  function Add(p: Point, q: Point): Point {
    Point(p.lat + q.lat, p.lng + q.lng)
  }

  /** `encoded[i].code - 63`; negative for characters below '?'. */
  function Chunk(c: char): int {
    c as int - Offset
  }

  /** The loop condition `b >= 0x20` of the inner do-while. */
  predicate Continues(c: char) {
    Chunk(c) >= ContinuationBit
  }

  /** `b and 0x1f`. On two's complement integers masking the low five bits
      is the Euclidean remainder modulo 32, also for negative `b`. */
  function Group(c: char): (g: nat)
    ensures g <= GroupMask
  {
    Chunk(c) % (GroupMask + 1)
  }

  /** `1 shl k`, exact as long as the shifted value stays below 2^31. */
  function Pow2(k: nat): (p: nat)
    ensures p >= 1
  {
    if k == 0 then 1 else 2 * Pow2(k - 1)
  }

  /*************************************************************************
   * Reference definitions
   *************************************************************************/

  /** The sum over the characters of `cs` of `Group(cs[t]) shl 5 * (k + t)`. */
  ghost function WeightedSum(cs: seq<char>, k: nat): int
  {
    if cs == [] then 0
    else Group(cs[0]) * Pow2(GroupBits * k) + WeightedSum(cs[1..], k + 1)
  }

  /** The value a run of characters denotes: its groups, least significant
      first, each shifted left by five bits more than the previous one. */
  ghost function GroupSum(cs: seq<char>): int {
    WeightedSum(cs, 0)
  }

  /** `s[i..j]` is one complete varint: every character but the last has the
      continuation bit and the last one does not. */
  ghost predicate VarintAt(s: string, i: nat, j: nat) {
    && i < j <= |s|
    && (forall k :: i <= k < j - 1 ==> Continues(s[k]))
    && !Continues(s[j - 1])
  }

  /** Number of characters that end a varint (no continuation bit). */
  ghost function Terminators(cs: seq<char>): nat {
    if cs == [] then 0
    else (if Continues(cs[0]) then 0 else 1) + Terminators(cs[1..])
  }

  /** The suffix `s[i..]` splits into whole varints, and their number is
      even, so it is a sequence of complete (latitude, longitude) pairs. */
  ghost predicate WellFormedFrom(s: string, i: nat)
    requires i <= |s|
  {
    && (i == |s| || !Continues(s[|s| - 1]))
    && Terminators(s[i..]) % 2 == 0
  }

  ghost predicate WellFormed(s: string) {
    WellFormedFrom(s, 0)
  }

  /** Component-wise sum of a sequence of deltas. */
  ghost function Total(ds: seq<Point>): Point {
    if ds == [] then Point(0, 0) else Add(ds[0], Total(ds[1..]))
  }

  /*************************************************************************
   * One value: groups and zig-zag
   *************************************************************************/

  /** The inner do-while of `decodePolyline`: `index` is the next character
      to read, `shift` and `result` are the loop's accumulators. The bitwise
      `or` of groups that occupy disjoint bit ranges is their sum. */
  function ReadGroups(s: string, index: nat, shift: nat, result: nat): Result<Varint, DecodeError>
    decreases |s| - index
  {
    if index >= |s| then Failure(Truncated)
    else
      var result' := result + Group(s[index]) * Pow2(shift);
      if Continues(s[index]) then ReadGroups(s, index + 1, shift + GroupBits, result')
      else Success(Varint(result', index + 1))
  }

  lemma {:induction false} WeightedSumAppend(cs: seq<char>, c: char, k: nat)
    ensures WeightedSum(cs + [c], k) == WeightedSum(cs, k) + Group(c) * Pow2(GroupBits * (k + |cs|))
    decreases |cs|
  {
    if cs == [] {
      assert (cs + [c])[1..] == [];
    } else {
      assert (cs + [c])[1..] == cs[1..] + [c];
      WeightedSumAppend(cs[1..], c, k + 1);
    }
  }

  /** The do-while started at `start` has so far consumed `s[start..index]`,
      all continuation characters, and accumulated their group sum. */
  lemma {:induction false} ReadGroupsSpec(s: string, start: nat, index: nat, result: nat)
    requires start <= index <= |s|
    requires forall k :: start <= k < index ==> Continues(s[k])
    requires result == GroupSum(s[start..index])
    ensures var r := ReadGroups(s, index, GroupBits * (index - start), result);
            && (r.Failure? <==> forall k :: index <= k < |s| ==> Continues(s[k]))
            && (r.Success? ==> VarintAt(s, start, r.value.next) && r.value.raw == GroupSum(s[start..r.value.next]))
    decreases |s| - index
  {
    if index < |s| {
      var shift := GroupBits * (index - start);
      var result' := result + Group(s[index]) * Pow2(shift);
      assert s[start..index + 1] == s[start..index] + [s[index]];
      WeightedSumAppend(s[start..index], s[index], 0);
      assert result' == GroupSum(s[start..index + 1]);
      if Continues(s[index]) {
        assert shift + GroupBits == GroupBits * (index + 1 - start);
        ReadGroupsSpec(s, start, index + 1, result');
      }
    }
  }

  /** Reads one varint starting at `index`. It fails exactly when every
      remaining character carries the continuation bit (the do-while runs
      off the end); otherwise it consumes one complete varint and returns the
      sum of its groups. */
  function ReadVarint(s: string, index: nat): (r: Result<Varint, DecodeError>)
    requires index <= |s|
    ensures r.Failure? <==> forall k :: index <= k < |s| ==> Continues(s[k])
    ensures r.Success? ==> VarintAt(s, index, r.value.next) && r.value.raw == GroupSum(s[index..r.value.next])
  {
    assert s[index..index] == [];
    ReadGroupsSpec(s, index, index, 0);
    ReadGroups(s, index, 0, 0)
  }

  /** Kotlin's `Int.inv()`: on two's complement integers `~x == -x - 1`. */
  function Inv(x: int): int {
    -x - 1
  }

  /** `if (result and 1 != 0) (result shr 1).inv() else (result shr 1)`:
      even raw values are non-negative deltas, odd ones negative. */
  function ZigZag(raw: nat): (d: int)
    ensures d >= 0 <==> raw % 2 == 0
    ensures raw == if d >= 0 then 2 * d else -2 * d - 1
  {
    if raw % 2 != 0 then Inv(raw / 2) else raw / 2
  }

  /*************************************************************************
   * The whole string
   *************************************************************************/

  /** One iteration of the outer loop reads a latitude varint, then a
      longitude varint: the pair's zig-zag decoded deltas and the index just
      past the longitude. */
  datatype Pair = Pair(delta: Point, next: nat)

  function ReadPair(s: string, index: nat): (r: Result<Pair, DecodeError>)
    requires index <= |s|
    ensures r.Success? ==> index < r.value.next <= |s|
  {
    var dlat :- ReadVarint(s, index);
    var dlng :- ReadVarint(s, dlat.next);
    Success(Pair(Point(ZigZag(dlat.raw), ZigZag(dlng.raw)), dlng.next))
  }

  /** What a pair is: two consecutive complete varints, latitude first, and
      the zig-zag decoding of their group sums. */
  lemma ReadPairReadsTwoVarints(s: string, index: nat)
    requires index <= |s|
    ensures var r := ReadPair(s, index);
            r.Success? ==>
              exists j, lat: nat, lng: nat :: index < j < r.value.next
                && VarintAt(s, index, j) && VarintAt(s, j, r.value.next)
                && lat == GroupSum(s[index..j]) && lng == GroupSum(s[j..r.value.next])
                && r.value.delta == Point(ZigZag(lat), ZigZag(lng))
  {
    var r := ReadPair(s, index);
    if r.Success? {
      var a := ReadVarint(s, index).value;
      var b := ReadVarint(s, a.next).value;
      assert r.value.next == b.next;
      assert VarintAt(s, index, a.next) && VarintAt(s, a.next, b.next);
      assert a.raw == GroupSum(s[index..a.next]) && b.raw == GroupSum(s[a.next..b.next]);
      assert r.value.delta == Point(ZigZag(a.raw), ZigZag(b.raw));
    }
  }

  /** The sequence of (latitude, longitude) deltas that `s[index..]`
      spells, read one pair at a time. */
  function DeltasFrom(s: string, index: nat): Result<seq<Point>, DecodeError>
    requires index <= |s|
    decreases |s| - index
  {
    if index >= |s| then Success([])
    else
      var pair :- ReadPair(s, index);
      var rest :- DeltasFrom(s, pair.next);
      Success([pair.delta] + rest)
  }

  function Deltas(s: string): Result<seq<Point>, DecodeError> {
    DeltasFrom(s, 0)
  }

  /** The body of `decodePolyline` from the outer loop on: `lat` and `lng`
      are the running accumulators. */
  function DecodeFrom(s: string, index: nat, lat: int, lng: int): Result<seq<Point>, DecodeError>
    requires index <= |s|
    decreases |s| - index
  {
    if index >= |s| then Success([])
    else
      var pair :- ReadPair(s, index);
      var p := Add(Point(lat, lng), pair.delta);
      var rest :- DecodeFrom(s, pair.next, p.lat, p.lng);
      Success([p] + rest)
  }

  lemma {:induction false} TerminatorsAppend(a: seq<char>, b: seq<char>)
    ensures Terminators(a + b) == Terminators(a) + Terminators(b)
    decreases |a|
  {
    if a == [] {
      assert a + b == b;
    } else {
      assert (a + b)[1..] == a[1..] + b;
      TerminatorsAppend(a[1..], b);
    }
  }

  lemma {:induction false} NoTerminators(cs: seq<char>)
    requires forall k :: 0 <= k < |cs| ==> Continues(cs[k])
    ensures Terminators(cs) == 0
    decreases |cs|
  {
    if cs != [] {
      NoTerminators(cs[1..]);
    }
  }

  /** A varint holds exactly one terminating character, so `s[i..]` has
      one terminator more than `s[j..]`. */
  lemma VarintTerminators(s: string, i: nat, j: nat)
    requires VarintAt(s, i, j)
    ensures Terminators(s[i..]) == 1 + Terminators(s[j..])
  {
    assert s[i..] == s[i..j - 1] + [s[j - 1]] + s[j..];
    NoTerminators(s[i..j - 1]);
    TerminatorsAppend(s[i..j - 1] + [s[j - 1]], s[j..]);
    TerminatorsAppend(s[i..j - 1], [s[j - 1]]);
  }

  /** A pair read from `index` fails exactly when the input from there is
      not well formed within its first two varints; when it succeeds it
      consumes exactly two terminators and leaves the well-formedness of the
      rest unchanged. */
  lemma PairShape(s: string, index: nat)
    requires index < |s|
    ensures ReadPair(s, index).Failure? ==> !WellFormedFrom(s, index)
    ensures ReadPair(s, index).Success? ==>
              var next := ReadPair(s, index).value.next;
              && Terminators(s[index..]) == 2 + Terminators(s[next..])
              && (WellFormedFrom(s, index) <==> WellFormedFrom(s, next))
  {
    var r1 := ReadVarint(s, index);
    if r1.Failure? {
      NoTerminators(s[index..]);
      assert Continues(s[|s| - 1]);
    } else {
      var j := r1.value.next;
      VarintTerminators(s, index, j);
      var r2 := ReadVarint(s, j);
      if r2.Failure? {
        NoTerminators(s[j..]);
        assert j == |s| || Continues(s[|s| - 1]);
      } else {
        var k := r2.value.next;
        VarintTerminators(s, j, k);
        assert k == |s| ==> !Continues(s[|s| - 1]);
      }
    }
  }

  /** Each pair read consumes exactly two varints, each ending at one
      terminating character: `s[index..]` reads as deltas exactly when it is
      well formed, and then yields one delta per two terminators. */
  lemma {:induction false} DeltasShape(s: string, index: nat)
    requires index <= |s|
    ensures DeltasFrom(s, index).Success? <==> WellFormedFrom(s, index)
    ensures DeltasFrom(s, index).Success? ==> 2 * |DeltasFrom(s, index).value| == Terminators(s[index..])
    decreases |s| - index
  {
    if index < |s| {
      PairShape(s, index);
      var pair := ReadPair(s, index);
      if pair.Success? {
        DeltasShape(s, pair.value.next);
      }
    }
  }

  /** The outer loop keeps `lat` and `lng` equal to the sums of all deltas
      read so far: the i-th point decoded from `index` is the starting
      accumulator plus the sum of the first i + 1 deltas. */
  lemma {:induction false} DecodeFromIsPrefixSums(s: string, index: nat, lat: int, lng: int)
    requires index <= |s|
    ensures DecodeFrom(s, index, lat, lng).Success? <==> DeltasFrom(s, index).Success?
    ensures DecodeFrom(s, index, lat, lng).Success? ==>
              var pts := DecodeFrom(s, index, lat, lng).value;
              var ds := DeltasFrom(s, index).value;
              && |pts| == |ds|
              && forall i :: 0 <= i < |pts| ==> pts[i] == Add(Point(lat, lng), Total(ds[..i + 1]))
    decreases |s| - index
  {
    if index < |s| {
      var pair := ReadPair(s, index);
      if pair.Success? {
        var d := pair.value.delta;
        var p := Add(Point(lat, lng), d);
        var k := pair.value.next;
        DecodeFromIsPrefixSums(s, k, p.lat, p.lng);
        if DecodeFrom(s, index, lat, lng).Success? {
          var rest := DecodeFrom(s, k, p.lat, p.lng).value;
          var ds' := DeltasFrom(s, k).value;
          assert DecodeFrom(s, index, lat, lng).value == [p] + rest;
          assert DeltasFrom(s, index).value == [d] + ds';
          PrefixSumsCons(Point(lat, lng), d, rest, ds');
        }
      }
    }
  }

  /** Prefix sums from `base` of `[d] + ds` are `base + d` followed by the
      prefix sums of `ds` from `base + d`. */
  lemma PrefixSumsCons(base: Point, d: Point, rest: seq<Point>, ds: seq<Point>)
    requires |rest| == |ds|
    requires forall i :: 0 <= i < |rest| ==> rest[i] == Add(Add(base, d), Total(ds[..i + 1]))
    ensures forall i :: 0 <= i < |rest| + 1 ==>
              ([Add(base, d)] + rest)[i] == Add(base, Total(([d] + ds)[..i + 1]))
  {
    var pts := [Add(base, d)] + rest;
    var all := [d] + ds;
    forall i | 0 <= i < |pts|
      ensures pts[i] == Add(base, Total(all[..i + 1]))
    {
      if i == 0 {
        assert all[..1][1..] == [];
      } else {
        assert all[..i + 1][1..] == ds[..i];
        assert pts[i] == rest[i - 1];
      }
    }
  }

  /** `MapUtil.decodePolyline` on E5 integers. It succeeds exactly on well
      formed input: truncated input (a last character that still has the
      continuation bit, or a latitude with no longitude) is an error, never a
      shortened result. It yields one point per two varints, and the i-th
      point is the sum of the first i + 1 deltas. */
  function Decode(encoded: string): (r: Result<seq<Point>, DecodeError>)
    ensures r.Success? <==> WellFormed(encoded)
    ensures r.Success? ==> 2 * |r.value| == Terminators(encoded)
    ensures r.Success? ==>
              && Deltas(encoded).Success?
              && |r.value| == |Deltas(encoded).value|
              && forall i :: 0 <= i < |r.value| ==> r.value[i] == Total(Deltas(encoded).value[..i + 1])
    ensures encoded == [] ==> r == Success([])
  {
    assert encoded[0..] == encoded;
    DeltasShape(encoded, 0);
    DecodeFromIsPrefixSums(encoded, 0, 0, 0);
    DecodeFrom(encoded, 0, 0, 0)
  }

  /*************************************************************************
   * The Kotlin loop, index by index
   *************************************************************************/

  /** The inner do-while of `decodePolyline` as written, with `index++`
      running past the end reported as `Truncated`. */
  method ReadVarintLoop(s: string, start: nat) returns (r: Result<Varint, DecodeError>)
    requires start <= |s|
    ensures r == ReadVarint(s, start)
  {
    var index := start;
    var shift: nat := 0;
    var result: nat := 0;
    while true
      invariant start <= index <= |s|
      invariant ReadGroups(s, index, shift, result) == ReadGroups(s, start, 0, 0)
      decreases |s| - index
    {
      if index >= |s| {
        return Failure(Truncated);
      }
      var b := Chunk(s[index]);
      index := index + 1;
      result := result + (b % (GroupMask + 1)) * Pow2(shift);
      shift := shift + GroupBits;
      if b < ContinuationBit {
        return Success(Varint(result, index));
      }
    }
  }

  function Prepend(poly: seq<Point>, r: Result<seq<Point>, DecodeError>): Result<seq<Point>, DecodeError> {
    match r
    case Success(rest) => Success(poly + rest)
    case Failure(e) => Failure(e)
  }

  lemma PrependAppend(poly: seq<Point>, p: Point, r: Result<seq<Point>, DecodeError>)
    ensures Prepend(poly, Prepend([p], r)) == Prepend(poly + [p], r)
  {
    if r.Success? {
      assert poly + ([p] + r.value) == (poly + [p]) + r.value;
    }
  }

  /** One outer iteration: decoding from `index` fails when the pair there
      does, and otherwise is the point the pair leads to followed by the
      decoding of the rest. */
  lemma DecodeFromStep(s: string, index: nat, lat: int, lng: int)
    requires index < |s|
    ensures ReadPair(s, index).Failure? ==> DecodeFrom(s, index, lat, lng).Failure?
    ensures ReadPair(s, index).Success? ==>
              var pair := ReadPair(s, index).value;
              var p := Add(Point(lat, lng), pair.delta);
              DecodeFrom(s, index, lat, lng) == Prepend([p], DecodeFrom(s, pair.next, p.lat, p.lng))
  {
  }

  /** The two inline do-whiles of one outer iteration: a latitude varint,
      then a longitude varint. */
  method ReadPairLoop(s: string, index: nat) returns (r: Result<Pair, DecodeError>)
    requires index <= |s|
    ensures r == ReadPair(s, index)
  {
    var dlat := ReadVarintLoop(s, index);
    if dlat.Failure? {
      return Failure(dlat.error);
    }
    var dlng := ReadVarintLoop(s, dlat.value.next);
    if dlng.Failure? {
      return Failure(dlng.error);
    }
    return Success(Pair(Point(ZigZag(dlat.value.raw), ZigZag(dlng.value.raw)), dlng.value.next));
  }

  /** `decodePolyline` as written: the outer `while (index < len)` loop
      reads a latitude and a longitude varint per iteration, adds their
      zig-zag decoded deltas to the accumulators and appends one point. */
  method DecodeLoop(encoded: string) returns (r: Result<seq<Point>, DecodeError>)
    ensures r == Decode(encoded)
  {
    var poly: seq<Point> := [];
    ghost var whole := DecodeFrom(encoded, 0, 0, 0);
    assert whole.Success? ==> [] + whole.value == whole.value;
    var index := 0;
    var lat := 0;
    var lng := 0;
    while index < |encoded|
      invariant index <= |encoded|
      invariant whole == Prepend(poly, DecodeFrom(encoded, index, lat, lng))
      decreases |encoded| - index
    {
      DecodeFromStep(encoded, index, lat, lng);
      var pair := ReadPairLoop(encoded, index);
      if pair.Failure? {
        r := Failure(pair.error);
        assert r == whole;
        return;
      }
      var p := Add(Point(lat, lng), pair.value.delta);
      PrependAppend(poly, p, DecodeFrom(encoded, pair.value.next, p.lat, p.lng));
      poly := poly + [p];
      lat := p.lat;
      lng := p.lng;
      index := pair.value.next;
    }
    assert poly + [] == poly;
    r := Success(poly);
    assert r == whole;
  }

  /*************************************************************************
   * Range
   *************************************************************************/

  lemma Pow2Step(k: nat)
    ensures Pow2(k + GroupBits) == 32 * Pow2(k)
  {
    assert Pow2(k + 5) == 2 * Pow2(k + 4);
    assert Pow2(k + 4) == 2 * Pow2(k + 3);
    assert Pow2(k + 3) == 2 * Pow2(k + 2);
    assert Pow2(k + 2) == 2 * Pow2(k + 1);
  }

  lemma {:induction false} WeightedSumBound(cs: seq<char>, k: nat)
    ensures 0 <= WeightedSum(cs, k)
    ensures WeightedSum(cs, k) + Pow2(GroupBits * k) <= Pow2(GroupBits * (k + |cs|))
    decreases |cs|
  {
    if cs != [] {
      var p := Pow2(GroupBits * k);
      var g := Group(cs[0]);
      var rest := WeightedSum(cs[1..], k + 1);
      assert WeightedSum(cs, k) == g * p + rest;
      WeightedSumBound(cs[1..], k + 1);
      assert rest + Pow2(GroupBits * (k + 1)) <= Pow2(GroupBits * (k + |cs|)) by {
        assert (k + 1) + |cs[1..]| == k + |cs|;
      }
      assert Pow2(GroupBits * (k + 1)) == 32 * p by {
        Pow2Step(GroupBits * k);
        assert GroupBits * (k + 1) == GroupBits * k + GroupBits;
      }
      GroupTermBound(g, p);
    }
  }

  /** A group weighted by `p` lies between 0 and `31 * p`. */
  lemma GroupTermBound(g: nat, p: nat)
    requires g <= GroupMask
    ensures 0 <= g * p <= GroupMask * p
  {
  }

  /** A varint of at most six groups has a raw value below 2^30, inside the
      range of a 32-bit `Int`. That the Kotlin accumulation
      `result or (g shl shift)` of disjoint shifted groups equals their sum
      is argued, not proved here. */
  lemma SixGroupsFit(s: string, i: nat, j: nat)
    requires VarintAt(s, i, j) && j - i <= 6
    ensures 0 <= GroupSum(s[i..j]) < Pow2(30)
  {
    var cs := s[i..j];
    var n := |cs|;
    assert n == j - i <= 6;
    WeightedSumBound(cs, 0);
    assert GroupSum(cs) == WeightedSum(cs, 0);
    assert WeightedSum(cs, 0) < Pow2(GroupBits * n) by {
      assert GroupBits * 0 == 0 && GroupBits * (0 + n) == GroupBits * n;
      assert Pow2(0) == 1;
    }
    assert Pow2(GroupBits * n) <= Pow2(30) by {
      Pow2Monotone(GroupBits * n, 30);
    }
  }

  lemma {:induction false} Pow2Monotone(a: nat, b: nat)
    requires a <= b
    ensures Pow2(a) <= Pow2(b)
    decreases b
  {
    if a < b {
      Pow2Monotone(a, b - 1);
    }
  }
}
