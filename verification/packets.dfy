/**
  The run-length packet scheme of TGA image type 10, and the greedy packet
  choice both converters make over the reordered pixel buffer.

  A packet starts with one header byte: high bit set for a run-length packet
  (one pixel repeated), clear for a raw packet (literal pixels); the low seven
  bits hold count - 1, so a packet covers 1..128 pixels.

  `Encode` is the greedy single pass as a function; `Tiles` states the rules
  each emitted packet obeys without saying how the packets are found. The two
  are proved to coincide (`EncodeTiles`, `TilesAreEncode`), and the serialized
  packets are proved to decode back to the buffer (`EncodeRoundTrip`).
 */
module Packets {
  import opened Wrappers
  import opened Bytes
  import opened Raster

  /** The most pixels one packet can describe (seven count bits). */
  const MaxCount: nat := 128

  // ---------------------------------------------------------------------------
  // Runs: the first inner loop (`run`)

  /** Pixels i .. i+r-1 all equal pixel i, and 1 <= r <= 128. */
  predicate IsRun(p: seq<byte>, i: nat, r: nat)
  {
    && 1 <= r <= MaxCount
    && i + r <= PixelCount(p)
    && forall j | i <= j < i + r :: SamePixel(p, i, j)
  }

  /** A run that cannot be extended: it hit the cap, the end, or a different pixel. */
  predicate IsMaximalRun(p: seq<byte>, i: nat, r: nat)
  {
    && IsRun(p, i, r)
    && (r == MaxCount || i + r == PixelCount(p) || !SamePixel(p, i, i + r))
  }

  /** The run loop may take one more pixel when pixel i + r equals pixel i. */
  lemma RunStep(p: seq<byte>, i: nat, r: nat, next: nat)
    requires IsRun(p, i, r) && r < MaxCount && i + r < PixelCount(p) && SamePixel(p, i, i + r)
    requires next == r + 1
    ensures IsRun(p, i, next)
  {
  }

  /** The run loop continued from `run == r`. */
  function RunFrom(p: seq<byte>, i: nat, r: nat): (n: nat)
    requires 1 <= r <= MaxCount && i + r <= PixelCount(p)
    ensures r <= n <= MaxCount && i + n <= PixelCount(p)
    decreases MaxCount - r
  {
    if i + r < PixelCount(p) && r < MaxCount && SamePixel(p, i, i + r) then
      RunFrom(p, i, r + 1)
    else
      r
  }

  /** The `run` value measured at pixel i. */
  function RunLength(p: seq<byte>, i: nat): (n: nat)
    requires i < PixelCount(p)
    ensures 1 <= n <= MaxCount && i + n <= PixelCount(p)
  {
    RunFrom(p, i, 1)
  }

  /** Continuing a run, the loop stops exactly where the run can no longer grow. */
  lemma {:induction false} RunFromMaximal(p: seq<byte>, i: nat, r: nat)
    requires IsRun(p, i, r)
    ensures IsMaximalRun(p, i, RunFrom(p, i, r))
    decreases MaxCount - r
  {
    if i + r < PixelCount(p) && r < MaxCount && SamePixel(p, i, i + r) {
      RunFromMaximal(p, i, r + 1);
    }
  }

  /** The measured run is the maximal run of pixels equal to pixel i, capped at 128. */
  lemma RunLengthMaximal(p: seq<byte>, i: nat)
    requires i < PixelCount(p)
    ensures IsMaximalRun(p, i, RunLength(p, i))
  {
    RunFromMaximal(p, i, 1);
  }

  /** There is only one maximal run at each position. */
  lemma MaximalRunUnique(p: seq<byte>, i: nat, r1: nat, r2: nat)
    requires IsMaximalRun(p, i, r1) && IsMaximalRun(p, i, r2)
    ensures r1 == r2
  {
  }

  // ---------------------------------------------------------------------------
  // Raw runs: the second inner loop (`raw`) and its one-pixel lookahead

  /** Pixel j has a successor and equals it: an adjacent equal pair starts at j. */
  predicate EqualNext(p: seq<byte>, j: nat)
  {
    j + 1 < PixelCount(p) && SamePixel(p, j, j + 1)
  }

  /** No pixel j with i < j < i + k equals its successor. */
  predicate NoPairAfter(p: seq<byte>, i: nat, k: nat)
  {
    forall j | i < j < i + k :: !EqualNext(p, j)
  }

  /** Where the raw loop stops: at 128 pixels, at the end, or just before an equal pair. */
  predicate IsRawStop(p: seq<byte>, i: nat, k: nat)
  {
    && 1 <= k <= MaxCount
    && i + k <= PixelCount(p)
    && NoPairAfter(p, i, k)
    && (|| k == MaxCount
        || i + k == PixelCount(p)
        || EqualNext(p, i + k))
  }

  /** The raw loop may take one more pixel when pixel i + k does not start an equal pair. */
  lemma NoPairAfterStep(p: seq<byte>, i: nat, k: nat, next: nat)
    requires NoPairAfter(p, i, k) && !EqualNext(p, i + k) && next == k + 1
    ensures NoPairAfter(p, i, next)
  {
  }

  /** The raw loop continued from `raw == k`. */
  function RawFrom(p: seq<byte>, i: nat, k: nat): (n: nat)
    requires 1 <= k <= MaxCount && i + k <= PixelCount(p)
    ensures k <= n <= MaxCount && i + n <= PixelCount(p)
    decreases MaxCount - k
  {
    if i + k < PixelCount(p) && k < MaxCount then
      if EqualNext(p, i + k) then
        k
      else
        RawFrom(p, i, k + 1)
    else
      k
  }

  /** The `raw` value reached from pixel i. */
  function RawLength(p: seq<byte>, i: nat): (n: nat)
    requires i < PixelCount(p)
    ensures 1 <= n <= MaxCount && i + n <= PixelCount(p)
  {
    RawFrom(p, i, 1)
  }

  /** Continuing a raw run, the loop stops at the first of its three stopping conditions. */
  lemma {:induction false} RawFromStops(p: seq<byte>, i: nat, k: nat)
    requires 1 <= k <= MaxCount && i + k <= PixelCount(p) && NoPairAfter(p, i, k)
    ensures IsRawStop(p, i, RawFrom(p, i, k))
    decreases MaxCount - k
  {
    if i + k < PixelCount(p) && k < MaxCount && !EqualNext(p, i + k) {
      RawFromStops(p, i, k + 1);
    }
  }

  /** The raw run from pixel i stops at 128 pixels, at the end, or just before an equal pair. */
  lemma RawLengthStops(p: seq<byte>, i: nat)
    requires i < PixelCount(p)
    ensures IsRawStop(p, i, RawLength(p, i))
  {
    RawFromStops(p, i, 1);
  }

  /** There is only one stopping point for the raw loop at each position. */
  lemma RawStopUnique(p: seq<byte>, i: nat, k1: nat, k2: nat)
    requires IsRawStop(p, i, k1) && IsRawStop(p, i, k2)
    ensures k1 == k2
  {
  }

  // ---------------------------------------------------------------------------
  // Packets

  datatype Packet =
    | RunPacket(count: nat, pixel: seq<byte>)  // `pixel` repeated `count` times
    | RawPacket(count: nat, data: seq<byte>)   // `count` literal pixels

  /** Counts a header byte can carry, and payloads of the right size. */
  predicate WellFormed(pk: Packet)
  {
    match pk
    case RunPacket(c, px) => 2 <= c <= MaxCount && |px| == 4
    case RawPacket(c, d) => 1 <= c <= MaxCount && |d| == 4 * c
  }

  predicate AllWellFormed(pks: seq<Packet>)
  {
    forall k | 0 <= k < |pks| :: WellFormed(pks[k])
  }

  /** `px` repeated `c` times. */
  function Repeat(px: seq<byte>, c: nat): (r: seq<byte>)
    ensures |r| == |px| * c
  {
    if c == 0 then [] else px + Repeat(px, c - 1)
  }

  /** The pixel bytes a packet stands for. */
  function Expand(pk: Packet): seq<byte>
  {
    match pk
    case RunPacket(c, px) => Repeat(px, c)
    case RawPacket(_, d) => d
  }

  function ExpandAll(pks: seq<Packet>): seq<byte>
  {
    if pks == [] then [] else Expand(pks[0]) + ExpandAll(pks[1..])
  }

  /** Total number of pixels the packets cover. */
  function TotalCount(pks: seq<Packet>): nat
  {
    if pks == [] then 0 else pks[0].count + TotalCount(pks[1..])
  }

  // ---------------------------------------------------------------------------
  // The greedy encoder

  /**
    The packet emitted at pixel i: a run-length packet when the run at i has
    two or more pixels, otherwise a raw packet up to the raw loop's stop.
   */
  function FirstPacket(p: seq<byte>, i: nat): (pk: Packet)
    requires i < PixelCount(p)
    ensures 1 <= pk.count && i + pk.count <= PixelCount(p)
  {
    if RunLength(p, i) >= 2 then
      RunPacket(RunLength(p, i), Pixel(p, i))
    else
      RawPacket(RawLength(p, i), p[4 * i .. 4 * (i + RawLength(p, i))])
  }

  /**
    The packets emitted from pixel i to the end of the buffer: none exactly
    when no pixel is left.
   */
  function Encode(p: seq<byte>, i: nat): (r: seq<Packet>)
    requires i <= PixelCount(p)
    ensures r == [] <==> i == PixelCount(p)
    decreases PixelCount(p) - i
  {
    if i == PixelCount(p) then
      []
    else
      [FirstPacket(p, i)] + Encode(p, i + FirstPacket(p, i).count)
  }

  // ---------------------------------------------------------------------------
  // The packet rules, stated without the algorithm

  /** No pixel in [i, i + c) equals its successor. */
  predicate NoAdjacentEqual(p: seq<byte>, i: nat, c: nat)
  {
    forall j | i <= j < i + c :: !EqualNext(p, j)
  }

  /**
    The packet `pk` starting at pixel i obeys the encoder's rules:
    a run-length packet covers a maximal run of 2..128 equal pixels; a raw
    packet copies 1..128 pixels of which no two neighbours are equal (nor is
    the last equal to the pixel after it), and stops short of 128 pixels and
    of the end only in front of an equal pair.
   */
  predicate Follows(p: seq<byte>, i: nat, pk: Packet)
  {
    match pk
    case RunPacket(c, px) =>
      2 <= c && IsMaximalRun(p, i, c) && px == Pixel(p, i)
    case RawPacket(c, d) =>
      && IsRawStop(p, i, c)
      && NoAdjacentEqual(p, i, c)
      && d == p[4 * i .. 4 * (i + c)]
  }

  /** `pks` covers pixels i .. PixelCount(p)-1 in order, each packet following the rules. */
  predicate Tiles(p: seq<byte>, i: nat, pks: seq<Packet>)
    decreases |pks|
  {
    if pks == [] then
      i == PixelCount(p)
    else
      Follows(p, i, pks[0]) && Tiles(p, i + pks[0].count, pks[1..])
  }

  lemma FollowsWellFormed(p: seq<byte>, i: nat, pk: Packet)
    requires Follows(p, i, pk)
    ensures WellFormed(pk) && 1 <= pk.count && i + pk.count <= PixelCount(p)
  {
  }

  /** The packet emitted at pixel i follows the rules. */
  lemma FirstPacketFollows(p: seq<byte>, i: nat)
    requires i < PixelCount(p)
    ensures Follows(p, i, FirstPacket(p, i))
  {
    RunLengthMaximal(p, i);
    if RunLength(p, i) < 2 {
      RawLengthStops(p, i);
      assert !EqualNext(p, i);
      assert NoAdjacentEqual(p, i, RawLength(p, i));
    }
  }

  /** Conversely, the rules admit exactly one packet at pixel i: the one the encoder emits. */
  lemma FollowsIsFirstPacket(p: seq<byte>, i: nat, pk: Packet)
    requires i < PixelCount(p) && Follows(p, i, pk)
    ensures pk == FirstPacket(p, i)
  {
    RunLengthMaximal(p, i);
    RawLengthStops(p, i);
    match pk {
      case RunPacket(c, _) =>
        MaximalRunUnique(p, i, c, RunLength(p, i));
      case RawPacket(c, _) =>
        assert IsMaximalRun(p, i, 1) by {
          assert !EqualNext(p, i);
        }
        MaximalRunUnique(p, i, 1, RunLength(p, i));
        RawStopUnique(p, i, c, RawLength(p, i));
    }
  }

  /** One step of `Encode`: the first packet, then the packets after it. */
  lemma EncodeUnfold(p: seq<byte>, i: nat)
    requires i < PixelCount(p)
    ensures Encode(p, i) == [FirstPacket(p, i)] + Encode(p, i + FirstPacket(p, i).count)
  {
  }

  /** `Encode` from i is the packet at i followed by `Encode` from k, where that packet ends. */
  lemma EncodeStep(p: seq<byte>, i: nat, k: nat)
    requires i < PixelCount(p) && k == i + FirstPacket(p, i).count
    ensures Encode(p, i) == [FirstPacket(p, i)] + Encode(p, k)
  {
    EncodeUnfold(p, i);
  }

  /** `pks` are the packets the encoder emits before it reaches pixel i. */
  predicate EmittedBefore(p: seq<byte>, pks: seq<Packet>, i: nat)
  {
    i <= PixelCount(p) && pks + Encode(p, i) == Encode(p, 0)
  }

  /** Emitting the packet at pixel i moves the encoder to k, where that packet ends. */
  lemma EmittedStep(p: seq<byte>, pks: seq<Packet>, pks': seq<Packet>, i: nat, k: nat)
    requires i < PixelCount(p) && EmittedBefore(p, pks, i)
    requires k == i + FirstPacket(p, i).count && pks' == pks + [FirstPacket(p, i)]
    ensures EmittedBefore(p, pks', k)
  {
    EncodeStep(p, i, k);
    AppendAssoc(pks, [FirstPacket(p, i)], Encode(p, k));
  }

  /** Concatenation is associative. */
  lemma AppendAssoc<T>(a: seq<T>, b: seq<T>, c: seq<T>)
    ensures a + (b + c) == (a + b) + c
  {
  }

  /** Once the encoder reaches the end, the packets emitted are all of `Encode(p, 0)`. */
  lemma EmittedAll(p: seq<byte>, pks: seq<Packet>)
    requires EmittedBefore(p, pks, PixelCount(p))
    ensures pks == Encode(p, 0)
  {
    assert pks + [] == pks;
  }

  /** The packet emitted at pixel i is well formed. */
  lemma FirstPacketWellFormed(p: seq<byte>, i: nat)
    requires i < PixelCount(p)
    ensures WellFormed(FirstPacket(p, i))
  {
    FirstPacketFollows(p, i);
    FollowsWellFormed(p, i, FirstPacket(p, i));
  }

  /** A packet that follows the rules, in front of a tiling of what it leaves (from k on), is a tiling. */
  lemma TilesCons(p: seq<byte>, i: nat, k: nat, pk: Packet, rest: seq<Packet>)
    requires k == i + pk.count && Follows(p, i, pk) && Tiles(p, k, rest)
    ensures Tiles(p, i, [pk] + rest)
  {
    var pks := [pk] + rest;
    assert pks[0] == pk && pks[1..] == rest;
  }

  /** A non-empty tiling starts with the encoder's packet and goes on with a tiling. */
  lemma TilesUncons(p: seq<byte>, i: nat, pks: seq<Packet>)
    requires pks != [] && Tiles(p, i, pks)
    ensures i < PixelCount(p)
    ensures pks[0] == FirstPacket(p, i)
    ensures Tiles(p, i + pks[0].count, pks[1..])
  {
    FollowsWellFormed(p, i, pks[0]);
    FollowsIsFirstPacket(p, i, pks[0]);
  }

  /** A non-empty sequence is its head followed by its tail. */
  lemma HeadTail<T>(s: seq<T>)
    requires s != []
    ensures s == [s[0]] + s[1..]
  {
  }

  /** The greedy encoder's packets follow the rules and tile the buffer. */
  lemma {:induction false} EncodeTiles(p: seq<byte>, i: nat)
    requires i <= PixelCount(p)
    ensures Tiles(p, i, Encode(p, i))
    decreases PixelCount(p) - i
  {
    if i < PixelCount(p) {
      var pk := FirstPacket(p, i);
      var k := i + pk.count;
      FirstPacketFollows(p, i);
      EncodeTiles(p, k);
      TilesCons(p, i, k, pk, Encode(p, k));
      EncodeStep(p, i, k);
    }
  }

  /** Conversely, the rules leave no choice: any tiling that follows them is the greedy one. */
  lemma {:induction false} TilesAreEncode(p: seq<byte>, i: nat, pks: seq<Packet>)
    requires i <= PixelCount(p) && Tiles(p, i, pks)
    ensures pks == Encode(p, i)
    decreases |pks|
  {
    if pks != [] {
      TilesUncons(p, i, pks);
      var k := i + pks[0].count;
      TilesAreEncode(p, k, pks[1..]);
      EncodeStep(p, i, k);
      HeadTail(pks);
    }
  }

  /** A packet that follows the rules expands to exactly the pixels it covers. */
  lemma FollowsExpand(p: seq<byte>, i: nat, pk: Packet)
    requires Follows(p, i, pk)
    ensures i + pk.count <= PixelCount(p)
    ensures Expand(pk) == p[4 * i .. 4 * (i + pk.count)]
  {
    if pk.RunPacket? {
      RepeatRun(p, i, pk.count);
    }
  }

  /** A tiling covers exactly the remaining pixels and expands to exactly their bytes. */
  lemma {:induction false} TilesCover(p: seq<byte>, i: nat, pks: seq<Packet>)
    requires Tiles(p, i, pks)
    ensures i <= PixelCount(p)
    ensures AllWellFormed(pks)
    ensures TotalCount(pks) == PixelCount(p) - i
    ensures ExpandAll(pks) == p[4 * i .. 4 * PixelCount(p)]
    decreases |pks|
  {
    if pks != [] {
      FollowsWellFormed(p, i, pks[0]);
      FollowsExpand(p, i, pks[0]);
      TilesCover(p, i + pks[0].count, pks[1..]);
      SliceSplit(p, 4 * i, 4 * (i + pks[0].count), 4 * PixelCount(p));
    }
  }

  lemma SliceSplit(s: seq<byte>, a: nat, b: nat, c: nat)
    requires a <= b <= c <= |s|
    ensures s[a..c] == s[a..b] + s[b..c]
  {
  }

  /** A run of c equal pixels is pixel i repeated c times. */
  lemma {:induction false} RepeatRun(p: seq<byte>, i: nat, c: nat)
    requires IsRun(p, i, c)
    ensures Repeat(Pixel(p, i), c) == p[4 * i .. 4 * (i + c)]
    decreases c
  {
    RepeatRunFrom(p, i, i, c);
  }

  /** The tail of a run starting at pixel s (i <= s) is pixel i repeated. */
  lemma {:induction false} RepeatRunFrom(p: seq<byte>, i: nat, s: nat, c: nat)
    requires IsRun(p, i, c) && i <= s <= i + c
    ensures Repeat(Pixel(p, i), i + c - s) == p[4 * s .. 4 * (i + c)]
    decreases i + c - s
  {
    if s < i + c {
      RepeatRunFrom(p, i, s + 1, c);
      SamePixelIsEqual(p, i, s);
      SliceSplit(p, 4 * s, 4 * s + 4, 4 * (i + c));
    }
  }

  /** Every packet covers between 1 and 128 pixels, so N pixels need between N/128 and N packets. */
  lemma {:induction false} PacketCountBounds(pks: seq<Packet>)
    requires AllWellFormed(pks)
    ensures |pks| <= TotalCount(pks) <= MaxCount * |pks|
  {
    if pks != [] {
      assert WellFormed(pks[0]);
      PacketCountBounds(pks[1..]);
    }
  }

  // ---------------------------------------------------------------------------
  // Bytes on the wire

  /** `0x80 | (count - 1)`; with count - 1 below 0x80 the OR is an addition. */
  function RunHeader(count: nat): (b: byte)
    requires 1 <= count <= MaxCount
    ensures b >= 0x80 && b as int % 0x80 + 1 == count
  {
    (0x80 + (count - 1)) as byte
  }

  /** `count - 1`, high bit clear. */
  function RawHeader(count: nat): (b: byte)
    requires 1 <= count <= MaxCount
    ensures b < 0x80 && b as int % 0x80 + 1 == count
  {
    (count - 1) as byte
  }

  /** Header byte, then one pixel (run-length) or the literal pixels (raw). */
  function Serialize(pk: Packet): (s: seq<byte>)
    requires WellFormed(pk)
    ensures |s| == 1 + (if pk.RunPacket? then 4 else 4 * pk.count)
    ensures (s[0] >= 0x80 <==> pk.RunPacket?) && s[0] as int % 0x80 + 1 == pk.count
  {
    match pk
    case RunPacket(c, px) => [RunHeader(c)] + px
    case RawPacket(c, d) => [RawHeader(c)] + d
  }

  /** The packets' bytes one after another; no packet is written as zero bytes. */
  function SerializeAll(pks: seq<Packet>): (s: seq<byte>)
    requires AllWellFormed(pks)
    ensures s == [] <==> pks == []
  {
    if pks == [] then [] else Serialize(pks[0]) + SerializeAll(pks[1..])
  }

  /** Serializing one more packet appends its bytes to the stream. */
  lemma {:induction false} SerializeAllSnoc(pks: seq<Packet>, pk: Packet)
    requires AllWellFormed(pks) && WellFormed(pk)
    ensures AllWellFormed(pks + [pk])
    ensures SerializeAll(pks + [pk]) == SerializeAll(pks) + Serialize(pk)
  {
    var pks' := pks + [pk];
    if pks == [] {
      assert pks'[0] == pk && pks'[1..] == [];
    } else {
      var tail := pks[1..];
      assert pks'[0] == pks[0] && pks'[1..] == tail + [pk];
      SerializeAllSnoc(tail, pk);
      AppendAssoc(Serialize(pks[0]), SerializeAll(tail), Serialize(pk));
    }
  }

  /**
    A reader for a type-10 packet stream: `None` when a packet's payload is
    cut short, otherwise the expanded pixel bytes.
   */
  function DecodePackets(s: seq<byte>): Option<seq<byte>>
    decreases |s|
  {
    if s == [] then
      Some([])
    else
      var count := s[0] as int % 0x80 + 1;
      var size := if s[0] >= 0x80 then 4 else 4 * count;
      if |s| < 1 + size then
        None
      else
        match DecodePackets(s[1 + size..])
        case None => None
        case Some(rest) =>
          var first := if s[0] >= 0x80 then Repeat(s[1..1 + 4], count) else s[1..1 + size];
          Some(first + rest)
  }

  /** The reader consumes one serialized packet and expands it in front of what follows. */
  lemma DecodeCons(pk: Packet, rest: seq<byte>, tail: seq<byte>)
    requires WellFormed(pk) && DecodePackets(rest) == Some(tail)
    ensures DecodePackets(Serialize(pk) + rest) == Some(Expand(pk) + tail)
  {
    var s := Serialize(pk) + rest;
    var size := |Serialize(pk)| - 1;
    assert s[1 + size..] == rest;
    assert s[1..1 + size] == Serialize(pk)[1..];
  }

  /** Reading serialized well-formed packets yields their expansion. */
  lemma {:induction false} DecodeSerializeAll(pks: seq<Packet>)
    requires AllWellFormed(pks)
    ensures DecodePackets(SerializeAll(pks)) == Some(ExpandAll(pks))
  {
    if pks != [] {
      assert WellFormed(pks[0]);
      DecodeSerializeAll(pks[1..]);
      DecodeCons(pks[0], SerializeAll(pks[1..]), ExpandAll(pks[1..]));
    }
  }

  /** Reading the encoder's output reproduces the pixel buffer exactly. */
  lemma EncodeRoundTrip(p: seq<byte>)
    requires |p| % 4 == 0
    ensures AllWellFormed(Encode(p, 0))
    ensures TotalCount(Encode(p, 0)) == PixelCount(p)
    ensures DecodePackets(SerializeAll(Encode(p, 0))) == Some(p)
  {
    EncodeTiles(p, 0);
    TilesCover(p, 0, Encode(p, 0));
    DecodeSerializeAll(Encode(p, 0));
    assert p[4 * 0 .. 4 * PixelCount(p)] == p;
  }

  /** The encoder's packets from pixel i are well formed and cover the remaining pixels. */
  lemma EncodeWellFormed(p: seq<byte>, i: nat)
    requires i <= PixelCount(p)
    ensures AllWellFormed(Encode(p, i))
    ensures TotalCount(Encode(p, i)) == PixelCount(p) - i
  {
    EncodeTiles(p, i);
    TilesCover(p, i, Encode(p, i));
  }

  /** The emitted stream for N pixels has between N/128 and N packets. */
  lemma EmittedCountBounds(p: seq<byte>)
    requires |p| % 4 == 0
    ensures |Encode(p, 0)| <= PixelCount(p) <= MaxCount * |Encode(p, 0)|
  {
    EncodeRoundTrip(p);
    PacketCountBounds(Encode(p, 0));
  }
}
