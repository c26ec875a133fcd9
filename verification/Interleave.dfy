/**
 Replay of a PXView v3 capture: per-channel bitmaps, one chunk per channel and block, are
 interleaved into samples of ceil(channels / 8) bytes each.
 */
module Interleave {
  import opened Bytes
  import opened Datafeed
  import opened Wrappers

  /** A channel's place in a sample and its bitmap, one bit per sample, least significant bit first. */
  datatype Lane = Lane(index: nat, bitmap: seq<byte>)

  /** What was read for a channel: nothing when the block has no member for it. */
  datatype ChannelBuf = ChannelBuf(index: nat, data: Option<seq<byte>>)

  /** A channel without data in this block stays low. */
  function LaneOf(buf: ChannelBuf, size: nat): Lane {
    Lane(buf.index, if buf.data.Some? then buf.data.value else seq(size, _ => 0 as byte))
  }

  function LanesOf(bufs: seq<ChannelBuf>, size: nat): (r: seq<Lane>)
    ensures |r| == |bufs|
    ensures forall i :: 0 <= i < |bufs| ==> r[i] == LaneOf(bufs[i], size)
  {
    seq(|bufs|, i requires 0 <= i < |bufs| => LaneOf(bufs[i], size))
  }

  predicate BufsFit(bufs: seq<ChannelBuf>, u: nat, size: nat) {
    forall i :: 0 <= i < |bufs| ==> bufs[i].index < 8 * u && (bufs[i].data.Some? ==> |bufs[i].data.value| == size)
  }

  predicate Sized(lanes: seq<Lane>, size: nat) {
    forall i :: 0 <= i < |lanes| ==> |lanes[i].bitmap| == size
  }

  predicate LanesFit(lanes: seq<Lane>, u: nat, size: nat) {
    Sized(lanes, size) && forall i :: 0 <= i < |lanes| ==> lanes[i].index < 8 * u
  }

  predicate DistinctIndices(lanes: seq<Lane>) {
    forall i, j :: 0 <= i < j < |lanes| ==> lanes[i].index != lanes[j].index
  }

  /** The level of one channel at sample s. */
  predicate LevelAt(lane: Lane, s: nat)
    requires s < 8 * |lane.bitmap|
  {
    BitAt(lane.bitmap[s / 8], s % 8)
  }

  /** Some lane with this index is high at sample s. */
  ghost predicate HighAt(lanes: seq<Lane>, size: nat, s: nat, index: nat)
    requires Sized(lanes, size)
    requires s < 8 * size
  {
    exists i :: 0 <= i < |lanes| && lanes[i].index == index && LevelAt(lanes[i], s)
  }

  /** One sample: bit b of byte g is the level of the channel with index 8g + b, all other bits are 0. */
  ghost predicate RowPacks(row: seq<byte>, lanes: seq<Lane>, size: nat, s: nat)
    requires Sized(lanes, size)
    requires s < 8 * size
  {
    forall index :: 0 <= index < 8 * |row| ==> (BitAt(row[index / 8], index % 8) <==> HighAt(lanes, size, s, index))
  }

  /** Sample s of the output. */
  function Row(out: seq<byte>, u: nat, s: nat): seq<byte>
    requires Offset(s + 1, u) <= |out|
  {
    out[Offset(s, u)..Offset(s + 1, u)]
  }

  lemma {:induction false} OffsetMonotone(a: nat, b: nat, u: nat)
    requires a <= b
    ensures Offset(a, u) <= Offset(b, u)
    decreases b
  {
    if a < b {
      OffsetMonotone(a, b - 1, u);
    }
  }

  ghost predicate RowPacked(out: seq<byte>, u: nat, lanes: seq<Lane>, size: nat, s: nat)
    requires Sized(lanes, size)
    requires s < 8 * size && |out| == Offset(8 * size, u)
  {
    OffsetMonotone(s + 1, 8 * size, u);
    RowPacks(Row(out, u, s), lanes, size, s)
  }

  /** The output is the faithful transpose of the bitmaps: n samples, each of them packed. */
  ghost predicate Packed(out: seq<byte>, u: nat, lanes: seq<Lane>, size: nat) {
    && Sized(lanes, size)
    && |out| == Offset(8 * size, u)
    && forall s :: 0 <= s < 8 * size ==> RowPacked(out, u, lanes, size, s)
  }

  // ----- The interleaving loops -----

  /** One lane's turn in the inner loop, on the sample that starts at `base`. */
  method PutBit(out: array<byte>, base: nat, u: nat, lane: Lane, s: nat)
    requires base + u <= out.Length && lane.index < 8 * u && s < 8 * |lane.bitmap|
    modifies out
    ensures forall p :: 0 <= p < out.Length && !(base <= p < base + u) ==> out[p] == old(out[p])
    ensures forall index :: 0 <= index < 8 * u ==>
      (BitAt(out[base + index / 8], index % 8) <==>
        old(BitAt(out[base + index / 8], index % 8)) || (index == lane.index && LevelAt(lane, s)))
  {
    if BitAt(lane.bitmap[s / 8], s % 8) {
      var dst := base + lane.index / 8;
      ByteWidth();
      SetBitBound(out[dst], lane.index % 8, 8);
      ghost var before := out[dst];
      out[dst] := SetBit(out[dst], lane.index % 8);
      forall index | 0 <= index < 8 * u
        ensures BitAt(out[base + index / 8], index % 8) <==>
          old(BitAt(out[base + index / 8], index % 8)) || index == lane.index
      {
        SetBitSets(before, lane.index % 8, index % 8);
      }
    }
  }

  lemma OneMoreLane(lanes: seq<Lane>, o: nat, size: nat, s: nat, index: nat)
    requires o < |lanes| && Sized(lanes, size) && s < 8 * size
    ensures HighAt(lanes[..o + 1], size, s, index) <==>
      HighAt(lanes[..o], size, s, index) || (lanes[o].index == index && LevelAt(lanes[o], s))
  {
    if HighAt(lanes[..o + 1], size, s, index) {
      var i :| 0 <= i < o + 1 && lanes[..o + 1][i].index == index && LevelAt(lanes[..o + 1][i], s);
      assert i == o || lanes[..o][i] == lanes[i];
    }
    if HighAt(lanes[..o], size, s, index) {
      var i :| 0 <= i < o && lanes[..o][i].index == index && LevelAt(lanes[..o][i], s);
      assert lanes[..o + 1][i] == lanes[i];
    }
    assert lanes[..o + 1][o] == lanes[o];
  }

  lemma MissingStaysLow(index: nat, size: nat, s: nat)
    requires s < 8 * size
    ensures !LevelAt(LaneOf(ChannelBuf(index, None), size), s)
  {
    ZeroHasNoBits(s % 8);
  }

  /** The inner loop: all channels of the sample that starts at `base`. */
  method FillRow(out: array<byte>, base: nat, u: nat, bufs: seq<ChannelBuf>, size: nat, s: nat)
    requires base + u <= out.Length && BufsFit(bufs, u, size) && s < 8 * size
    requires forall p :: base <= p < base + u ==> out[p] == 0
    modifies out
    ensures forall p :: 0 <= p < out.Length && !(base <= p < base + u) ==> out[p] == old(out[p])
    ensures RowPacks(out[base..base + u], LanesOf(bufs, size), size, s)
  {
    ghost var lanes := LanesOf(bufs, size);
    forall index | 0 <= index < 8 * u ensures !BitAt(out[base + index / 8], index % 8) {
      ZeroHasNoBits(index % 8);
    }
    var o := 0;
    while o < |bufs|
      invariant o <= |bufs|
      invariant forall p :: 0 <= p < out.Length && !(base <= p < base + u) ==> out[p] == old(out[p])
      invariant forall index :: 0 <= index < 8 * u ==>
        (BitAt(out[base + index / 8], index % 8) <==> HighAt(lanes[..o], size, s, index))
    {
      if bufs[o].data.Some? {
        PutBit(out, base, u, Lane(bufs[o].index, bufs[o].data.value), s);
      } else {
        MissingStaysLow(bufs[o].index, size, s);
      }
      forall index | 0 <= index < 8 * u
        ensures BitAt(out[base + index / 8], index % 8) <==> HighAt(lanes[..o + 1], size, s, index)
      {
        OneMoreLane(lanes, o, size, s, index);
      }
      o := o + 1;
    }
    assert lanes[..o] == lanes;
  }

  /** Writing sample s leaves the samples before it as they are. */
  lemma OneMoreRow(before: seq<byte>, after: seq<byte>, u: nat, lanes: seq<Lane>, size: nat, s: nat)
    requires Sized(lanes, size) && s < 8 * size
    requires |before| == |after| == Offset(8 * size, u) && Offset(s + 1, u) <= |after|
    requires before[..Offset(s, u)] == after[..Offset(s, u)]
    requires forall t :: 0 <= t < s ==> RowPacked(before, u, lanes, size, t)
    requires RowPacks(Row(after, u, s), lanes, size, s)
    ensures forall t :: 0 <= t <= s ==> RowPacked(after, u, lanes, size, t)
  {
    forall t | 0 <= t < s ensures RowPacked(after, u, lanes, size, t) {
      OffsetMonotone(t + 1, 8 * size, u);
      OffsetMonotone(t + 1, s, u);
      SubOfPrefix(after, Offset(s, u), Offset(t, u), Offset(t + 1, u));
      SubOfPrefix(before, Offset(s, u), Offset(t, u), Offset(t + 1, u));
      assert RowPacked(before, u, lanes, size, t);
    }
  }

  /** The outer loop: all samples of a block, into a buffer that starts out zeroed. */
  method InterleaveBlock(bufs: seq<ChannelBuf>, u: nat, size: nat) returns (out: array<byte>)
    requires u > 0 && BufsFit(bufs, u, size)
    ensures fresh(out)
    ensures Packed(out[..], u, LanesOf(bufs, size), size)
  {
    var samples := size * 8;
    OffsetIsProduct(samples, u);
    out := new byte[samples * u](_ => 0);
    ghost var lanes := LanesOf(bufs, size);
    var s := 0;
    while s < samples
      invariant s <= samples
      invariant forall p :: Offset(s, u) <= p < out.Length ==> out[p] == 0
      invariant forall t :: 0 <= t < s ==> RowPacked(out[..], u, lanes, size, t)
    {
      OffsetIsProduct(s, u);
      OffsetMonotone(s + 1, samples, u);
      var base := s * u;
      ghost var before := out[..];
      FillRow(out, base, u, bufs, size, s);
      assert Row(out[..], u, s) == out[base..base + u];
      OneMoreRow(before, out[..], u, lanes, size, s);
      s := s + 1;
    }
  }

  // ----- De-interleaving -----

  /** The bit of a channel at sample s of the output. */
  predicate SampleBit(out: seq<byte>, u: nat, index: nat, s: nat)
    requires index < 8 * u && Offset(s + 1, u) <= |out|
  {
    BitAt(out[Offset(s, u) + index / 8], index % 8)
  }

  lemma SampleBitIsRowBit(out: seq<byte>, u: nat, lanes: seq<Lane>, size: nat, index: nat, s: nat)
    requires Packed(out, u, lanes, size)
    requires index < 8 * u && s < 8 * size
    ensures Offset(s + 1, u) <= |out|
    ensures SampleBit(out, u, index, s) <==> HighAt(lanes, size, s, index)
  {
    OffsetMonotone(s + 1, 8 * size, u);
    assert RowPacked(out, u, lanes, size, s);
    assert Row(out, u, s)[index / 8] == out[Offset(s, u) + index / 8];
  }

  /** k samples of one channel, from sample s on, as a number. */
  function Gather(out: seq<byte>, u: nat, index: nat, s: nat, k: nat): (r: nat)
    requires index < 8 * u && Offset(s + k, u) <= |out|
    ensures r < Pow2(k)
    decreases k
  {
    if k == 0 then 0
    else
      OffsetMonotone(s + 1, s + k, u);
      (if SampleBit(out, u, index, s) then 1 else 0) + 2 * Gather(out, u, index, s + 1, k - 1)
  }

  lemma {:induction false} GatherBits(out: seq<byte>, u: nat, index: nat, s: nat, k: nat, t: nat)
    requires index < 8 * u && Offset(s + k, u) <= |out| && t < k
    ensures Offset(s + t + 1, u) <= |out|
    ensures BitAt(Gather(out, u, index, s, k), t) <==> SampleBit(out, u, index, s + t)
    decreases k
  {
    OffsetMonotone(s + t + 1, s + k, u);
    if t > 0 {
      GatherBits(out, u, index, s + 1, k - 1, t - 1);
    }
  }

  /** Byte j of the bitmap that the output holds for a channel. */
  function ExtractByte(out: seq<byte>, u: nat, index: nat, j: nat): byte
    requires index < 8 * u && Offset(8 * j + 8, u) <= |out|
  {
    ByteWidth();
    Gather(out, u, index, 8 * j, 8)
  }

  /** Reading one channel's bitmap back out of the interleaved samples. */
  function Extract(out: seq<byte>, u: nat, index: nat, size: nat): (r: seq<byte>)
    requires index < 8 * u && |out| == Offset(8 * size, u)
    ensures |r| == size
  {
    seq(size, j requires 0 <= j < size =>
      OffsetMonotone(8 * j + 8, 8 * size, u);
      ExtractByte(out, u, index, j))
  }

  lemma HighIsOwnLevel(lanes: seq<Lane>, size: nat, s: nat, i: nat)
    requires Sized(lanes, size) && DistinctIndices(lanes)
    requires s < 8 * size && i < |lanes|
    ensures HighAt(lanes, size, s, lanes[i].index) <==> LevelAt(lanes[i], s)
  {
  }

  lemma BitRecovered(out: seq<byte>, u: nat, lanes: seq<Lane>, size: nat, i: nat, j: nat, t: nat)
    requires LanesFit(lanes, u, size) && DistinctIndices(lanes) && Packed(out, u, lanes, size)
    requires i < |lanes| && j < size && t < 8 && Offset(8 * j + 8, u) <= |out|
    ensures BitAt(Gather(out, u, lanes[i].index, 8 * j, 8), t) <==> BitAt(lanes[i].bitmap[j], t)
  {
    GatherBits(out, u, lanes[i].index, 8 * j, 8, t);
    SampleBitIsRowBit(out, u, lanes, size, lanes[i].index, 8 * j + t);
    HighIsOwnLevel(lanes, size, 8 * j + t, i);
    assert (8 * j + t) / 8 == j && (8 * j + t) % 8 == t;
  }

  lemma ExtractByteRecovers(out: seq<byte>, u: nat, lanes: seq<Lane>, size: nat, i: nat, j: nat)
    requires LanesFit(lanes, u, size) && DistinctIndices(lanes) && Packed(out, u, lanes, size)
    requires i < |lanes| && j < size
    ensures Offset(8 * j + 8, u) <= |out| && ExtractByte(out, u, lanes[i].index, j) == lanes[i].bitmap[j]
  {
    var index, x := lanes[i].index, lanes[i].bitmap[j];
    OffsetMonotone(8 * j + 8, 8 * size, u);
    forall t | 0 <= t < 8
      ensures BitAt(Gather(out, u, index, 8 * j, 8), t) == BitAt(x, t)
    {
      BitRecovered(out, u, lanes, size, i, j, t);
    }
    ByteWidth();
    SameBits(Gather(out, u, index, 8 * j, 8), x, 8);
  }

  /** De-interleaving the transpose gives every channel's bitmap back, byte for byte. */
  lemma ExtractRecovers(out: seq<byte>, u: nat, lanes: seq<Lane>, size: nat, i: nat)
    requires LanesFit(lanes, u, size) && DistinctIndices(lanes) && Packed(out, u, lanes, size)
    requires i < |lanes|
    ensures Extract(out, u, lanes[i].index, size) == lanes[i].bitmap
  {
    forall j | 0 <= j < size
      ensures Extract(out, u, lanes[i].index, size)[j] == lanes[i].bitmap[j]
    {
      ExtractByteRecovers(out, u, lanes, size, i, j);
    }
  }

  // ----- Blocks one after the other -----

  /** The bitmaps of two blocks in a row. */
  function JoinLanes(a: seq<Lane>, b: seq<Lane>): (r: seq<Lane>)
    requires |a| == |b|
    ensures |r| == |a| && forall i :: 0 <= i < |a| ==> r[i] == Lane(a[i].index, a[i].bitmap + b[i].bitmap)
  {
    seq(|a|, i requires 0 <= i < |a| => Lane(a[i].index, a[i].bitmap + b[i].bitmap))
  }

  predicate SameIndices(a: seq<Lane>, b: seq<Lane>) {
    |a| == |b| && forall i :: 0 <= i < |a| ==> a[i].index == b[i].index
  }

  lemma JoinedHigh(a: seq<Lane>, b: seq<Lane>, m: nat, n: nat, s: nat, index: nat)
    requires Sized(a, m) && Sized(b, n)
    requires SameIndices(a, b) && s < 8 * (m + n)
    ensures HighAt(JoinLanes(a, b), m + n, s, index) <==>
      if s < 8 * m then HighAt(a, m, s, index) else HighAt(b, n, s - 8 * m, index)
  {
    var both := JoinLanes(a, b);
    if s >= 8 * m {
      assert s / 8 == m + (s - 8 * m) / 8 && s % 8 == (s - 8 * m) % 8;
    }
    assert forall i :: 0 <= i < |a| ==> both[i].index == a[i].index == b[i].index;
    assert forall i :: 0 <= i < |a| ==>
      (LevelAt(both[i], s) <==> if s < 8 * m then LevelAt(a[i], s) else LevelAt(b[i], s - 8 * m));
  }

  lemma RowOfJoined(row: seq<byte>, a: seq<Lane>, b: seq<Lane>, m: nat, n: nat, s: nat)
    requires Sized(a, m) && Sized(b, n) && SameIndices(a, b) && s < 8 * (m + n)
    requires if s < 8 * m then RowPacks(row, a, m, s) else RowPacks(row, b, n, s - 8 * m)
    ensures RowPacks(row, JoinLanes(a, b), m + n, s)
  {
    var both, size := JoinLanes(a, b), m + n;
    forall index | 0 <= index < 8 * |row|
      ensures BitAt(row[index / 8], index % 8) <==> HighAt(both, size, s, index)
    {
      JoinedHigh(a, b, m, n, s, index);
    }
  }

  /** The rows of two outputs, one after the other. */
  lemma RowOfSum(x: seq<byte>, y: seq<byte>, u: nat, k: nat, s: nat, t: nat)
    requires |x| == Offset(k, u)
    requires if s < k then t == s && Offset(t + 1, u) <= |x| else s == k + t && Offset(t + 1, u) <= |y|
    ensures Offset(s + 1, u) <= |x + y|
    ensures Row(x + y, u, s) == if s < k then Row(x, u, t) else Row(y, u, t)
  {
    if s >= k {
      OffsetSum(k, t, u);
      OffsetSum(k, t + 1, u);
      OffsetMonotone(t, t + 1, u);
    }
  }

  /** The transposes of two blocks, one after the other, are the transpose of the joined bitmaps. */
  lemma PackedAppend(x: seq<byte>, y: seq<byte>, u: nat, a: seq<Lane>, b: seq<Lane>, m: nat, n: nat)
    requires SameIndices(a, b) && Packed(x, u, a, m) && Packed(y, u, b, n)
    ensures Packed(x + y, u, JoinLanes(a, b), m + n)
  {
    var both, all, size := JoinLanes(a, b), x + y, m + n;
    OffsetSum(8 * m, 8 * n, u);
    forall s | 0 <= s < 8 * size
      ensures RowPacked(all, u, both, size, s)
    {
      var t := if s < 8 * m then s else s - 8 * m;
      OffsetMonotone(t + 1, if s < 8 * m then 8 * m else 8 * n, u);
      RowOfSum(x, y, u, 8 * m, s, t);
      assert if s < 8 * m then RowPacked(x, u, a, m, t) else RowPacked(y, u, b, n, t);
      RowOfJoined(Row(all, u, s), a, b, m, n, s);
    }
  }

  // ----- The virtual device -----

  /** The indices of the enabled logic channels, in the order of the channel list. */
  function EnabledLogic(channels: seq<Channel>): seq<nat> {
    if channels == [] then []
    else
      var rest := EnabledLogic(channels[..|channels| - 1]);
      var last := channels[|channels| - 1];
      if last.isLogic && last.enabled then rest + [last.index] else rest
  }

  lemma EnabledLogicOne(c: Channel)
    ensures EnabledLogic([c]) == if c.isLogic && c.enabled then [c.index] else []
  {
    assert [c][..0] == [];
  }

  /** The channels of two lists in a row are those of the first and then those of the second. */
  lemma {:induction false} EnabledLogicAppend(a: seq<Channel>, b: seq<Channel>)
    ensures EnabledLogic(a + b) == EnabledLogic(a) + EnabledLogic(b)
    decreases |b|
  {
    if b == [] {
      assert a + b == a;
    } else {
      assert (a + b)[..|a + b| - 1] == a + b[..|b| - 1];
      EnabledLogicAppend(a, b[..|b| - 1]);
    }
  }

  /** Members of the archive: L-<channel>/<block>. */
  type Archive = map<(nat, nat), seq<byte>>

  function ReadMember(archive: Archive, index: nat, block: nat): ChannelBuf {
    ChannelBuf(index, if (index, block) in archive then Some(archive[(index, block)]) else None)
  }

  function ReadBlock(archive: Archive, indices: seq<nat>, block: nat): (r: seq<ChannelBuf>)
    ensures |r| == |indices|
    ensures forall i :: 0 <= i < |indices| ==> r[i] == ReadMember(archive, indices[i], block)
  {
    seq(|indices|, i requires 0 <= i < |indices| => ReadMember(archive, indices[i], block))
  }

  /** All members of a block have one size, that of the first channel's member. */
  ghost predicate EqualChunks(archive: Archive, indices: seq<nat>, block: nat) {
    forall i :: 0 <= i < |indices| && (indices[0], block) in archive && (indices[i], block) in archive ==>
      |archive[(indices[i], block)]| == |archive[(indices[0], block)]|
  }

  function BlockSize(archive: Archive, indices: seq<nat>, block: nat): nat {
    if indices != [] && (indices[0], block) in archive then |archive[(indices[0], block)]| else 0
  }

  function BlockLanes(archive: Archive, indices: seq<nat>, block: nat): seq<Lane> {
    LanesOf(ReadBlock(archive, indices, block), BlockSize(archive, indices, block))
  }

  /** The bitmaps of the first m blocks, joined. */
  function CaptureLanes(archive: Archive, indices: seq<nat>, m: nat): (r: seq<Lane>)
    ensures |r| == |indices| && forall i :: 0 <= i < |r| ==> r[i].index == indices[i]
  {
    if m == 0 then seq(|indices|, i requires 0 <= i < |indices| => Lane(indices[i], []))
    else JoinLanes(CaptureLanes(archive, indices, m - 1), BlockLanes(archive, indices, m - 1))
  }

  function CaptureSize(archive: Archive, indices: seq<nat>, m: nat): nat {
    if m == 0 then 0 else CaptureSize(archive, indices, m - 1) + BlockSize(archive, indices, m - 1)
  }

  /** What channel i has in block b: its member, or, when there is none, low samples for the length of the first one's. */
  function MemberBytes(archive: Archive, indices: seq<nat>, i: nat, b: nat): seq<byte>
    requires i < |indices|
  {
    if (indices[i], b) in archive then archive[(indices[i], b)]
    else if (indices[0], b) in archive then seq(|archive[(indices[0], b)]|, _ => 0 as byte)
    else []
  }

  function ChannelMembers(archive: Archive, indices: seq<nat>, i: nat, m: nat): seq<seq<byte>>
    requires i < |indices|
  {
    seq(m, b requires 0 <= b < m => MemberBytes(archive, indices, i, b))
  }

  lemma BlockBitmap(archive: Archive, indices: seq<nat>, i: nat, b: nat)
    requires i < |indices|
    ensures BlockLanes(archive, indices, b)[i].bitmap == MemberBytes(archive, indices, i, b)
  {
  }

  /** The bitmap of a channel is its members of the archive, one block after the other. */
  lemma {:induction false} CaptureBitmap(archive: Archive, indices: seq<nat>, i: nat, m: nat)
    requires i < |indices|
    ensures CaptureLanes(archive, indices, m)[i].bitmap == Flatten(ChannelMembers(archive, indices, i, m))
  {
    if m > 0 {
      var before, last := ChannelMembers(archive, indices, i, m - 1), MemberBytes(archive, indices, i, m - 1);
      CaptureBitmap(archive, indices, i, m - 1);
      BlockBitmap(archive, indices, i, m - 1);
      assert ChannelMembers(archive, indices, i, m) == before + [last];
      FlattenAppend(before, [last]);
      assert Flatten([last]) == last;
    }
  }

  class VirtualDevice {
    const archive: Archive
    const channels: seq<Channel>
    const fileUnitsize: int
    var curBlock: nat
    var bytesRead: nat
    var sent: seq<LogicPacket>

    constructor (archive: Archive, channels: seq<Channel>, fileUnitsize: int)
      ensures this.archive == archive && this.channels == channels && this.fileUnitsize == fileUnitsize
      ensures curBlock == 0 && bytesRead == 0 && sent == []
    {
      this.archive, this.channels, this.fileUnitsize := archive, channels, fileUnitsize;
      curBlock, bytesRead, sent := 0, 0, [];
    }

    function Indices(): seq<nat> {
      EnabledLogic(channels)
    }

    /** Bytes per sample: the enabled channels count, not the unit size recorded in the file. */
    function Unitsize(): nat {
      (|Indices()| + 7) / 8
    }

    /** As many bytes as the enabled channels need at eight to a byte, and no more. */
    lemma UnitsizeIsLeast(u: nat)
      ensures |Indices()| <= 8 * Unitsize()
      ensures |Indices()| <= 8 * u ==> Unitsize() <= u
    {
    }

    /** What the writer of a capture guarantees. */
    ghost predicate WellFormed() {
      && (forall i :: 0 <= i < |Indices()| ==> Indices()[i] < 8 * Unitsize())
      && forall block: nat :: EqualChunks(archive, Indices(), block)
    }

    /** The next block is there to be streamed. */
    predicate More()
      reads this
    {
      fileUnitsize > 0 && Indices() != [] && (Indices()[0], curBlock) in archive
    }

    /** Counting the enabled logic channels and collecting their indices. */
    method CollectIndices() returns (indices: seq<nat>)
      ensures indices == Indices()
    {
      indices := [];
      var l := 0;
      while l < |channels|
        invariant l <= |channels| && indices == EnabledLogic(channels[..l])
      {
        assert channels[..l + 1][..l] == channels[..l];
        if channels[l].isLogic && channels[l].enabled {
          indices := indices + [channels[l].index];
        }
        l := l + 1;
      }
      assert channels[..l] == channels;
    }

    /** stream_pxv_logic_data: stream one block. */
    method StreamLogicData() returns (more: bool)
      requires WellFormed()
      modifies this`curBlock, this`bytesRead, this`sent
      ensures more == old(More())
      ensures !more ==> curBlock == old(curBlock) && sent == old(sent) && bytesRead == old(bytesRead)
      ensures more ==> curBlock == old(curBlock) + 1
      ensures more ==>
        var size := BlockSize(archive, Indices(), old(curBlock));
        if size == 0 then sent == old(sent) && bytesRead == old(bytesRead)
        else
          && |sent| == |old(sent)| + 1 && sent[..|old(sent)|] == old(sent)
          && sent[|old(sent)|].unitsize == Unitsize()
          && Packed(sent[|old(sent)|].data, Unitsize(), BlockLanes(archive, Indices(), old(curBlock)), size)
          && bytesRead == old(bytesRead) + |sent[|old(sent)|].data|
    {
      if fileUnitsize <= 0 {
        return false;
      }
      var indices := CollectIndices();
      if |indices| <= 0 {
        return false;
      }
      var unitsize := (|indices| + 7) / 8;
      if (indices[0], curBlock) !in archive {
        return false;
      }
      var blockSize := |archive[(indices[0], curBlock)]|;
      if blockSize == 0 {
        curBlock := curBlock + 1;
        return true;
      }
      var bufs := ReadBlock(archive, indices, curBlock);
      assert EqualChunks(archive, indices, curBlock);
      var out := InterleaveBlock(bufs, unitsize, blockSize);
      bytesRead := bytesRead + out.Length;
      sent := sent + [Logic(out[..], unitsize)];
      curBlock := curBlock + 1;
      return true;
    }

    /** Everything streamed so far is the transpose of the blocks so far. */
    ghost predicate Streamed()
      reads this
    {
      && Packed(Payload(sent), Unitsize(), CaptureLanes(archive, Indices(), curBlock),
                CaptureSize(archive, Indices(), curBlock))
      && forall b: nat :: b < curBlock ==> Indices() != [] && (Indices()[0], b) in archive
    }

    /** The blocks that are left, as a bound on the number of calls. */
    ghost function BlocksLeft(): set<(nat, nat)>
      reads this
    {
      set k | k in archive.Keys && k.1 >= curBlock
    }

    lemma StreamedGrows(prior: seq<LogicPacket>, now: seq<LogicPacket>, block: nat)
      requires WellFormed() && Indices() != [] && (Indices()[0], block) in archive
      requires Packed(Payload(prior), Unitsize(), CaptureLanes(archive, Indices(), block),
                      CaptureSize(archive, Indices(), block))
      requires var size := BlockSize(archive, Indices(), block);
        if size == 0 then now == prior
        else
          && |now| == |prior| + 1 && now[..|prior|] == prior
          && Packed(now[|prior|].data, Unitsize(), BlockLanes(archive, Indices(), block), size)
      ensures Packed(Payload(now), Unitsize(), CaptureLanes(archive, Indices(), block + 1),
                     CaptureSize(archive, Indices(), block + 1))
    {
      var size := BlockSize(archive, Indices(), block);
      var lanes := BlockLanes(archive, Indices(), block);
      var data := if size == 0 then [] else now[|prior|].data;
      assert EqualChunks(archive, Indices(), block);
      assert Packed(data, Unitsize(), lanes, size);
      PackedAppend(Payload(prior), data, Unitsize(), CaptureLanes(archive, Indices(), block), lanes,
                   CaptureSize(archive, Indices(), block), size);
      if size > 0 {
        assert now == prior + [now[|prior|]];
        PayloadAppend(prior, [now[|prior|]]);
      }
      assert Payload(now) == Payload(prior) + data;
    }

    /** One block more, and one less to come. */
    method StreamNext() returns (more: bool)
      requires WellFormed() && Streamed()
      modifies this`curBlock, this`bytesRead, this`sent
      ensures Streamed()
      ensures if more then BlocksLeft() < old(BlocksLeft()) else !More()
    {
      ghost var before, block := sent, curBlock;
      more := StreamLogicData();
      if more {
        StreamedGrows(before, sent, block);
        assert (Indices()[0], block) in old(BlocksLeft()) && (Indices()[0], block) !in BlocksLeft();
      }
    }

    /** The logic phase of a replay: stream blocks until there is no next one. */
    method StreamLogicPhase()
      requires WellFormed() && curBlock == 0 && sent == []
      modifies this`curBlock, this`bytesRead, this`sent
      ensures !More() && Streamed()
    {
      var more := true;
      while more
        invariant Streamed()
        invariant !more ==> !More()
        decreases more, BlocksLeft()
      {
        more := StreamNext();
      }
    }
  }

  /**
   After a replay every channel's complete bitmap can be read back from what was streamed: the members
   of the archive, byte for byte.
   */
  lemma ReplayRecovers(archive: Archive, indices: seq<nat>, u: nat, blocks: nat, out: seq<byte>, i: nat)
    requires forall k :: 0 <= k < |indices| ==> indices[k] < 8 * u
    requires forall j, k :: 0 <= j < k < |indices| ==> indices[j] != indices[k]
    requires Packed(out, u, CaptureLanes(archive, indices, blocks), CaptureSize(archive, indices, blocks))
    requires i < |indices|
    ensures Extract(out, u, indices[i], CaptureSize(archive, indices, blocks))
         == Flatten(ChannelMembers(archive, indices, i, blocks))
    ensures (forall b: nat :: b < blocks ==> (indices[i], b) in archive) ==>
      forall b: nat :: b < blocks ==> ChannelMembers(archive, indices, i, blocks)[b] == archive[(indices[i], b)]
  {
    ExtractRecovers(out, u, CaptureLanes(archive, indices, blocks), CaptureSize(archive, indices, blocks), i);
    CaptureBitmap(archive, indices, i, blocks);
  }
}
