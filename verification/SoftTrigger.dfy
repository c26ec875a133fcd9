/** A circular buffer as a value: its cells, the head where the next element goes, the filling level. */
module CircularBuffer {
  import opened Bytes

  /** All cells, read from `head` on. */
  function Ring<T>(cells: seq<T>, head: nat): seq<T>
    requires head <= |cells|
  {
    cells[head..] + cells[..head]
  }

  /** The cells with a chunk written over them from `at` on. */
  function Overwritten<T>(cells: seq<T>, at: nat, chunk: seq<T>): (r: seq<T>)
    requires at + |chunk| <= |cells|
    ensures |r| == |cells|
  {
    cells[..at] + chunk + cells[at + |chunk|..]
  }

  /** Writing a chunk at the head and advancing drops the oldest cells and appends the chunk. */
  lemma RingWrite<T>(cells: seq<T>, head: nat, chunk: seq<T>)
    requires head + |chunk| <= |cells|
    ensures var head' := if head + |chunk| >= |cells| then 0 else head + |chunk|;
      Ring(Overwritten(cells, head, chunk), head') == Ring(cells, head)[|chunk|..] + chunk
  {
  }

  /** One more chunk of `kept`, of which `w` elements were written before. */
  lemma RingProgress<T>(start: seq<T>, kept: seq<T>, w: nat, size: nat, cells: seq<T>, head: nat)
    requires w + size <= |kept| <= |start| == |cells| && head + size <= |cells|
    requires Ring(cells, head) == start[w..] + kept[..w]
    ensures var head' := if head + size >= |cells| then 0 else head + size;
      Ring(Overwritten(cells, head, kept[w..w + size]), head') == start[w + size..] + kept[..w + size]
  {
    RingWrite(cells, head, kept[w..w + size]);
    assert (start[w..] + kept[..w])[size..] + kept[w..w + size] == start[w + size..] + kept[..w + size];
  }

  /** The elements held, oldest first. */
  function Held<T>(cells: seq<T>, head: nat, fill: nat): seq<T>
    requires head <= |cells| && fill <= |cells|
  {
    if fill < |cells| then cells[..fill] else Ring(cells, head)
  }

  /** What is held is the newest part of the ring. */
  lemma HeldIsRingTail<T>(cells: seq<T>, head: nat, fill: nat)
    requires head <= |cells| && fill <= |cells| && (fill < |cells| ==> head == fill)
    ensures Held(cells, head, fill) == Ring(cells, head)[|cells| - fill..]
  {
  }

  lemma LastOfShifted<T>(ring: seq<T>, fill: nat, data: seq<T>, fill': nat)
    requires fill <= |ring| && |data| <= |ring|
    requires fill' == if fill + |data| <= |ring| then fill + |data| else |ring|
    ensures (ring[|data|..] + data)[|ring| - fill'..] == LastN(ring[|ring| - fill..] + data, |ring|)
  {
  }

  /** Shifting `data` through all cells keeps the last of what was held and of the data. */
  lemma RingKeepsLast<T>(cells: seq<T>, head: nat, fill: nat, data: seq<T>, cells': seq<T>, head': nat, fill': nat)
    requires |cells'| == |cells| && head <= |cells| && head' <= |cells| && fill <= |cells| && |data| <= |cells|
    requires fill < |cells| ==> head == fill
    requires fill' == if fill + |data| <= |cells| then fill + |data| else |cells|
    requires fill' < |cells| ==> head' == fill'
    requires Ring(cells', head') == Ring(cells, head)[|data|..] + data
    ensures Held(cells', head', fill') == LastN(Held(cells, head, fill) + data, |cells|)
  {
    HeldIsRingTail(cells, head, fill);
    HeldIsRingTail(cells', head', fill');
    LastOfShifted(Ring(cells, head), fill, data, fill');
  }

  lemma LastNOfTrimmed<T>(a: seq<T>, data: seq<T>, n: nat)
    ensures LastN(a + LastN(data, n), n) == LastN(a + data, n)
  {
    if |data| > n {
      var tail := LastN(data, n);
      assert (a + tail)[|a|..] == tail;
      assert (a + data)[|a| + |data| - n..] == tail;
    }
  }

  /** The same for data of any length, of which only the last |cells| elements are shifted in. */
  lemma AppendKeepsLast<T>(cells: seq<T>, head: nat, fill: nat, data: seq<T>, cells': seq<T>, head': nat, fill': nat)
    requires |cells'| == |cells| && head <= |cells| && head' <= |cells| && fill <= |cells|
    requires fill < |cells| ==> head == fill
    requires var kept := LastN(data, |cells|);
      && fill' == (if fill + |kept| <= |cells| then fill + |kept| else |cells|)
      && (fill' < |cells| ==> head' == fill')
      && Ring(cells', head') == Ring(cells, head)[|kept|..] + kept
    ensures Held(cells', head', fill') == LastN(Held(cells, head, fill) + data, |cells|)
  {
    RingKeepsLast(cells, head, fill, LastN(data, |cells|), cells', head', fill');
    LastNOfTrimmed(Held(cells, head, fill), data, |cells|);
  }
}

/**
 The software trigger object: soft_trigger_logic_new, the circular pre-trigger buffer and
 soft_trigger_logic_check, updated in place and tied to the functions of `TriggerRuns`.
 */
module SoftTrigger {
  import opened Bytes
  import opened Datafeed
  import opened TriggerSearch
  import opened TriggerRuns
  import opened CircularBuffer
  import opened Wrappers
  import opened ReturnCodes

  /** Logic packets, each of them a whole number of samples. */
  predicate LogicPackets(ps: seq<Packet>, unitsize: nat)
    requires unitsize > 0
  {
    forall p <- ps :: p.Logic? && p.unitsize == unitsize && Whole(|p.data|, unitsize)
  }

  /** What a firing sends: at most two logic packets that carry `pre`, then one trigger packet. */
  predicate FiringPackets(ps: seq<Packet>, unitsize: nat, pre: seq<byte>)
    requires unitsize > 0
  {
    && 1 <= |ps| <= 3 && ps[|ps| - 1] == TriggerMark
    && LogicPackets(ps[..|ps| - 1], unitsize) && Payload(ps[..|ps| - 1]) == pre
  }

  /** Where the byte index lands after a broken match, when it lands on a sample. */
  lemma StepBack(s: nat, k: nat, u: nat)
    requires u > 0 && k > 0
    ensures var back := Offset(s, u) - k * u;
      && (k <= s ==> back == Offset(s - k, u) && back >= 0)
      && (k > s && u == 1 ==> back <= -1)
      && Offset(s + 1, u) == Offset(s, u) + u
  {
    OffsetIsProduct(k, u);
    if k <= s {
      OffsetSum(s - k, k, u);
    } else {
      OffsetIsProduct(s, u);
    }
  }

  function LogicChannels(channels: seq<Channel>): nat {
    if channels == [] then 0
    else
      LogicChannels(channels[..|channels| - 1]) + if channels[|channels| - 1].isLogic then 1 else 0
  }

  /** Bytes per sample. */
  function ChannelUnitsize(channels: seq<Channel>): nat {
    (LogicChannels(channels) + 7) / 8
  }

  lemma LogicChannelsAppend(channels: seq<Channel>, c: Channel)
    ensures LogicChannels(channels + [c]) == LogicChannels(channels) + if c.isLogic then 1 else 0
  {
    assert (channels + [c])[..|channels|] == channels;
  }

  /** As many bytes as the logic channels need at eight to a byte, and no more. */
  lemma UnitsizeIsLeast(channels: seq<Channel>, u: nat)
    ensures LogicChannels(channels) <= 8 * ChannelUnitsize(channels)
    ensures LogicChannels(channels) <= 8 * u ==> ChannelUnitsize(channels) <= u
  {
  }

  /** logic_channel_unitsize */
  method LogicChannelUnitsize(channels: seq<Channel>) returns (unitsize: nat)
    ensures unitsize == ChannelUnitsize(channels)
  {
    var number, l := 0, 0;
    while l < |channels|
      invariant 0 <= l <= |channels| && number == LogicChannels(channels[..l])
    {
      assert channels[..l + 1][..l] == channels[..l];
      if channels[l].isLogic {
        number := number + 1;
      }
      l := l + 1;
    }
    assert channels[..l] == channels;
    return (number + 7) / 8;
  }

  /** Where the head is after n more bytes. */
  function HeadAfter(total: nat, head: nat, n: nat): int {
    var m := Min(n, total);
    if head + m >= total > 0 then head + m - total else head + m
  }

  /** From the head on, the cells are what is left of `start`, then the first w bytes of `kept`. */
  ghost predicate Copied(cells: seq<byte>, head: nat, start: seq<byte>, kept: seq<byte>, w: nat) {
    && head <= |cells| && w <= |kept| && w <= |start|
    && Ring(cells, head) == start[w..] + kept[..w]
  }

  lemma CopiedEnds(cells: seq<byte>, head: nat, start: seq<byte>, kept: seq<byte>)
    requires head <= |cells| && |kept| <= |start|
    ensures Ring(cells, head) == start ==> Copied(cells, head, start, kept, 0)
    ensures Copied(cells, head, start, kept, |kept|) ==> Ring(cells, head) == start[|kept|..] + kept
  {
    assert start[0..] + kept[..0] == start;
    assert kept[..|kept|] == kept;
  }

  function FillAfter(total: nat, fill: nat, n: nat): nat {
    if fill + n <= total then fill + n else total
  }

  lemma HeadMoves(total: nat, head0: nat, w: nat, head: nat, size: nat)
    requires head0 < total && w + size <= total && head == HeadAfter(total, head0, w) && head + size <= total
    requires size > 0
    ensures HeadAfter(total, head0, w + size) == if head + size >= total then 0 else head + size
  {
  }

  lemma HeadStaysWhole(total: nat, head: nat, n: nat, u: nat)
    requires u > 0 && Whole(total, u) && Whole(head, u) && Whole(n, u)
    ensures HeadAfter(total, head, n) >= 0 && Whole(HeadAfter(total, head, n), u)
  {
    var m := Min(n, total);
    WholeSum(head, m, u);
    if head + m >= total {
      WholeSum(total, head + m - total, u);
    }
  }

  lemma FillStaysWhole(total: nat, fill: nat, n: nat, u: nat)
    requires u > 0 && Whole(total, u) && Whole(fill, u) && Whole(n, u)
    ensures Whole(FillAfter(total, fill, n), u)
  {
    WholeSum(fill, n, u);
  }

  /** The length of the next piece: up to the end of the cells, or up to the filling level. */
  function PieceSize(total: nat, head: nat, fill: nat): nat
    requires head <= total
  {
    if total - head <= fill then total - head else fill
  }

  lemma PieceIsWhole(total: nat, head: nat, fill: nat, size: nat, u: nat)
    requires u > 0 && Whole(total, u) && Whole(head, u) && Whole(fill, u) && head <= total
    requires size == PieceSize(total, head, fill)
    ensures Whole(size, u) && Whole(fill - size, u)
  {
    WholeSum(head, total - head, u);
    WholeSum(size, fill - size, u);
  }

  /** The packets that the sending loop emits for `fill` bytes from `head` on. */
  function Pieces(cells: seq<byte>, head: nat, fill: nat, u: nat): seq<Packet>
    requires head <= |cells| && fill <= |cells|
    requires head == |cells| ==> fill == 0
    decreases fill
  {
    if fill == 0 then []
    else
      var size := PieceSize(|cells|, head, fill);
      [Logic(cells[head..head + size], u)] + Pieces(cells, 0, fill - size, u)
  }

  lemma OneOrTwoPieces(cells: seq<byte>, head: nat, fill: nat, u: nat)
    requires 0 < fill <= |cells| && head < |cells|
    ensures var size := PieceSize(|cells|, head, fill);
      var first := Logic(cells[head..head + size], u);
      && Pieces(cells, head, fill, u) ==
          (if size == fill then [first] else [first, Logic(cells[..fill - size], u)])
      && Payload(Pieces(cells, head, fill, u)) == cells[head..head + size] + cells[..fill - size]
  {
  }

  /** They are the held bytes in order, in at most two packets of whole samples. */
  lemma PiecesCarryHeld(cells: seq<byte>, head: nat, fill: nat, u: nat)
    requires fill <= |cells| && (if |cells| == 0 then head == 0 else head < |cells|)
    requires u > 0 && Whole(|cells|, u) && Whole(head, u) && Whole(fill, u)
    ensures var start := if fill < |cells| then 0 else head;
      var ps := Pieces(cells, start, fill, u);
      && |ps| <= 2 && LogicPackets(ps, u) && Payload(ps) == Held(cells, head, fill)
  {
    var start := if fill < |cells| then 0 else head;
    if fill > 0 {
      var size := PieceSize(|cells|, start, fill);
      PieceIsWhole(|cells|, start, fill, size, u);
      OneOrTwoPieces(cells, start, fill, u);
    }
  }

  class SoftTriggerLogic {
    const stages: seq<Stage>
    const unitsize: nat
    const preTriggerSize: nat

    var count: nat
    var curStage: nat
    const prevSample: array<byte>
    const preTriggerBuffer: array<byte>
    var head: nat  // preTriggerHead, as an index into preTriggerBuffer
    var fill: nat
    var sent: seq<Packet>

    function Cfg(): Config {
      Config(stages, unitsize, preTriggerSize)
    }

    ghost predicate Valid()
      reads this, prevSample
    {
      && ValidConfig(Cfg())
      && prevSample.Length == unitsize && preTriggerBuffer.Length == preTriggerSize
      && prevSample != preTriggerBuffer
      && curStage < |stages|
      && fill <= preTriggerSize
      && (preTriggerSize == 0 ==> head == 0)
      && (preTriggerSize > 0 ==> head < preTriggerSize)
      && (fill < preTriggerSize ==> head == fill)
    }

    /** Only whole samples are in the buffer. */
    predicate Aligned()
      requires unitsize > 0
      reads this
    {
      Whole(head, unitsize) && Whole(fill, unitsize)
    }

    /** The pre-trigger bytes from the oldest to the newest. */
    function Contents(): seq<byte>
      requires preTriggerBuffer.Length == preTriggerSize && head <= preTriggerSize && fill <= preTriggerSize
      reads this, preTriggerBuffer
    {
      Held(preTriggerBuffer[..], head, fill)
    }

    function State(): TriggerState
      requires preTriggerBuffer.Length == preTriggerSize && head <= preTriggerSize && fill <= preTriggerSize
      reads this, prevSample, preTriggerBuffer
    {
      TriggerState(Matcher(curStage, count, prevSample[..]), Contents())
    }

    /** soft_trigger_logic_new */
    constructor (stages: seq<Stage>, channels: seq<Channel>, preTriggerSamples: nat)
      ensures this.stages == stages && unitsize == ChannelUnitsize(channels)
      ensures preTriggerSize == unitsize * preTriggerSamples
      ensures fresh(prevSample) && fresh(preTriggerBuffer)
      ensures preTriggerBuffer.Length == preTriggerSize && head == 0 && fill == 0
      ensures State() == Fresh(Cfg()) && sent == []
      ensures unitsize > 0 && stages != [] && StagesFit(stages, unitsize) ==> Valid() && Aligned()
    {
      var u := LogicChannelUnitsize(channels);
      var size := u * preTriggerSamples;
      this.stages := stages;
      unitsize := u;
      preTriggerSize := size;
      count, curStage, head, fill, sent := 0, 0, 0, 0, [];
      prevSample := new byte[u](_ => 0);
      preTriggerBuffer := new byte[size];
      new;
      if u > 0 {
        OffsetIsProduct(preTriggerSamples, u);
      }
      assert prevSample[..] == seq(u, _ => 0 as byte);
      assert Contents() == [];
    }

    /** memcpy to the head of the circular buffer. */
    method CopyBytes(chunk: seq<byte>)
      requires head + |chunk| <= preTriggerBuffer.Length
      modifies preTriggerBuffer
      ensures preTriggerBuffer[..] == Overwritten(old(preTriggerBuffer[..]), head, chunk)
    {
      forall k | 0 <= k < |chunk| {
        preTriggerBuffer[head + k] := chunk[k];
      }
    }

    /** One turn of the copy loop: up to the end of the buffer, or up to the end of the data. */
    method CopyPiece(kept: seq<byte>, w: nat, ghost start: seq<byte>) returns (size: nat)
      requires preTriggerBuffer.Length == preTriggerSize == |start| && w < |kept| <= preTriggerSize
      requires head < preTriggerSize
      requires Copied(preTriggerBuffer[..], head, start, kept, w)
      modifies this`head, preTriggerBuffer
      ensures 0 < size && w + size <= |kept| && old(head) + size <= preTriggerSize
      ensures head == if old(head) + size >= preTriggerSize then 0 else old(head) + size
      ensures Copied(preTriggerBuffer[..], head, start, kept, w + size)
    {
      size := if preTriggerSize - head <= |kept| - w then preTriggerSize - head else |kept| - w;
      ghost var before := preTriggerBuffer[..];
      CopyBytes(kept[w..w + size]);
      RingProgress(start, kept, w, size, before, head);
      head := head + size;
      if head >= preTriggerSize {
        head := 0;
      }
    }

    /** The copy loop: at most two pieces, wrapping round at the end of the buffer. */
    method CopyIn(kept: seq<byte>)
      requires preTriggerBuffer.Length == preTriggerSize && |kept| <= preTriggerSize
      requires if preTriggerSize == 0 then head == 0 else head < preTriggerSize
      modifies this`head, preTriggerBuffer
      ensures head == HeadAfter(preTriggerSize, old(head), |kept|)
      ensures Ring(preTriggerBuffer[..], head) == old(Ring(preTriggerBuffer[..], head))[|kept|..] + kept
    {
      ghost var start, head0 := Ring(preTriggerBuffer[..], head), head;
      CopiedEnds(preTriggerBuffer[..], head, start, kept);
      var w := 0;
      while w < |kept|
        invariant w <= |kept|
        invariant head == HeadAfter(preTriggerSize, head0, w)
        invariant Copied(preTriggerBuffer[..], head, start, kept, w)
      {
        ghost var head1 := head;
        var size := CopyPiece(kept, w, start);
        HeadMoves(preTriggerSize, head0, w, head1, size);
        w := w + size;
      }
      CopiedEnds(preTriggerBuffer[..], head, start, kept);
    }

    /** pre_trigger_append: whatever was in the buffer and however much is added, the last bytes stay. */
    method PreTriggerAppend(data: seq<byte>)
      requires Valid()
      modifies this`head, this`fill, preTriggerBuffer
      ensures Valid()
      ensures Contents() == LastN(old(Contents()) + data, preTriggerSize)
      ensures head == HeadAfter(preTriggerSize, old(head), |data|)
      ensures fill == FillAfter(preTriggerSize, old(fill), |data|)
    {
      var buf := data;
      if |buf| > preTriggerSize {
        buf := buf[|buf| - preTriggerSize..];
      }
      ghost var cells, head0, fill0 := preTriggerBuffer[..], head, fill;
      fill := if fill + |buf| <= preTriggerSize then fill + |buf| else preTriggerSize;
      CopyIn(buf);
      AppendKeepsLast(cells, head0, fill0, data, preTriggerBuffer[..], head, fill);
    }

    /** Appending whole samples. */
    method AppendSamples(data: seq<byte>)
      requires Valid() && Aligned() && Whole(|data|, unitsize)
      modifies this`head, this`fill, preTriggerBuffer
      ensures Valid() && Aligned()
      ensures Contents() == LastN(old(Contents()) + data, preTriggerSize)
    {
      HeadStaysWhole(preTriggerSize, head, |data|, unitsize);
      FillStaysWhole(preTriggerSize, fill, |data|, unitsize);
      PreTriggerAppend(data);
    }

    /** One turn of the sending loop. */
    method SendPiece() returns (n: nat)
      requires unitsize > 0 && preTriggerBuffer.Length == preTriggerSize && Aligned()
      requires head < preTriggerSize && 0 < fill <= preTriggerSize && Whole(preTriggerSize, unitsize)
      modifies this`head, this`fill, this`sent
      ensures Offset(n, unitsize) == PieceSize(preTriggerSize, old(head), old(fill))
      ensures head == 0 && fill == old(fill) - Offset(n, unitsize) && Aligned()
      ensures sent + Pieces(preTriggerBuffer[..], head, fill, unitsize)
           == old(sent) + Pieces(preTriggerBuffer[..], old(head), old(fill), unitsize)
    {
      var size := PieceSize(preTriggerSize, head, fill);
      PieceIsWhole(preTriggerSize, head, fill, size, unitsize);
      assert preTriggerBuffer[head..head + size] == preTriggerBuffer[..][head..head + size];
      sent := sent + [Logic(preTriggerBuffer[head..head + size], unitsize)];
      head := 0;
      fill := fill - size;
      n := size / unitsize;
      WholeIsOffset(size, unitsize);
    }

    /** The sending loop. */
    method SendPieces() returns (samples: nat)
      requires unitsize > 0 && preTriggerBuffer.Length == preTriggerSize && Aligned() && Whole(preTriggerSize, unitsize)
      requires fill <= preTriggerSize && (if preTriggerSize == 0 then head == 0 else head < preTriggerSize)
      requires fill < preTriggerSize ==> head == 0
      modifies this`head, this`fill, this`sent
      ensures fill == 0 && head == 0
      ensures sent == old(sent) + old(Pieces(preTriggerBuffer[..], head, fill, unitsize))
      ensures Offset(samples, unitsize) == old(fill)
    {
      samples := 0;
      ghost var all, total := Pieces(preTriggerBuffer[..], head, fill, unitsize), fill;
      while fill > 0
        invariant fill <= preTriggerSize && Aligned()
        invariant if preTriggerSize == 0 then head == 0 else head < preTriggerSize
        invariant fill < preTriggerSize ==> head == 0
        invariant sent + Pieces(preTriggerBuffer[..], head, fill, unitsize) == old(sent) + all
        invariant Offset(samples, unitsize) + fill == total
        decreases fill
      {
        var n := SendPiece();
        OffsetSum(samples, n, unitsize);
        samples := samples + n;
      }
    }

    /** pre_trigger_send: everything that is held, in order, in at most two packets. */
    method PreTriggerSend() returns (samples: nat)
      requires Valid() && Aligned()
      modifies this`head, this`fill, this`sent
      ensures Valid() && Aligned() && Contents() == []
      ensures old(sent) <= sent
      ensures var ps := sent[|old(sent)|..];
        && |ps| <= 2 && LogicPackets(ps, unitsize)
        && Payload(ps) == old(Contents())
      ensures Offset(samples, unitsize) == |old(Contents())|
    {
      PiecesCarryHeld(preTriggerBuffer[..], head, fill, unitsize);
      if fill < preTriggerSize {
        head := 0;
      }
      samples := SendPieces();
    }

    /** logic_check_match */
    method LogicCheckMatch(sample: seq<byte>, m: Match) returns (result: bool)
      requires |sample| == prevSample.Length && m.channel.index < 8 * |sample|
      modifies this`count
      ensures count == old(count) + 1
      ensures result == CheckMatch(m, count, prevSample[..], sample)
    {
      count := count + 1;
      result := false;
      var bit := BitAt(sample[m.channel.index / 8], m.channel.index % 8);
      if m.kind == Zero {
        result := !bit;
      } else if m.kind == One {
        result := bit;
      } else {
        if count == 1 {
          return false;
        }
        var prevBit := BitAt(prevSample[m.channel.index / 8], m.channel.index % 8);
        if m.kind == Rising {
          result := !prevBit && bit;
        } else if m.kind == Falling {
          result := prevBit && !bit;
        } else if m.kind == Edge {
          result := prevBit != bit;
        }
      }
    }

    /** The loop over the matches of a stage; matches on disabled channels are passed over. */
    method CheckStageMatches(stage: Stage, sample: seq<byte>) returns (found: bool)
      requires |sample| == prevSample.Length && StageFits(stage, |sample|)
      modifies this`count
      ensures (found, count) == CheckStage(stage, old(count), prevSample[..], sample)
    {
      var l := 0;
      while l < |stage|
        invariant l <= |stage|
        invariant CheckStage(stage[l..], count, prevSample[..], sample)
               == CheckStage(stage, old(count), prevSample[..], sample)
      {
        if stage[l].channel.enabled {
          var ok := LogicCheckMatch(sample, stage[l]);
          if !ok {
            return false;
          }
        }
        assert stage[l..][1..] == stage[l + 1..];
        l := l + 1;
      }
      return true;
    }

    /** The trigger fires: the pre-trigger bytes go out, then the trigger packet. */
    method Fire(before: seq<byte>) returns (samples: nat)
      requires Valid() && Aligned() && Whole(|before|, unitsize)
      modifies this`head, this`fill, this`sent, preTriggerBuffer
      ensures Valid() && Aligned() && Contents() == []
      ensures old(sent) <= sent
      ensures FiringPackets(sent[|old(sent)|..], unitsize, LastN(old(Contents()) + before, preTriggerSize))
      ensures Offset(samples, unitsize) == |LastN(old(Contents()) + before, preTriggerSize)|
    {
      AppendSamples(before);
      samples := PreTriggerSend();
      ghost var ps := sent[|old(sent)|..];
      sent := sent + [TriggerMark];
      assert sent[|old(sent)|..] == ps + [TriggerMark];
      assert (ps + [TriggerMark])[..|ps|] == ps;
    }

    function Cur(): Matcher
      reads this, prevSample
    {
      Matcher(curStage, count, prevSample[..])
    }

    /** memcpy to prev_sample */
    method CopyToPrev(sample: seq<byte>)
      requires |sample| == prevSample.Length
      modifies prevSample
      ensures prevSample[..] == sample
    {
      forall k | 0 <= k < |sample| {
        prevSample[k] := sample[k];
      }
    }

    /** After a broken match: back to where it started; the loop then goes on with the next sample. */
    method GoBack(i0: int, ghost s0: nat) returns (i: int, ghost s: nat)
      requires unitsize > 0 && i0 == Offset(s0, unitsize)
      requires curStage > 0 && (curStage <= s0 || unitsize == 1)
      modifies this`curStage
      ensures curStage == 0 && i + unitsize == Offset(s, unitsize)
      ensures s == if old(curStage) <= s0 then s0 - old(curStage) + 1 else 0
    {
      StepBack(s0, curStage, unitsize);
      i := i0 - curStage * unitsize;
      if i < -1 {
        i := -1;
      }
      s := if curStage <= s0 then s0 - curStage + 1 else 0;
      curStage := 0;
    }

    /** The loop over the samples. `i` is the byte index of the source, `s` the sample it points at. */
    method ScanBuffer(buf: seq<byte>) returns (outcome: Outcome)
      requires unitsize > 0 && Whole(|buf|, unitsize) && StagesFit(stages, unitsize)
      requires curStage < |stages| && prevSample.Length == unitsize
      requires !Scan(stages, unitsize, Cur(), ToSamples(buf, unitsize), 0).0.Misaligned?
      modifies this`count, this`curStage, prevSample
      ensures curStage < |stages|
      ensures (outcome, Cur()) == old(Scan(stages, unitsize, Cur(), ToSamples(buf, unitsize), 0))
    {
      var i: int := 0;
      ghost var s: nat, samples := 0, ToSamples(buf, unitsize);
      ghost var r := Scan(stages, unitsize, Cur(), samples, 0);
      while i < |buf|
        invariant i == Offset(s, unitsize) && curStage < |stages|
        invariant Scan(stages, unitsize, Cur(), samples, s) == r
        decreases |samples| - s + curStage, |stages| - curStage
      {
        SampleAt(buf, unitsize, s);
        var stage := stages[curStage];
        if stage == [] {
          return NoMatches;
        }
        assert stage in stages;
        var sample := buf[i..i + unitsize];
        var matchFound := CheckStageMatches(stage, sample);
        CopyToPrev(sample);
        if matchFound {
          if curStage + 1 < |stages| {
            curStage := curStage + 1;
            s := s + 1;
          } else {
            OffsetIsProduct(s, unitsize);
            return Found(i / unitsize);
          }
        } else if curStage > 0 {
          i, s := GoBack(i, s);
        } else {
          s := s + 1;
        }
        i := i + unitsize;
      }
      SampleAt(buf, unitsize, s);
      return Exhausted;
    }

    /** What the caller and the session bus see of a verdict. */
    ghost predicate Reported(v: Verdict, offset: int, preTriggerSamples: Option<nat>, ps: seq<Packet>)
      requires unitsize > 0
    {
      match v
      case Fired(e, pre) =>
        && offset == e && FiringPackets(ps, unitsize, pre)
        && preTriggerSamples.Some? && Offset(preTriggerSamples.value, unitsize) == |pre|
      case NotFired => offset == -1 && preTriggerSamples == None && ps == []
      case ClientError => offset == SR_ERR_ARG && preTriggerSamples == None && ps == []
      case OffGrid => false
    }

    /**
     soft_trigger_logic_check: walk the buffer in steps of unitsize bytes, going back after a
     broken match. The requirement on `Call` excludes the calls whose restart would not be at the
     start of a sample; `CallFiresIff` in `TriggerStreams` says which these are.
     */
    method Check(buf: seq<byte>) returns (offset: int, preTriggerSamples: Option<nat>)
      requires Valid() && Aligned() && Whole(|buf|, unitsize)
      requires !Call(Cfg(), State(), buf).0.OffGrid?
      modifies this`count, this`curStage, this`head, this`fill, this`sent, prevSample, preTriggerBuffer
      ensures Valid() && Aligned()
      ensures State() == old(Call(Cfg(), State(), buf)).1
      ensures old(sent) <= sent
      ensures Reported(old(Call(Cfg(), State(), buf)).0, offset, preTriggerSamples, sent[|old(sent)|..])
    {
      preTriggerSamples := None;
      var outcome := ScanBuffer(buf);
      match outcome
      case NoMatches => offset := SR_ERR_ARG;
      case Exhausted =>
        offset := -1;
        AppendSamples(buf);
      case Found(e) =>
        SamplesAreBytes(buf, unitsize, e);
        OffsetIsProduct(e, unitsize);
        var n := Fire(buf[..e * unitsize]);
        preTriggerSamples := Some(n);
        offset := e;
    }
  }
}
