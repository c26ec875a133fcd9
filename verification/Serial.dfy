/**
 The receive queue of a serial port and the search for a packet in its byte stream
 (serial_stream_detect with packets of a fixed size).
 */
module Serial {
  import opened Bytes
  import opened ReturnCodes

  /** What happens around one read: bytes that arrive first, whether the read fails, the time passed since the start. */
  datatype Tick = Tick(arrives: seq<byte>, readFails: bool, elapsedMs: nat)

  function Arrivals(ticks: seq<Tick>): seq<byte> {
    if ticks == [] then [] else Arrivals(ticks[..|ticks| - 1]) + ticks[|ticks| - 1].arrives
  }

  class SerialPort {
    /** Set when a chunk callback takes the data instead of the queue. */
    const hasChunkCallback: bool
    const hasQueue: bool
    var rcvBuffer: seq<byte>
    var chunks: seq<seq<byte>>  // what the callback was given

    constructor (hasChunkCallback: bool, hasQueue: bool)
      ensures this.hasChunkCallback == hasChunkCallback && this.hasQueue == hasQueue
      ensures rcvBuffer == [] && chunks == []
    {
      this.hasChunkCallback, this.hasQueue := hasChunkCallback, hasQueue;
      rcvBuffer, chunks := [], [];
    }

    /** sr_ser_queue_rx_data */
    method QueueRxData(data: seq<byte>)
      modifies this`rcvBuffer, this`chunks
      ensures data != [] && hasChunkCallback ==> chunks == old(chunks) + [data] && rcvBuffer == old(rcvBuffer)
      ensures data != [] && !hasChunkCallback && hasQueue ==>
        rcvBuffer == old(rcvBuffer) + data && chunks == old(chunks)
      ensures data == [] || (!hasChunkCallback && !hasQueue) ==> rcvBuffer == old(rcvBuffer) && chunks == old(chunks)
    {
      if data == [] {
        return;
      }
      if hasChunkCallback {
        chunks := chunks + [data];
      } else if hasQueue {
        rcvBuffer := rcvBuffer + data;
      }
    }

    /** sr_ser_unqueue_rx_data: the oldest bytes, at most as many as there is room for. */
    method UnqueueRxData(dest: array<byte>, at: nat, len: nat) returns (got: nat)
      requires at + len <= dest.Length
      modifies this`rcvBuffer, dest
      ensures got == if len <= |old(rcvBuffer)| then len else |old(rcvBuffer)|
      ensures dest[at..at + got] + rcvBuffer == old(rcvBuffer)
      ensures dest[..at] == old(dest[..at]) && dest[at + got..] == old(dest[at + got..])
    {
      got := len;
      if got > |rcvBuffer| {
        got := |rcvBuffer|;
      }
      forall k | 0 <= k < got {
        dest[at + k] := rcvBuffer[k];
      }
      assert dest[at..at + got] == rcvBuffer[..got];
      rcvBuffer := rcvBuffer[got..];
    }
  }

  // ----- Windows of the stream -----

  predicate ValidAt(stream: seq<byte>, size: nat, valid: set<seq<byte>>, i: nat)
    requires i + size <= |stream|
  {
    stream[i..i + size] in valid
  }

  /** No window of `size` bytes is valid. */
  ghost predicate NoWindow(stream: seq<byte>, size: nat, valid: set<seq<byte>>) {
    forall i :: 0 <= i <= |stream| - size ==> !ValidAt(stream, size, valid, i)
  }

  /** The last window of the stream is valid, and it is the first that is. */
  ghost predicate EndsFirstWindow(stream: seq<byte>, size: nat, valid: set<seq<byte>>) {
    && size <= |stream| && ValidAt(stream, size, valid, |stream| - size)
    && forall i :: 0 <= i < |stream| - size ==> !ValidAt(stream, size, valid, i)
  }

  predicate LastWindowValid(stream: seq<byte>, size: nat, valid: set<seq<byte>>) {
    size <= |stream| && ValidAt(stream, size, valid, |stream| - size)
  }

  /** What a search has established: the first valid window was just found, or there is none yet. */
  ghost predicate Concluded(stream: seq<byte>, size: nat, valid: set<seq<byte>>, found: bool) {
    if found then EndsFirstWindow(stream, size, valid) else NoWindow(stream, size, valid)
  }

  /** At most one more byte opens at most one more window. */
  lemma WindowsGrow(before: seq<byte>, got: seq<byte>, size: nat, valid: set<seq<byte>>)
    requires size >= 1 && NoWindow(before, size, valid)
    requires |got| <= 1
    ensures Concluded(before + got, size, valid, |got| == 1 && LastWindowValid(before + got, size, valid))
  {
    var after := before + got;
    if got == [] {
      assert after == before;
    }
    forall i | 0 <= i <= |before| - size
      ensures !ValidAt(after, size, valid, i)
    {
      assert after[i..i + size] == before[i..i + size];
      assert !ValidAt(before, size, valid, i);
    }
  }

  /** A stream has one place at most where a search can succeed: it does not depend on when the bytes arrive. */
  lemma FirstWindowUnique(stream: seq<byte>, a: nat, b: nat, size: nat, valid: set<seq<byte>>)
    requires a <= |stream| && b <= |stream|
    requires EndsFirstWindow(stream[..a], size, valid) && EndsFirstWindow(stream[..b], size, valid)
    ensures a == b
  {
    if a != b {
      var m, n := if a < b then a else b, if a < b then b else a;
      assert stream[..m][m - size..m] == stream[..n][m - size..m];
      assert ValidAt(stream[..n], size, valid, m - size);
    }
  }

  /** Where the first window starts that is not checked yet. */
  function FirstUnchecked(fill: nat, size: nat): int {
    if fill < size then 0 else fill + 1 - size
  }

  lemma ArrivalsStep(ticks: seq<Tick>, n: nat)
    requires n < |ticks|
    ensures Arrivals(ticks[..n + 1]) == Arrivals(ticks[..n]) + ticks[n].arrives
  {
    assert ticks[..n + 1][..n] == ticks[..n];
  }

  /** The number of bytes that are read in these turns: one in each turn in which reading works and there is a byte. */
  function Reads(queued: nat, ticks: seq<Tick>): nat {
    if ticks == [] then 0
    else
      var last := ticks[|ticks| - 1];
      var before := Reads(queued, ticks[..|ticks| - 1]);
      if !last.readFails && before < queued + |Arrivals(ticks)| then before + 1 else before
  }

  lemma {:induction false} ReadsBound(queued: nat, ticks: seq<Tick>)
    ensures Reads(queued, ticks) <= |ticks| && Reads(queued, ticks) <= queued + |Arrivals(ticks)|
  {
    if ticks != [] {
      ReadsBound(queued, ticks[..|ticks| - 1]);
    }
  }

  /** Where reading works and bytes are waiting, every turn reads one. */
  lemma {:induction false} ReadsEveryTurn(queued: nat, ticks: seq<Tick>)
    requires |ticks| <= queued && forall tick <- ticks :: !tick.readFails
    ensures Reads(queued, ticks) == |ticks|
  {
    if ticks != [] {
      var last := ticks[|ticks| - 1];
      assert last in ticks;
      ReadsEveryTurn(queued, ticks[..|ticks| - 1]);
    }
  }

  /**
   The bytes in the buffer and those still queued are what was queued at first and what arrived in
   `turns` turns, and no turn has missed a byte.
   */
  ghost predicate Delivered(received: seq<byte>, queue: seq<byte>, start: seq<byte>, ticks: seq<Tick>, turns: nat) {
    && turns <= |ticks| && received + queue == start + Arrivals(ticks[..turns])
    && |received| == Reads(|start|, ticks[..turns])
  }

  /** The time is not up before the last of the turns. */
  ghost predicate InTime(ticks: seq<Tick>, turns: nat, timeoutMs: nat) {
    turns <= |ticks| && forall k :: 0 <= k < turns - 1 ==> ticks[k].elapsedMs < timeoutMs
  }

  /** One turn loses nothing and repeats nothing. */
  lemma DeliveredStep(received: seq<byte>, queue: seq<byte>, start: seq<byte>, ticks: seq<Tick>, turns: nat,
                      got: seq<byte>, rest: seq<byte>)
    requires turns < |ticks| && Delivered(received, queue, start, ticks, turns)
    requires got + rest == queue + ticks[turns].arrives
    requires |got| == if !ticks[turns].readFails && |queue + ticks[turns].arrives| > 0 then 1 else 0
    ensures Delivered(received + got, rest, start, ticks, turns + 1)
  {
    ArrivalsStep(ticks, turns);
    assert ticks[..turns + 1][..turns] == ticks[..turns];
    assert |received| + |queue| == |start| + |Arrivals(ticks[..turns])|;
    assert received + got + rest == received + (got + rest);
    assert received + (queue + ticks[turns].arrives) == received + queue + ticks[turns].arrives;
  }

  /** The caller's validity check, once a packet's bytes are there. */
  method CheckPacket(buf: array<byte>, checkIdx: nat, fill: nat, packetSize: nat, valid: set<seq<byte>>,
                     ghost stream: seq<byte>)
    returns (check: nat, found: bool)
    requires fill <= buf.Length && buf[..fill] == stream
    requires checkIdx <= fill && fill - checkIdx <= packetSize
    ensures found == (fill - checkIdx == packetSize && LastWindowValid(stream, packetSize, valid))
    ensures !found ==> check == if fill - checkIdx == packetSize then checkIdx + 1 else checkIdx
  {
    check, found := checkIdx, false;
    var checkLen := fill - check;
    if checkLen >= packetSize {
      found := buf[check..check + packetSize] in valid;
      assert buf[check..check + packetSize] == stream[fill - packetSize..fill];
      if !found {
        check := check + 1;
      }
    }
  }

  /** One turn's read: bytes may arrive, then at most one is taken from the queue. */
  method ReadNonblocking(serial: SerialPort, buf: array<byte>, at: nat, tick: Tick, ghost received: seq<byte>)
    returns (recvLen: int, ghost got: seq<byte>)
    requires at < buf.Length && serial.hasQueue && !serial.hasChunkCallback && buf[..at] == received
    modifies serial`rcvBuffer, serial`chunks, buf
    ensures recvLen <= 1 && |got| == (if recvLen > 0 then recvLen else 0)
    ensures got + serial.rcvBuffer == old(serial.rcvBuffer) + tick.arrives
    ensures |got| == if !tick.readFails && |old(serial.rcvBuffer) + tick.arrives| > 0 then 1 else 0
    ensures buf[..at + |got|] == received + got
  {
    serial.QueueRxData(tick.arrives);
    if tick.readFails {
      got := [];
      assert got + serial.rcvBuffer == serial.rcvBuffer && received + got == received;
      return SR_ERR, got;
    }
    recvLen := serial.UnqueueRxData(buf, at, 1);
    got := buf[at..at + recvLen];
    assert buf[..at + recvLen] == buf[..at] + got;
  }

  /** One turn of the search loop: read at most a byte, then check the window that it completes. */
  method Turn(serial: SerialPort, buf: array<byte>, fillIdx: nat, checkIdx: nat, packetSize: nat,
              valid: set<seq<byte>>, tick: Tick, ghost received: seq<byte>)
    returns (fill: nat, check: nat, found: bool, ghost got: seq<byte>)
    requires packetSize >= 1 && fillIdx < buf.Length && checkIdx == FirstUnchecked(fillIdx, packetSize)
    requires serial.hasQueue && !serial.hasChunkCallback
    requires buf[..fillIdx] == received && NoWindow(received, packetSize, valid)
    modifies serial`rcvBuffer, serial`chunks, buf
    ensures fillIdx <= fill <= fillIdx + 1 && buf[..fill] == received + got
    ensures got + serial.rcvBuffer == old(serial.rcvBuffer) + tick.arrives
    ensures |got| == if !tick.readFails && |old(serial.rcvBuffer) + tick.arrives| > 0 then 1 else 0
    ensures Concluded(received + got, packetSize, valid, found)
    ensures !found ==> check == FirstUnchecked(fill, packetSize)
  {
    fill := fillIdx;
    var recvLen;
    recvLen, got := ReadNonblocking(serial, buf, fillIdx, tick, received);
    if recvLen > 0 {
      fill := fill + recvLen;
    }
    WindowsGrow(received, got, packetSize, valid);
    check, found := CheckPacket(buf, checkIdx, fill, packetSize, valid, received + got);
  }

  /**
   serial_stream_detect for packets of `packetSize` bytes; `valid` holds the packets that the caller's
   validity check accepts. The environment is a list of ticks, one per turn of the loop, in the last of
   which at the latest the time is up. The ghost result `turns` says how many turns were taken.
   */
  method StreamDetect(serial: SerialPort, buf: array<byte>, buflen0: nat, packetSize: nat,
                      valid: set<seq<byte>>, ticks: seq<Tick>, timeoutMs: nat)
    returns (ret: int, buflen: nat, returnSize: nat, ghost turns: nat)
    requires packetSize >= 1 && buflen0 <= buf.Length
    requires serial.hasQueue && !serial.hasChunkCallback
    requires ticks != [] && ticks[|ticks| - 1].elapsedMs >= timeoutMs
    modifies serial`rcvBuffer, serial`chunks, buf
    ensures ret == SR_ERR_ARG <==> buflen0 < 2 * packetSize
    ensures ret == SR_ERR_ARG ==> buf[..] == old(buf[..]) && serial.rcvBuffer == old(serial.rcvBuffer)
    ensures ret == SR_OK || ret == SR_ERR || ret == SR_ERR_ARG
    ensures ret != SR_ERR_ARG ==>
      && buflen <= buflen0 && turns <= |ticks|
      && Delivered(buf[..buflen], serial.rcvBuffer, old(serial.rcvBuffer), ticks, turns)
      && Concluded(buf[..buflen], packetSize, valid, ret == SR_OK)
      && InTime(ticks, turns, timeoutMs)
    ensures ret == SR_OK ==> returnSize == packetSize
    ensures ret == SR_ERR ==> buflen == buflen0 || (turns > 0 && ticks[turns - 1].elapsedMs >= timeoutMs)
  {
    ret, buflen, returnSize, turns := SR_ERR, buflen0, 0, 0;
    var maxFillIdx := buflen0;
    if maxFillIdx < 2 * packetSize {
      return SR_ERR_ARG, buflen0, 0, 0;
    }
    var checkIdx, fillIdx, tick := 0, 0, 0;
    ghost var received, start := [], serial.rcvBuffer;
    while fillIdx < maxFillIdx
      invariant tick < |ticks| && turns == tick
      invariant fillIdx <= maxFillIdx && checkIdx == FirstUnchecked(fillIdx, packetSize)
      invariant buf[..fillIdx] == received && NoWindow(received, packetSize, valid)
      invariant Delivered(received, serial.rcvBuffer, start, ticks, tick)
      invariant forall k :: 0 <= k < tick ==> ticks[k].elapsedMs < timeoutMs
      decreases |ticks| - tick
    {
      ghost var queue := serial.rcvBuffer;
      var found;
      ghost var got;
      fillIdx, checkIdx, found, got := Turn(serial, buf, fillIdx, checkIdx, packetSize, valid, ticks[tick], received);
      DeliveredStep(received, queue, start, ticks, tick, got, serial.rcvBuffer);
      received := received + got;
      turns := tick + 1;
      if found {
        return SR_OK, fillIdx, packetSize, turns;
      }
      if ticks[tick].elapsedMs >= timeoutMs {
        break;
      }
      tick := tick + 1;
    }
    return SR_ERR, fillIdx, 0, turns;
  }
}
