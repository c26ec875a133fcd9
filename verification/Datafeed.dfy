/** What drivers and the rest of the library exchange: channels and packets. */
module Datafeed {
  import opened Bytes

  datatype Channel = Channel(index: nat, isLogic: bool, enabled: bool)

  /** What is sent to the session bus. */
  datatype Packet = Logic(data: seq<byte>, unitsize: nat) | TriggerMark

  type LogicPacket = p: Packet | p.Logic? witness Logic([], 1)

  /** The logic data of packets, one after the other. */
  function Payload(ps: seq<Packet>): seq<byte> {
    if ps == [] then []
    else (if ps[0].Logic? then ps[0].data else []) + Payload(ps[1..])
  }

  lemma {:induction false} PayloadAppend(a: seq<Packet>, b: seq<Packet>)
    ensures Payload(a + b) == Payload(a) + Payload(b)
  {
    if a == [] {
      assert a + b == b;
    } else {
      assert (a + b)[1..] == a[1..] + b;
      PayloadAppend(a[1..], b);
    }
  }
}
