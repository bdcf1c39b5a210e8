/** The bus between host and sensor: one OUT endpoint and a reply queue for each IN endpoint.
    Which transfers fail, and how, is decided by an unconstrained oracle. */
module Usb {
  import opened Wrappers
  import opened Bytes
  import opened Sensor

  /** A failed write may or may not have reached the sensor. */
  datatype WriteOutcome = Delivered | FailedUnseen | FailedSeen

  /** A failed read may leave the reply to arrive late, or lose it. */
  datatype ReadOutcome = Completed | FailedLate | FailedLost

  datatype Choice = Choice(write: WriteOutcome, read: ReadOutcome, sensor: SensorChoice)

  type Oracle = nat -> Choice

  /** `answers` is bookkeeping: the position on the wire of the frame this reply was made for. */
  datatype Reply = Reply(bytes: seq<byte>, answers: nat)

  datatype Endpoint = Endpoint(address: byte)

  /** `wire` holds every frame handed to the OUT endpoint; `clock` counts transfers. */
  datatype Bus = Bus(fw: Firmware, chip: Chip, queues: map<Endpoint, seq<Reply>>, wire: seq<seq<byte>>, clock: nat)

  function Queue(b: Bus, ep: byte): seq<Reply> {
    if Endpoint(ep) in b.queues then b.queues[Endpoint(ep)] else []
  }

  function Written(b: Bus, f: seq<byte>, c: Choice): Bus {
    var b' := b.(wire := b.wire + [f], clock := b.clock + 1);
    if c.write == FailedUnseen then b'
    else
      var op := Decode(f);
      var (chip, r) := Respond(b.fw, b.chip, op, c.sensor);
      match ReplyEndpoint(op)
      case None => b'.(chip := chip)
      case Some(ep) => b'.(chip := chip, queues := b.queues[Endpoint(ep) := Queue(b, ep) + [Reply(r, |b.wire|)]])
  }

  /** Reads at most `n` bytes; a longer reply is an overflow error and is lost. */
  function Read(b: Bus, ep: byte, n: nat, c: Choice): (Bus, Option<Reply>) {
    var b' := b.(clock := b.clock + 1);
    var q := Queue(b, ep);
    if q == [] || c.read == FailedLate then (b', None)
    else
      var b'' := b'.(queues := b.queues[Endpoint(ep) := q[1..]]);
      (b'', if c.read == FailedLost || |q[0].bytes| > n then None else Some(q[0]))
  }

  /** A write adds at most the one reply to the one queue. */
  lemma WrittenQueue(b: Bus, f: seq<byte>, c: Choice, ep: byte)
    ensures Queue(Written(b, f, c), ep) ==
            if c.write != FailedUnseen && ReplyEndpoint(Decode(f)) == Some(ep)
            then Queue(b, ep) + [Reply(Respond(b.fw, b.chip, Decode(f), c.sensor).1, |b.wire|)]
            else Queue(b, ep)
  {
  }

  /** A read takes at most the head, and only from the queue it names. */
  lemma ReadQueue(b: Bus, from: byte, n: nat, c: Choice, ep: byte)
    ensures var (b', r) := Read(b, from, n, c);
            && (from != ep ==> Queue(b', ep) == Queue(b, ep))
            && (r.Some? ==> Queue(b, from) == [r.value] + Queue(b', from))
  {
  }

  /** An open libusb handle, with the device at its other end. */
  class DeviceHandle {
    const oracle: Oracle
    var bus: Bus

    constructor (oracle: Oracle, bus: Bus)
      ensures this.oracle == oracle && this.bus == bus
    {
      this.oracle := oracle;
      this.bus := bus;
    }

    method WriteBulk(f: seq<byte>) returns (ok: bool)
      modifies this
      ensures bus == Written(old(bus), f, oracle(old(bus.clock)))
      ensures ok <==> oracle(old(bus.clock)).write == Delivered
    {
      ok := oracle(bus.clock).write == Delivered;
      bus := Written(bus, f, oracle(bus.clock));
    }

    method ReadBulk(ep: byte, buf: array<byte>) returns (n: Option<nat>, ghost reply: Option<Reply>)
      modifies this, buf
      ensures (bus, reply) == Read(old(bus), ep, buf.Length, oracle(old(bus.clock)))
      ensures n.Some? <==> reply.Some?
      ensures n.Some? ==> n.value == |reply.value.bytes| <= buf.Length && buf[..n.value] == reply.value.bytes
    {
      var (bus', got) := Read(bus, ep, buf.Length, oracle(bus.clock));
      bus, reply := bus', got;
      match got
      case None =>
        n := None;
      case Some(r) =>
        forall k | 0 <= k < |r.bytes| {
          buf[k] := r.bytes[k];
        }
        n := Some(|r.bytes|);
    }
  }
}
