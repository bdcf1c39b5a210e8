/** Two firmwares, one protocol. The command table says `ff 12` reads the record of the slot it
    names; docs/PROTOCOL.md records that it returns the record of the finger identified last. A
    client that asks only about the slot an identify has just returned cannot tell them apart. */
module Simulation {
  import opened Wrappers
  import opened Bytes
  import opened Proto
  import opened Sensor
  import opened Usb
  import opened Device
  import opened Runs

  /** What the log says about the sensor's last identified record. `Poisoned` is final: an
      identify or enroll failed on the bus, so a reply to it may still be waiting. */
  datatype Known = Poisoned | Nothing | Last(slot: Slot)

  function Learn(k: Known, x: Outcome): Known {
    if k.Poisoned? || !Sends(x.req) then k
    else if x.req.cmd.epIn == EP_MOC_CMD_IN && x.result == Err(UsbError) then Poisoned
    else if x.req.cmd == IDENTIFY then
      match Seen(x)
      case Err(_) => Nothing
      case Ok(r) => (match NamedSlot(r) case None => Nothing case Some(slot) => Last(slot))
    else if x.req.cmd.effect == Persistent then Nothing
    else k
  }

  function KnownAfter(log: seq<Outcome>): Known {
    if log == [] then Nothing else Learn(KnownAfter(log[..|log| - 1]), log[|log| - 1])
  }

  function AskedSlot(q: Req): Slot {
    Slot(if q.payload == [] then 0 else q.payload[0])
  }

  /** A slot may be asked about only while it is the one last identified. */
  predicate Allowed(k: Known, q: Req) {
    InTable(q.cmd) && (q.cmd == FINGER_INFO && Sends(q) ==> k == Last(AskedSlot(q)))
  }

  predicate Disciplined(log: seq<Outcome>) {
    log == [] || (Disciplined(log[..|log| - 1]) && Allowed(KnownAfter(log[..|log| - 1]), log[|log| - 1].req))
  }

  /** What is known is true of the sensor, and no identify reply is waiting. */
  predicate Tracks(b: Bus, k: Known) {
    k.Poisoned? ||
    (Queue(b, EP_MOC_CMD_IN) == [] &&
     (k.Last? ==> k.slot in b.chip.stored && b.chip.last == Some(b.chip.stored[k.slot])))
  }

  lemma TrackStep(b: Bus, o: Oracle, q: Req, k: Known)
    requires InTable(q.cmd) && Tracks(b, k)
    ensures var (b', x) := Perform(b, o, q); Tracks(b', Learn(k, x))
  {
    if Sends(q) && !k.Poisoned? {
      PairStep(b, o, q, EP_MOC_CMD_IN);
      DecodesAsMeant(q.cmd, q.payload);
      if q.cmd == IDENTIFY && Perform(b, o, q).1.result.Ok? {
        IdentifyTracks(b, o, q, k);
      }
    }
  }

  lemma IdentifyTracks(b: Bus, o: Oracle, q: Req, k: Known)
    requires q.cmd == IDENTIFY && Sends(q) && Tracks(b, k) && !k.Poisoned?
    requires Perform(b, o, q).1.result.Ok?
    ensures var (b', x) := Perform(b, o, q);
            match NamedSlot(x.result.value.bytes)
            case Some(slot) => slot in b'.chip.stored && b'.chip.last == Some(b'.chip.stored[slot])
            case None => true
  {
    DecodesAsMeant(q.cmd, q.payload);
    var f := Frame(q.cmd, q.payload).value;
    var b1 := Written(b, f, o(b.clock));
    WrittenQueue(b, f, o(b.clock), EP_MOC_CMD_IN);
    ReadQueue(b1, EP_MOC_CMD_IN, 2, o(b1.clock), EP_MOC_CMD_IN);
    assert Perform(b, o, q).1.result.value.bytes == IdentifyReply(b.chip, o(b.clock).sensor.answer);
  }

  /** An allowed request has the same outcome on either firmware. */
  lemma BlindStep(b: Bus, fw: Firmware, o: Oracle, q: Req, k: Known)
    requires Allowed(k, q) && Tracks(b, k)
    ensures var (b', x) := Perform(b, o, q);
            Perform(b.(fw := fw), o, q) == (b'.(fw := fw), x)
  {
    if Sends(q) {
      DecodesAsMeant(q.cmd, q.payload);
      var f := Frame(q.cmd, q.payload).value;
      WrittenBlind(b, fw, f, o(b.clock));
      var b1 := Written(b, f, o(b.clock));
      ReadBlind(b1, fw, q.cmd.epIn, q.cmd.inLen, o(b1.clock));
    }
  }

  lemma WrittenBlind(b: Bus, fw: Firmware, f: seq<byte>, c: Choice)
    requires var op := Decode(f);
             op.FingerInfo? ==> op.slot in b.chip.stored && b.chip.last == Some(b.chip.stored[op.slot])
    ensures Written(b.(fw := fw), f, c) == Written(b, f, c).(fw := fw)
  {
    assert Respond(fw, b.chip, Decode(f), c.sensor) == Respond(b.fw, b.chip, Decode(f), c.sensor);
  }

  lemma ReadBlind(b: Bus, fw: Firmware, ep: byte, n: nat, c: Choice)
    ensures var (b', r) := Read(b, ep, n, c);
            Read(b.(fw := fw), ep, n, c) == (b'.(fw := fw), r)
  {
  }

  function Reflashed(s: Session, fw: Firmware): Session {
    Session(s.bus.(fw := fw), s.log)
  }

  lemma DoBlind(s: Session, fw: Firmware, o: Oracle, q: Req)
    requires Allowed(KnownAfter(s.log), q) && Tracks(s.bus, KnownAfter(s.log))
    ensures Do(Reflashed(s, fw), o, q) == Reflashed(Do(s, o, q), fw)
  {
    BlindStep(s.bus, fw, o, q, KnownAfter(s.log));
  }

  lemma DisciplineStep(s: Session, o: Oracle, q: Req)
    ensures Disciplined(Do(s, o, q).log) <==> Disciplined(s.log) && Allowed(KnownAfter(s.log), q)
    ensures KnownAfter(Do(s, o, q).log) == Learn(KnownAfter(s.log), Perform(s.bus, o, q).1)
  {
    WireStep(s.bus, o, q);
    assert Do(s, o, q).log[..|s.log|] == s.log;
  }

  // ---- adaptive clients --------------------------------------------------

  /** A client picks its next request, or stops, from everything it has seen. */
  type Client = seq<Outcome> -> Option<Req>

  function Next(s: Session, o: Oracle, client: Client): Session {
    match client(s.log)
    case None => s
    case Some(q) => Do(s, o, q)
  }

  function Play(start: Bus, o: Oracle, client: Client, n: nat): Session {
    if n == 0 then Session(start, []) else Next(Play(start, o, client, n - 1), o, client)
  }

  /** One turn of a client, when its log stays disciplined. */
  lemma NextBlind(s: Session, fw: Firmware, o: Oracle, client: Client)
    requires Disciplined(Next(s, o, client).log)
    ensures Disciplined(s.log)
    ensures Tracks(s.bus, KnownAfter(s.log)) ==>
              var t := Next(s, o, client);
              && Tracks(t.bus, KnownAfter(t.log))
              && Next(Reflashed(s, fw), o, client) == Reflashed(t, fw)
  {
    match client(s.log)
    case None =>
    case Some(q) =>
      DisciplineStep(s, o, q);
      if Tracks(s.bus, KnownAfter(s.log)) {
        TrackStep(s.bus, o, q, KnownAfter(s.log));
        DoBlind(s, fw, o, q);
      }
  }

  /** For every adaptive client and every behaviour of sensor and bus: if its log on one firmware
      is disciplined, the other firmware gives it the very same log. */
  lemma {:induction false} FirmwaresIndistinguishable(start: Bus, fw: Firmware, o: Oracle, client: Client, n: nat)
    requires Queue(start, EP_MOC_CMD_IN) == []
    requires Disciplined(Play(start, o, client, n).log)
    ensures var s := Play(start, o, client, n);
            && Tracks(s.bus, KnownAfter(s.log))
            && Play(start.(fw := fw), o, client, n) == Reflashed(s, fw)
  {
    hide Next;
    if n > 0 {
      NextBlind(Play(start, o, client, n - 1), fw, o, client);
      FirmwaresIndistinguishable(start, fw, o, client, n - 1);
    }
  }

  // ---- where they differ -------------------------------------------------

  /** From any bus with nothing waiting on its endpoint, a request for a slot has the same outcome
      on both firmwares exactly when it fails, or is not answered with a record, or both would
      answer with the same record, or neither record fits the buffer. */
  lemma DistinguishedIff(b: Bus, o: Oracle, j: Slot)
    requires Queue(b, EP_CMD_IN) == []
    ensures var q := Req(Raw, FINGER_INFO, [j.number]);
            var honoured, last := RecordReply(HonoursSlot, b.chip, j), RecordReply(LastIdentified, b.chip, j);
            Perform(b.(fw := HonoursSlot), o, q).1 == Perform(b.(fw := LastIdentified), o, q).1
            <==> !Answered(b, o) || honoured == last || (|honoured| > 64 && |last| > 64)
  {
    SlotReply(b.(fw := HonoursSlot), o, j);
    SlotReply(b.(fw := LastIdentified), o, j);
  }

  /** The next request is delivered, answered with a record, and its reply read. */
  predicate Answered(b: Bus, o: Oracle) {
    o(b.clock).write == Delivered && o(b.clock).sensor.faithful && o(b.clock + 1).read == Completed
  }

  function SlotResult(b: Bus, o: Oracle, j: Slot): Result<Reply, Error> {
    var c := o(b.clock);
    var r := if c.sensor.faithful then RecordReply(b.fw, b.chip, j) else c.sensor.answer;
    if c.write != Delivered || o(b.clock + 1).read != Completed || |r| > 64 then Err(UsbError)
    else Ok(Reply(r, |b.wire|))
  }

  lemma SlotReply(b: Bus, o: Oracle, j: Slot)
    requires Queue(b, EP_CMD_IN) == []
    ensures var q := Req(Raw, FINGER_INFO, [j.number]);
            Perform(b, o, q).1 == Outcome(q, |b.wire|, SlotResult(b, o, j))
  {
    DecodesAsMeant(FINGER_INFO, [j.number]);
    var f := Frame(FINGER_INFO, [j.number]).value;
    WrittenQueue(b, f, o(b.clock), EP_CMD_IN);
  }

  /** Three requests of a client that goes on after an identify has failed. */
  function LateIdentify(told: Slot): seq<Req> {
    [Req(Framed, IDENTIFY, []), Req(Framed, IDENTIFY, []), Req(Raw, FINGER_INFO, [told.number])]
  }

  /** A sensor that matches `told`, whose reply comes late, and then `held`, without other fault. */
  predicate LateThenClean(b: Bus, o: Oracle, told: Slot, held: Slot) {
    var t := b.clock;
    && o(t).write == Delivered && o(t + 1).read == FailedLate
    && o(t + 2).write == Delivered && o(t + 3).read == Completed
    && o(t + 4).write == Delivered && o(t + 5).read == Completed && o(t + 4).sensor.faithful
    && o(t).sensor.answer == [FRAME_MAGIC, told.number] && NamedSlot(o(t).sensor.answer) == Some(told)
    && NamedSlot(o(t + 2).sensor.answer) == Some(held)
  }

  /** One identify from any bus: what the sensor then holds, and what the caller is told. */
  lemma IdentifyReads(b: Bus, o: Oracle, slot: Slot)
    requires o(b.clock).write == Delivered
    requires NamedSlot(o(b.clock).sensor.answer) == Some(slot) && slot in b.chip.stored
    ensures var (b', x) := Perform(b, o, Req(Framed, IDENTIFY, []));
            var q := Queue(b, EP_MOC_CMD_IN) + [Reply(o(b.clock).sensor.answer, |b.wire|)];
            && b'.chip == b.chip.(last := Some(b.chip.stored[slot]))
            && b'.clock == b.clock + 2 && |b'.wire| == |b.wire| + 1 && b'.fw == b.fw
            && Queue(b', EP_CMD_IN) == Queue(b, EP_CMD_IN)
            && (o(b.clock + 1).read == FailedLate ==> x.result == Err(UsbError) && Queue(b', EP_MOC_CMD_IN) == q)
            && (o(b.clock + 1).read == Completed && |q[0].bytes| <= 2 ==> x.result == Ok(q[0]))
  {
    DecodesAsMeant(IDENTIFY, []);
    var f := Frame(IDENTIFY, []).value;
    WrittenQueue(b, f, o(b.clock), EP_MOC_CMD_IN);
    WrittenQueue(b, f, o(b.clock), EP_CMD_IN);
    var b1 := Written(b, f, o(b.clock));
    ReadQueue(b1, EP_MOC_CMD_IN, 2, o(b1.clock), EP_CMD_IN);
  }

  /** Why a failed identify poisons the log. From queues with nothing waiting, the second identify
      is answered by the first one's late reply: the caller is told one slot while the sensor
      remembers the other, and the record it then asks for is the same on both firmwares exactly
      when the two slots hold the same record. */
  lemma LateIdentifyDistinguishedIff(start: Bus, o: Oracle, told: Slot, held: Slot)
    requires Queue(start, EP_MOC_CMD_IN) == [] && Queue(start, EP_CMD_IN) == []
    requires told in start.chip.stored && held in start.chip.stored && LateThenClean(start, o, told, held)
    requires |start.chip.stored[told]| <= 64 && |start.chip.stored[held]| <= 64
    ensures var log := Run(start.(fw := HonoursSlot), o, LateIdentify(told)).log;
            && |log| == 3 && log[0].result == Err(UsbError)
            && Seen(log[1]) == Ok([FRAME_MAGIC, told.number]) && NamedSlot(Seen(log[1]).value) == Some(told)
            && (Run(start.(fw := LastIdentified), o, LateIdentify(told)).log == log
                <==> start.chip.stored[told] == start.chip.stored[held])
  {
    hide Perform, LateIdentify, RecordReply, SlotResult;
    var h := LateRun(start.(fw := HonoursSlot), o, told, held);
    var l := LateRun(start.(fw := LastIdentified), o, told, held);
    LastOutcomesDiffer(h, l, start, told, held);
  }

  lemma LateRun(b: Bus, o: Oracle, told: Slot, held: Slot) returns (x: Outcome)
    requires Queue(b, EP_MOC_CMD_IN) == [] && Queue(b, EP_CMD_IN) == []
    requires told in b.chip.stored && held in b.chip.stored && LateThenClean(b, o, told, held)
    requires |b.chip.stored[told]| <= 64 && |b.chip.stored[held]| <= 64
    ensures var q := Req(Framed, IDENTIFY, []);
            var n := |b.wire|;
            && Run(b, o, LateIdentify(told)).log ==
               [Outcome(q, n, Err(UsbError)), Outcome(q, n + 1, Ok(Reply([FRAME_MAGIC, told.number], n))), x]
            && x == Outcome(Req(Raw, FINGER_INFO, [told.number]), n + 2,
                            Ok(Reply(RecordReply(b.fw, b.chip.(last := Some(b.chip.stored[held])), told), n + 2)))
  {
    hide Perform;
    var q, ask := Req(Framed, IDENTIFY, []), Req(Raw, FINGER_INFO, [told.number]);
    var s0 := Session(b, []);
    var s1 := Do(s0, o, q);
    IdentifyReads(b, o, told);
    WireStep(b, o, q);
    var s2 := Do(s1, o, q);
    IdentifyReads(s1.bus, o, held);
    WireStep(s1.bus, o, q);
    SlotReply(s2.bus, o, told);
    x := Perform(s2.bus, o, ask).1;
    assert LateIdentify(told) == (([] + [q]) + [q]) + [ask];
    RunSnoc(b, o, [], q);
    RunSnoc(b, o, [q], q);
    RunSnoc(b, o, [q, q], ask);
    assert [] + [q] == [q] && [q] + [q] == [q, q];
  }

  lemma LastOutcomesDiffer(h: Outcome, l: Outcome, b: Bus, told: Slot, held: Slot)
    requires told in b.chip.stored && held in b.chip.stored && h.req == l.req && h.at == l.at
    requires var chip := b.chip.(last := Some(b.chip.stored[held]));
             && h.result == Ok(Reply(RecordReply(HonoursSlot, chip, told), h.at))
             && l.result == Ok(Reply(RecordReply(LastIdentified, chip, told), l.at))
    ensures h == l <==> b.chip.stored[told] == b.chip.stored[held]
  {
  }
}
