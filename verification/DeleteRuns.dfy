/** What deletes do to the sensor's storage and to the host's count of it, over every run. The bus
    may hold replies from before, lose transfers, or hand replies over late. */
module DeleteRuns {
  import opened Wrappers
  import opened Bytes
  import opened Proto
  import opened Sensor
  import opened Usb
  import opened Device
  import opened Runs
  import opened UserId
  import opened DeleteFrames
  import opened DeleteDriver

  // ---- one delete request on the bus -------------------------------------

  /** Whether the sensor sees the delete of a finger's slot and carries it out. */
  predicate CarriedOut(b: Bus, o: Oracle, finger: byte) {
    o(b.clock).write != FailedUnseen && Obeys(b, o, finger)
  }

  predicate Obeys(b: Bus, o: Oracle, finger: byte) {
    o(b.clock).sensor.obeys && Slot(finger % 16) in b.chip.stored
  }

  /** The reply the sensor makes to this delete. */
  function Own(b: Bus, o: Oracle, finger: byte): Reply {
    Reply(DeleteReply(Obeys(b, o, finger), o(b.clock).sensor.answer), |b.wire|)
  }

  /** Two bytes, the magic and status 0: what the host takes for a success. */
  predicate Success(bytes: seq<byte>) {
    |bytes| == 2 && bytes[0] == FRAME_MAGIC && bytes[1] == 0
  }

  /** Two bytes, the magic and another status: what the host takes for a refusal. */
  predicate Refusal(bytes: seq<byte>) {
    |bytes| == 2 && bytes[0] == FRAME_MAGIC && bytes[1] != 0
  }

  /** Two bytes, the first one the magic: a reply the host can judge. */
  predicate Readable(bytes: seq<byte>) {
    |bytes| == 2 && bytes[0] == FRAME_MAGIC
  }

  /** What waits to be read once the request has been written. */
  function Pending(b: Bus, o: Oracle, finger: byte): seq<Reply> {
    Queue(b, EP_CMD_IN) + if o(b.clock).write == FailedUnseen then [] else [Own(b, o, finger)]
  }

  /** The exchange hands the host a reply. */
  predicate HandsOver(b: Bus, o: Oracle) {
    o(b.clock).write == Delivered && o(b.clock + 1).read == Completed
  }

  lemma DeleteExchange(b: Bus, o: Oracle, finger: byte, userId: seq<byte>)
    requires |userId| <= USER_ID_CAP
    ensures var (b', x) := Perform(b, o, DeleteReq(finger, userId));
            var q := Pending(b, o, finger);
            && b'.chip.stored == (if CarriedOut(b, o, finger) then b.chip.stored - {Slot(finger % 16)} else b.chip.stored)
            && b'.clock == b.clock + (if o(b.clock).write == Delivered then 2 else 1)
            && |b'.wire| == |b.wire| + 1
            && if o(b.clock).write != Delivered || o(b.clock + 1).read == FailedLate then
                 x.result == Err(UsbError) && Queue(b', EP_CMD_IN) == q
               else
                 && q != [] && Queue(b', EP_CMD_IN) == q[1..]
                 && x.result == if HandsOver(b, o) && |q[0].bytes| <= 2 then Ok(q[0]) else Err(UsbError)
  {
    RustDeleteFrame(finger, userId);
    SlotByteExact(finger, 0);
    var f := DeleteFrame(finger, userId);
    WrittenQueue(b, f, o(b.clock), EP_CMD_IN);
    assert Queue(b, EP_CMD_IN) + [] == Queue(b, EP_CMD_IN);
    DeleteStored(b, o, finger, f);
    hide DeleteFrame, Frame, Decode, Respond;
    var b1 := Written(b, f, o(b.clock));
    assert b1.clock == b.clock + 1 && |b1.wire| == |b.wire| + 1;
  }

  lemma DeleteStored(b: Bus, o: Oracle, finger: byte, f: seq<byte>)
    requires Decode(f) == Delete(SlotByte(finger)) && SlotOfCode(SlotByte(finger)) == Slot(finger % 16)
    ensures Respond(b.fw, b.chip, Decode(f), o(b.clock).sensor).1 == Own(b, o, finger).bytes
    ensures Written(b, f, o(b.clock)).chip.stored ==
            if CarriedOut(b, o, finger) then b.chip.stored - {Slot(finger % 16)} else b.chip.stored
  {
  }

  /** What the reply handed over says. */
  predicate HearsSuccess(b: Bus, o: Oracle, finger: byte) {
    HandsOver(b, o) && Pending(b, o, finger) != [] && Success(Pending(b, o, finger)[0].bytes)
  }

  predicate HearsRefusal(b: Bus, o: Oracle, finger: byte) {
    HandsOver(b, o) && Pending(b, o, finger) != [] && Refusal(Pending(b, o, finger)[0].bytes)
  }

  /** The host is given what the reply handed over says. */
  lemma Heard(b: Bus, o: Oracle, finger: byte, userId: seq<byte>)
    requires |userId| <= USER_ID_CAP
    ensures var seen := Seen(Perform(b, o, DeleteReq(finger, userId)).1);
            && (HearsSuccess(b, o, finger) <==> seen.Ok? && Success(seen.value))
            && (HearsRefusal(b, o, finger) <==> seen.Ok? && Refusal(seen.value))
            && (seen.Ok? && |seen.value| >= 2 ==> Success(seen.value) || Refusal(seen.value))
  {
    hide Exchange, Pending;
    DeleteExchange(b, o, finger, userId);
  }

  /** What waits first on the endpoint before the request is made. */
  predicate SuccessWaits(b: Bus) {
    Queue(b, EP_CMD_IN) != [] && Success(Queue(b, EP_CMD_IN)[0].bytes)
  }

  predicate RefusalWaits(b: Bus) {
    Queue(b, EP_CMD_IN) != [] && Refusal(Queue(b, EP_CMD_IN)[0].bytes)
  }

  /** Whether the reply handed over says what did not happen. */
  predicate Misled(b: Bus, o: Oracle, finger: byte) {
    HandsOver(b, o) && if CarriedOut(b, o, finger) then RefusalWaits(b) else SuccessWaits(b)
  }

  /** On every bus, what is heard is false exactly when it waited there before. With nothing waiting
      it is the truth, and it is heard whenever a readable reply is handed over. */
  lemma HeardFalselyIff(b: Bus, o: Oracle, finger: byte)
    ensures var carried, readable := CarriedOut(b, o, finger), Readable(o(b.clock).sensor.answer);
            && (HearsSuccess(b, o, finger) && !carried <==> HandsOver(b, o) && !carried && SuccessWaits(b))
            && (HearsRefusal(b, o, finger) && carried <==> HandsOver(b, o) && carried && RefusalWaits(b))
            && (Queue(b, EP_CMD_IN) == [] ==>
                  && (HearsSuccess(b, o, finger) <==> HandsOver(b, o) && readable && carried)
                  && (HearsRefusal(b, o, finger) <==> HandsOver(b, o) && readable && !carried))
  {
    hide Own, Obeys;
    OwnReplyIsHonest(b, o, finger);
    var q := Queue(b, EP_CMD_IN);
    assert HandsOver(b, o) ==> Pending(b, o, finger) == q + [Own(b, o, finger)];
  }

  lemma OwnReplyIsHonest(b: Bus, o: Oracle, finger: byte)
    ensures var own, answer := Own(b, o, finger).bytes, o(b.clock).sensor.answer;
            && |own| == |answer| && (Readable(own) <==> Readable(answer))
            && (|own| >= 2 ==> (own[1] == 0 <==> Obeys(b, o, finger)))
  {
  }

  // ---- one delete operation ----------------------------------------------

  function Finger(op: DeleteOp): byte
    requires op.fpiData.Some?
  {
    op.fpiData.value.0
  }

  predicate TemplateGoes(b: Bus, o: Oracle, op: DeleteOp) {
    Transmits(op) && CarriedOut(b, o, Finger(op))
  }

  /** What the operation reported. */
  predicate Said(h: Host, h': Host, r: Report) {
    |h'.reports| == |h.reports| + 1 && h'.reports[|h.reports|] == r
  }

  /** The transport reports a failure instead of a reply. */
  predicate TransportFails(b: Bus, o: Oracle, op: DeleteOp) {
    Transmits(op) && Seen(Perform(b, o, ReqOf(op)).1).Err?
  }

  predicate ReadsSuccess(b: Bus, o: Oracle, op: DeleteOp) {
    Transmits(op) && HearsSuccess(b, o, Finger(op))
  }

  predicate ReadsRefusal(b: Bus, o: Oracle, op: DeleteOp) {
    Transmits(op) && HearsRefusal(b, o, Finger(op))
  }

  /** For every delete on every bus: storage afterwards is the old one, or the old one without the
      named template; at most one frame is sent; success is reported, and counted, exactly when the
      reply handed over says so, and a refusal exactly when it says that. */
  lemma DeleteTouchesOnlyItsTarget(h: Host, b: Bus, o: Oracle, op: DeleteOp)
    ensures var (h', b') := RunOp(h, b, o, op);
            && b'.chip.stored == (if TemplateGoes(b, o, op) then b.chip.stored - {Slot(Finger(op) % 16)} else b.chip.stored)
            && h'.sent == h.sent + (if Transmits(op) then [FrameOf(op)] else [])
            && (Said(h, h', Deleted) <==> ReadsSuccess(b, o, op))
            && (Said(h, h', Refused) <==> ReadsRefusal(b, o, op))
            && h'.enrolledNum == h.enrolledNum - (if Said(h, h', Deleted) && h.enrolledNum > 0 then 1 else 0)
  {
    hide RunOp, DeleteReq, Pending, CarriedOut, HandsOver, HearsSuccess, HearsRefusal;
    if Transmits(op) {
      var kept := Kept(op.fpiData.value.0, op.fpiData.value.1);
      DeleteExchange(b, o, kept.fingerId, kept.userId);
      SaysWhatItHeard(h, b, o, op);
      SentBus(h, b, o, op);
    } else {
      NothingSent(h, b, o, op);
    }
  }

  lemma SentBus(h: Host, b: Bus, o: Oracle, op: DeleteOp)
    requires Transmits(op)
    ensures RunOp(h, b, o, op).1 == Perform(b, o, ReqOf(op)).0
  {
    hide Perform;
  }

  /** The handler reports, and counts, what it heard. */
  lemma SaysWhatItHeard(h: Host, b: Bus, o: Oracle, op: DeleteOp)
    requires Transmits(op)
    ensures var h' := RunOp(h, b, o, op).0;
            && h'.sent == h.sent + [FrameOf(op)]
            && (Said(h, h', Deleted) <==> HearsSuccess(b, o, Finger(op)))
            && (Said(h, h', Refused) <==> HearsRefusal(b, o, Finger(op)))
            && h'.enrolledNum == h.enrolledNum - (if Said(h, h', Deleted) && h.enrolledNum > 0 then 1 else 0)
  {
    hide Perform, HearsSuccess, HearsRefusal, DeleteFrame;
    var kept := Kept(op.fpiData.value.0, op.fpiData.value.1);
    Heard(b, o, kept.fingerId, kept.userId);
  }

  lemma NothingSent(h: Host, b: Bus, o: Oracle, op: DeleteOp)
    requires !Transmits(op)
    ensures var (h', b') := RunOp(h, b, o, op);
            && b' == b && h'.sent == h.sent && h'.enrolledNum == h.enrolledNum
            && !Said(h, h', Deleted) && !Said(h, h', Refused)
  {
  }

  /** On every bus: a delete that reports success changed storage and one that reports a refusal did
      not, if and only if it was not handed a reply left from before that says the opposite of what
      happened. With nothing waiting, either report is made exactly when it is true and a readable
      reply came over. */
  lemma ReportIsHonestIff(h: Host, b: Bus, o: Oracle, op: DeleteOp)
    ensures var (h', b') := RunOp(h, b, o, op);
            && (Said(h, h', Deleted) ==> b'.chip.stored != b.chip.stored)
            && (Said(h, h', Refused) ==> b'.chip.stored == b.chip.stored)
            <==> !(Transmits(op) && Misled(b, o, Finger(op)))
    ensures Queue(b, EP_CMD_IN) == [] ==>
              var h' := RunOp(h, b, o, op).0;
              var readable := HandsOver(b, o) && Readable(o(b.clock).sensor.answer);
              && (Said(h, h', Deleted) <==> TemplateGoes(b, o, op) && readable)
              && (Said(h, h', Refused) <==> Transmits(op) && !TemplateGoes(b, o, op) && readable)
  {
    hide RunOp, HearsSuccess, HearsRefusal, HandsOver, Said;
    DeleteTouchesOnlyItsTarget(h, b, o, op);
    if Transmits(op) {
      HeardFalselyIff(b, o, Finger(op));
    }
  }

  /** When success is reported although nothing went: exactly when a success was waiting on the
      endpoint before. */
  lemma FalseSuccessIff(h: Host, b: Bus, o: Oracle, op: DeleteOp)
    ensures Said(h, RunOp(h, b, o, op).0, Deleted) && !TemplateGoes(b, o, op) <==>
            Transmits(op) && !TemplateGoes(b, o, op) && HandsOver(b, o) && SuccessWaits(b)
  {
    hide RunOp, HearsSuccess, HearsRefusal, HandsOver;
    DeleteTouchesOnlyItsTarget(h, b, o, op);
    if Transmits(op) {
      HeardFalselyIff(b, o, Finger(op));
    }
  }

  /** When a refusal is reported although the template went: exactly when a refusal was waiting. */
  lemma FalseRefusalIff(h: Host, b: Bus, o: Oracle, op: DeleteOp)
    ensures Said(h, RunOp(h, b, o, op).0, Refused) && TemplateGoes(b, o, op) <==>
            TemplateGoes(b, o, op) && HandsOver(b, o) && RefusalWaits(b)
  {
    hide RunOp, HearsSuccess, HearsRefusal, HandsOver;
    DeleteTouchesOnlyItsTarget(h, b, o, op);
    if Transmits(op) {
      HeardFalselyIff(b, o, Finger(op));
    }
  }

  /** The transfers of two deletes, one after the other: the first one's reply is late, and the second
      is handed the reply that came. */
  predicate FirstIsLate(b: Bus, o: Oracle) {
    && o(b.clock).write == Delivered && o(b.clock + 1).read == FailedLate
    && o(b.clock + 2).write == Delivered && o(b.clock + 3).read == Completed
    && Readable(o(b.clock).sensor.answer)
  }

  /** A false success: the first delete is carried out and its reply comes late; the second is
      refused, is handed the first one's reply, and reports success with storage as it was. */
  lemma LateSuccessIsMisjudged(h: Host, b: Bus, o: Oracle, first: DeleteOp, second: DeleteOp)
    requires Transmits(first) && Transmits(second) && Queue(b, EP_CMD_IN) == [] && FirstIsLate(b, o)
    requires Obeys(b, o, Finger(first)) && !o(b.clock + 2).sensor.obeys
    ensures var (h1, b1) := RunOp(h, b, o, first);
            var (h2, b2) := RunOp(h1, b1, o, second);
            && h1.reports == h.reports && b1.chip.stored == b.chip.stored - {Slot(Finger(first) % 16)}
            && Said(h1, h2, Deleted) && b2.chip.stored == b1.chip.stored
  {
    hide RunOp, Obeys;
    var (h1, b1) := RunOp(h, b, o, first);
    LateReplyIsLeft(h, b, o, first);
    DisobedientKeeps(b1, o, second);
    FalseSuccessIff(h1, b1, o, second);
    DeleteTouchesOnlyItsTarget(h1, b1, o, second);
  }

  /** A false refusal: the first delete is refused and its reply comes late; the second is carried
      out, is handed the first one's reply, and reports a refusal of a template that is gone, and
      still counted. */
  lemma LateRefusalIsMisjudged(h: Host, b: Bus, o: Oracle, first: DeleteOp, second: DeleteOp)
    requires Transmits(first) && Transmits(second) && Queue(b, EP_CMD_IN) == [] && FirstIsLate(b, o)
    requires !o(b.clock).sensor.obeys
    requires o(b.clock + 2).sensor.obeys && Slot(Finger(second) % 16) in b.chip.stored
    ensures var (h1, b1) := RunOp(h, b, o, first);
            var (h2, b2) := RunOp(h1, b1, o, second);
            && h1.reports == h.reports && b1.chip.stored == b.chip.stored
            && Said(h1, h2, Refused) && b2.chip.stored == b1.chip.stored - {Slot(Finger(second) % 16)}
            && h2.enrolledNum == h.enrolledNum
  {
    hide RunOp, HandsOver;
    var (h1, b1) := RunOp(h, b, o, first);
    LateReplyIsLeft(h, b, o, first);
    FalseRefusalIff(h1, b1, o, second);
    DeleteTouchesOnlyItsTarget(h1, b1, o, second);
  }

  /** After a delete whose reply is late, that reply is what the next one is handed. */
  lemma LateReplyIsLeft(h: Host, b: Bus, o: Oracle, op: DeleteOp)
    requires Transmits(op) && Queue(b, EP_CMD_IN) == [] && FirstIsLate(b, o)
    ensures var (h', b') := RunOp(h, b, o, op);
            var obeyed := Obeys(b, o, Finger(op));
            && h'.reports == h.reports && h'.enrolledNum == h.enrolledNum && b'.clock == b.clock + 2
            && b'.chip.stored == (if obeyed then b.chip.stored - {Slot(Finger(op) % 16)} else b.chip.stored)
            && HandsOver(b', o) && if obeyed then SuccessWaits(b') else RefusalWaits(b')
  {
    hide Perform, Own, Obeys;
    var kept := Kept(op.fpiData.value.0, op.fpiData.value.1);
    DeleteExchange(b, o, kept.fingerId, kept.userId);
    OwnReplyIsHonest(b, o, Finger(op));
  }

  lemma DisobedientKeeps(b: Bus, o: Oracle, op: DeleteOp)
    requires !o(b.clock).sensor.obeys
    ensures !TemplateGoes(b, o, op)
  {
  }

  /** The reply handed over is framed, and too short to judge. */
  predicate HearsNothing(b: Bus, o: Oracle, finger: byte) {
    && HandsOver(b, o) && Pending(b, o, finger) != []
    && var bytes := Pending(b, o, finger)[0].bytes;
       |bytes| < 2 && (|bytes| == 1 ==> bytes[0] == FRAME_MAGIC)
  }

  /** The other two reports: bad data for a print without any, and no reply for one that was not
      sent or was handed an empty or one-byte reply. */
  lemma NoReplyIff(h: Host, b: Bus, o: Oracle, op: DeleteOp)
    ensures var h' := RunOp(h, b, o, op).0;
            && (Said(h, h', DataInvalid) <==> op.fpiData.None?)
            && (Said(h, h', NoReply) <==> op.fpiData.Some? && (!op.prepared || HearsNothing(b, o, Finger(op))))
  {
    hide Exchange, Pending;
    if Transmits(op) {
      var kept := Kept(op.fpiData.value.0, op.fpiData.value.1);
      DeleteExchange(b, o, kept.fingerId, kept.userId);
    }
  }

  // ---- what is sent ------------------------------------------------------

  /** The 72 bytes that ask for the finger's slot with this user id, as much of it as there is room
      for. */
  predicate AsksFor(f: seq<byte>, finger: byte, userId: seq<byte>) {
    var n := if |userId| < 68 then |userId| else 68;
    && |f| == 72
    && f[0] == 0x40 && f[1] == 0xff && f[2] == 0x13 && f[3] == 0xf0 + (finger + 5) % 16
    && f[4..4 + n] == userId[..n]
    && forall k :: 4 + n <= k < 72 ==> f[k] == 0
  }

  lemma DeleteFrameAsks(finger: byte, userId: seq<byte>, whole: seq<byte>)
    requires |userId| <= USER_ID_CAP
    requires userId == whole[..if |whole| < 68 then |whole| else 68]
    ensures AsksFor(DeleteFrame(finger, userId), finger, whole)
  {
    SlotByteExact(finger, 0);
    hide SlotByte;
    assert DeleteFrame(finger, userId)[4..4 + |userId|] == userId;
  }

  /** Every delete that is sent puts one frame on the wire, and it asks for its own finger and
      carries its own user id. */
  lemma DeleteAsksForItsOwn(h: Host, b: Bus, o: Oracle, op: DeleteOp)
    requires Transmits(op)
    ensures var (h', b') := RunOp(h, b, o, op);
            var (finger, userId) := op.fpiData.value;
            && |h'.sent| == |h.sent| + 1 && AsksFor(h'.sent[|h.sent|], finger, userId)
            && b'.wire == b.wire + [h'.sent[|h.sent|]]
  {
    hide RunOp, Perform, AsksFor, DeleteFrame;
    var kept := Kept(op.fpiData.value.0, op.fpiData.value.1);
    DeleteTouchesOnlyItsTarget(h, b, o, op);
    DeleteFrameAsks(kept.fingerId, kept.userId, op.fpiData.value.1);
    SentBus(h, b, o, op);
    OpFrame(op);
    WireStep(b, o, ReqOf(op));
  }

  /** The reply judged is the operation's own if and only if nothing was waiting on the endpoint. */
  lemma JudgesItsOwnReplyIff(b: Bus, o: Oracle, op: DeleteOp)
    requires Transmits(op) && TagsOld(b, EP_CMD_IN) && !TransportFails(b, o, op)
    ensures Paired(Perform(b, o, ReqOf(op)).1) <==> Queue(b, EP_CMD_IN) == []
  {
    PairedIffNothingWaiting(b, o, ReqOf(op));
  }

  /** Unless the transport fails, a delete reports its end exactly once and leaves no machine
      running; on a transport failure the handler reports nothing. */
  lemma DeleteReportsOnce(h: Host, b: Bus, o: Oracle, op: DeleteOp)
    ensures var h' := RunOp(h, b, o, op).0;
            if TransportFails(b, o, op) then h'.reports == h.reports && h'.ssm.None?
            else
              && |h'.reports| == |h.reports| + 1 && h.reports == h'.reports[..|h.reports|]
              && !Said(h, h', EnrollFailed)
              && (op.fpiData.Some? ==> h'.ssm.None?)
  {
    hide Perform;
  }

  /** What a delete leaves alone: the print index and the enroll print always, and everything but
      the one report when the print has bad data. */
  lemma DeleteLeavesAlone(h: Host, b: Bus, o: Oracle, op: DeleteOp)
    ensures var (h', b') := RunOp(h, b, o, op);
            && h'.printIndex == h.printIndex && h'.hasEnrollPrint == h.hasEnrollPrint
            && (op.fpiData.None? ==> b' == b && h' == h.(reports := h.reports + [DataInvalid]))
  {
    hide Perform;
  }

  /** Whatever `buffer_in` holds when a delete starts, everything the delete does is the same. Only
      a print with bad data leaves it in place. */
  lemma StaleBufferIgnored(h: Host, b: Bus, o: Oracle, op: DeleteOp, junk: Option<seq<byte>>)
    ensures var (h', b') := RunOp(h, b, o, op);
            RunOp(h.(bufferIn := junk), b, o, op)
            == (h'.(bufferIn := if op.fpiData.Some? then None else junk), b')
    ensures op.fpiData.Some? ==> RunOp(h, b, o, op).0.bufferIn.None?
  {
    hide Perform;
  }

  // ---- sequences of deletes ----------------------------------------------

  /** The requests that a sequence of deletes puts on the bus. */
  function DeleteReqs(ops: seq<DeleteOp>): seq<Req> {
    if ops == [] then []
    else
      var op := ops[|ops| - 1];
      DeleteReqs(ops[..|ops| - 1]) + if Transmits(op) then [ReqOf(op)] else []
  }

  function SessionAfter(start: Bus, o: Oracle, ops: seq<DeleteOp>): Session {
    Run(start, o, DeleteReqs(ops))
  }

  function BusAfter(start: Bus, o: Oracle, ops: seq<DeleteOp>): Bus {
    SessionAfter(start, o, ops).bus
  }

  function RunOps(h: Host, start: Bus, o: Oracle, ops: seq<DeleteOp>): Host {
    if ops == [] then h
    else
      var init := ops[..|ops| - 1];
      RunOp(RunOps(h, start, o, init), BusAfter(start, o, init), o, ops[|ops| - 1]).0
  }

  lemma BusStep(h: Host, start: Bus, o: Oracle, ops: seq<DeleteOp>)
    requires ops != []
    ensures var init, op := ops[..|ops| - 1], ops[|ops| - 1];
            && BusAfter(start, o, ops) == RunOp(h, BusAfter(start, o, init), o, op).1
            && SessionAfter(start, o, ops) ==
               if Transmits(op) then Do(SessionAfter(start, o, init), o, ReqOf(op)) else SessionAfter(start, o, init)
  {
    hide Perform;
    var init, op := ops[..|ops| - 1], ops[|ops| - 1];
    if Transmits(op) {
      RunSnoc(start, o, DeleteReqs(init), ReqOf(op));
    } else {
      assert DeleteReqs(init) + [] == DeleteReqs(init);
    }
  }

  lemma {:induction false} DeleteReqsInTable(ops: seq<DeleteOp>)
    ensures FromTable(DeleteReqs(ops))
  {
    if ops != [] {
      DeleteReqsInTable(ops[..|ops| - 1]);
    }
  }

  /** Over any sequence of deletes without a failed transfer, nothing is ever left waiting and every
      reply judged is the operation's own. */
  lemma CleanDeletesJudgeTheirOwn(start: Bus, o: Oracle, ops: seq<DeleteOp>)
    requires Queue(start, EP_CMD_IN) == [] && CleanOn(SessionAfter(start, o, ops).log, EP_CMD_IN)
    ensures var s := SessionAfter(start, o, ops);
            && Queue(s.bus, EP_CMD_IN) == []
            && forall k :: 0 <= k < |s.log| && s.log[k].req.cmd.epIn == EP_CMD_IN ==> Paired(s.log[k])
  {
    DeleteReqsInTable(ops);
    RepliesPaired(start, o, DeleteReqs(ops), EP_CMD_IN);
  }

  /** The operations that end with a report from the handler: all but transport failures. */
  function Finished(start: Bus, o: Oracle, ops: seq<DeleteOp>): nat {
    if ops == [] then 0
    else
      var init := ops[..|ops| - 1];
      Finished(start, o, init) + if TransportFails(BusAfter(start, o, init), o, ops[|ops| - 1]) then 0 else 1
  }

  predicate Named(ops: seq<DeleteOp>, s: Slot) {
    ops != [] &&
    (Named(ops[..|ops| - 1], s)
     || (Transmits(ops[|ops| - 1]) && Slot(Finger(ops[|ops| - 1]) % 16) == s))
  }

  /** Over any sequence of deletes, on any bus: one report for each that the transport did not fail,
      earlier reports kept; nothing is stored that was not, and whatever is gone was named by a
      delete that was sent. */
  lemma {:induction false} DeletesAreContained(h: Host, start: Bus, o: Oracle, ops: seq<DeleteOp>)
    ensures var h', chip' := RunOps(h, start, o, ops), BusAfter(start, o, ops).chip;
            && |h'.reports| == |h.reports| + Finished(start, o, ops) && h'.reports[..|h.reports|] == h.reports
            && (forall s :: s in chip'.stored ==> s in start.chip.stored && chip'.stored[s] == start.chip.stored[s])
            && (forall s :: s in start.chip.stored && s !in chip'.stored ==> Named(ops, s))
  {
    hide RunOp, SessionAfter, TransportFails, TemplateGoes;
    if ops == [] {
      NoDeletes(start, o);
    } else {
      var init, op := ops[..|ops| - 1], ops[|ops| - 1];
      DeletesAreContained(h, start, o, init);
      var h1, b1 := RunOps(h, start, o, init), BusAfter(start, o, init);
      BusStep(h1, start, o, ops);
      DeleteReportsOnce(h1, b1, o, op);
      DeleteTouchesOnlyItsTarget(h1, b1, o, op);
      GoneIsSent(b1, o, op);
    }
  }

  lemma NoDeletes(start: Bus, o: Oracle)
    ensures BusAfter(start, o, []) == start
  {
  }

  lemma GoneIsSent(b: Bus, o: Oracle, op: DeleteOp)
    ensures TemplateGoes(b, o, op) ==> Transmits(op)
  {
  }

  // ---- the enrolled count ------------------------------------------------

  /** The successes among waiting replies. */
  function Waiting(q: seq<Reply>): nat {
    if q == [] then 0 else (if Success(q[0].bytes) then 1 else 0) + Waiting(q[1..])
  }

  lemma {:induction false} WaitingSnoc(q: seq<Reply>, x: Reply)
    ensures Waiting(q + [x]) == Waiting(q) + if Success(x.bytes) then 1 else 0
  {
    if q != [] {
      WaitingSnoc(q[1..], x);
      assert (q + [x])[1..] == q[1..] + [x];
    } else {
      assert q + [x] == [x];
    }
  }

  /** The successes this delete costs the host: its own, if the sensor's reply to it is not one that
      reads as a success, and one that is lost on being read. */
  function LostIn(b: Bus, o: Oracle, op: DeleteOp): nat {
    if !Transmits(op) then 0
    else
      var q := Pending(b, o, Finger(op));
      (if TemplateGoes(b, o, op) && !Success(Own(b, o, Finger(op)).bytes) then 1 else 0)
      + (if o(b.clock).write == Delivered && o(b.clock + 1).read == FailedLost && q != [] && Success(q[0].bytes)
         then 1 else 0)
  }

  function LostCount(start: Bus, o: Oracle, ops: seq<DeleteOp>): nat {
    if ops == [] then 0
    else
      var init := ops[..|ops| - 1];
      LostCount(start, o, init) + LostIn(BusAfter(start, o, init), o, ops[|ops| - 1])
  }

  lemma OneFewer(m: map<Slot, Record>, k: Slot)
    requires k in m
    ensures |m - {k}| == |m| - 1
  {
    assert (m - {k}).Keys == m.Keys - {k};
    assert |m.Keys - {k}| == |m.Keys| - 1;
  }

  function WaitingOn(b: Bus): nat {
    Waiting(Queue(b, EP_CMD_IN))
  }

  /** How the waiting successes change: one comes with a readable success, one goes with each read. */
  lemma WaitingStep(h: Host, b: Bus, o: Oracle, op: DeleteOp)
    ensures var b' := RunOp(h, b, o, op).1;
            WaitingOn(b') + LostIn(b, o, op) + (if ReadsSuccess(b, o, op) then 1 else 0)
            == WaitingOn(b) + if TemplateGoes(b, o, op) then 1 else 0
  {
    hide RunOp, Pending, CarriedOut, Own, Success;
    if Transmits(op) {
      QueueAfter(h, b, o, op);
      PendingWaits(b, o, Finger(op));
    } else {
      NothingSent(h, b, o, op);
    }
  }

  lemma QueueAfter(h: Host, b: Bus, o: Oracle, op: DeleteOp)
    requires Transmits(op)
    ensures var q, q' := Pending(b, o, Finger(op)), Queue(RunOp(h, b, o, op).1, EP_CMD_IN);
            if o(b.clock).write != Delivered || o(b.clock + 1).read == FailedLate then q' == q
            else q != [] && q' == q[1..]
  {
    hide Perform, Pending;
    var kept := Kept(op.fpiData.value.0, op.fpiData.value.1);
    DeleteExchange(b, o, kept.fingerId, kept.userId);
  }

  lemma PendingWaits(b: Bus, o: Oracle, finger: byte)
    ensures var own := Success(Own(b, o, finger).bytes);
            Waiting(Pending(b, o, finger)) == WaitingOn(b) + if CarriedOut(b, o, finger) && own then 1 else 0
  {
    hide Own, Success;
    WaitingSnoc(Queue(b, EP_CMD_IN), Own(b, o, finger));
    OwnSuccessObeys(b, o, finger);
    assert Queue(b, EP_CMD_IN) + [] == Queue(b, EP_CMD_IN);
  }

  lemma OwnSuccessObeys(b: Bus, o: Oracle, finger: byte)
    ensures Success(Own(b, o, finger).bytes) ==> Obeys(b, o, finger)
  {
    OwnReplyIsHonest(b, o, finger);
  }

  lemma CountStep(h: Host, b: Bus, o: Oracle, op: DeleteOp)
    requires h.enrolledNum >= |b.chip.stored| + WaitingOn(b)
    ensures var (h', b') := RunOp(h, b, o, op);
            h'.enrolledNum - |b'.chip.stored| - WaitingOn(b')
            == h.enrolledNum - |b.chip.stored| - WaitingOn(b) + LostIn(b, o, op)
  {
    hide RunOp, WaitingOn, LostIn, ReadsSuccess;
    DeleteTouchesOnlyItsTarget(h, b, o, op);
    WaitingStep(h, b, o, op);
    if TemplateGoes(b, o, op) {
      OneFewer(b.chip.stored, Slot(Finger(op) % 16));
    }
  }

  /** Over any sequence of deletes, on any bus and with replies late, lost or short: the host's
      count is the sensor's, plus the successes still waiting, plus the successes that were lost or
      could not be read. So it is never below the sensor's, and never underflows. */
  lemma {:induction false} CountTracksStorage(h: Host, start: Bus, o: Oracle, ops: seq<DeleteOp>)
    requires h.enrolledNum == |start.chip.stored| + WaitingOn(start)
    ensures var b' := BusAfter(start, o, ops);
            RunOps(h, start, o, ops).enrolledNum == |b'.chip.stored| + WaitingOn(b') + LostCount(start, o, ops)
  {
    hide RunOp, SessionAfter, WaitingOn, LostIn;
    if ops == [] {
      NoDeletes(start, o);
    } else {
      var init, op := ops[..|ops| - 1], ops[|ops| - 1];
      CountTracksStorage(h, start, o, init);
      var h1, b1 := RunOps(h, start, o, init), BusAfter(start, o, init);
      BusStep(h1, start, o, ops);
      CountStep(h1, b1, o, op);
    }
  }

  /** Every reply that was read could be judged. */
  predicate AllReadable(log: seq<Outcome>) {
    forall k :: 0 <= k < |log| && log[k].result.Ok? ==> Readable(log[k].result.value.bytes)
  }

  /** While no reply is late, lost or short, nothing is lost and nothing waits: the count is exact. */
  lemma {:induction false} CountExactWhileClean(h: Host, start: Bus, o: Oracle, ops: seq<DeleteOp>)
    requires Queue(start, EP_CMD_IN) == [] && h.enrolledNum == |start.chip.stored|
    requires CleanOn(SessionAfter(start, o, ops).log, EP_CMD_IN) && AllReadable(SessionAfter(start, o, ops).log)
    ensures LostCount(start, o, ops) == 0 && WaitingOn(BusAfter(start, o, ops)) == 0
    ensures RunOps(h, start, o, ops).enrolledNum == |BusAfter(start, o, ops).chip.stored|
  {
    NothingLost(h, start, o, ops);
    CleanDeletesJudgeTheirOwn(start, o, ops);
    CountTracksStorage(h, start, o, ops);
  }

  lemma {:induction false} NothingLost(h: Host, start: Bus, o: Oracle, ops: seq<DeleteOp>)
    requires Queue(start, EP_CMD_IN) == []
    requires CleanOn(SessionAfter(start, o, ops).log, EP_CMD_IN) && AllReadable(SessionAfter(start, o, ops).log)
    ensures LostCount(start, o, ops) == 0
  {
    hide Perform, LostIn, RunOp;
    if ops != [] {
      var init, op := ops[..|ops| - 1], ops[|ops| - 1];
      var s1, s := SessionAfter(start, o, init), SessionAfter(start, o, ops);
      BusStep(h, start, o, ops);
      if Transmits(op) {
        WireStep(s1.bus, o, ReqOf(op));
        assert s.log == s1.log + [Perform(s1.bus, o, ReqOf(op)).1];
        assert s.log[|s1.log|] == Perform(s1.bus, o, ReqOf(op)).1;
        assert forall k :: 0 <= k < |s1.log| ==> s.log[k] == s1.log[k];
      }
      NothingLost(h, start, o, init);
      CleanDeletesJudgeTheirOwn(start, o, init);
      CleanStepLosesNothing(s1.bus, o, op);
    }
  }

  lemma CleanStepLosesNothing(b: Bus, o: Oracle, op: DeleteOp)
    requires Queue(b, EP_CMD_IN) == []
    requires Transmits(op) ==>
               var r := Perform(b, o, ReqOf(op)).1.result;
               r != Err(UsbError) && (r.Ok? ==> Readable(r.value.bytes))
    ensures LostIn(b, o, op) == 0
  {
    if Transmits(op) {
      hide Perform;
      var kept := Kept(op.fpiData.value.0, op.fpiData.value.1);
      DeleteExchange(b, o, kept.fingerId, kept.userId);
      OwnReplyIsHonest(b, o, kept.fingerId);
    }
  }

  // ---- the delete inside enroll ------------------------------------------

  /** ENROLL_ATTEMPT_DELETE and ENROLL_CHECK_DELETED, as patched or as before. A transport failure
      ends the machine; what a missing or too short reply meets in the second state is not shown,
      so there the run is left in it. */
  function RunEnroll(h: Host, b: Bus, o: Oracle, is0c5e: bool, prepared: bool, patched: bool): (Host, Bus)
    requires h.bufferIn.Some?
  {
    var h1 := AttemptDelete(h, is0c5e, prepared);
    if !prepared then (h1, b)
    else
      var (b', x) := Perform(b, o, EnrollReq(h, is0c5e));
      match Seen(x)
      case Err(_) => (h1.(ssm := None), b')
      case Ok(reply) =>
        var h2 := h1.(bufferIn := Some(reply), ssm := Some(EnrollCheckDeleted));
        (if |reply| < 2 then h2 else if patched then CheckDeleted(h2) else CheckDeletedBefore(h2), b')
  }

  function EnrollReq(h: Host, is0c5e: bool): Req
    requires h.bufferIn.Some?
  {
    DeleteReq(h.printIndex, CPayload(is0c5e, h.bufferIn.value))
  }

  /** The enroll path's calls and callbacks, with the bus in between. */
  method OperateEnroll(dev: FpiDeviceElanMoC2, handle: DeviceHandle, is0c5e: bool, prepared: bool)
    requires dev.bufferIn.Some?
    modifies dev, handle
    ensures (dev.State(), handle.bus) ==
            RunEnroll(old(dev.State()), old(handle.bus), handle.oracle, is0c5e, prepared, true)
  {
    hide Perform;
    ghost var payload := CPayload(is0c5e, dev.bufferIn.value);
    PayloadFits(is0c5e, dev.bufferIn.value);
    RustDeleteFrame(dev.printIndex, payload);
    ghost var q := EnrollReq(dev.State(), is0c5e);
    var before := |dev.sent|;
    dev.EnrollAttemptDelete(is0c5e, prepared);
    if |dev.sent| == before {
      return;
    }
    var r := CmdTransceive(handle, dev.sent[before], q);
    match r
    case None => dev.TransferFailed();
    case Some(reply) =>
      dev.bufferIn := Some(reply);
      dev.ssm := Some(EnrollCheckDeleted);
      if |reply| >= 2 {
        dev.EnrollCheckDeleted();
      }
  }

  /** For every bus, reply and fault: the stored set is the old one or the old one without the named
      template, and at most the one frame is sent, so a refusal is followed by none. The enroll goes
      on exactly when the reply handed over is a success, and fails, with its print cleared, exactly
      when that reply is a refusal. Without a command buffer nothing is sent. */
  lemma EnrollDeleteIsContained(h: Host, b: Bus, o: Oracle, is0c5e: bool, prepared: bool)
    requires h.bufferIn.Some?
    ensures var (h', b') := RunEnroll(h, b, o, is0c5e, prepared, true);
            var finger := h.printIndex;
            && b'.chip.stored == (if prepared && CarriedOut(b, o, finger) then b.chip.stored - {Slot(finger % 16)} else b.chip.stored)
            && |h'.sent| == |h.sent| + (if prepared then 1 else 0)
            && (h'.ssm == Some(EnrollOnward) <==> prepared && HearsSuccess(b, o, finger))
            && (Said(h, h', EnrollFailed) <==> prepared && HearsRefusal(b, o, finger))
            && (Said(h, h', EnrollFailed) ==> h'.ssm.None? && !h'.hasEnrollPrint)
            && (!Said(h, h', EnrollFailed) ==> h'.reports == h.reports && h'.hasEnrollPrint == h.hasEnrollPrint)
            && h'.printIndex == h.printIndex && h'.enrolledNum == h.enrolledNum
            && (!prepared ==> b' == b && h'.ssm == Some(EnrollCheckDeleted) && h'.bufferIn.None?)
  {
    hide CarriedOut, HearsSuccess, HearsRefusal, Perform;
    if prepared {
      EnrollStores(h, b, o, is0c5e, true);
      EnrollSaysWhatItHeard(h, b, o, is0c5e);
    }
  }

  lemma EnrollStores(h: Host, b: Bus, o: Oracle, is0c5e: bool, patched: bool)
    requires h.bufferIn.Some?
    ensures var (h', b') := RunEnroll(h, b, o, is0c5e, true, patched);
            var finger := h.printIndex;
            b'.chip.stored == if CarriedOut(b, o, finger) then b.chip.stored - {Slot(finger % 16)} else b.chip.stored
  {
    hide Perform, CarriedOut, AttemptDelete, CheckDeleted, CheckDeletedBefore, Pending, HandsOver;
    PayloadFits(is0c5e, h.bufferIn.value);
    DeleteExchange(b, o, h.printIndex, CPayload(is0c5e, h.bufferIn.value));
  }

  lemma EnrollSaysWhatItHeard(h: Host, b: Bus, o: Oracle, is0c5e: bool)
    requires h.bufferIn.Some?
    ensures var h' := RunEnroll(h, b, o, is0c5e, true, true).0;
            && |h'.sent| == |h.sent| + 1
            && (h'.ssm == Some(EnrollOnward) <==> HearsSuccess(b, o, h.printIndex))
            && (Said(h, h', EnrollFailed) <==> HearsRefusal(b, o, h.printIndex))
            && (Said(h, h', EnrollFailed) ==> h'.ssm.None? && !h'.hasEnrollPrint)
            && (!Said(h, h', EnrollFailed) ==> h'.reports == h.reports && h'.hasEnrollPrint == h.hasEnrollPrint)
            && h'.printIndex == h.printIndex && h'.enrolledNum == h.enrolledNum
  {
    hide Perform, HearsSuccess, HearsRefusal, DeleteFrame;
    PayloadFits(is0c5e, h.bufferIn.value);
    Heard(b, o, h.printIndex, CPayload(is0c5e, h.bufferIn.value));
  }

  /** On every bus: an enroll that goes on has removed the template and one that fails has removed
      nothing, if and only if it was not handed a reply left from before that says the opposite. It
      fails with the template gone exactly when the delete is carried out and a refusal was waiting. */
  lemma EnrollIsHonestIff(h: Host, b: Bus, o: Oracle, is0c5e: bool, prepared: bool)
    requires h.bufferIn.Some?
    ensures var (h', b') := RunEnroll(h, b, o, is0c5e, prepared, true);
            var carried, goesOn := CarriedOut(b, o, h.printIndex), h'.ssm == Some(EnrollOnward);
            var gone := b'.chip.stored != b.chip.stored;
            && ((goesOn ==> gone) && (Said(h, h', EnrollFailed) ==> !gone)
                <==> !(prepared && Misled(b, o, h.printIndex)))
            && (Said(h, h', EnrollFailed) && gone
                <==> prepared && carried && HandsOver(b, o) && RefusalWaits(b))
            && (Queue(b, EP_CMD_IN) == [] ==>
                  var readable := HandsOver(b, o) && Readable(o(b.clock).sensor.answer);
                  && (goesOn <==> prepared && carried && readable)
                  && (Said(h, h', EnrollFailed) <==> prepared && !carried && readable))
  {
    hide RunEnroll, HearsSuccess, HearsRefusal, HandsOver, Said;
    EnrollDeleteIsContained(h, b, o, is0c5e, prepared);
    HeardFalselyIff(b, o, h.printIndex);
  }

  /** Before the patch, on every bus: the enroll went on to wipe the sensor exactly when the reply
      handed over was a refusal, and a wipe that reached it left nothing stored. With nothing
      waiting, that is exactly when the delete was refused and a readable reply came over; a waiting
      refusal had it wipe after a delete that was carried out. */
  lemma EscalationLosesEverything(h: Host, b: Bus, o: Oracle, is0c5e: bool)
    requires h.bufferIn.Some?
    ensures var (h', b') := RunEnroll(h, b, o, is0c5e, true, false);
            var carried, wipes := CarriedOut(b, o, h.printIndex), h'.ssm == Some(EnrollWipe);
            && (wipes <==> HearsRefusal(b, o, h.printIndex))
            && (h'.ssm == Some(EnrollOnward) <==> HearsSuccess(b, o, h.printIndex))
            && (wipes ==>
                  && |h'.sent| == |h.sent| + 2
                  && (o(b'.clock).write != FailedUnseen ==>
                        Written(b', h'.sent[|h.sent| + 1], o(b'.clock)).chip.stored == map[]))
            && (wipes && carried <==> carried && HandsOver(b, o) && RefusalWaits(b))
            && (wipes && !carried ==> b'.chip.stored == b.chip.stored)
            && (Queue(b, EP_CMD_IN) == [] ==>
                  (wipes <==> !carried && HandsOver(b, o) && Readable(o(b.clock).sensor.answer)))
  {
    hide RunEnroll, HearsSuccess, HearsRefusal, HandsOver, CarriedOut, Written;
    EnrollStores(h, b, o, is0c5e, false);
    HeardFalselyIff(b, o, h.printIndex);
    var h' := WipesOnRefusal(h, b, o, is0c5e);
    var b' := RunEnroll(h, b, o, is0c5e, true, false).1;
    if h'.ssm == Some(EnrollWipe) && o(b'.clock).write != FailedUnseen {
      WipeEmpties(b', o(b'.clock));
    }
  }

  lemma WipesOnRefusal(h: Host, b: Bus, o: Oracle, is0c5e: bool) returns (h': Host)
    requires h.bufferIn.Some?
    ensures h' == RunEnroll(h, b, o, is0c5e, true, false).0
    ensures h'.ssm == Some(EnrollWipe) <==> HearsRefusal(b, o, h.printIndex)
    ensures h'.ssm == Some(EnrollOnward) <==> HearsSuccess(b, o, h.printIndex)
    ensures h'.ssm == Some(EnrollWipe) ==> |h'.sent| == |h.sent| + 2 && h'.sent[|h.sent| + 1] == WIPE_FRAME
  {
    hide Perform, HearsSuccess, HearsRefusal, DeleteFrame;
    h' := RunEnroll(h, b, o, is0c5e, true, false).0;
    PayloadFits(is0c5e, h.bufferIn.value);
    Heard(b, o, h.printIndex, CPayload(is0c5e, h.bufferIn.value));
  }

  lemma WipeEmpties(b: Bus, c: Choice)
    requires c.write != FailedUnseen
    ensures Written(b, WIPE_FRAME, c).chip.stored == map[]
  {
  }

  /** The frame of the delete inside enroll carries the whole user id of the reply it took, from its
      own finger's slot. */
  lemma EnrollAsksForItsOwn(h: Host, b: Bus, o: Oracle, is0c5e: bool)
    requires h.bufferIn.Some?
    ensures var (h', b') := RunEnroll(h, b, o, is0c5e, true, true);
            var reply, off := h.bufferIn.value, if is0c5e then 3 else 2;
            var end := if |reply| < off then off else if |reply| < 64 then |reply| else 64;
            && |h'.sent| == |h.sent| + 1
            && AsksFor(h'.sent[|h.sent|], h.printIndex, if end == off then [] else reply[off..end])
            && b'.wire == b.wire + [h'.sent[|h.sent|]]
  {
    hide Perform, AsksFor, DeleteFrame;
    var payload := CPayload(is0c5e, h.bufferIn.value);
    PayloadFits(is0c5e, h.bufferIn.value);
    DeleteFrameAsks(h.printIndex, payload, payload);
    RustDeleteFrame(h.printIndex, payload);
    WireStep(b, o, EnrollReq(h, is0c5e));
  }

  /** Deleting a print that was made from a reply sends the very frame that the enroll path sends
      for that reply, exactly when an "FP" payload holds nothing but NULs after its first. */
  lemma StoredPrintIsAskedForAlikeIff(h: Host, b: Bus, o: Oracle, is0c5e: bool)
    requires h.bufferIn.Some?
    ensures var payload := CPayload(is0c5e, h.bufferIn.value);
            var op := DeleteOp(Some((h.printIndex, PrintUserId(payload))), true);
            RunOp(h, b, o, op).0.sent == RunEnroll(h, b, o, is0c5e, true, true).0.sent
            <==> ([0x46, 0x50] <= payload ==> forall j, k :: 0 <= j < k < |payload| && payload[j] == 0 ==> payload[k] == 0)
  {
    var payload := CPayload(is0c5e, h.bufferIn.value);
    var id := PrintUserId(payload);
    var op := DeleteOp(Some((h.printIndex, id)), true);
    PayloadFits(is0c5e, h.bufferIn.value);
    DeleteTouchesOnlyItsTarget(h, b, o, op);
    DeletePathsAgreeIff(is0c5e, h.bufferIn.value, h.printIndex);
    OnlyNulsFollow(payload);
    EnrollSent(h, b, o, is0c5e);
    hide RunOp, RunEnroll, DeleteFrame;
    assert id[..Min(|id|, USER_ID_CAP)] == id;
    assert (h.sent + [DeleteFrame(h.printIndex, id)])[|h.sent|] == DeleteFrame(h.printIndex, id);
    assert (h.sent + [DeleteFrame(h.printIndex, payload)])[|h.sent|] == DeleteFrame(h.printIndex, payload);
  }

  lemma EnrollSent(h: Host, b: Bus, o: Oracle, is0c5e: bool)
    requires h.bufferIn.Some? && |CPayload(is0c5e, h.bufferIn.value)| <= USER_ID_CAP
    ensures RunEnroll(h, b, o, is0c5e, true, true).0.sent ==
            h.sent + [DeleteFrame(h.printIndex, CPayload(is0c5e, h.bufferIn.value))]
  {
    hide Perform, DeleteFrame;
  }

  lemma OnlyNulsFollow(s: seq<byte>)
    ensures AllZero(s[Strnlen(s)..]) <==> forall j, k :: 0 <= j < k < |s| && s[j] == 0 ==> s[k] == 0
  {
    var n := Strnlen(s);
    if AllZero(s[n..]) {
      assert forall k :: n <= k < |s| ==> s[n..][k - n] == s[k];
    }
  }
}
