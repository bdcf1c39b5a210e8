/** The delete operation of the patched C driver (patches 0002 and 0004): a state machine of two
    states, the host's count of enrolled fingers, and the delete inside enroll. Both run over the
    same bus as the Rust driver, with the same faults. */
module DeleteDriver {
  import opened Wrappers
  import opened Bytes
  import opened Proto
  import opened Sensor
  import opened Usb
  import opened Device
  import opened UserId
  import opened DeleteFrames

  datatype DeleteData = DeleteData(fingerId: byte, userId: seq<byte>)

  type KeptData = d: DeleteData | |d.userId| <= USER_ID_CAP witness DeleteData(0, [])

  /** `self->ssm`: the state machine that is running, if any, and its state. */
  datatype Ssm =
    | DeleteSend(data: KeptData) | DeleteCheck(data: KeptData)
    | EnrollAttemptDelete | EnrollCheckDeleted | EnrollOnward | EnrollWipe

  /** What libfprint is told when an operation ends. */
  datatype Report = Deleted | DataInvalid | NoReply | Refused | EnrollFailed

  datatype Host = Host(
    ssm: Option<Ssm>,
    bufferIn: Option<seq<byte>>,   // the last reply, until a state takes it
    enrolledNum: nat,
    printIndex: byte,
    hasEnrollPrint: bool,
    reports: seq<Report>,
    sent: seq<seq<byte>>           // frames given to the transport
  )

  // ---- one delete, as a function of the driver's state -------------------

  function Complete(h: Host, r: Report): Host {
    h.(reports := h.reports + [r], ssm := None)
  }

  function Judge(h: Host, reply: Option<seq<byte>>): Host {
    if reply.None? || |reply.value| < 2 then Complete(h, NoReply)
    else if reply.value[1] != 0 then Complete(h, Refused)
    else Complete(h.(enrolledNum := if h.enrolledNum > 0 then h.enrolledNum - 1 else 0), Deleted)
  }

  /** One entry into the state handler. Without a command buffer, DELETE_SEND moves on at once,
      and DELETE_CHECK is entered with no reply. */
  function Enter(h: Host, prepared: bool): Host
    requires h.ssm.Some? && (h.ssm.value.DeleteSend? || h.ssm.value.DeleteCheck?)
  {
    var data := h.ssm.value.data;
    var taken := h.(bufferIn := None);
    if h.ssm.value.DeleteCheck? then Judge(taken, h.bufferIn)
    else if prepared then taken.(sent := h.sent + [DeleteFrame(data.fingerId, data.userId)])
    else Judge(taken.(ssm := Some(DeleteCheck(data))), None)
  }

  function Kept(finger: byte, userId: seq<byte>): KeptData {
    DeleteData(finger, userId[..Min(|userId|, USER_ID_CAP)])
  }

  /** `fpiData` is the finger and user id stored with the print, if they are well-formed. */
  function Begin(h: Host, fpiData: Option<(byte, seq<byte>)>, prepared: bool): Host {
    match fpiData
    case None => h.(reports := h.reports + [DataInvalid])
    case Some((finger, userId)) => Enter(h.(ssm := Some(DeleteSend(Kept(finger, userId)))), prepared)
  }

  function Replied(h: Host, reply: seq<byte>): Host
    requires h.ssm.Some? && h.ssm.value.DeleteSend?
  {
    Enter(h.(bufferIn := Some(reply), ssm := Some(DeleteCheck(h.ssm.value.data))), true)
  }

  // ---- the delete inside enroll, as a function of the driver's state -----

  /** Without a command buffer the machine moves on to ENROLL_CHECK_DELETED with no reply. */
  function AttemptDelete(h: Host, is0c5e: bool, prepared: bool): Host
    requires h.bufferIn.Some?
  {
    PayloadFits(is0c5e, h.bufferIn.value);
    if !prepared then h.(bufferIn := None, ssm := Some(Ssm.EnrollCheckDeleted))
    else h.(bufferIn := None, ssm := Some(Ssm.EnrollAttemptDelete),
            sent := h.sent + [DeleteFrame(h.printIndex, CPayload(is0c5e, h.bufferIn.value))])
  }

  /** As patched, a refused delete fails the enroll. */
  function CheckDeleted(h: Host): Host
    requires h.bufferIn.Some? && |h.bufferIn.value| >= 2
  {
    if h.bufferIn.value[1] != 0 then Complete(h.(bufferIn := None, hasEnrollPrint := false), EnrollFailed)
    else h.(bufferIn := None, ssm := Some(EnrollOnward))
  }

  const WIPE_FRAME: seq<byte> := [0x40, 0xff, 0x99]

  /** Before the patch, a refused delete went on to wipe the sensor. */
  function CheckDeletedBefore(h: Host): Host
    requires h.bufferIn.Some? && |h.bufferIn.value| >= 2
  {
    if h.bufferIn.value[1] != 0 then h.(bufferIn := None, ssm := Some(EnrollWipe), sent := h.sent + [WIPE_FRAME])
    else h.(bufferIn := None, ssm := Some(EnrollOnward))
  }

  class FpiDeviceElanMoC2 {
    var ssm: Option<Ssm>
    var bufferIn: Option<seq<byte>>
    var enrolledNum: nat
    var printIndex: byte
    var hasEnrollPrint: bool
    var reports: seq<Report>
    var sent: seq<seq<byte>>

    ghost function State(): Host
      reads this
    {
      Host(ssm, bufferIn, enrolledNum, printIndex, hasEnrollPrint, reports, sent)
    }

    constructor (enrolledNum: nat)
      ensures State() == Host(None, None, enrolledNum, 0, false, [], [])
    {
      this.enrolledNum := enrolledNum;
      ssm, bufferIn, printIndex, hasEnrollPrint := None, None, 0, false;
      reports, sent := [], [];
    }

    method DeleteRunState(prepared: bool)
      requires ssm.Some? && (ssm.value.DeleteSend? || ssm.value.DeleteCheck?)
      modifies this
      ensures State() == Enter(old(State()), prepared)
      decreases if ssm.value.DeleteSend? then 1 else 0
    {
      var stolen := bufferIn;
      bufferIn := None;
      match ssm.value
      case DeleteSend(data) =>
        var out := DeleteSendFrame(data.fingerId, data.userId, prepared);
        if out.None? {
          ssm := Some(DeleteCheck(data));
          DeleteRunState(prepared);
          return;
        }
        sent := sent + [out.value[..]];
      case DeleteCheck(data) =>
        if stolen.None? || |stolen.value| < 2 {
          reports := reports + [NoReply];
          ssm := None;
          return;
        }
        if stolen.value[1] != 0 {
          reports := reports + [Refused];
          ssm := None;
          return;
        }
        if enrolledNum > 0 {
          enrolledNum := enrolledNum - 1;
        }
        reports := reports + [Deleted];
        ssm := None;
    }

    method DeletePrint(fpiData: Option<(byte, seq<byte>)>, prepared: bool)
      modifies this
      ensures State() == Begin(old(State()), fpiData, prepared)
    {
      match fpiData
      case None =>
        reports := reports + [DataInvalid];
      case Some((finger, userId)) =>
        ssm := Some(DeleteSend(DeleteData(finger, userId[..Min(|userId|, USER_ID_CAP)])));
        DeleteRunState(prepared);
    }

    /** The transport's success callback: keep the reply, enter the next state. */
    method ReplyArrived(reply: seq<byte>)
      requires ssm.Some? && ssm.value.DeleteSend?
      modifies this
      ensures State() == Replied(old(State()), reply)
    {
      bufferIn := Some(reply);
      ssm := Some(DeleteCheck(ssm.value.data));
      DeleteRunState(true);
    }

    /** ENROLL_ATTEMPT_DELETE, entered with the finger_info reply in `buffer_in`. */
    method EnrollAttemptDelete(is0c5e: bool, prepared: bool)
      requires bufferIn.Some?
      modifies this
      ensures State() == AttemptDelete(old(State()), is0c5e, prepared)
      ensures ssm == Some(if prepared then Ssm.EnrollAttemptDelete else Ssm.EnrollCheckDeleted)
    {
      var stolen := bufferIn;
      bufferIn := None;
      var out := EnrollDeleteFrame(is0c5e, stolen.value, printIndex, prepared);
      if out.None? {
        ssm := Some(Ssm.EnrollCheckDeleted);
        return;
      }
      ssm := Some(Ssm.EnrollAttemptDelete);
      sent := sent + [out.value[..]];
    }

    /** ENROLL_CHECK_DELETED, entered with the reply to the delete in `buffer_in`. */
    method EnrollCheckDeleted()
      requires bufferIn.Some? && |bufferIn.value| >= 2
      modifies this
      ensures State() == CheckDeleted(old(State()))
    {
      var stolen := bufferIn;
      bufferIn := None;
      if stolen.value[1] != 0 {
        reports := reports + [EnrollFailed];
        ssm := None;
        hasEnrollPrint := false;
      } else {
        ssm := Some(EnrollOnward);
      }
    }

    /** The transport's failure callback ends the machine without entering the handler. */
    method TransferFailed()
      modifies this
      ensures State() == old(State()).(ssm := None)
    {
      ssm := None;
    }
  }

  // ---- a delete over the bus ---------------------------------------------

  datatype DeleteOp = DeleteOp(fpiData: Option<(byte, seq<byte>)>, prepared: bool)

  predicate Transmits(op: DeleteOp) {
    op.fpiData.Some? && op.prepared
  }

  /** The delete command as the transport carries it: one request of the shared protocol. */
  function DeleteReq(finger: byte, userId: seq<byte>): Req {
    Req(Destructive, DELETE, [SlotByte(finger)] + userId)
  }

  function ReqOf(op: DeleteOp): Req
    requires op.fpiData.Some?
  {
    var kept := Kept(op.fpiData.value.0, op.fpiData.value.1);
    DeleteReq(kept.fingerId, kept.userId)
  }

  /** A transfer that fails, or a reply without the magic byte, ends the machine. */
  function RunOp(h: Host, b: Bus, o: Oracle, op: DeleteOp): (Host, Bus) {
    var h1 := Begin(h, op.fpiData, op.prepared);
    if !Transmits(op) then (h1, b)
    else
      var (b', x) := Perform(b, o, ReqOf(op));
      match Seen(x)
      case Err(_) => (h1.(ssm := None), b')
      case Ok(reply) => (Replied(h1, reply), b')
  }

  /** The transport: sends the last frame, and reads at most the two bytes a delete is answered
      with. */
  method CmdTransceive(handle: DeviceHandle, frame: seq<byte>, ghost q: Req) returns (r: Option<seq<byte>>)
    requires Frame(q.cmd, q.payload) == Some(frame) && q.cmd == DELETE && q.mode == Destructive
    modifies handle
    ensures var (b', x) := Perform(old(handle.bus), handle.oracle, q);
            && handle.bus == b'
            && r == match Seen(x) case Err(_) => None case Ok(reply) => Some(reply)
  {
    hide Written, Read, Frame;
    var ok := handle.WriteBulk(frame);
    if !ok {
      return None;
    }
    var buf := new byte[2](_ => 0);
    var n, reply := handle.ReadBulk(EP_CMD_IN, buf);
    if n.None? {
      return None;
    }
    if n.value > 0 && buf[0] != FRAME_MAGIC {
      return None;
    }
    return Some(buf[..n.value]);
  }

  /** A whole operation: the driver's calls and callbacks, with the bus in between. */
  method Operate(dev: FpiDeviceElanMoC2, handle: DeviceHandle, op: DeleteOp)
    modifies dev, handle
    ensures (dev.State(), handle.bus) == RunOp(old(dev.State()), old(handle.bus), handle.oracle, op)
  {
    hide Perform;
    var before := |dev.sent|;
    dev.DeletePrint(op.fpiData, op.prepared);
    if |dev.sent| == before {
      return;
    }
    OpFrame(op);
    var r := CmdTransceive(handle, dev.sent[before], ReqOf(op));
    match r
    case None => dev.TransferFailed();
    case Some(reply) => dev.ReplyArrived(reply);
  }

  function FrameOf(op: DeleteOp): seq<byte>
    requires op.fpiData.Some?
  {
    var kept := Kept(op.fpiData.value.0, op.fpiData.value.1);
    DeleteFrame(kept.fingerId, kept.userId)
  }

  lemma OpFrame(op: DeleteOp)
    requires op.fpiData.Some?
    ensures Frame(DELETE, ReqOf(op).payload) == Some(FrameOf(op))
  {
    var kept := Kept(op.fpiData.value.0, op.fpiData.value.1);
    RustDeleteFrame(kept.fingerId, kept.userId);
  }
}
