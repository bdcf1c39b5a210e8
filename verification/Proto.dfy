/** The wire protocol: the command table, status bytes and request framing (src/proto.rs). */
module Proto {
  import opened Wrappers
  import opened Bytes

  const FRAME_MAGIC: byte := 0x40
  const EP_CMD_IN: byte := 0x83
  const EP_MOC_CMD_IN: byte := 0x84
  const PID_0C5E: bv16 := 0x0c5e
  const MAX_RETRIES: nat := 3
  const MAX_PRINTS: byte := 10

  datatype Effect = ReadOnly | Transient | Persistent

  /** Display names, for error messages. */
  datatype Name =
    | NameGetFwVer | NameGetEnrolledCount | NameFingerInfo | NameCheckEnrollCollision | NameAbort
    | NameIdentify | NameEnroll | NameCommit | NameDelete | NameWipeSensor | NameOther(text: string)

  datatype Cmd = Cmd(name: Name, cmd: seq<byte>, outLen: nat, inLen: nat, epIn: byte, isCancellable: bool, effect: Effect)

  const GET_FW_VER := Cmd(NameGetFwVer, [0x19], 2, 2, EP_CMD_IN, false, ReadOnly)
  const GET_ENROLLED_COUNT := Cmd(NameGetEnrolledCount, [0xff, 0x04], 3, 2, EP_CMD_IN, false, ReadOnly)
  const FINGER_INFO := Cmd(NameFingerInfo, [0xff, 0x12], 4, 64, EP_CMD_IN, false, ReadOnly)
  const CHECK_ENROLL_COLLISION := Cmd(NameCheckEnrollCollision, [0xff, 0x10], 3, 3, EP_CMD_IN, false, ReadOnly)
  const ABORT := Cmd(NameAbort, [0xff, 0x02], 3, 2, EP_CMD_IN, false, Transient)
  const IDENTIFY := Cmd(NameIdentify, [0xff, 0x03], 3, 2, EP_MOC_CMD_IN, true, Transient)
  const ENROLL := Cmd(NameEnroll, [0xff, 0x01], 7, 2, EP_MOC_CMD_IN, true, Persistent)
  const COMMIT := Cmd(NameCommit, [0xff, 0x11], 72, 2, EP_CMD_IN, false, Persistent)
  const DELETE := Cmd(NameDelete, [0xff, 0x13], 72, 2, EP_CMD_IN, false, Persistent)
  const WIPE_SENSOR := Cmd(NameWipeSensor, [0xff, 0x99], 3, 0, EP_CMD_IN, false, Persistent)

  predicate InTable(c: Cmd) {
    || c == GET_FW_VER
    || c == GET_ENROLLED_COUNT
    || c == FINGER_INFO
    || c == CHECK_ENROLL_COLLISION
    || c == ABORT
    || c == IDENTIFY
    || c == ENROLL
    || c == COMMIT
    || c == DELETE
    || c == WIPE_SENSOR
  }

  datatype Status =
    | Ordinary(code: byte)
    | MoveDown | MoveRight | MoveUp | MoveLeft
    | MaxEnrolledReached | SensorDirty | NotEnrolled | NotEnoughSurface | Rejected
    | Unknown(code: byte)

  function StatusFromByte(b: byte): Status {
    if b & 0xf0 == 0 then Ordinary(b)
    else match b
      case 0x41 => MoveDown
      case 0x42 => MoveRight
      case 0x43 => MoveUp
      case 0x44 => MoveLeft
      case 0xdd => MaxEnrolledReached
      case 0xfb => SensorDirty
      case 0xfd => NotEnrolled
      case 0xfe => NotEnoughSurface
      case 0xff => Rejected
      case _ => Unknown(b)
  }

  /** What each status byte stands for, sixteen of them for a slot. */
  lemma StatusExact(b: byte)
    ensures StatusFromByte(b).Ordinary? <==> b < 16
    ensures b < 16 ==> StatusFromByte(b).code == b
    ensures StatusFromByte(b) == MoveDown <==> b == 0x41
    ensures StatusFromByte(b) == MoveRight <==> b == 0x42
    ensures StatusFromByte(b) == MoveUp <==> b == 0x43
    ensures StatusFromByte(b) == MoveLeft <==> b == 0x44
    ensures StatusFromByte(b) == MaxEnrolledReached <==> b == 0xdd
    ensures StatusFromByte(b) == SensorDirty <==> b == 0xfb
    ensures StatusFromByte(b) == NotEnrolled <==> b == 0xfd
    ensures StatusFromByte(b) == NotEnoughSurface <==> b == 0xfe
    ensures StatusFromByte(b) == Rejected <==> b == 0xff
    ensures StatusFromByte(b).Unknown? ==> StatusFromByte(b).code == b
  {
  }

  function UserIdOffset(pid: bv16): nat {
    if pid == PID_0C5E then 3 else 2
  }

  /** One packed-BCD byte; at most 165, so the u8 arithmetic never overflows. */
  function Bcd(b: byte): byte {
    (b >> 4) * 10 + (b & 0x0f)
  }

  /** Two digits in a byte. */
  function Packed(tens: byte, units: byte): byte {
    (tens << 4) | units
  }

  /** Every byte, decimal or not, is read digit by digit. */
  lemma BcdExact(tens: byte, units: byte)
    requires tens < 16 && units < 16
    ensures Bcd(Packed(tens, units)) == tens * 10 + units
  {
  }

  // ---- framing -----------------------------------------------------------

  function Frame(c: Cmd, payload: seq<byte>): Option<seq<byte>> {
    var header := 1 + |c.cmd|;
    if header + |payload| > c.outLen then None
    else Some([FRAME_MAGIC] + c.cmd + payload + Zeros(c.outLen - header - |payload|))
  }

  /** Fills a zeroed buffer in place, as the source does. */
  method BuildFrame(c: Cmd, payload: seq<byte>) returns (out: Option<array<byte>>)
    ensures out.Some? <==> 1 + |c.cmd| + |payload| <= c.outLen
    ensures Frame(c, payload) == if out.Some? then Some(out.value[..]) else None
    ensures out.Some? ==> fresh(out.value)
  {
    var header := 1 + |c.cmd|;
    if header + |payload| > c.outLen {
      return None;
    }
    var buf := new byte[c.outLen](_ => 0);
    buf[0] := FRAME_MAGIC;
    forall k | 0 <= k < |c.cmd| {
      buf[1 + k] := c.cmd[k];
    }
    forall k | 0 <= k < |payload| {
      buf[header + k] := payload[k];
    }
    assert buf[..] == [FRAME_MAGIC] + c.cmd + payload + Zeros(c.outLen - header - |payload|);
    return Some(buf);
  }

  /** Where each part of a frame sits. */
  lemma FrameLayout(c: Cmd, payload: seq<byte>)
    ensures Frame(c, payload).Some? <==> 1 + |c.cmd| + |payload| <= c.outLen
    ensures Frame(c, payload).Some? ==>
              var f := Frame(c, payload).value;
              var header := 1 + |c.cmd|;
              && |f| == c.outLen
              && f[0] == FRAME_MAGIC
              && f[1..header] == c.cmd
              && f[header..] == payload + Zeros(c.outLen - header - |payload|)
  {
    if Frame(c, payload).Some? {
      var f := Frame(c, payload).value;
      var header := 1 + |c.cmd|;
      assert f[1..header] == c.cmd;
      assert f[header..] == payload + Zeros(c.outLen - header - |payload|);
    }
  }

  /** The opcode bytes of the table never make one frame a frame of another command. */
  lemma OpcodeOfFrame(c: Cmd, payload: seq<byte>)
    requires InTable(c)
    ensures |c.cmd| == 1 <==> c == GET_FW_VER
    ensures |c.cmd| == 1 || |c.cmd| == 2
    ensures Frame(c, payload).Some? ==>
              var f := Frame(c, payload).value;
              && |f| == c.outLen >= 1 + |c.cmd|
              && f[0] == FRAME_MAGIC
              && f[1] == c.cmd[0]
              && (|c.cmd| == 2 ==> f[2] == c.cmd[1])
              && (c == FINGER_INFO ==> f[3] == if payload == [] then 0 else payload[0])
  {
    FrameLayout(c, payload);
  }

  lemma OpcodeDeterminesCmd(a: Cmd, b: Cmd)
    requires InTable(a) && InTable(b)
    requires a.cmd[0] == b.cmd[0] && |a.cmd| == |b.cmd|
    requires |a.cmd| == 2 ==> a.cmd[1] == b.cmd[1]
    ensures a == b
  {
  }

  /** A frame determines its command and its payload up to the zero padding, and nothing less does. */
  lemma FramesEqualIff(a: Cmd, p: seq<byte>, b: Cmd, q: seq<byte>)
    requires InTable(a) && InTable(b)
    requires Frame(a, p).Some? && Frame(b, q).Some?
    ensures Frame(a, p) == Frame(b, q) <==> a == b && Trim(p) == Trim(q)
  {
    OpcodeOfFrame(a, p);
    OpcodeOfFrame(b, q);
    if a == b {
      PayloadsEqualIff(a, p, q);
    } else if Frame(a, p) == Frame(b, q) {
      OpcodeDeterminesCmd(a, b);
    }
  }

  lemma PayloadsEqualIff(c: Cmd, p: seq<byte>, q: seq<byte>)
    requires Frame(c, p).Some? && Frame(c, q).Some?
    ensures Frame(c, p) == Frame(c, q) <==> Trim(p) == Trim(q)
  {
    FrameLayout(c, p);
    FrameLayout(c, q);
    var header := 1 + |c.cmd|;
    TrimEqualIff(p, q, c.outLen - header);
    var head := [FRAME_MAGIC] + c.cmd;
    assert Frame(c, p).value == head + (p + Zeros(c.outLen - header - |p|));
    assert Frame(c, q).value == head + (q + Zeros(c.outLen - header - |q|));
  }
}
