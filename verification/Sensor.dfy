/** The far end of the cable. It is given nothing but bytes, and decodes them itself.
    Everything the documents leave open is picked by an unconstrained `SensorChoice`. */
module Sensor {
  import opened Wrappers
  import opened Bytes
  import opened Proto

  /** What the sensor understands a request to be. */
  datatype Op =
    | GetFwVer | GetCount | FingerInfo(slot: Slot) | CheckCollision | Abort | Identify
    | Enroll | Commit | Delete(slotCode: byte) | Wipe
    | Unknown

  function Decode(f: seq<byte>): Op {
    if |f| < 2 || f[0] != FRAME_MAGIC then Op.Unknown
    else if f[1] == 0x19 then GetFwVer
    else if f[1] != 0xff || |f| < 3 then Op.Unknown
    else match f[2]
      case 0x04 => GetCount
      case 0x12 => if |f| >= 4 then FingerInfo(Slot(f[3])) else Op.Unknown
      case 0x10 => CheckCollision
      case 0x02 => Abort
      case 0x03 => Identify
      case 0x01 => Enroll
      case 0x11 => Commit
      case 0x13 => if |f| >= 4 then Delete(f[3]) else Op.Unknown
      case 0x99 => Wipe
      case _ => Op.Unknown
  }

  predicate WritesStorage(op: Op) {
    op.Enroll? || op.Commit? || op.Delete? || op.Wipe?
  }

  /** The endpoint a request is answered on, if it is answered at all. */
  function ReplyEndpoint(op: Op): Option<byte> {
    match op
    case Wipe => None
    case Unknown => None
    case Identify => Some(EP_MOC_CMD_IN)
    case Enroll => Some(EP_MOC_CMD_IN)
    case _ => Some(EP_CMD_IN)
  }

  /** The two readings of `ff 12`: honour the slot in byte 3, or return the record of the
      finger identified last. */
  datatype Firmware = HonoursSlot | LastIdentified

  datatype Slot = Slot(number: byte)

  /** A template is represented by the `ff 12` reply that describes it. */
  type Record = seq<byte>

  datatype Chip = Chip(stored: map<Slot, Record>, last: Option<Record>)

  datatype SensorChoice = SensorChoice(
    answer: seq<byte>,               // the reply, where the documents do not fix it
    faithful: bool,                  // whether `ff 12` answers with a record
    obeys: bool,                     // whether a delete of a stored slot is carried out
    rewritten: map<Slot, Record>,    // storage after an enroll, commit or unknown request
    forgets: bool                    // whether the last identified record is dropped
  )

  const NO_RECORD: seq<byte> := [0x40, 0xff]
  const NO_MATCH: seq<byte> := [0x40, 0xfd]

  /** The slot an identify reply names: any status with a clear high nibble. */
  function NamedSlot(r: seq<byte>): Option<Slot> {
    if |r| >= 2 && StatusFromByte(r[1]).Ordinary? then Some(Slot(r[1])) else None
  }

  /** An identify never names a slot that holds nothing. */
  function IdentifyReply(chip: Chip, answer: seq<byte>): seq<byte> {
    match NamedSlot(answer)
    case Some(slot) => if slot in chip.stored then answer else NO_MATCH
    case None => answer
  }

  function RecordReply(fw: Firmware, chip: Chip, slot: Slot): seq<byte> {
    match fw
    case HonoursSlot => if slot in chip.stored then chip.stored[slot] else NO_RECORD
    case LastIdentified => if chip.last.Some? then chip.last.value else NO_RECORD
  }

  /** The slot that a delete's byte 3 names. */
  function SlotOfCode(code: byte): Slot {
    Slot((code - 5) & 0x0f)
  }

  predicate Removes(chip: Chip, code: byte, c: SensorChoice) {
    c.obeys && SlotOfCode(code) in chip.stored
  }

  /** Status 0 means that exactly the named template went; any other status that none did. */
  function DeleteReply(removed: bool, answer: seq<byte>): seq<byte> {
    if |answer| < 2 then answer
    else if removed then answer[1 := 0]
    else if answer[1] == 0 then answer[1 := 0xff]
    else answer
  }

  function Forget(chip: Chip, c: SensorChoice): Chip {
    if c.forgets then chip.(last := None) else chip
  }

  /** One request: the new sensor state and the reply bytes. */
  function Respond(fw: Firmware, chip: Chip, op: Op, c: SensorChoice): (Chip, seq<byte>) {
    match op
    case FingerInfo(slot) =>
      (chip, if c.faithful then RecordReply(fw, chip, slot) else c.answer)
    case Identify =>
      var r := IdentifyReply(chip, c.answer);
      var chip' := match NamedSlot(r)
        case Some(slot) => chip.(last := if slot in chip.stored then Some(chip.stored[slot]) else None)
        case None => Forget(chip, c);
      (chip', r)
    case Delete(code) =>
      var removed := Removes(chip, code, c);
      var kept := if removed then chip.stored - {SlotOfCode(code)} else chip.stored;
      (Forget(chip.(stored := kept), c), DeleteReply(removed, c.answer))
    case Wipe => (Forget(chip.(stored := map[]), c), [])
    case Enroll => (Forget(chip.(stored := c.rewritten), c), c.answer)
    case Commit => (Forget(chip.(stored := c.rewritten), c), c.answer)
    case Unknown => (Forget(chip.(stored := c.rewritten), c), [])
    case _ => (chip, c.answer)
  }

  /** The sensor reads every table frame as the host meant it: the effect class, the reply
      endpoint and the slot byte all survive framing and decoding. */
  lemma DecodesAsMeant(c: Cmd, payload: seq<byte>)
    requires InTable(c) && Frame(c, payload).Some?
    ensures var op := Decode(Frame(c, payload).value);
            && !op.Unknown?
            && (WritesStorage(op) <==> c.effect == Persistent)
            && ReplyEndpoint(op) == (if c.inLen == 0 then None else Some(c.epIn))
            && (op.Identify? <==> c == IDENTIFY)
            && (op.FingerInfo? <==> c == FINGER_INFO)
            && (op.FingerInfo? ==> op.slot == Slot(if payload == [] then 0 else payload[0]))
  {
    OpcodeOfFrame(c, payload);
  }
}
