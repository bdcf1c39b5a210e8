/** The driver object and its operations (src/device.rs), each proved against a pure account of
    what one request does to the bus. */
module Device {
  import opened Wrappers
  import opened Bytes
  import opened Proto
  import opened Usb

  datatype Error =
    | UsbError
    | BadMagic(first: byte)
    | Short(expected: nat, got: nat)
    | PayloadTooLarge(cmd: Name)
    | StatusError(status: Status)
    | NoResponse(cmd: Name)
    | Gated(cmd: Name)

  /** Which path a request takes: with the magic check, without it, or with the token that
      permits persistent commands. */
  datatype Mode = Framed | Raw | Destructive

  /** The capability that a persistent command needs. */
  datatype DestructiveOps = IUnderstandThisModifiesStoredFingerprints

  datatype Req = Req(mode: Mode, cmd: Cmd, payload: seq<byte>)

  /** What one request did: the position on the wire its frame took, and the reply as read,
      before the magic check. */
  datatype Outcome = Outcome(req: Req, at: nat, result: Result<Reply, Error>)

  predicate Permitted(q: Req) {
    q.mode == Destructive || q.cmd.effect != Persistent
  }

  /** One request, frame out and reply in. */
  function Exchange(b: Bus, o: Oracle, cmd: Cmd, payload: seq<byte>): (Bus, Result<Reply, Error>) {
    match Frame(cmd, payload)
    case None => (b, Err(PayloadTooLarge(cmd.name)))
    case Some(f) =>
      var b1 := Written(b, f, o(b.clock));
      if o(b.clock).write != Delivered then (b1, Err(UsbError))
      else if cmd.inLen == 0 then (b1, Ok(Reply([], |b.wire|)))
      else
        var (b2, r) := Read(b1, cmd.epIn, cmd.inLen, o(b1.clock));
        (b2, if r.None? then Err(UsbError) else Ok(r.value))
  }

  function Perform(b: Bus, o: Oracle, q: Req): (Bus, Outcome) {
    if !Permitted(q) then (b, Outcome(q, |b.wire|, Err(Gated(q.cmd.name))))
    else
      var (b', r) := Exchange(b, o, q.cmd, q.payload);
      (b', Outcome(q, |b.wire|, r))
  }

  /** What the caller is told. Only the raw path skips the magic check. */
  function Seen(x: Outcome): Result<seq<byte>, Error> {
    match x.result
    case Err(e) => Err(e)
    case Ok(r) =>
      if x.req.mode != Raw && r.bytes != [] && r.bytes[0] != FRAME_MAGIC then Err(BadMagic(r.bytes[0]))
      else Ok(r.bytes)
  }

  datatype Session = Session(bus: Bus, log: seq<Outcome>)

  function Do(s: Session, o: Oracle, q: Req): Session {
    var (b, x) := Perform(s.bus, o, q);
    Session(b, s.log + [x])
  }

  /** A whole run: the requests in order, from a freshly opened handle. */
  function Run(start: Bus, o: Oracle, reqs: seq<Req>): Session {
    if reqs == [] then Session(start, [])
    else Do(Run(start, o, reqs[..|reqs| - 1]), o, reqs[|reqs| - 1])
  }

  function Requests(log: seq<Outcome>): (reqs: seq<Req>)
    ensures |reqs| == |log| && forall k :: 0 <= k < |log| ==> reqs[k] == log[k].req
  {
    seq(|log|, k requires 0 <= k < |log| => log[k].req)
  }

  lemma RunSnoc(start: Bus, o: Oracle, reqs: seq<Req>, q: Req)
    ensures Run(start, o, reqs + [q]) == Do(Run(start, o, reqs), o, q)
  {
    assert (reqs + [q])[..|reqs|] == reqs;
  }

  // ---- replies of the query commands -------------------------------------

  datatype Version = Version(major: byte, minor: byte, raw: (byte, byte))

  datatype FingerInfo = Info(index: byte, userId: seq<byte>)

  function ParseVersion(r: seq<byte>): Result<Version, Error> {
    if |r| < 2 then Err(Short(2, |r|))
    else Ok(Version(Bcd(r[0]), Bcd(r[1]), (r[0], r[1])))
  }

  /** A version in packed BCD is read back as its two numbers, whatever follows it; a reply of less
      than two bytes is too short. */
  lemma VersionReadsBack(major: (byte, byte), minor: (byte, byte), rest: seq<byte>)
    requires major.0 < 16 && major.1 < 16 && minor.0 < 16 && minor.1 < 16
    ensures var a, b := Packed(major.0, major.1), Packed(minor.0, minor.1);
            ParseVersion([a, b] + rest) == Ok(Version(major.0 * 10 + major.1, minor.0 * 10 + minor.1, (a, b)))
    ensures forall r: seq<byte> :: |r| < 2 ==> ParseVersion(r) == Err(Short(2, |r|))
  {
    hide Bcd, Packed;
    BcdExact(major.0, major.1);
    BcdExact(minor.0, minor.1);
    var r := [Packed(major.0, major.1), Packed(minor.0, minor.1)] + rest;
    assert r[0] == Packed(major.0, major.1) && r[1] == Packed(minor.0, minor.1);
  }

  function ParseCount(r: seq<byte>): Result<byte, Error> {
    if |r| < 2 then Err(Short(2, |r|)) else Ok(r[1])
  }

  function ParseFingerInfo(pid: bv16, index: byte, r: seq<byte>): Result<FingerInfo, Error> {
    var off := UserIdOffset(pid);
    if |r| >= 2 && !StatusFromByte(r[1]).Ordinary? then Err(StatusError(StatusFromByte(r[1])))
    else if |r| < off then Err(Short(off, |r|))
    else Ok(Info(index, Trim(r[off..])))
  }

  /** What a finger_info reply comes to, by its bytes. */
  lemma FingerInfoExact(pid: bv16, index: byte, r: seq<byte>)
    ensures var off, p := if pid == 0x0c5e then 3 else 2, ParseFingerInfo(pid, index, r);
            && (p.Ok? <==> |r| >= off && r[1] < 16)
            && (p == Err(Short(off, |r|)) <==> |r| < off && (|r| == 2 ==> r[1] < 16))
            && (|r| >= 2 && r[1] >= 16 ==> p == Err(StatusError(StatusFromByte(r[1]))))
            && (|r| >= 2 ==>
                  && (p == Err(StatusError(Rejected)) <==> r[1] == 0xff)
                  && (p == Err(StatusError(NotEnrolled)) <==> r[1] == 0xfd))
  {
    if |r| >= 2 {
      hide StatusFromByte;
      StatusExact(r[1]);
    }
  }

  /** What a retried count query returns: byte 1 of the last reply, when that has one. */
  lemma CountIsByteOne(s: seq<Outcome>)
    requires RetryLog(s, GET_ENROLLED_COUNT, [])
    ensures var r := Then(RetryResult(s, GET_ENROLLED_COUNT), ParseCount);
            match Seen(s[|s| - 1])
            case Err(e) => r == Err(e)
            case Ok(b) =>
              if |b| >= 2 then r == Ok(b[1])
              else if |b| == 1 then r == Err(Short(2, 1))
              else |s| == 3 && r == Err(NoResponse(NameGetEnrolledCount))
  {
  }

  /** A retried query: some empty replies, then the reply or error that ends it, three at most. */
  predicate RetryLog(s: seq<Outcome>, cmd: Cmd, payload: seq<byte>) {
    && 1 <= |s| <= MAX_RETRIES
    && (forall k :: 0 <= k < |s| ==> s[k].req == Req(Framed, cmd, payload))
    && (forall k :: 0 <= k < |s| - 1 ==> Seen(s[k]) == Ok([]))
    && (Seen(s[|s| - 1]) == Ok([]) ==> |s| == MAX_RETRIES)
  }

  /** What a retried query returns: the reply or error that ended it. */
  function RetryResult(s: seq<Outcome>, cmd: Cmd): Result<seq<byte>, Error>
    requires |s| > 0
  {
    var r := Seen(s[|s| - 1]);
    if r == Ok([]) then Err(NoResponse(cmd.name)) else r
  }

  function Then<T, U>(r: Result<T, Error>, f: T -> Result<U, Error>): Result<U, Error> {
    match r
    case Ok(v) => f(v)
    case Err(e) => Err(e)
  }

  class ElanMoc2 {
    const handle: DeviceHandle
    const pid: bv16
    const interface: byte
    var claimed: bool
    ghost const start: Bus           // the bus when the handle was opened
    ghost var log: seq<Outcome>      // every request since

    /** The bus is where the logged requests, replayed from the start, leave it. */
    ghost predicate Valid()
      reads this, handle
    {
      Run(start, handle.oracle, Requests(log)) == Session(handle.bus, log)
    }

    constructor Open(handle: DeviceHandle, pid: bv16)
      ensures Valid() && claimed && log == [] && start == handle.bus
      ensures this.handle == handle && this.pid == pid && this.interface == 0
    {
      this.handle := handle;
      this.pid := pid;
      interface := 0;
      claimed := false;
      start := handle.bus;
      log := [];
      new;
      claimed := true;
    }

    method Transceive(cmd: Cmd, payload: seq<byte>) returns (r: Result<seq<byte>, Error>)
      requires Valid()
      modifies this`log, handle
      ensures Valid()
      ensures |log| == |old(log)| + 1 && log[..|old(log)|] == old(log)
      ensures log[|old(log)|].req == Req(Framed, cmd, payload) && r == Seen(log[|old(log)|])
      ensures cmd.effect == Persistent ==> r == Err(Gated(cmd.name)) && handle.bus == old(handle.bus)
    {
      if cmd.effect == Persistent {
        Record(Req(Framed, cmd, payload), handle.bus);
        return Err(Gated(cmd.name));
      }
      r := TransceiveUnchecked(cmd, payload, Framed);
    }

    method TransceiveDestructive(cmd: Cmd, payload: seq<byte>, token: DestructiveOps) returns (r: Result<seq<byte>, Error>)
      requires Valid()
      modifies this`log, handle
      ensures Valid()
      ensures |log| == |old(log)| + 1 && log[..|old(log)|] == old(log)
      ensures log[|old(log)|].req == Req(Destructive, cmd, payload) && r == Seen(log[|old(log)|])
    {
      r := TransceiveUnchecked(cmd, payload, Destructive);
    }

    /** Appends the request just carried out to the log. */
    ghost method Record(q: Req, before: Bus)
      requires Run(start, handle.oracle, Requests(log)) == Session(before, log)
      requires handle.bus == Perform(before, handle.oracle, q).0
      modifies this`log
      ensures Valid() && log == old(log) + [Perform(before, handle.oracle, q).1]
    {
      var x := Perform(before, handle.oracle, q).1;
      RunSnoc(start, handle.oracle, Requests(log), q);
      assert Requests(log + [x]) == Requests(log) + [q];
      log := log + [x];
    }

    method TransceiveUnchecked(cmd: Cmd, payload: seq<byte>, ghost mode: Mode) returns (r: Result<seq<byte>, Error>)
      requires Valid() && mode != Raw && Permitted(Req(mode, cmd, payload))
      modifies this`log, handle
      ensures Valid()
      ensures |log| == |old(log)| + 1 && log[..|old(log)|] == old(log)
      ensures log[|old(log)|].req == Req(mode, cmd, payload) && r == Seen(log[|old(log)|])
    {
      hide Run, Written, Read, Frame;
      ghost var before, q := handle.bus, Req(mode, cmd, payload);
      var out := BuildFrame(cmd, payload);
      if out.None? {
        Record(q, before);
        return Err(PayloadTooLarge(cmd.name));
      }
      var ok := handle.WriteBulk(out.value[..]);
      if !ok {
        Record(q, before);
        return Err(UsbError);
      }
      if cmd.inLen == 0 {
        Record(q, before);
        return Ok([]);
      }
      var buf := new byte[cmd.inLen](_ => 0);
      var n, reply := handle.ReadBulk(cmd.epIn, buf);
      Record(q, before);
      if n.None? {
        return Err(UsbError);
      }
      if n.value == 0 {
        return Ok(buf[..n.value]);
      }
      if buf[0] != FRAME_MAGIC {
        return Err(BadMagic(buf[0]));
      }
      return Ok(buf[..n.value]);
    }

    method TransceiveRaw(cmd: Cmd, payload: seq<byte>) returns (r: Result<seq<byte>, Error>)
      requires Valid()
      modifies this`log, handle
      ensures Valid()
      ensures |log| == |old(log)| + 1 && log[..|old(log)|] == old(log)
      ensures log[|old(log)|].req == Req(Raw, cmd, payload) && r == Seen(log[|old(log)|])
      ensures cmd.effect == Persistent ==> r == Err(Gated(cmd.name)) && handle.bus == old(handle.bus)
    {
      hide Run, Written, Read, Frame;
      ghost var before, q := handle.bus, Req(Raw, cmd, payload);
      if cmd.effect == Persistent {
        Record(q, before);
        return Err(Gated(cmd.name));
      }
      var out := BuildFrame(cmd, payload);
      if out.None? {
        Record(q, before);
        return Err(PayloadTooLarge(cmd.name));
      }
      var ok := handle.WriteBulk(out.value[..]);
      if !ok {
        Record(q, before);
        return Err(UsbError);
      }
      if cmd.inLen == 0 {
        Record(q, before);
        return Ok([]);
      }
      var buf := new byte[cmd.inLen](_ => 0);
      var n, reply := handle.ReadBulk(cmd.epIn, buf);
      Record(q, before);
      if n.None? {
        return Err(UsbError);
      }
      return Ok(buf[..n.value]);
    }

    /** Retries a query that the sensor may answer with zero bytes. */
    method TransceiveRetrying(cmd: Cmd, payload: seq<byte>) returns (r: Result<seq<byte>, Error>)
      requires Valid()
      modifies this`log, handle
      ensures Valid()
      ensures |log| >= |old(log)| && log[..|old(log)|] == old(log)
      ensures RetryLog(log[|old(log)|..], cmd, payload)
      ensures r == RetryResult(log[|old(log)|..], cmd)
    {
      hide Run;
      ghost var base := |log|;
      for tries := 0 to MAX_RETRIES
        invariant Valid() && |log| == base + tries && log[..base] == old(log)
        invariant forall k :: base <= k < |log| ==> log[k].req == Req(Framed, cmd, payload) && Seen(log[k]) == Ok([])
      {
        ghost var sofar := log;
        r := Transceive(cmd, payload);
        assert forall k :: base <= k < |sofar| ==> log[k] == sofar[k];
        if r != Ok([]) {
          return;
        }
      }
      return Err(NoResponse(cmd.name));
    }

    method FirmwareVersion() returns (r: Result<Version, Error>)
      requires Valid()
      modifies this`log, handle
      ensures Valid()
      ensures |log| == |old(log)| + 1 && log[..|old(log)|] == old(log)
      ensures log[|old(log)|].req == Req(Raw, GET_FW_VER, [])
      ensures r == Then(Seen(log[|old(log)|]), ParseVersion)
    {
      var raw := TransceiveRaw(GET_FW_VER, []);
      match raw
      case Err(e) => return Err(e);
      case Ok(b) =>
        if |b| < 2 {
          return Err(Short(2, |b|));
        }
        return Ok(Version(Bcd(b[0]), Bcd(b[1]), (b[0], b[1])));
    }

    method EnrolledCount() returns (r: Result<byte, Error>)
      requires Valid()
      modifies this`log, handle
      ensures Valid()
      ensures |log| >= |old(log)| && log[..|old(log)|] == old(log)
      ensures RetryLog(log[|old(log)|..], GET_ENROLLED_COUNT, [])
      ensures r == Then(RetryResult(log[|old(log)|..], GET_ENROLLED_COUNT), ParseCount)
      ensures match Seen(log[|log| - 1])
              case Err(e) => r == Err(e)
              case Ok(b) => if |b| >= 2 then r == Ok(b[1]) else if |b| == 1 then r == Err(Short(2, 1)) else r.Err?
    {
      var raw := TransceiveRetrying(GET_ENROLLED_COUNT, []);
      match raw
      case Err(e) => return Err(e);
      case Ok(b) =>
        if |b| < 2 {
          return Err(Short(2, |b|));
        }
        return Ok(b[1]);
    }

    method ReadFingerInfo(index: byte) returns (r: Result<FingerInfo, Error>)
      requires Valid()
      modifies this`log, handle
      ensures Valid()
      ensures |log| >= |old(log)| && log[..|old(log)|] == old(log)
      ensures RetryLog(log[|old(log)|..], FINGER_INFO, [index])
      ensures r == Then(RetryResult(log[|old(log)|..], FINGER_INFO), b => ParseFingerInfo(pid, index, b))
    {
      var raw := TransceiveRetrying(FINGER_INFO, [index]);
      match raw
      case Err(e) => return Err(e);
      case Ok(b) =>
        if |b| >= 2 {
          var st := StatusFromByte(b[1]);
          if !st.Ordinary? {
            return Err(StatusError(st));
          }
        }
        var off := UserIdOffset(pid);
        if |b| < off {
          return Err(Short(off, |b|));
        }
        var userId := b[off..];
        while userId != [] && userId[|userId| - 1] == 0
          invariant Trim(userId) == Trim(b[off..])
        {
          userId := userId[..|userId| - 1];
        }
        return Ok(Info(index, userId));
    }

    method Abort() returns (r: Result<(), Error>)
      requires Valid()
      modifies this`log, handle
      ensures Valid()
      ensures |log| == |old(log)| + 1 && log[..|old(log)|] == old(log)
      ensures log[|old(log)|].req == Req(Framed, ABORT, [])
      ensures r == Then(Seen(log[|old(log)|]), b => Ok(()))
    {
      var raw := Transceive(ABORT, []);
      match raw
      case Err(e) => return Err(e);
      case Ok(_) => return Ok(());
    }
  }
}
