/** What holds over every run: any requests, in any order, against any sensor and any USB faults. */
module Runs {
  import opened Wrappers
  import opened Bytes
  import opened Proto
  import opened Sensor
  import opened Usb
  import opened Device

  predicate FromTable(reqs: seq<Req>) {
    forall k :: 0 <= k < |reqs| ==> InTable(reqs[k].cmd)
  }

  /** No request spends the token on a persistent command. */
  predicate TokenFree(reqs: seq<Req>) {
    forall k :: 0 <= k < |reqs| ==> reqs[k].mode != Destructive || reqs[k].cmd.effect != Persistent
  }

  // ---- the wire ----------------------------------------------------------

  predicate Sends(q: Req) {
    Permitted(q) && Frame(q.cmd, q.payload).Some?
  }

  function FramesOf(log: seq<Outcome>): seq<seq<byte>> {
    if log == [] then []
    else
      var q := log[|log| - 1].req;
      FramesOf(log[..|log| - 1]) + if Sends(q) then [Frame(q.cmd, q.payload).value] else []
  }

  /** The wire carries the frames of the logged requests, each once, in order, and nothing else. */
  lemma {:induction false} WireIsLog(start: Bus, o: Oracle, reqs: seq<Req>)
    ensures var s := Run(start, o, reqs);
            && Requests(s.log) == reqs
            && s.bus.wire == start.wire + FramesOf(s.log)
            && s.bus.fw == start.fw
  {
    hide Perform, Frame;
    if reqs == [] {
      assert start.wire + [] == start.wire;
    } else {
      var n := |reqs| - 1;
      WireIsLog(start, o, reqs[..n]);
      var before := Run(start, o, reqs[..n]);
      var s := Run(start, o, reqs);
      WireStep(before.bus, o, reqs[n]);
      assert s.log[..n] == before.log;
      assert Requests(s.log) == Requests(before.log) + [reqs[n]];
      assert s.log[n].req == reqs[n];
      assert (start.wire + FramesOf(before.log)) + [] == start.wire + FramesOf(before.log);
    }
  }

  lemma WireStep(b: Bus, o: Oracle, q: Req)
    ensures var (b', x) := Perform(b, o, q);
            && x.req == q && x.at == |b.wire| && b'.fw == b.fw
            && b'.wire == b.wire + (if Sends(q) then [Frame(q.cmd, q.payload).value] else [])
  {
    assert b.wire + [] == b.wire;
  }

  /** What a request for a table command comes to. It is refused or too large, and then nothing has
      moved; or its frame is on the wire, and then it fails exactly when the write does or a reply
      is due and cannot be read, and otherwise hands over the reply first in the queue. A command
      without a reply reads nothing and succeeds. */
  lemma RequestExact(b: Bus, o: Oracle, q: Req)
    requires InTable(q.cmd)
    ensures var (b', x) := Perform(b, o, q);
            var ep, gated := q.cmd.epIn, q.mode != Destructive && q.cmd.effect == Persistent;
            var fits := 1 + |q.cmd.cmd| + |q.payload| <= q.cmd.outLen;
            && (gated ==> x.result == Err(Gated(q.cmd.name)) && b' == b)
            && (!gated && !fits ==> x.result == Err(PayloadTooLarge(q.cmd.name)) && b' == b)
            && (!gated && fits ==>
                  var c, read := o(b.clock), o(b.clock + 1).read;
                  var reply := Reply(Respond(b.fw, b.chip, Decode(Frame(q.cmd, q.payload).value), c.sensor).1, |b.wire|);
                  var due := Queue(b, ep) + if c.write == FailedUnseen || q.cmd.inLen == 0 then [] else [reply];
                  if c.write != Delivered then x.result == Err(UsbError) && Queue(b', ep) == due && b'.clock == b.clock + 1
                  else if q.cmd.inLen == 0 then
                    x.result == Ok(Reply([], |b.wire|)) && Queue(b', ep) == due && b'.clock == b.clock + 1
                  else
                    && b'.clock == b.clock + 2
                    && Queue(b', ep) == (if read == FailedLate then due else due[1..])
                    && x.result == if read == Completed && |due[0].bytes| <= q.cmd.inLen then Ok(due[0]) else Err(UsbError))
  {
    if Sends(q) {
      DecodesAsMeant(q.cmd, q.payload);
      var f := Frame(q.cmd, q.payload).value;
      WrittenQueue(b, f, o(b.clock), q.cmd.epIn);
      assert Queue(b, q.cmd.epIn) + [] == Queue(b, q.cmd.epIn);
    }
  }

  /** The framed path is the raw path followed by the magic check: same bus, same reply. */
  lemma FramedIsFilteredRaw(b: Bus, o: Oracle, cmd: Cmd, payload: seq<byte>)
    ensures var (b1, framed) := Perform(b, o, Req(Framed, cmd, payload));
            var (b2, raw) := Perform(b, o, Req(Raw, cmd, payload));
            && b1 == b2
            && Seen(framed) == match Seen(raw)
                               case Err(e) => Err(e)
                               case Ok(r) => if r != [] && r[0] != FRAME_MAGIC then Err(BadMagic(r[0])) else Ok(r)
  {
  }

  /** A request on its own never fails for want of an answer. */
  lemma {:induction false} OnlyRetriesGiveUp(start: Bus, o: Oracle, reqs: seq<Req>, k: nat)
    requires k < |Run(start, o, reqs).log|
    ensures var x := Run(start, o, reqs).log[k]; Seen(x).Err? ==> !Seen(x).error.NoResponse?
  {
    if k < |reqs| - 1 {
      WireIsLog(start, o, reqs[..|reqs| - 1]);
      OnlyRetriesGiveUp(start, o, reqs[..|reqs| - 1], k);
    } else if reqs != [] {
      WireIsLog(start, o, reqs[..|reqs| - 1]);
    }
  }

  /** A retried query gives up exactly when all three replies were empty; otherwise it returns
      the first reply that is not, or the error that came instead. */
  lemma RetryVerdict(s: seq<Outcome>, cmd: Cmd, payload: seq<byte>)
    requires RetryLog(s, cmd, payload)
    requires forall k :: 0 <= k < |s| && Seen(s[k]).Err? ==> !Seen(s[k]).error.NoResponse?
    ensures RetryResult(s, cmd) == Err(NoResponse(cmd.name)) <==> |s| == 3 && forall k :: 0 <= k < |s| ==> Seen(s[k]) == Ok([])
    ensures RetryResult(s, cmd) != Err(NoResponse(cmd.name)) ==>
              RetryResult(s, cmd) == Seen(s[|s| - 1]) != Ok([]) && forall k :: 0 <= k < |s| - 1 ==> Seen(s[k]) == Ok([])
  {
  }

  // ---- storage safety ----------------------------------------------------

  predicate Harmless(f: seq<byte>) {
    !WritesStorage(Decode(f)) && !Decode(f).Unknown?
  }

  lemma StorageStep(b: Bus, o: Oracle, q: Req)
    requires InTable(q.cmd) && (q.mode != Destructive || q.cmd.effect != Persistent)
    ensures Perform(b, o, q).0.chip.stored == b.chip.stored
    ensures Sends(q) ==> Harmless(Frame(q.cmd, q.payload).value)
  {
    if Sends(q) {
      DecodesAsMeant(q.cmd, q.payload);
    }
  }

  /** Without the token, no run puts a storage-writing frame on the wire, and none changes
      the stored templates. */
  lemma {:induction false} StorageSafe(start: Bus, o: Oracle, reqs: seq<Req>)
    requires FromTable(reqs) && TokenFree(reqs)
    ensures var s := Run(start, o, reqs);
            && s.bus.chip.stored == start.chip.stored
            && forall f :: f in FramesOf(s.log) ==> Harmless(f)
  {
    if reqs != [] {
      var n := |reqs| - 1;
      StorageSafe(start, o, reqs[..n]);
      var before := Run(start, o, reqs[..n]);
      StorageStep(before.bus, o, reqs[n]);
      assert Run(start, o, reqs).log[..n] == before.log by { WireIsLog(start, o, reqs[..n]); }
    }
  }

  /** The same, said of a driver object in use. */
  lemma DriverStorageSafe(dev: ElanMoc2)
    requires dev.Valid() && FromTable(Requests(dev.log)) && TokenFree(Requests(dev.log))
    ensures dev.handle.bus.chip.stored == dev.start.chip.stored
    ensures dev.handle.bus.wire == dev.start.wire + FramesOf(dev.log)
    ensures forall f :: f in FramesOf(dev.log) ==> Harmless(f)
  {
    StorageSafe(dev.start, dev.handle.oracle, Requests(dev.log));
    WireIsLog(dev.start, dev.handle.oracle, Requests(dev.log));
  }

  /** Whether some payload makes `c` frame a storage write: read off its opcode and length. */
  predicate OpcodeCanWrite(c: Cmd) {
    match |c.cmd|
    case 0 => c.outLen >= 3
    case 1 => c.cmd[0] == 0xff && c.outLen >= 3
    case n =>
      && c.outLen >= 1 + n
      && c.cmd[0] == 0xff
      && (c.cmd[1] in {0x01, 0x11, 0x99} || (c.cmd[1] == 0x13 && c.outLen >= 4))
  }

  ghost predicate EscapesGate(c: Cmd) {
    exists p :: Permitted(Req(Framed, c, p)) && Frame(c, p).Some? && WritesStorage(Decode(Frame(c, p).value))
  }

  /** For a command outside the table, whose fields are public, the gate is exactly as good as
      the agreement between its effect tag and its opcode. */
  lemma GateIsExact(c: Cmd)
    ensures EscapesGate(c) <==> c.effect != Persistent && OpcodeCanWrite(c)
  {
    if c.effect != Persistent && OpcodeCanWrite(c) {
      var p: seq<byte> := if |c.cmd| == 0 then [0xff, 0x01] else if |c.cmd| == 1 then [0x01] else [];
      var f := Frame(c, p).value;
      assert |f| == c.outLen && f[0] == FRAME_MAGIC && f[1] == 0xff;
      assert |c.cmd| >= 2 ==> f[2] == c.cmd[1];
      assert WritesStorage(Decode(f)) && Permitted(Req(Framed, c, p));
    }
    forall p | Permitted(Req(Framed, c, p)) && Frame(c, p).Some? && WritesStorage(Decode(Frame(c, p).value))
      ensures c.effect != Persistent && OpcodeCanWrite(c)
    {
      var f := Frame(c, p).value;
      assert |f| == c.outLen;
      assert |c.cmd| >= 1 ==> f[1] == c.cmd[0];
      assert |c.cmd| >= 2 ==> f[2] == c.cmd[1];
    }
  }

  // ---- reply pairing -----------------------------------------------------

  /** No request that reads a reply on `ep` met a USB failure. */
  predicate CleanOn(log: seq<Outcome>, ep: byte) {
    forall k :: 0 <= k < |log| && ReadsOn(log[k].req, ep) ==> log[k].result != Err(UsbError)
  }

  predicate ReadsOn(q: Req, ep: byte) {
    q.cmd.epIn == ep && q.cmd.inLen > 0
  }

  predicate Paired(x: Outcome) {
    x.result.Ok? ==> x.result.value.answers == x.at
  }

  lemma ExchangePairs(b: Bus, o: Oracle, cmd: Cmd, payload: seq<byte>, ep: byte)
    requires Queue(b, ep) == [] && Frame(cmd, payload).Some?
    requires ReplyEndpoint(Decode(Frame(cmd, payload).value)) == if cmd.inLen == 0 then None else Some(cmd.epIn)
    ensures var (b', r) := Exchange(b, o, cmd, payload);
            && ((cmd.epIn == ep && cmd.inLen > 0 && r == Err(UsbError)) || Queue(b', ep) == [])
            && (cmd.epIn == ep && r.Ok? ==> r.value.answers == |b.wire|)
  {
    var f := Frame(cmd, payload).value;
    var b1 := Written(b, f, o(b.clock));
    WrittenQueue(b, f, o(b.clock), ep);
    ReadQueue(b1, cmd.epIn, cmd.inLen, o(b1.clock), ep);
  }

  lemma PairStep(b: Bus, o: Oracle, q: Req, ep: byte)
    requires InTable(q.cmd) && Queue(b, ep) == []
    ensures var (b', x) := Perform(b, o, q);
            && ((ReadsOn(q, ep) && x.result == Err(UsbError)) || Queue(b', ep) == [])
            && (q.cmd.epIn == ep ==> Paired(x))
  {
    if Sends(q) {
      DecodesAsMeant(q.cmd, q.payload);
      ExchangePairs(b, o, q.cmd, q.payload, ep);
    }
  }

  /** While no request that reads on an endpoint has met a USB failure, that endpoint's queue is
      empty between requests and every reply answers the request just sent. Failures on other
      endpoints, empty replies and replies with a bad magic byte do not matter. */
  lemma {:induction false} RepliesPaired(start: Bus, o: Oracle, reqs: seq<Req>, ep: byte)
    requires FromTable(reqs) && Queue(start, ep) == []
    requires CleanOn(Run(start, o, reqs).log, ep)
    ensures var s := Run(start, o, reqs);
            && Queue(s.bus, ep) == []
            && forall k :: 0 <= k < |s.log| && s.log[k].req.cmd.epIn == ep ==> Paired(s.log[k])
  {
    hide Perform, Queue, Paired;
    if reqs != [] {
      var n := |reqs| - 1;
      var before, s := Run(start, o, reqs[..n]), Run(start, o, reqs);
      WireIsLog(start, o, reqs[..n]);
      WireStep(before.bus, o, reqs[n]);
      assert s.log == before.log + [s.log[n]];
      assert forall k :: 0 <= k < n ==> before.log[k] == s.log[k];
      assert s.log[n].req == reqs[n];
      RepliesPaired(start, o, reqs[..n], ep);
      PairStep(before.bus, o, reqs[n], ep);
    }
  }

  /** The same, said of a driver object in use. */
  lemma DriverRepliesPaired(dev: ElanMoc2, ep: byte)
    requires dev.Valid() && FromTable(Requests(dev.log)) && CleanOn(dev.log, ep) && Queue(dev.start, ep) == []
    ensures Queue(dev.handle.bus, ep) == []
    ensures forall k :: 0 <= k < |dev.log| && dev.log[k].req.cmd.epIn == ep ==> Paired(dev.log[k])
  {
    RepliesPaired(dev.start, dev.handle.oracle, Requests(dev.log), ep);
  }

  predicate TagsOld(b: Bus, ep: byte) {
    forall k :: 0 <= k < |Queue(b, ep)| ==> Queue(b, ep)[k].answers < |b.wire|
  }

  /** Queued replies always answer frames already on the wire. */
  lemma {:induction false} QueuedRepliesAreOld(start: Bus, o: Oracle, reqs: seq<Req>, ep: byte)
    requires TagsOld(start, ep)
    ensures TagsOld(Run(start, o, reqs).bus, ep)
  {
    if reqs != [] {
      var n := |reqs| - 1;
      QueuedRepliesAreOld(start, o, reqs[..n], ep);
      var b, q := Run(start, o, reqs[..n]).bus, reqs[n];
      OldStep(b, o, q, ep);
    }
  }

  lemma OldStep(b: Bus, o: Oracle, q: Req, ep: byte)
    requires TagsOld(b, ep)
    ensures TagsOld(Perform(b, o, q).0, ep)
  {
    if Sends(q) {
      var f := Frame(q.cmd, q.payload).value;
      var b1 := Written(b, f, o(b.clock));
      WrittenQueue(b, f, o(b.clock), ep);
      assert TagsOld(b1, ep);
      ReadKeepsOld(b1, q.cmd.epIn, q.cmd.inLen, o(b1.clock), ep);
    }
  }

  lemma ReadKeepsOld(b: Bus, from: byte, n: nat, c: Choice, ep: byte)
    requires TagsOld(b, ep)
    ensures TagsOld(Read(b, from, n, c).0, ep)
  {
    var b' := Read(b, from, n, c).0;
    assert Queue(b', ep) == Queue(b, ep) || Queue(b', ep) == Queue(b, ep)[1..];
  }

  /** Exactly how pairing is lost: a reply that is read answers its own request if and only if
      nothing was waiting on the endpoint before. */
  lemma PairedIffNothingWaiting(b: Bus, o: Oracle, q: Req)
    requires InTable(q.cmd) && q.cmd.inLen > 0 && TagsOld(b, q.cmd.epIn)
    requires Perform(b, o, q).1.result.Ok?
    ensures Paired(Perform(b, o, q).1) <==> Queue(b, q.cmd.epIn) == []
  {
    DecodesAsMeant(q.cmd, q.payload);
    var f := Frame(q.cmd, q.payload).value;
    var b1 := Written(b, f, o(b.clock));
    WrittenQueue(b, f, o(b.clock), q.cmd.epIn);
    ReadQueue(b1, q.cmd.epIn, q.cmd.inLen, o(b1.clock), q.cmd.epIn);
  }

  /** A request whose reply comes late leaves it waiting for the next one. */
  lemma LateReplyWaits(b: Bus, o: Oracle, q: Req)
    requires InTable(q.cmd) && q.cmd.inLen > 0 && Sends(q)
    requires o(b.clock).write == Delivered && o(b.clock + 1).read == FailedLate
    ensures var (b', x) := Perform(b, o, q);
            x.result == Err(UsbError) && Queue(b', q.cmd.epIn) != []
  {
    DecodesAsMeant(q.cmd, q.payload);
    var f := Frame(q.cmd, q.payload).value;
    WrittenQueue(b, f, o(b.clock), q.cmd.epIn);
  }
}
