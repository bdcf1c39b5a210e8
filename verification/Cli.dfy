/** The four elanctl commands (src/bin/elanctl.rs). Each is a program over the driver, proved to
    follow an automaton that says which request may come next after which replies. Printing and
    elapsed times are not part of the model. */
module Cli {
  import opened Wrappers
  import opened Bytes
  import opened Proto
  import opened Sensor
  import opened Usb
  import opened Device
  import opened Runs
  import opened Simulation
  import opened Automata

  /** What a count query that is not tried again comes to. */
  function CountOf(r: Answer): Result<byte, Error> {
    if r == Ok([]) then Err(NoResponse(GET_ENROLLED_COUNT.name)) else Then(r, ParseCount)
  }

  predicate TryAgain(r: Answer, tries: nat) {
    r == Ok([]) && tries + 1 < MAX_RETRIES
  }

  // ---- reading a log -----------------------------------------------------

  /** How often a request stands at the end of a log. */
  function Streak(log: seq<Outcome>, q: Req): nat {
    if log == [] || log[|log| - 1].req != q then 0 else 1 + Streak(log[..|log| - 1], q)
  }

  lemma StreakSnoc(log: seq<Outcome>, x: Outcome, q: Req)
    ensures Streak(log + [x], q) == if x.req == q then Streak(log, q) + 1 else 0
  {
    assert (log + [x])[..|log|] == log;
  }

  /** The last reply was empty, and its request has not been made three times over. */
  predicate Again(log: seq<Outcome>)
    requires log != []
  {
    var x := log[|log| - 1];
    Seen(x) == Ok([]) && Streak(log, x.req) < 3
  }

  /** Byte 1 of a reply, where there is one. */
  function ByteOne(r: Answer): Option<byte> {
    if r.Ok? && |r.value| >= 2 then Some(r.value[1]) else None
  }

  const COUNT_QUERY: Req := Req(Framed, GET_ENROLLED_COUNT, [])
  const MATCH_REQUEST: Req := Req(Framed, IDENTIFY, [])
  const VERSION_QUERY: Req := Req(Raw, GET_FW_VER, [])

  // ---- identify ----------------------------------------------------------

  datatype IdPhase = Count(tries: nat) | Match | Look(slot: byte, tries: nat) | Cancel | End(result: Result<(), Error>)

  function IdAsk(p: IdPhase): Option<Req> {
    match p
    case Count(_) => Some(Req(Framed, GET_ENROLLED_COUNT, []))
    case Match => Some(Req(Framed, IDENTIFY, []))
    case Look(slot, _) => Some(Req(Framed, FINGER_INFO, [slot]))
    case Cancel => Some(Req(Framed, ABORT, []))
    case End(_) => None
  }

  function IdAfter(p: IdPhase, r: Answer): IdPhase {
    match p
    case Count(t) =>
      if TryAgain(r, t) then Count(t + 1)
      else (match CountOf(r)
        case Err(e) => End(Err(e))
        case Ok(c) => if c == 0 then End(Ok(())) else Match)
    case Match =>
      (match r
       case Err(_) => Cancel
       case Ok(b) => (match NamedSlot(b) case Some(s) => Look(s.number, 0) case None => End(Ok(()))))
    case Look(slot, t) => if TryAgain(r, t) then Look(slot, t + 1) else End(Ok(()))
    case Cancel => End(Ok(()))
    case End(_) => p
  }

  const IDENTIFY_PROGRAM: Automaton<IdPhase> := Automaton(IdAsk, IdAfter)

  function CountTry(t: nat): IdPhase {
    Count(t)
  }

  function LookTry(slot: byte): nat -> IdPhase {
    (t: nat) => Look(slot, t)
  }

  lemma IdRetries(slot: byte)
    ensures Retries(IDENTIFY_PROGRAM, CountTry, GET_ENROLLED_COUNT, [])
    ensures Retries(IDENTIFY_PROGRAM, LookTry(slot), FINGER_INFO, [slot])
  {
  }

  /** Where the count leaves identify: stopped by an error or a zero, or about to match. */
  lemma IdCounted(log: seq<Outcome>)
    requires RetryLog(log, GET_ENROLLED_COUNT, [])
    ensures Follows(IDENTIFY_PROGRAM, Count(0), log)
    ensures PhaseAfter(IDENTIFY_PROGRAM, Count(0), log) ==
            match Then(RetryResult(log, GET_ENROLLED_COUNT), ParseCount)
            case Err(e) => End(Err(e))
            case Ok(c) => if c == 0 then End(Ok(())) else Match
  {
    IdRetries(0);
    AdvanceRetrying(IDENTIFY_PROGRAM, Count(0), [], log, CountTry, GET_ENROLLED_COUNT, []);
    assert log[0..] == log;
  }

  lemma IdLooked(log: seq<Outcome>, log': seq<Outcome>, slot: byte)
    requires Follows(IDENTIFY_PROGRAM, Count(0), log)
    requires PhaseAfter(IDENTIFY_PROGRAM, Count(0), log) == Look(slot, 0)
    requires |log| <= |log'| && log'[..|log|] == log && RetryLog(log'[|log|..], FINGER_INFO, [slot])
    ensures Follows(IDENTIFY_PROGRAM, Count(0), log')
    ensures PhaseAfter(IDENTIFY_PROGRAM, Count(0), log') == End(Ok(()))
  {
    IdRetries(slot);
    AdvanceRetrying(IDENTIFY_PROGRAM, Count(0), log, log', LookTry(slot), FINGER_INFO, [slot]);
  }

  /** Where the match leaves identify: at a failure, at a slot to look up, or at the end. */
  lemma IdMatched(log: seq<Outcome>, log': seq<Outcome>)
    requires Follows(IDENTIFY_PROGRAM, Count(0), log) && PhaseAfter(IDENTIFY_PROGRAM, Count(0), log) == Match
    requires |log'| == |log| + 1 && log'[..|log|] == log && log'[|log|].req == Req(Framed, IDENTIFY, [])
    ensures Follows(IDENTIFY_PROGRAM, Count(0), log')
    ensures PhaseAfter(IDENTIFY_PROGRAM, Count(0), log') ==
            match Seen(log'[|log|])
            case Err(_) => Cancel
            case Ok(b) => match NamedSlot(b) case Some(s) => Look(s.number, 0) case None => End(Ok(()))
  {
    Advance(IDENTIFY_PROGRAM, Count(0), log, log');
  }

  lemma IdCancelled(log: seq<Outcome>, log': seq<Outcome>)
    requires Follows(IDENTIFY_PROGRAM, Count(0), log) && PhaseAfter(IDENTIFY_PROGRAM, Count(0), log) == Cancel
    requires |log'| == |log| + 1 && log'[..|log|] == log && log'[|log|].req == Req(Framed, ABORT, [])
    ensures Follows(IDENTIFY_PROGRAM, Count(0), log')
    ensures PhaseAfter(IDENTIFY_PROGRAM, Count(0), log') == End(Ok(()))
  {
    Advance(IDENTIFY_PROGRAM, Count(0), log, log');
  }

  method CmdIdentify(dev: ElanMoc2) returns (r: Result<(), Error>)
    requires dev.Valid() && dev.log == []
    modifies dev`log, dev.handle
    ensures dev.Valid()
    ensures Follows(IDENTIFY_PROGRAM, Count(0), dev.log)
    ensures PhaseAfter(IDENTIFY_PROGRAM, Count(0), dev.log) == End(r)
  {
    var count := dev.EnrolledCount();
    ghost var log := dev.log;
    IdCounted(log);
    if count.Err? {
      return Err(count.error);
    }
    if count.value == 0 {
      return Ok(());
    }
    var resp := dev.Transceive(IDENTIFY, []);
    IdMatched(log, dev.log);
    HandleMatch(dev, resp);
    return Ok(());
  }

  /** The part of `cmd_identify` that acts on the reply to the match. */
  method HandleMatch(dev: ElanMoc2, resp: Answer)
    requires dev.Valid() && Follows(IDENTIFY_PROGRAM, Count(0), dev.log)
    requires PhaseAfter(IDENTIFY_PROGRAM, Count(0), dev.log) ==
             match resp
             case Err(_) => Cancel
             case Ok(b) => match NamedSlot(b) case Some(s) => Look(s.number, 0) case None => End(Ok(()))
    modifies dev`log, dev.handle
    ensures dev.Valid()
    ensures Follows(IDENTIFY_PROGRAM, Count(0), dev.log)
    ensures PhaseAfter(IDENTIFY_PROGRAM, Count(0), dev.log) == End(Ok(()))
  {
    hide Run, PhaseAfter, Follows;
    ghost var log := dev.log;
    match resp
    case Ok(b) =>
      if |b| >= 2 {
        var st := StatusFromByte(b[1]);
        if st.Ordinary? {
          var info := dev.ReadFingerInfo(st.code);
          IdLooked(log, dev.log, st.code);
        }
      }
    case Err(_) =>
      var aborted := dev.Abort();
      IdCancelled(log, dev.log);
  }

  function IdBudget(p: IdPhase): int {
    match p
    case Count(t) => 7 - t
    case Match => 4
    case Look(_, t) => 3 - t
    case Cancel => 1
    case End(_) => 0
  }

  predicate IdSane(p: IdPhase) {
    p.Count? || p.Look? ==> p.tries < MAX_RETRIES
  }

  /** Whatever the sensor answers, identify makes at most seven requests. */
  lemma IdentifyBounded(log: seq<Outcome>)
    requires Follows(IDENTIFY_PROGRAM, Count(0), log)
    ensures |FramesOf(log)| == |log| <= 7
  {
    CliIsTame();
    TameFrames(IDENTIFY_PROGRAM, Count(0), log);
    BudgetBounds(IDENTIFY_PROGRAM, IdSane, IdBudget, Count(0), log);
  }

  /** What identify does after a log, read off the log alone: it asks for the count, up to three
      times while nothing answers; for a match if the count it is told is not zero; then for the
      slot that the match named, up to three times, or for an abort if the match failed. */
  function IdentifyDue(log: seq<Outcome>): Option<Req> {
    if log == [] then Some(COUNT_QUERY)
    else
      var q, r := log[|log| - 1].req, Seen(log[|log| - 1]);
      if q == COUNT_QUERY then
        if Again(log) then Some(COUNT_QUERY)
        else if ByteOne(r).Some? && ByteOne(r) != Some(0) then Some(MATCH_REQUEST)
        else None
      else if q == MATCH_REQUEST then
        if r.Err? then Some(Req(Framed, ABORT, []))
        else if ByteOne(r).Some? && ByteOne(r).value < 16 then Some(Req(Framed, FINGER_INFO, [ByteOne(r).value]))
        else None
      else if q.cmd == FINGER_INFO && Again(log) then Some(q)
      else None
  }

  /** The error that identify ends with: only a count that it could not read. */
  function IdentifyError(log: seq<Outcome>): Option<Error> {
    if log == [] || log[|log| - 1].req != COUNT_QUERY then None
    else
      match Seen(log[|log| - 1])
      case Err(e) => Some(e)
      case Ok(b) =>
        if b == [] then Some(NoResponse(NameGetEnrolledCount)) else if |b| == 1 then Some(Short(2, 1)) else None
  }

  predicate IdPhaseFits(p: IdPhase, log: seq<Outcome>) {
    && IdAsk(p) == IdentifyDue(log)
    && (p.Count? ==> p.tries == Streak(log, COUNT_QUERY) < 3)
    && (p.Look? ==> p.tries == Streak(log, Req(Framed, FINGER_INFO, [p.slot])) < 3)
    && (p.End? ==> p.result == match IdentifyError(log) case Some(e) => Err(e) case None => Ok(()))
  }

  lemma IdPhaseStep(p: IdPhase, log: seq<Outcome>, x: Outcome)
    requires IdPhaseFits(p, log) && IdAsk(p) == Some(x.req)
    ensures IdPhaseFits(IdAfter(p, Seen(x)), log + [x])
  {
    hide Streak, Seen;
    var log' := log + [x];
    assert log'[|log'| - 1] == x;
    StreakSnoc(log, x, x.req);
    if x.req == MATCH_REQUEST && ByteOne(Seen(x)).Some? {
      StreakSnoc(log, x, Req(Framed, FINGER_INFO, [ByteOne(Seen(x)).value]));
      StatusExact(ByteOne(Seen(x)).value);
    }
  }

  lemma {:induction false} IdPhaseOfLog(log: seq<Outcome>)
    requires Follows(IDENTIFY_PROGRAM, Count(0), log)
    ensures IdPhaseFits(PhaseAfter(IDENTIFY_PROGRAM, Count(0), log), log)
  {
    hide IdAsk, IdAfter, IdPhaseFits;
    if log == [] {
      IdPhaseStarts();
    } else {
      var init, x := log[..|log| - 1], log[|log| - 1];
      IdPhaseOfLog(init);
      IdPhaseStep(PhaseAfter(IDENTIFY_PROGRAM, Count(0), init), init, x);
      assert log == init + [x];
    }
  }

  lemma IdPhaseStarts()
    ensures IdPhaseFits(Count(0), [])
  {
  }

  /** Exactly what identify sends and how it ends, at every point of every run: a log is one of
      identify's if and only if each request in it was the one due, and identify has then ended,
      with its error or without, exactly when nothing more is due. */
  lemma {:induction false} IdentifyIsExact(log: seq<Outcome>)
    ensures Follows(IDENTIFY_PROGRAM, Count(0), log) <==>
            forall k :: 0 <= k < |log| ==> IdentifyDue(log[..k]) == Some(log[k].req)
    ensures Follows(IDENTIFY_PROGRAM, Count(0), log) ==>
              var p := PhaseAfter(IDENTIFY_PROGRAM, Count(0), log);
              && (p.End? <==> IdentifyDue(log).None?)
              && (p.End? ==> p.result == match IdentifyError(log) case Some(e) => Err(e) case None => Ok(()))
  {
    hide IdentifyDue, IdentifyError;
    if Follows(IDENTIFY_PROGRAM, Count(0), log) {
      IdPhaseOfLog(log);
    }
    if log != [] {
      var n := |log| - 1;
      var init := log[..n];
      IdentifyIsExact(init);
      if Follows(IDENTIFY_PROGRAM, Count(0), init) {
        IdPhaseOfLog(init);
      }
      assert forall k :: 0 <= k < n ==> init[..k] == log[..k] && init[k] == log[k];
    }
  }

  /** Order within identify: it asks for a match only after a count that is not zero, aborts only
      after the match failed, and looks up only the slot the match has just returned. */
  lemma {:induction false} IdentifyOrder(log: seq<Outcome>, k: nat)
    requires Follows(IDENTIFY_PROGRAM, Count(0), log) && k < |log|
    ensures log[k].req.cmd == IDENTIFY ==>
              k > 0 && log[k - 1].req.cmd == GET_ENROLLED_COUNT
              && Seen(log[k - 1]).Ok? && |Seen(log[k - 1]).value| >= 2 && Seen(log[k - 1]).value[1] != 0
    ensures log[k].req.cmd == ABORT ==> k > 0 && log[k - 1].req.cmd == IDENTIFY && Seen(log[k - 1]).Err?
    ensures log[k].req.cmd == FINGER_INFO ==>
              k > 0 && Seen(log[k - 1]).Ok?
              && (|| (log[k - 1].req.cmd == IDENTIFY && NamedSlot(Seen(log[k - 1]).value) == Some(AskedSlot(log[k].req)))
                  || (log[k - 1].req == log[k].req && Seen(log[k - 1]).value == []))
  {
    if k < |log| - 1 {
      IdentifyOrder(log[..|log| - 1], k);
    } else if k > 0 {
      var before := log[..k];
      assert before[..k - 1] == log[..k - 1] && before[k - 1] == log[k - 1];
      assert IdAsk(PhaseAfter(IDENTIFY_PROGRAM, Count(0), before)) == Some(log[k].req);
      assert IdAsk(PhaseAfter(IDENTIFY_PROGRAM, Count(0), log[..k - 1])) == Some(log[k - 1].req);
    }
  }

  /** Identify keeps the discipline under which the two firmwares cannot be told apart. */
  lemma {:induction false} IdentifyIsDisciplined(log: seq<Outcome>)
    requires Follows(IDENTIFY_PROGRAM, Count(0), log)
    ensures Disciplined(log)
    ensures var p := PhaseAfter(IDENTIFY_PROGRAM, Count(0), log);
            && (p.Look? ==> KnownAfter(log) == Last(Slot(p.slot)))
            && (p.Count? || p.Match? ==> KnownAfter(log) == Nothing)
  {
    if log != [] {
      IdentifyIsDisciplined(log[..|log| - 1]);
    }
  }

  /** `elanctl identify` has the same log on either firmware, at every point of every run,
      retries and faults included. */
  lemma IdentifyIndistinguishable(start: Bus, fw: Firmware, o: Oracle, n: nat)
    requires Queue(start, EP_MOC_CMD_IN) == []
    ensures var client := ClientOf(IDENTIFY_PROGRAM, Count(0));
            Play(start.(fw := fw), o, client, n) == Reflashed(Play(start, o, client, n), fw)
  {
    var client := ClientOf(IDENTIFY_PROGRAM, Count(0));
    PlayFollows(start, o, IDENTIFY_PROGRAM, Count(0), n);
    IdentifyIsDisciplined(Play(start, o, client, n).log);
    FirmwaresIndistinguishable(start, fw, o, client, n);
  }

  // ---- info --------------------------------------------------------------

  datatype InfoPhase = Start | Counting(tries: nat) | SlotAt(i: nat, n: nat, tries: nat) | InfoEnd(n: nat)

  /** The number of slots `info` visits: the reported count, ten at most. */
  function SlotsToVisit(count: byte): (n: nat)
    ensures n == if Num(count) < 10 then Num(count) else 10
  {
    if count < MAX_PRINTS then count as nat else 10
  }

  function InfoAsk(p: InfoPhase): Option<Req> {
    match p
    case Start => Some(Req(Raw, GET_FW_VER, []))
    case Counting(_) => Some(Req(Framed, GET_ENROLLED_COUNT, []))
    case SlotAt(i, _, _) => if i < 10 then Some(Req(Framed, FINGER_INFO, [i as byte])) else None
    case InfoEnd(_) => None
  }

  function InfoAfter(p: InfoPhase, r: Answer): InfoPhase {
    match p
    case Start => Counting(0)
    case Counting(t) =>
      if TryAgain(r, t) then Counting(t + 1)
      else (match CountOf(r)
        case Err(_) => InfoEnd(0)
        case Ok(c) => if SlotsToVisit(c) == 0 then InfoEnd(0) else SlotAt(0, SlotsToVisit(c), 0))
    case SlotAt(i, n, t) =>
      if TryAgain(r, t) then SlotAt(i, n, t + 1)
      else if i + 1 < n then SlotAt(i + 1, n, 0)
      else InfoEnd(n)
    case InfoEnd(_) => p
  }

  const INFO_PROGRAM: Automaton<InfoPhase> := Automaton(InfoAsk, InfoAfter)

  function CountingTry(t: nat): InfoPhase {
    Counting(t)
  }

  function SlotTry(i: nat, n: nat): nat -> InfoPhase {
    (t: nat) => SlotAt(i, n, t)
  }

  lemma InfoRetries(i: nat, n: nat)
    requires i < 10
    ensures Retries(INFO_PROGRAM, CountingTry, GET_ENROLLED_COUNT, [])
    ensures Retries(INFO_PROGRAM, SlotTry(i, n), FINGER_INFO, [i as byte])
  {
  }

  lemma InfoCounted(log: seq<Outcome>, log': seq<Outcome>)
    requires Follows(INFO_PROGRAM, Start, log)
    requires PhaseAfter(INFO_PROGRAM, Start, log) == Counting(0)
    requires |log| <= |log'| && log'[..|log|] == log && RetryLog(log'[|log|..], GET_ENROLLED_COUNT, [])
    ensures Follows(INFO_PROGRAM, Start, log')
    ensures PhaseAfter(INFO_PROGRAM, Start, log') ==
            match Then(RetryResult(log'[|log|..], GET_ENROLLED_COUNT), ParseCount)
            case Err(_) => InfoEnd(0)
            case Ok(c) => if SlotsToVisit(c) == 0 then InfoEnd(0) else SlotAt(0, SlotsToVisit(c), 0)
  {
    InfoRetries(0, 0);
    AdvanceRetrying(INFO_PROGRAM, Start, log, log', CountingTry, GET_ENROLLED_COUNT, []);
  }

  lemma InfoLooked(log: seq<Outcome>, log': seq<Outcome>, i: nat, n: nat)
    requires i < n <= 10 && Follows(INFO_PROGRAM, Start, log)
    requires PhaseAfter(INFO_PROGRAM, Start, log) == SlotAt(i, n, 0)
    requires |log| <= |log'| && log'[..|log|] == log && RetryLog(log'[|log|..], FINGER_INFO, [i as byte])
    ensures Follows(INFO_PROGRAM, Start, log')
    ensures PhaseAfter(INFO_PROGRAM, Start, log') == if i + 1 < n then SlotAt(i + 1, n, 0) else InfoEnd(n)
  {
    hide Retries;
    InfoRetries(i, n);
    AdvanceRetrying(INFO_PROGRAM, Start, log, log', SlotTry(i, n), FINGER_INFO, [i as byte]);
  }

  method CmdInfo(dev: ElanMoc2) returns (r: Result<(), Error>)
    requires dev.Valid() && dev.log == []
    modifies dev`log, dev.handle
    ensures dev.Valid() && r == Ok(())
    ensures Follows(INFO_PROGRAM, Start, dev.log)
    ensures PhaseAfter(INFO_PROGRAM, Start, dev.log).InfoEnd?
  {
    ghost var m, p0 := INFO_PROGRAM, Start;
    var version := dev.FirmwareVersion();
    ghost var log := dev.log;
    Advance(m, p0, [], log);
    var count := dev.EnrolledCount();
    InfoCounted(log, dev.log);
    if count.Err? {
      return Ok(());
    }
    if count.value == 0 {
      return Ok(());
    }
    var n := SlotsToVisit(count.value);
    for i := 0 to n
      invariant dev.Valid() && Follows(m, p0, dev.log)
      invariant PhaseAfter(m, p0, dev.log) == if i < n then SlotAt(i, n, 0) else InfoEnd(n)
    {
      log := dev.log;
      var info := dev.ReadFingerInfo(i as byte);
      InfoLooked(log, dev.log, i, n);
    }
    return Ok(());
  }

  function InfoBudget(p: InfoPhase): int {
    match p
    case Start => 34
    case Counting(t) => 33 - t
    case SlotAt(i, n, t) => 3 * (n - i) - t
    case InfoEnd(_) => 0
  }

  predicate InfoSane(p: InfoPhase) {
    && (p.Counting? || p.SlotAt? ==> p.tries < MAX_RETRIES)
    && (p.SlotAt? ==> p.i < p.n <= 10)
  }

  /** Whatever the sensor answers, info makes at most 34 requests. */
  lemma InfoBounded(log: seq<Outcome>)
    requires Follows(INFO_PROGRAM, Start, log)
    ensures |FramesOf(log)| == |log| <= 34
  {
    CliIsTame();
    TameFrames(INFO_PROGRAM, Start, log);
    BudgetBounds(INFO_PROGRAM, InfoSane, InfoBudget, Start, log);
  }

  function SlotQuery(i: nat): Req
    requires i < 10
  {
    Req(Framed, FINGER_INFO, [i as byte])
  }

  predicate Asked(log: seq<Outcome>, i: nat) {
    i < 10 && exists k :: 0 <= k < |log| && log[k].req == SlotQuery(i)
  }

  /** The count that the log reports: byte 1 of the last count reply in it, zero without one. */
  function CountReported(log: seq<Outcome>): nat {
    if log == [] then 0
    else
      var x := log[|log| - 1];
      if x.req == COUNT_QUERY then (match ByteOne(Seen(x)) case Some(c) => Num(c) case None => 0)
      else CountReported(log[..|log| - 1])
  }

  function SlotsReported(log: seq<Outcome>): nat {
    if CountReported(log) < 10 then CountReported(log) else 10
  }

  /** What info does after a log, read off the log alone: it asks for the version, then for the
      count, then for each slot below the count and below ten, the last two up to three times while
      nothing answers. */
  function InfoDue(log: seq<Outcome>): Option<Req> {
    if log == [] then Some(VERSION_QUERY)
    else
      var q := log[|log| - 1].req;
      if q == VERSION_QUERY then Some(COUNT_QUERY)
      else if Again(log) then Some(q)
      else if NextSlot(q) < SlotsReported(log) then Some(SlotQuery(NextSlot(q)))
      else None
  }

  /** The slot after the one just asked about; the first, if none was. */
  function NextSlot(q: Req): nat {
    if q.cmd == FINGER_INFO && |q.payload| == 1 then Num(q.payload[0]) + 1 else 0
  }

  lemma ReportedSnoc(log: seq<Outcome>, x: Outcome)
    ensures CountReported(log + [x]) ==
            if x.req == COUNT_QUERY then (match ByteOne(Seen(x)) case Some(c) => Num(c) case None => 0)
            else CountReported(log)
  {
    assert (log + [x])[..|log|] == log;
  }

  predicate InfoPhaseFits(p: InfoPhase, log: seq<Outcome>) {
    && InfoAsk(p) == InfoDue(log)
    && (p.Counting? ==> p.tries == Streak(log, COUNT_QUERY) < 3)
    && (p.SlotAt? ==> p.i < p.n == SlotsReported(log) && p.tries == Streak(log, SlotQuery(p.i)) < 3)
    && (p.InfoEnd? ==> p.n == SlotsReported(log))
  }

  lemma InfoPhaseStep(p: InfoPhase, log: seq<Outcome>, x: Outcome)
    requires InfoPhaseFits(p, log) && InfoAsk(p) == Some(x.req)
    ensures InfoPhaseFits(InfoAfter(p, Seen(x)), log + [x])
  {
    hide Streak, Seen, CountReported, SlotQuery, NextSlot, Num, SlotsToVisit;
    var log' := log + [x];
    assert log'[|log'| - 1] == x;
    ReportedSnoc(log, x);
    StreakSnoc(log, x, x.req);
    match p
    case Start =>
      StreakSnoc(log, x, COUNT_QUERY);
    case Counting(_) =>
      SlotQueryExact(0);
      StreakSnoc(log, x, SlotQuery(0));
    case SlotAt(i, n, _) =>
      SlotQueryExact(i);
      if i + 1 < n {
        SlotQueryExact(i + 1);
        StreakSnoc(log, x, SlotQuery(i + 1));
      }
  }

  /** Slot `i` is asked about by its own number. */
  lemma SlotQueryExact(i: nat)
    requires i < 10
    ensures var q := SlotQuery(i);
            && q.mode == Framed && q.cmd == FINGER_INFO && |q.payload| == 1 && Num(q.payload[0]) == i
            && NextSlot(q) == i + 1 && NextSlot(COUNT_QUERY) == 0
    ensures forall n, t :: InfoAsk(SlotAt(i, n, t)) == Some(SlotQuery(i))
  {
  }

  lemma {:induction false} InfoPhaseOfLog(log: seq<Outcome>)
    requires Follows(INFO_PROGRAM, Start, log)
    ensures InfoPhaseFits(PhaseAfter(INFO_PROGRAM, Start, log), log)
  {
    hide InfoAsk, InfoAfter, InfoPhaseFits;
    if log == [] {
      InfoPhaseStarts();
    } else {
      var init, x := log[..|log| - 1], log[|log| - 1];
      InfoPhaseOfLog(init);
      InfoPhaseStep(PhaseAfter(INFO_PROGRAM, Start, init), init, x);
      assert log == init + [x];
    }
  }

  lemma InfoPhaseStarts()
    ensures InfoPhaseFits(Start, [])
  {
  }

  lemma InfoDueNext(log: seq<Outcome>)
    requires Follows(INFO_PROGRAM, Start, log)
    ensures var p := PhaseAfter(INFO_PROGRAM, Start, log);
            INFO_PROGRAM.ask(p) == InfoDue(log) && (p.InfoEnd? <==> InfoDue(log).None?)
  {
    hide InfoDue, PhaseAfter, Follows, Streak;
    InfoPhaseOfLog(log);
  }

  /** Exactly what info sends, at every point of every run: a log is one of info's if and only if
      each request in it was the one due, and info has ended exactly when nothing more is due. */
  lemma {:induction false} InfoIsExact(log: seq<Outcome>)
    ensures Follows(INFO_PROGRAM, Start, log) <==>
            forall k :: 0 <= k < |log| ==> InfoDue(log[..k]) == Some(log[k].req)
    ensures Follows(INFO_PROGRAM, Start, log) ==>
              (PhaseAfter(INFO_PROGRAM, Start, log).InfoEnd? <==> InfoDue(log).None?)
  {
    hide InfoDue, InfoAsk, InfoAfter;
    if Follows(INFO_PROGRAM, Start, log) {
      InfoDueNext(log);
    }
    if log != [] {
      var n := |log| - 1;
      var init := log[..n];
      InfoIsExact(init);
      if Follows(INFO_PROGRAM, Start, init) {
        InfoDueNext(init);
      }
      assert forall k :: 0 <= k < n ==> init[..k] == log[..k] && init[k] == log[k];
    }
  }

  // What info has asked so far: every slot below a bound, and none from it on.

  predicate AskedExactly(log: seq<Outcome>, n: nat) {
    forall j :: 0 <= j < 10 ==> (Asked(log, j) <==> j < n)
  }

  predicate Progress(p: InfoPhase, log: seq<Outcome>) {
    match p
    case Start => AskedExactly(log, 0)
    case Counting(_) => AskedExactly(log, 0)
    case SlotAt(i, n, t) => i < n == SlotsReported(log) && AskedExactly(log, if t == 0 then i else i + 1)
    case InfoEnd(n) => n == SlotsReported(log) && AskedExactly(log, n)
  }

  lemma AskedSnoc(log: seq<Outcome>, x: Outcome, j: nat)
    requires j < 10
    ensures Asked(log + [x], j) <==> Asked(log, j) || x.req == SlotQuery(j)
  {
    var log' := log + [x];
    assert log'[|log|] == x;
    if Asked(log, j) {
      var k :| 0 <= k < |log| && log[k].req == SlotQuery(j);
      assert log'[k].req == SlotQuery(j);
    }
    if Asked(log', j) {
      var k :| 0 <= k < |log'| && log'[k].req == SlotQuery(j);
      assert k < |log| ==> log[k].req == SlotQuery(j);
    }
  }

  /** A request for slot `i`, made while the slots below it, or it too, have been asked about. */
  lemma SlotAsked(log: seq<Outcome>, x: Outcome, i: nat, n: nat)
    requires i < 10 && x.req == SlotQuery(i) && AskedExactly(log, n) && n in {i, i + 1}
    ensures AskedExactly(log + [x], i + 1)
  {
    hide Asked;
    forall j | 0 <= j < 10
      ensures Asked(log + [x], j) <==> j < i + 1
    {
      AskedSnoc(log, x, j);
      SlotQueryExact(i);
      SlotQueryExact(j);
    }
  }

  lemma NoSlotAsked(log: seq<Outcome>, x: Outcome)
    requires x.req.cmd != FINGER_INFO && AskedExactly(log, 0)
    ensures AskedExactly(log + [x], 0)
  {
    hide Asked;
    forall j | 0 <= j < 10
      ensures !Asked(log + [x], j)
    {
      AskedSnoc(log, x, j);
    }
  }

  lemma ProgressStep(p: InfoPhase, log: seq<Outcome>, x: Outcome)
    requires Progress(p, log) && InfoAsk(p) == Some(x.req)
    requires InfoPhaseFits(InfoAfter(p, Seen(x)), log + [x])
    ensures Progress(InfoAfter(p, Seen(x)), log + [x])
  {
    hide SlotsReported, AskedExactly, Seen, InfoDue, Streak;
    match p
    case Start => NoSlotAsked(log, x);
    case Counting(_) => NoSlotAsked(log, x);
    case SlotAt(i, n, t) => SlotAsked(log, x, i, if t == 0 then i else i + 1);
  }

  lemma NothingAsked()
    ensures Progress(Start, [])
  {
  }

  lemma {:induction false} InfoProgress(log: seq<Outcome>)
    requires Follows(INFO_PROGRAM, Start, log)
    ensures Progress(PhaseAfter(INFO_PROGRAM, Start, log), log)
  {
    hide InfoAsk, InfoAfter, InfoPhaseFits, Progress, SlotsReported, AskedExactly, SlotQuery;
    if log == [] {
      NothingAsked();
    } else {
      var init, x := log[..|log| - 1], log[|log| - 1];
      InfoProgress(init);
      InfoPhaseOfLog(init);
      InfoPhaseOfLog(log);
      assert log == init + [x];
      ProgressStep(PhaseAfter(INFO_PROGRAM, Start, init), init, x);
    }
  }

  /** An info that has run to its end has asked about every slot below the count that the sensor
      reported in byte 1, ten at most, and about no other. */
  lemma InfoVisitsEverySlot(log: seq<Outcome>, i: nat)
    requires Follows(INFO_PROGRAM, Start, log) && PhaseAfter(INFO_PROGRAM, Start, log).InfoEnd?
    ensures Asked(log, i) <==> i < CountReported(log) && i < 10
  {
    InfoProgress(log);
  }

  // ---- dump --------------------------------------------------------------

  /** A dump counts its requests; nothing it is told changes what comes next. */
  function DumpAsk(k: nat): Option<Req> {
    if k == 0 then Some(Req(Raw, GET_FW_VER, []))
    else if k == 1 then Some(Req(Raw, GET_ENROLLED_COUNT, []))
    else if k < 12 then Some(Req(Raw, FINGER_INFO, [(k - 2) as byte]))
    else None
  }

  function DumpAfter(k: nat, r: Answer): nat {
    k + 1
  }

  const DUMP_PROGRAM: Automaton<nat> := Automaton(DumpAsk, DumpAfter)

  method CmdDump(dev: ElanMoc2) returns (r: Result<(), Error>)
    requires dev.Valid() && dev.log == []
    modifies dev`log, dev.handle
    ensures dev.Valid() && r == Ok(())
    ensures Follows(DUMP_PROGRAM, 0, dev.log) && |dev.log| == 12
    ensures dev.log[0].req == Req(Raw, GET_FW_VER, []) && dev.log[1].req == Req(Raw, GET_ENROLLED_COUNT, [])
    ensures forall k :: 2 <= k < 12 ==> dev.log[k].req == Req(Raw, FINGER_INFO, [(k - 2) as byte])
  {
    ghost var m := DUMP_PROGRAM;
    var queries := [GET_FW_VER, GET_ENROLLED_COUNT];
    for q := 0 to 2
      invariant dev.Valid() && Follows(m, 0, dev.log) && PhaseAfter(m, 0, dev.log) == q == |dev.log|
    {
      ghost var log := dev.log;
      var reply := dev.TransceiveRaw(queries[q], []);
      Advance(m, 0, log, dev.log);
    }
    for i := 0 to 10
      invariant dev.Valid() && Follows(m, 0, dev.log) && PhaseAfter(m, 0, dev.log) == i + 2 == |dev.log|
    {
      ghost var log := dev.log;
      var reply := dev.TransceiveRaw(FINGER_INFO, [i as byte]);
      Advance(m, 0, log, dev.log);
    }
    DumpIsFixed(dev.log);
    return Ok(());
  }

  /** A dump makes twelve requests in a fixed order, whatever it is told: the version, the count,
      and slots 0 to 9. */
  lemma DumpIsFixed(log: seq<Outcome>)
    requires Follows(DUMP_PROGRAM, 0, log)
    ensures PhaseAfter(DUMP_PROGRAM, 0, log) == |log| <= 12
    ensures |log| > 0 ==> log[0].req == Req(Raw, GET_FW_VER, [])
    ensures |log| > 1 ==> log[1].req == Req(Raw, GET_ENROLLED_COUNT, [])
    ensures forall k :: 2 <= k < |log| ==> log[k].req == Req(Raw, FINGER_INFO, [(k - 2) as byte])
    ensures DUMP_PROGRAM.ask(PhaseAfter(DUMP_PROGRAM, 0, log)).None? <==> |log| == 12
  {
    DumpAsks(log);
    DumpAskEnds(|log|);
  }

  lemma {:induction false} DumpAsks(log: seq<Outcome>)
    requires Follows(DUMP_PROGRAM, 0, log)
    ensures PhaseAfter(DUMP_PROGRAM, 0, log) == |log| <= 12
    ensures forall k :: 0 <= k < |log| ==> DumpAsk(k) == Some(log[k].req)
  {
    hide DumpAsk;
    if log != [] {
      var n := |log| - 1;
      DumpAsks(log[..n]);
      assert DumpAsk(n) == Some(log[n].req);
      DumpAskEnds(n);
    }
  }

  lemma DumpAskEnds(k: nat)
    ensures DumpAsk(k).Some? <==> k < 12
  {
  }

  predicate Faultless(o: Oracle, n: nat) {
    forall t :: 0 <= t < n ==>
      o(t).write == Delivered && o(t).read == Completed && o(t).sensor.faithful && |o(t).sensor.answer| <= 2
  }

  /** As docs/PROTOCOL.md records: with the last-identified firmware and no fault, the ten slots of
      a dump all answer alike, stored or not, with the one record identified last. */
  lemma {:induction false} DumpSlotsAnswerAlike(start: Bus, o: Oracle, n: nat)
    requires start.fw == LastIdentified && Queue(start, EP_CMD_IN) == [] && start.clock == 0
    requires start.chip.last.Some? ==> |start.chip.last.value| <= 64
    requires n <= 12 && Faultless(o, 24)
    ensures var s := Play(start, o, ClientOf(DUMP_PROGRAM, 0), n);
            var record := RecordReply(LastIdentified, start.chip, Slot(0));
            && s.bus.chip == start.chip && s.bus.fw == start.fw && Queue(s.bus, EP_CMD_IN) == []
            && s.bus.clock == 2 * n && |s.log| == n
            && forall k :: 2 <= k < n ==> Seen(s.log[k]) == Ok(record)
  {
    hide Perform, Queue, RecordReply, Next, Seen, Faultless, DumpAsk;
    if n > 0 {
      var s := Play(start, o, ClientOf(DUMP_PROGRAM, 0), n - 1);
      DumpSlotsAnswerAlike(start, o, n - 1);
      PlayFollows(start, o, DUMP_PROGRAM, 0, n - 1);
      DumpTurn(s, o);
      DumpStep(s.bus, o, n - 1);
    }
  }

  lemma DumpTurn(s: Session, o: Oracle)
    requires Follows(DUMP_PROGRAM, 0, s.log) && |s.log| < 12
    ensures DumpAsk(|s.log|).Some?
    ensures Next(s, o, ClientOf(DUMP_PROGRAM, 0)) == Do(s, o, DumpAsk(|s.log|).value)
  {
    hide Do;
    DumpAsks(s.log);
    DumpAskEnds(|s.log|);
  }

  lemma DumpStep(b: Bus, o: Oracle, k: nat)
    requires b.fw == LastIdentified && Queue(b, EP_CMD_IN) == [] && b.clock == 2 * k && k < 12 && Faultless(o, 24)
    requires b.chip.last.Some? ==> |b.chip.last.value| <= 64
    ensures var (b', x) := Perform(b, o, DumpAsk(k).value);
            && b'.chip == b.chip && b'.fw == b.fw && Queue(b', EP_CMD_IN) == [] && b'.clock == b.clock + 2
            && (k >= 2 ==> Seen(x) == Ok(RecordReply(LastIdentified, b.chip, Slot(0))))
  {
    var q := DumpAsk(k).value;
    assert o(b.clock).write == Delivered && o(b.clock + 1).read == Completed;
    PairStep(b, o, q, EP_CMD_IN);
    DecodesAsMeant(q.cmd, q.payload);
    WrittenQueue(b, Frame(q.cmd, q.payload).value, o(b.clock), EP_CMD_IN);
    if k >= 2 {
      SlotReply(b, o, Slot((k - 2) as byte));
    }
  }

  // ---- collision ---------------------------------------------------------

  datatype CollisionPhase = Query | CollisionEnd(result: Result<(), Error>)

  function CollisionAsk(p: CollisionPhase): Option<Req> {
    if p.Query? then Some(Req(Raw, CHECK_ENROLL_COLLISION, [])) else None
  }

  function CollisionAfter(p: CollisionPhase, r: Answer): CollisionPhase {
    if p.Query? then CollisionEnd(Then(r, b => Ok(()))) else p
  }

  const COLLISION_PROGRAM: Automaton<CollisionPhase> := Automaton(CollisionAsk, CollisionAfter)

  method CmdCollision(dev: ElanMoc2) returns (r: Result<(), Error>)
    requires dev.Valid() && dev.log == []
    modifies dev`log, dev.handle
    ensures dev.Valid() && |dev.log| == 1
    ensures Follows(COLLISION_PROGRAM, Query, dev.log)
    ensures PhaseAfter(COLLISION_PROGRAM, Query, dev.log) == CollisionEnd(r)
    ensures dev.log[0].req == Req(Raw, CHECK_ENROLL_COLLISION, [])
    ensures r == match Seen(dev.log[0]) case Err(e) => Err(e) case Ok(_) => Ok(())
  {
    var reply := dev.TransceiveRaw(CHECK_ENROLL_COLLISION, []);
    Advance(COLLISION_PROGRAM, Query, [], dev.log);
    match reply
    case Err(e) => return Err(e);
    case Ok(_) => return Ok(());
  }

  /** Collision makes one request, ff 10 on the raw path, and nothing after it. */
  lemma CollisionIsExact(log: seq<Outcome>)
    ensures Follows(COLLISION_PROGRAM, Query, log) <==>
            |log| == 0 || (|log| == 1 && log[0].req == Req(Raw, CHECK_ENROLL_COLLISION, []))
  {
    if |log| >= 2 {
      assert log[..|log| - 1] != [];
      assert PhaseAfter(COLLISION_PROGRAM, Query, log[..|log| - 1]).CollisionEnd?;
    }
  }

  // ---- all four ----------------------------------------------------------

  /** No command of the program asks for the token or leaves the table, so each leaves the stored
      templates as they were, on any sensor and through any USB fault. */
  lemma CliIsTame()
    ensures Tame(IDENTIFY_PROGRAM) && Tame(INFO_PROGRAM) && Tame(DUMP_PROGRAM) && Tame(COLLISION_PROGRAM)
  {
  }
}
