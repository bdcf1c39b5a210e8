/** Automata over requests: what a program may send next, given the replies so far. */
module Automata {
  import opened Wrappers
  import opened Bytes
  import opened Proto
  import opened Usb
  import opened Device
  import opened Runs
  import opened Simulation

  type Answer = Result<seq<byte>, Error>

  /** `ask` gives the request due in a phase, if any; `after` the phase its answer leads to. */
  datatype Automaton<!P> = Automaton(ask: P -> Option<Req>, after: (P, Answer) -> P)

  function PhaseAfter<P>(m: Automaton<P>, p0: P, log: seq<Outcome>): P {
    if log == [] then p0 else m.after(PhaseAfter(m, p0, log[..|log| - 1]), Seen(log[|log| - 1]))
  }

  /** Every request in the log is the one the automaton asks for at that point. */
  predicate Follows<P>(m: Automaton<P>, p0: P, log: seq<Outcome>) {
    log == [] ||
    (Follows(m, p0, log[..|log| - 1])
     && m.ask(PhaseAfter(m, p0, log[..|log| - 1])) == Some(log[|log| - 1].req))
  }

  lemma Snoc<P>(m: Automaton<P>, p0: P, log: seq<Outcome>, x: Outcome)
    ensures PhaseAfter(m, p0, log + [x]) == m.after(PhaseAfter(m, p0, log), Seen(x))
    ensures Follows(m, p0, log + [x]) <==> Follows(m, p0, log) && m.ask(PhaseAfter(m, p0, log)) == Some(x.req)
  {
    assert (log + [x])[..|log|] == log;
  }

  /** Phases `tries(0)`, `tries(1)`, `tries(2)` repeat one query while it is answered by nothing. */
  predicate Retries<P(==)>(m: Automaton<P>, tries: nat -> P, cmd: Cmd, payload: seq<byte>) {
    var q := Some(Req(Framed, cmd, payload));
    && m.ask(tries(0)) == m.ask(tries(1)) == m.ask(tries(2)) == q
    && m.after(tries(0), Ok([])) == tries(1)
    && m.after(tries(1), Ok([])) == tries(2)
  }

  lemma RetryPrefix<P>(m: Automaton<P>, p0: P, log: seq<Outcome>, s: seq<Outcome>,
                       tries: nat -> P, cmd: Cmd, payload: seq<byte>, k: nat)
    requires Retries(m, tries, cmd, payload) && PhaseAfter(m, p0, log) == tries(0)
    requires Follows(m, p0, log) && RetryLog(s, cmd, payload) && k < |s|
    ensures Follows(m, p0, log + s[..k]) && PhaseAfter(m, p0, log + s[..k]) == tries(k)
  {
    hide PhaseAfter, Follows;
    assert log + s[..0] == log;
    if k >= 1 {
      assert log + s[..1] == log + [s[0]];
      Snoc(m, p0, log, s[0]);
    }
    if k == 2 {
      assert log + s[..2] == (log + s[..1]) + [s[1]];
      Snoc(m, p0, log + s[..1], s[1]);
    }
  }

  /** A log grown by one request that was due. */
  lemma Advance<P>(m: Automaton<P>, p0: P, log: seq<Outcome>, log': seq<Outcome>)
    requires |log'| == |log| + 1 && log'[..|log|] == log
    requires Follows(m, p0, log) && m.ask(PhaseAfter(m, p0, log)) == Some(log'[|log|].req)
    ensures Follows(m, p0, log')
    ensures PhaseAfter(m, p0, log') == m.after(PhaseAfter(m, p0, log), Seen(log'[|log|]))
  {
  }

  /** A log grown by a retried query, which takes the automaton through its tries and on to
      what its end leads to. */
  lemma AdvanceRetrying<P>(m: Automaton<P>, p0: P, log: seq<Outcome>, log': seq<Outcome>,
                           tries: nat -> P, cmd: Cmd, payload: seq<byte>)
    requires Retries(m, tries, cmd, payload) && PhaseAfter(m, p0, log) == tries(0) && Follows(m, p0, log)
    requires |log| <= |log'| && log'[..|log|] == log && RetryLog(log'[|log|..], cmd, payload)
    ensures Follows(m, p0, log')
    ensures var s := log'[|log|..]; PhaseAfter(m, p0, log') == m.after(tries(|s| - 1), Seen(s[|s| - 1]))
  {
    hide PhaseAfter, Follows;
    var s := log'[|log|..];
    var k := |s| - 1;
    RetryPrefix(m, p0, log, s, tries, cmd, payload, k);
    assert log' == (log + s[..k]) + [s[k]];
    Snoc(m, p0, log + s[..k], s[k]);
  }

  /** A budget that every request spends bounds the length of every log. */
  lemma {:induction false} BudgetBounds<P(!new)>(m: Automaton<P>, sane: P -> bool, budget: P -> int, p0: P, log: seq<Outcome>)
    requires sane(p0) && Follows(m, p0, log)
    requires forall p, r :: sane(p) && m.ask(p).Some? ==> sane(m.after(p, r)) && budget(m.after(p, r)) < budget(p)
    ensures sane(PhaseAfter(m, p0, log)) && |log| + budget(PhaseAfter(m, p0, log)) <= budget(p0)
  {
    if log != [] {
      BudgetBounds(m, sane, budget, p0, log[..|log| - 1]);
    }
  }

  /** The automaton asks only for table commands that the gate lets through without the token,
      with payloads that fit. */
  ghost predicate Tame<P(!new)>(m: Automaton<P>) {
    forall p :: m.ask(p).Some? ==> TameRequest(m.ask(p).value)
  }

  predicate TameRequest(q: Req) {
    InTable(q.cmd) && q.mode != Destructive && Sends(q)
  }

  /** Each request of a tame program is one frame on the wire. */
  lemma {:induction false} TameFrames<P(!new)>(m: Automaton<P>, p0: P, log: seq<Outcome>)
    requires Tame(m) && Follows(m, p0, log)
    ensures |FramesOf(log)| == |log|
  {
    if log != [] {
      TameFrames(m, p0, log[..|log| - 1]);
    }
  }

  lemma {:induction false} TameIsTokenFree<P(!new)>(m: Automaton<P>, p0: P, log: seq<Outcome>)
    requires Tame(m) && Follows(m, p0, log)
    ensures FromTable(Requests(log)) && TokenFree(Requests(log))
  {
    if log != [] {
      var init, q := log[..|log| - 1], log[|log| - 1].req;
      TameIsTokenFree(m, p0, init);
      assert Requests(log) == Requests(init) + [q];
    }
  }

  /** A tame program leaves storage as it was, on any sensor and through any USB fault. */
  lemma TameIsStorageSafe<P(!new)>(m: Automaton<P>, p0: P, start: Bus, o: Oracle, log: seq<Outcome>)
    requires Tame(m) && Follows(m, p0, log) && Run(start, o, Requests(log)).log == log
    ensures Run(start, o, Requests(log)).bus.chip.stored == start.chip.stored
    ensures forall f :: f in FramesOf(log) ==> Harmless(f)
  {
    TameIsTokenFree(m, p0, log);
    StorageSafe(start, o, Requests(log));
  }

  // ---- automata as clients -----------------------------------------------

  function ClientOf<P>(m: Automaton<P>, p0: P): Client {
    log => m.ask(PhaseAfter(m, p0, log))
  }

  lemma {:induction false} PlayFollows<P>(start: Bus, o: Oracle, m: Automaton<P>, p0: P, n: nat)
    ensures Follows(m, p0, Play(start, o, ClientOf(m, p0), n).log)
  {
    if n > 0 {
      var s := Play(start, o, ClientOf(m, p0), n - 1);
      PlayFollows(start, o, m, p0, n - 1);
      DoFollows(s, o, m, p0);
    }
  }

  lemma DoFollows<P>(s: Session, o: Oracle, m: Automaton<P>, p0: P)
    requires Follows(m, p0, s.log)
    ensures Follows(m, p0, Next(s, o, ClientOf(m, p0)).log)
  {
    match m.ask(PhaseAfter(m, p0, s.log))
    case None =>
    case Some(q) =>
      WireStep(s.bus, o, q);
      Snoc(m, p0, s.log, Perform(s.bus, o, q).1);
  }

  /** A log that follows an automaton is the one the client of that automaton produces. */
  lemma {:induction false} FollowsIsPlay<P>(start: Bus, o: Oracle, m: Automaton<P>, p0: P, log: seq<Outcome>)
    requires Follows(m, p0, log) && Run(start, o, Requests(log)).log == log
    ensures Play(start, o, ClientOf(m, p0), |log|) == Run(start, o, Requests(log))
  {
    if log != [] {
      var init, q := log[..|log| - 1], log[|log| - 1].req;
      assert Requests(log) == Requests(init) + [q];
      RunSnoc(start, o, Requests(init), q);
      assert Run(start, o, Requests(init)).log == init;
      FollowsIsPlay(start, o, m, p0, init);
    }
  }

  /** The same, said of a driver object in use. */
  lemma DriverLogIsPlay<P>(dev: ElanMoc2, m: Automaton<P>, p0: P)
    requires dev.Valid() && Follows(m, p0, dev.log)
    ensures Play(dev.start, dev.handle.oracle, ClientOf(m, p0), |dev.log|) == Session(dev.handle.bus, dev.log)
  {
    FollowsIsPlay(dev.start, dev.handle.oracle, m, p0, dev.log);
  }
}
