// What a finished record says of the run behind it, event by event.
module ContainmentRuns {
  import opened Bytes
  import opened Collections
  import opened Containment

  // The event e happened as the k-th of the run, in the state s.
  ghost predicate Moment(s0: State, events: seq<Event>, k: nat, e: Event, s: State)
  {
    k < |events| && events[k] == e && Run(s0, events[..k]) == Some(s)
  }

  lemma MomentsGrow(s0: State, events: seq<Event>, k: nat, e: Event, s: State)
    requires events != []
    ensures Moment(s0, events, k, e, s)
       <==> Moment(s0, events[..|events| - 1], k, e, s)
            || (k == |events| - 1 && e == events[k] && Run(s0, events[..|events| - 1]) == Some(s))
  {
    hide Run;
    var n := |events| - 1;
    if k < n { assert events[..n][..k] == events[..k]; }
  }

  ghost predicate Happened(s0: State, events: seq<Event>, e: Event)
  {
    exists k: nat, s :: Moment(s0, events, k, e, s)
  }

  // ---------------------------------------------------------------- clocks

  // The child was attached at this clock; the drain last began at this one.
  ghost predicate AttachedAt(s0: State, events: seq<Event>, clock: nat)
  {
    exists k: nat, s :: Moment(s0, events, k, AttachesPipes, s) && s.os.now == clock
  }

  ghost predicate DrainBeganAt(s0: State, events: seq<Event>, clock: nat)
  {
    exists k: nat, s :: Moment(s0, events, k, BeginsDrain, s) && s.os.now == clock
                     && forall m | k < m < |events| :: events[m] != BeginsDrain
  }

  ghost predicate Ended(s0: State, events: seq<Event>, stream: Stream)
  {
    Happened(s0, events, ReadsEof(stream))
  }

  // How the launcher's own variables relate to what happened.
  ghost predicate History(s0: State, events: seq<Event>, s: State)
  {
    && (BeforeAttach(s.l.pc) ==> (forall clock :: !AttachedAt(s0, events, clock)) && s.l.io.open == {}
                                 && (forall st :: !Ended(s0, events, st)))
    && (forall clock: nat | AttachedAt(s0, events, clock) :: s.l.watch.deadline == clock + s.config.timeout)
    && (Watching(s.l.pc) ==> exists clock: nat :: AttachedAt(s0, events, clock))
    && (InDrain(s.l.pc) && !s.l.pc.DrainStart? ==> DrainBeganAt(s0, events, s.l.drain.began))
    && (!s.l.handling && !BeforeAttach(s.l.pc) ==> forall st: Stream :: st in s.l.io.open <==> !Ended(s0, events, st))
  }

  predicate BeforeAttach(pc: Counter) { pc.Start? || pc.Spawn? || pc.Fork? || pc.Attach? }

  predicate Watching(pc: Counter) { pc.Poll? || pc.WaitDirect? || pc.Deadline? }

  // ---------------------------------------------------------------- faults

  // The step that a fault-free run never takes, in terms of the launcher's variables.
  ghost predicate FaultIn(s: State, e: Event)
  {
    match e
    case Raises => true
    case WaitStopped => true
    case GivesUpWaiting => true
    case DrainReaps(_) => true
    case DrainSeesStopped(_) => true
    case Attests => s.os.runtime != s.l.pre || Children(s.os) != {}
    case WaitReaps => s.l.direct.Some? && s.l.direct.value in s.os.processes && s.os.processes[s.l.direct.value].phase != Zombie(0)
    case ChecksDeadline => s.os.now >= s.l.watch.deadline
    case Scans => Children(s.os) != {}
    case ChecksCleanup => s.os.now >= s.l.drain.began + s.config.cleanup
    case EndsPipes => s.l.pc.FinalPipes? && s.l.io.open != {}
    case RestoresSubreaper(ok) => !ok
    case AttestsAgain(ok) => !ok || s.os.runtime != s.l.pre
    case _ => false
  }

  predicate Spoiled(l: Launcher)
  {
    || l.failed || l.watch.timedOut || l.seen.descendantsObserved || (l.status.Some? && l.status.value != 0)
    || (l.post.Some? && l.post.value != l.pre)
  }

  predicate PostOk(l: Launcher)
  {
    && (l.post.Some? ==> l.pc.Verdict? || l.pc.Done?)
    && (l.pc.Verdict? ==> l.post.Some? || l.failed)
  }

  lemma SetupSpoils(s: State, e: Event)
    requires Inv(s) && PostOk(s.l) && SetupStep(s.config, s.os, s.l, e).Some?
    ensures var l := SetupStep(s.config, s.os, s.l, e).value.1;
            PostOk(l) && (Spoiled(l) <==> Spoiled(s.l) || FaultIn(s, e))
  {
    hide Inv;
  }

  lemma WatchSpoils(s: State, e: Event)
    requires PostOk(s.l) && WatchStep(s.os, s.l, e).Some?
    ensures var l := WatchStep(s.os, s.l, e).value.1;
            PostOk(l) && (Spoiled(l) <==> Spoiled(s.l) || FaultIn(s, e))
  {
    hide WatchStep, PostOk, Spoiled, FaultIn;
    if s.l.pc.WaitDirect? { WaitSpoils(s, e); } else { TurnSpoils(s, e); }
  }

  lemma WaitSpoils(s: State, e: Event)
    requires PostOk(s.l) && s.l.pc.WaitDirect? && WatchStep(s.os, s.l, e).Some?
    ensures var l := WatchStep(s.os, s.l, e).value.1;
            PostOk(l) && (Spoiled(l) <==> Spoiled(s.l) || FaultIn(s, e))
  {
    hide WatchStep, WaitStep, PostOk, Spoiled, FaultIn;
    if e.WaitInterrupted? || e.WaitNothing? { IdleSpoils(s, e); } else { EndSpoils(s, e); }
  }

  lemma IdleSpoils(s: State, e: Event)
    requires PostOk(s.l) && s.l.pc.WaitDirect? && (e.WaitInterrupted? || e.WaitNothing?)
    requires WatchStep(s.os, s.l, e).Some?
    ensures var l := WatchStep(s.os, s.l, e).value.1;
            PostOk(l) && (Spoiled(l) <==> Spoiled(s.l)) && !FaultIn(s, e)
  {
    hide WaitStep, Children;
  }

  lemma EndSpoils(s: State, e: Event)
    requires PostOk(s.l) && s.l.pc.WaitDirect? && !e.WaitInterrupted? && !e.WaitNothing?
    requires WatchStep(s.os, s.l, e).Some?
    ensures var l := WatchStep(s.os, s.l, e).value.1;
            PostOk(l) && (Spoiled(l) <==> Spoiled(s.l) || FaultIn(s, e))
  {
    hide PostOk, Spoiled, FaultIn, Reap;
    var stopped := s.l.(failed := true, pc := Deadline);
    if e.WaitStopped? {
      StopSpoils(s, stopped);
    } else {
      ReapSpoils(s, s.os.processes[s.l.direct.value].phase.code);
    }
  }

  lemma StopSpoils(s: State, l: Launcher)
    requires PostOk(s.l) && s.l.pc.WaitDirect? && l == s.l.(failed := true, pc := Deadline)
    ensures PostOk(l) && Spoiled(l) && FaultIn(s, WaitStopped)
  {
    hide Children;
  }

  lemma ReapSpoils(s: State, code: int)
    requires PostOk(s.l) && s.l.pc.WaitDirect? && s.l.status == None && s.l.direct.Some?
    requires s.l.direct.value in s.os.processes && s.os.processes[s.l.direct.value].phase == Zombie(code)
    ensures var l := s.l.(status := Some(code), pc := DrainStart);
            PostOk(l) && (Spoiled(l) <==> Spoiled(s.l) || FaultIn(s, WaitReaps))
  {
    hide Children;
  }

  lemma TurnSpoils(s: State, e: Event)
    requires PostOk(s.l) && !s.l.pc.WaitDirect? && WatchStep(s.os, s.l, e).Some?
    ensures var l := WatchStep(s.os, s.l, e).value.1;
            PostOk(l) && (Spoiled(l) <==> Spoiled(s.l) || FaultIn(s, e))
  {
    hide WaitStep, Children;
  }

  lemma DrainScanSpoils(s: State, e: Event)
    requires PostOk(s.l) && DrainScanStep(s.config, s.os, s.l, e).Some?
    ensures var l := DrainScanStep(s.config, s.os, s.l, e).value.1;
            PostOk(l) && (Spoiled(l) <==> Spoiled(s.l) || FaultIn(s, e))
  {
    hide Children;
  }

  lemma DrainWaitSpoils(s: State, e: Event)
    requires PostOk(s.l) && s.l.pc.DrainWait? && DrainWaitStep(s.os, s.l, e).Some?
    ensures var l := DrainWaitStep(s.os, s.l, e).value.1;
            PostOk(l) && (Spoiled(l) <==> Spoiled(s.l) || FaultIn(s, e))
  {
    hide Children;
  }

  lemma DrainEndSpoils(s: State, e: Event)
    requires PostOk(s.l) && DrainEndStep(s.config, s.os, s.l, e).Some?
    ensures var l := DrainEndStep(s.config, s.os, s.l, e).value.1;
            PostOk(l) && (Spoiled(l) <==> Spoiled(s.l) || FaultIn(s, e))
  {
    hide Children;
  }

  lemma HandlerSpoils(s: State, e: Event)
    requires Inv(s) && PostOk(s.l) && HandlerStep(s.os, s.l, e).Some?
    ensures var l := HandlerStep(s.os, s.l, e).value.1;
            PostOk(l) && (Spoiled(l) <==> Spoiled(s.l) || FaultIn(s, e))
  {
    hide Children, TreeInv, AdoptionInv, EchildInv, RecheckInv, PipeInv, StatusInv, ExitInv, ClockInv;
  }

  lemma FinishSpoils(s: State, e: Event)
    requires PostOk(s.l) && FinishStep(s.os, s.l, e).Some?
    ensures var l := FinishStep(s.os, s.l, e).value.1;
            PostOk(l) && (Spoiled(l) <==> Spoiled(s.l) || FaultIn(s, e))
  {
    hide Children;
  }

  lemma JudgeSpoils(s: State, e: Event)
    requires Inv(s) && PostOk(s.l) && JudgeStep(s.os, s.l, e).Some?
    ensures var l := JudgeStep(s.os, s.l, e).value.1;
            PostOk(l) && (Spoiled(l) <==> Spoiled(s.l)) && !FaultIn(s, e)
            && l.pc == Done(!Spoiled(l))
  {
    hide Children, TreeInv, AdoptionInv, EchildInv, RecheckInv, PipeInv, StatusInv, ExitInv, ClockInv;
  }

  // A step spoils the run exactly when it is a fault; the verdict is that nothing has.
  lemma StepSpoils(s: State, e: Event)
    requires Inv(s) && PostOk(s.l) && Step(s, e).Some?
    ensures PostOk(Step(s, e).value.l) && (Spoiled(Step(s, e).value.l) <==> Spoiled(s.l) || FaultIn(s, e))
    ensures s.l.pc.Done? ==> Step(s, e).value.l == s.l
    ensures Step(s, e).value.l.pc.Done? && !s.l.pc.Done? ==> Step(s, e).value.l.pc == Done(!Spoiled(Step(s, e).value.l))
  {
    hide Inv, OsStep, SetupStep, ReadStep, WatchStep, DrainScanStep, DrainWaitStep, DrainEndStep, HandlerStep,
         FinishStep, JudgeStep, Spoiled, PostOk, FaultIn;
    if OsStep(s.os, e).Some? {
      SystemIsNoFault(s, e);
    } else if e.Reads? || e.ReadsEof? {
      ReadSpoils(s, e);
    } else if e.Raises? {
      RaiseSpoils(s);
    } else if s.l.pc.Start? || s.l.pc.Spawn? || s.l.pc.Fork? || s.l.pc.Attach? {
      SetupSpoils(s, e);
      SetupGoesOn(s, e);
    } else if s.l.pc.Poll? || s.l.pc.WaitDirect? || s.l.pc.Deadline? {
      WatchSpoils(s, e);
      WatchGoesOn(s, e);
    } else if s.l.pc.DrainStart? || s.l.pc.DrainScan? || s.l.pc.DrainCheck? || s.l.pc.DrainKill? {
      DrainScanSpoils(s, e);
      DrainScanGoesOn(s, e);
    } else if s.l.pc.DrainWait? {
      DrainWaitSpoils(s, e);
      DrainWaitGoesOn(s, e);
    } else if InDrain(s.l.pc) {
      DrainEndSpoils(s, e);
      DrainEndGoesOn(s, e);
    } else if s.l.pc.HandlerWait? || s.l.pc.HandlerCheck? || s.l.pc.HandlerPipes? {
      HandlerSpoils(s, e);
      HandlerGoesOn(s, e);
    } else if s.l.pc.FinalPipes? || s.l.pc.Finally? || s.l.pc.PostAttest? {
      FinishSpoils(s, e);
      FinishGoesOn(s, e);
    } else {
      JudgeSpoils(s, e);
      JudgeGoesOn(s, e);
    }
  }

  lemma SystemIsNoFault(s: State, e: Event)
    requires OsStep(s.os, e).Some?
    ensures !FaultIn(s, e)
  {
    hide OsStep;
  }

  lemma ReadSpoils(s: State, e: Event)
    requires PostOk(s.l) && ReadStep(s.os, s.l, e).Some?
    ensures var l := ReadStep(s.os, s.l, e).value.1;
            PostOk(l) && (Spoiled(l) <==> Spoiled(s.l)) && !FaultIn(s, e) && l.pc == s.l.pc && ReadsPipes(l.pc)
  {
    hide Held;
  }

  lemma RaiseSpoils(s: State)
    requires PostOk(s.l) && InTry(s.l.pc)
    ensures PostOk(Raise(s.l)) && Spoiled(Raise(s.l)) && FaultIn(s, Raises) && !Raise(s.l).pc.Done? && !s.l.pc.Done?
  {
  }

  lemma SetupGoesOn(s: State, e: Event)
    requires SetupStep(s.config, s.os, s.l, e).Some?
    ensures !SetupStep(s.config, s.os, s.l, e).value.1.pc.Done?
  {
    hide Children;
  }

  lemma WatchGoesOn(s: State, e: Event)
    requires WatchStep(s.os, s.l, e).Some?
    ensures !WatchStep(s.os, s.l, e).value.1.pc.Done?
  {
  }

  lemma DrainScanGoesOn(s: State, e: Event)
    requires DrainScanStep(s.config, s.os, s.l, e).Some?
    ensures !DrainScanStep(s.config, s.os, s.l, e).value.1.pc.Done?
  {
    hide Children;
  }

  lemma DrainWaitGoesOn(s: State, e: Event)
    requires s.l.pc.DrainWait? && DrainWaitStep(s.os, s.l, e).Some?
    ensures !DrainWaitStep(s.os, s.l, e).value.1.pc.Done?
  {
    hide Children;
  }

  lemma DrainEndGoesOn(s: State, e: Event)
    requires DrainEndStep(s.config, s.os, s.l, e).Some?
    ensures !DrainEndStep(s.config, s.os, s.l, e).value.1.pc.Done?
  {
    hide Children;
  }

  lemma HandlerGoesOn(s: State, e: Event)
    requires HandlerStep(s.os, s.l, e).Some?
    ensures !HandlerStep(s.os, s.l, e).value.1.pc.Done?
  {
  }

  lemma FinishGoesOn(s: State, e: Event)
    requires FinishStep(s.os, s.l, e).Some?
    ensures !FinishStep(s.os, s.l, e).value.1.pc.Done?
  {
  }

  lemma JudgeGoesOn(s: State, e: Event)
    requires JudgeStep(s.os, s.l, e).Some?
    ensures s.l.pc.Verdict?
  {
  }

  // ---------------------------------------------------------------- the launcher's variables record the run

  lemma AttachedGrows(s0: State, events: seq<Event>, s: State, clock: nat)
    requires events != [] && Run(s0, events[..|events| - 1]) == Some(s)
    ensures AttachedAt(s0, events, clock)
       <==> AttachedAt(s0, events[..|events| - 1], clock) || (events[|events| - 1] == AttachesPipes && s.os.now == clock)
  {
    hide Run;
    var n := |events| - 1;
    forall k: nat, r: State
      ensures Moment(s0, events, k, AttachesPipes, r)
         <==> Moment(s0, events[..n], k, AttachesPipes, r) || (k == n && events[n] == AttachesPipes && r == s)
    {
      MomentsGrow(s0, events, k, AttachesPipes, r);
    }
    if events[n] == AttachesPipes { assert Moment(s0, events, n, AttachesPipes, s); }
    hide Moment;
  }

  lemma EndedGrows(s0: State, events: seq<Event>, s: State, st: Stream)
    requires events != [] && Run(s0, events[..|events| - 1]) == Some(s)
    ensures Ended(s0, events, st) <==> Ended(s0, events[..|events| - 1], st) || events[|events| - 1] == ReadsEof(st)
  {
    hide Run;
    var n := |events| - 1;
    forall k: nat, r: State
      ensures Moment(s0, events, k, ReadsEof(st), r)
         <==> Moment(s0, events[..n], k, ReadsEof(st), r) || (k == n && events[n] == ReadsEof(st) && r == s)
    {
      MomentsGrow(s0, events, k, ReadsEof(st), r);
    }
    if events[n] == ReadsEof(st) { assert Moment(s0, events, n, ReadsEof(st), s); }
    hide Moment;
  }

  lemma DrainBegins(s0: State, events: seq<Event>, s: State)
    requires events != [] && Run(s0, events[..|events| - 1]) == Some(s)
    ensures events[|events| - 1] == BeginsDrain ==> DrainBeganAt(s0, events, s.os.now)
    ensures events[|events| - 1] != BeginsDrain ==>
              forall clock | DrainBeganAt(s0, events[..|events| - 1], clock) :: DrainBeganAt(s0, events, clock)
  {
    hide Run;
    var n := |events| - 1;
    if events[n] == BeginsDrain {
      assert Moment(s0, events, n, BeginsDrain, s);
    } else {
      forall clock | DrainBeganAt(s0, events[..n], clock) ensures DrainBeganAt(s0, events, clock) {
        var k: nat, r :| Moment(s0, events[..n], k, BeginsDrain, r) && r.os.now == clock
                      && forall m | k < m < n :: events[..n][m] != BeginsDrain;
        MomentsGrow(s0, events, k, BeginsDrain, r);
        forall m | k < m < |events| ensures events[m] != BeginsDrain {
          if m < n { assert events[..n][m] == events[m]; }
        }
      }
    }
  }

  // What one step does to the variables that record the run.
  ghost predicate Recorded(s: State, e: Event, t: State) { Flowed(s, e, t) && Noted(s, e, t) }

  // Deadline, open pipes and the start of the drain.
  ghost predicate Flowed(s: State, e: Event, t: State)
  {
    && t.config == s.config
    && (e == AttachesPipes ==>
          BeforeAttach(s.l.pc) && t.l.watch.deadline == s.os.now + s.config.timeout && t.l.io.open == {Stdout, Stderr}
          && t.l.pc.Poll?)
    && (e != AttachesPipes ==>
          && t.l.watch.deadline == s.l.watch.deadline
          && (Watching(t.l.pc) ==> Watching(s.l.pc))
          && (BeforeAttach(t.l.pc) ==> BeforeAttach(s.l.pc) && t.l.io.open == s.l.io.open)
          && (!t.l.handling && !BeforeAttach(t.l.pc) ==> !BeforeAttach(s.l.pc)))
    && (!t.l.handling ==> !s.l.handling)
    && (e.ReadsEof? ==> !BeforeAttach(s.l.pc) && t.l.io.open == s.l.io.open - {e.stream})
    && (!e.ReadsEof? && e != AttachesPipes && !t.l.handling ==> t.l.io.open == s.l.io.open)
    && (e == BeginsDrain ==> t.l.drain.began == s.os.now)
    && (e != BeginsDrain && InDrain(t.l.pc) && !t.l.pc.DrainStart? ==>
          InDrain(s.l.pc) && !s.l.pc.DrainStart? && t.l.drain.began == s.l.drain.began)
  }

  // The timeout and the evidence.
  ghost predicate Noted(s: State, e: Event, t: State)
  {
    && (t.l.watch.timedOut <==> s.l.watch.timedOut || (e == ChecksDeadline && s.os.now >= s.l.watch.deadline))
    && (forall id :: id in t.l.seen.observed <==> id in s.l.seen.observed || Sees(s, e, id))
    && (t.l.status.Some? <==> s.l.status.Some? || e == WaitReaps)
    && (t.l.seen.echildVerified <==> s.l.seen.echildVerified || FindsNone(s, e))
  }

  // A scan sees every child, and a wait the descendant that it reports.
  predicate Sees(s: State, e: Event, id: Id)
  {
    ((e == Scans || e == ScansForKill) && id in Children(s.os)) || e == DrainReaps(id) || e == DrainSeesStopped(id)
  }

  predicate FindsNone(s: State, e: Event) { e == Rechecks && Children(s.os) == {} }

  lemma StepRecords(s: State, e: Event)
    requires Step(s, e).Some? && FlowOk(s.l)
    ensures Recorded(s, e, Step(s, e).value)
  {
    hide OsStep, SetupStep, ReadStep, WatchStep, DrainScanStep, DrainWaitStep, DrainEndStep, HandlerStep,
         FinishStep, JudgeStep, Recorded;
    if OsStep(s.os, e).Some? {
      SystemRecords(s, e);
    } else if e.Reads? || e.ReadsEof? {
      ReadRecords(s, e);
    } else if e.Raises? {
      RaiseRecords(s);
    } else if s.l.pc.Start? || s.l.pc.Spawn? || s.l.pc.Fork? || s.l.pc.Attach? {
      SetupRecords(s, e);
    } else if s.l.pc.Poll? || s.l.pc.WaitDirect? || s.l.pc.Deadline? {
      WatchRecords(s, e);
    } else if s.l.pc.DrainStart? || s.l.pc.DrainScan? || s.l.pc.DrainCheck? || s.l.pc.DrainKill? {
      DrainScanRecords(s, e);
    } else if s.l.pc.DrainWait? {
      DrainWaitRecords(s, e);
    } else if InDrain(s.l.pc) {
      DrainEndRecords(s, e);
    } else if s.l.pc.HandlerWait? || s.l.pc.HandlerCheck? || s.l.pc.HandlerPipes? {
      HandlerRecords(s, e);
    } else if s.l.pc.FinalPipes? || s.l.pc.Finally? || s.l.pc.PostAttest? {
      FinishRecords(s, e);
    } else {
      JudgeRecords(s, e);
    }
  }

  ghost function After(s: State, r: Option<(Os, Launcher)>): State
    requires r.Some?
  {
    s.(os := r.value.0, l := r.value.1)
  }

  lemma SystemRecords(s: State, e: Event)
    requires OsStep(s.os, e).Some?
    ensures Recorded(s, e, s.(os := OsStep(s.os, e).value))
  {
    hide OsStep;
  }

  lemma ReadRecords(s: State, e: Event)
    requires (e.Reads? || e.ReadsEof?) && ReadStep(s.os, s.l, e).Some?
    ensures Recorded(s, e, After(s, ReadStep(s.os, s.l, e)))
  {
    hide Held;
  }

  lemma RaiseRecords(s: State)
    requires InTry(s.l.pc)
    ensures Recorded(s, Raises, s.(l := Raise(s.l)))
  {
  }

  lemma SetupRecords(s: State, e: Event)
    requires SetupStep(s.config, s.os, s.l, e).Some?
    ensures Recorded(s, e, After(s, SetupStep(s.config, s.os, s.l, e)))
  {
    hide Children;
  }

  lemma WatchRecords(s: State, e: Event)
    requires WatchStep(s.os, s.l, e).Some?
    ensures Recorded(s, e, After(s, WatchStep(s.os, s.l, e)))
  {
    hide WatchStep, Recorded;
    if s.l.pc.WaitDirect? { WaitRecords(s, e); } else { TurnRecords(s, e); }
  }

  lemma WaitRecords(s: State, e: Event)
    requires s.l.pc.WaitDirect? && WatchStep(s.os, s.l, e).Some?
    ensures Recorded(s, e, After(s, WatchStep(s.os, s.l, e)))
  {
    hide WatchStep, Flowed, Noted, FlowOk;
    WaitFlowed(s, e);
    WaitNoted(s, e);
  }

  lemma WaitFlowed(s: State, e: Event)
    requires s.l.pc.WaitDirect? && WatchStep(s.os, s.l, e).Some?
    ensures Flowed(s, e, After(s, WatchStep(s.os, s.l, e)))
  {
    hide WaitStep, FlowOk, Noted, Reap, Children;
    if !e.WaitInterrupted? && !e.WaitNothing? {
      WaitEnds(s, e, DrainStart, s.l.(failed := true, pc := Deadline));
    }
  }

  // A wait that reports the child only changes its status, the counter and the failure.
  lemma WaitEnds(s: State, e: Event, reaped: Counter, stopped: Launcher)
    requires stopped.pre == s.l.pre && WaitStep(s.os, s.l, e, reaped, stopped).Some?
    ensures var l := WaitStep(s.os, s.l, e, reaped, stopped).value.1;
            && (e == WaitStopped ==> l == stopped)
            && (e != WaitStopped ==> e == WaitReaps && l.status.Some? && l == s.l.(status := l.status, pc := reaped))
            && s.l.status == None
  {
    hide Reap, Children;
  }

  lemma WaitNoted(s: State, e: Event)
    requires s.l.pc.WaitDirect? && WatchStep(s.os, s.l, e).Some?
    ensures Noted(s, e, After(s, WatchStep(s.os, s.l, e)))
  {
    hide WaitStep, FlowOk, Flowed, Reap, Children;
    if !e.WaitInterrupted? && !e.WaitNothing? {
      WaitEnds(s, e, DrainStart, s.l.(failed := true, pc := Deadline));
    }
  }

  lemma TurnRecords(s: State, e: Event)
    requires !s.l.pc.WaitDirect? && WatchStep(s.os, s.l, e).Some?
    ensures Recorded(s, e, After(s, WatchStep(s.os, s.l, e)))
  {
    hide WaitStep, Children;
  }

  lemma DrainScanRecords(s: State, e: Event)
    requires DrainScanStep(s.config, s.os, s.l, e).Some?
    ensures Recorded(s, e, After(s, DrainScanStep(s.config, s.os, s.l, e)))
  {
    hide Children;
  }

  lemma DrainWaitRecords(s: State, e: Event)
    requires s.l.pc.DrainWait? && DrainWaitStep(s.os, s.l, e).Some?
    ensures Recorded(s, e, After(s, DrainWaitStep(s.os, s.l, e)))
  {
    hide Children, Reap;
  }

  lemma DrainEndRecords(s: State, e: Event)
    requires DrainEndStep(s.config, s.os, s.l, e).Some?
    ensures Recorded(s, e, After(s, DrainEndStep(s.config, s.os, s.l, e)))
  {
    hide Children;
  }

  lemma HandlerRecords(s: State, e: Event)
    requires FlowOk(s.l) && HandlerStep(s.os, s.l, e).Some?
    ensures Recorded(s, e, After(s, HandlerStep(s.os, s.l, e)))
  {
    hide HandlerStep, Flowed, Noted, FlowOk;
    HandlerFlowed(s, e);
    HandlerNoted(s, e);
  }

  lemma HandlerFlowed(s: State, e: Event)
    requires FlowOk(s.l) && HandlerStep(s.os, s.l, e).Some?
    ensures Flowed(s, e, After(s, HandlerStep(s.os, s.l, e)))
  {
    hide WaitStep, Noted, Reap, Children;
    if s.l.pc.HandlerWait? && !e.Aborts? && !e.GivesUpWaiting? {
      WaitEnds(s, e, HandlerCheck, s.l);
    }
  }

  lemma HandlerNoted(s: State, e: Event)
    requires FlowOk(s.l) && HandlerStep(s.os, s.l, e).Some?
    ensures Noted(s, e, After(s, HandlerStep(s.os, s.l, e)))
  {
    hide WaitStep, FlowOk, Flowed, Reap, Children;
    if s.l.pc.HandlerWait? && !e.Aborts? && !e.GivesUpWaiting? {
      WaitEnds(s, e, HandlerCheck, s.l);
    }
  }

  lemma FinishRecords(s: State, e: Event)
    requires FinishStep(s.os, s.l, e).Some?
    ensures Recorded(s, e, After(s, FinishStep(s.os, s.l, e)))
  {
    hide FinishStep, Flowed, Noted, FlowOk;
    FinishFlowed(s, e);
    FinishNoted(s, e);
  }

  lemma FinishFlowed(s: State, e: Event)
    requires FinishStep(s.os, s.l, e).Some?
    ensures Flowed(s, e, After(s, FinishStep(s.os, s.l, e)))
  {
    hide Children;
  }

  lemma FinishNoted(s: State, e: Event)
    requires FinishStep(s.os, s.l, e).Some?
    ensures Noted(s, e, After(s, FinishStep(s.os, s.l, e)))
  {
    hide Children;
  }

  lemma JudgeRecords(s: State, e: Event)
    requires JudgeStep(s.os, s.l, e).Some?
    ensures Recorded(s, e, After(s, JudgeStep(s.os, s.l, e)))
  {
    hide Children;
  }

  lemma HistoryKeeps(s0: State, events: seq<Event>, s: State, t: State)
    requires events != [] && Run(s0, events[..|events| - 1]) == Some(s) && Step(s, events[|events| - 1]) == Some(t)
    requires History(s0, events[..|events| - 1], s) && FlowOk(s.l)
    ensures History(s0, events, t)
  {
    hide Run, Step, AttachedAt, DrainBeganAt, Ended, FlowOk;
    var n := |events| - 1;
    StepRecords(s, events[n]);
    forall clock: nat
      ensures AttachedAt(s0, events, clock)
         <==> AttachedAt(s0, events[..n], clock) || (events[n] == AttachesPipes && s.os.now == clock)
    {
      AttachedGrows(s0, events, s, clock);
    }
    forall st: Stream ensures Ended(s0, events, st) <==> Ended(s0, events[..n], st) || events[n] == ReadsEof(st) {
      EndedGrows(s0, events, s, st);
    }
    DrainBegins(s0, events, s);
    if !t.l.handling && !BeforeAttach(t.l.pc) {
      forall st: Stream ensures st in t.l.io.open <==> !Ended(s0, events, st) {
        match st { case Stdout => case Stderr => }
      }
    }
    if events[n] == AttachesPipes {
      assert AttachedAt(s0, events, s.os.now);
    } else if Watching(t.l.pc) {
      var clock: nat :| AttachedAt(s0, events[..n], clock);
      assert AttachedAt(s0, events, clock);
    }
    assert InDrain(t.l.pc) && !t.l.pc.DrainStart? ==> DrainBeganAt(s0, events, t.l.drain.began);
  }

  // ---------------------------------------------------------------- whole runs

  // A run from the start: its state is consistent, and its variables record what happened.
  lemma {:induction false} RunRecords(config: Config, runtime: int, now: nat, events: seq<Event>)
    requires Run(Initial(config, runtime, now), events).Some?
    ensures var s0 := Initial(config, runtime, now);
            var s := Run(s0, events).value;
            Inv(s) && PostOk(s.l) && History(s0, events, s) && s.config == config && s.l.pre == runtime
    decreases |events|
  {
    hide Step, Inv, History, PostOk;
    var s0 := Initial(config, runtime, now);
    if events == [] {
      InitialInv(config, runtime, now);
      NothingYet(config, runtime, now);
    } else {
      var n := |events| - 1;
      RunRecords(config, runtime, now, events[..n]);
      var s := Run(s0, events[..n]).value;
      StepKeeps(s, events[n]);
      StepSpoils(s, events[n]);
      FlowHolds(s);
      HistoryKeeps(s0, events, s, Step(s, events[n]).value);
      PreStep(s, events[n]);
    }
  }

  lemma FlowHolds(s: State)
    requires Inv(s)
    ensures FlowOk(s.l)
  {
  }

  lemma NothingYet(config: Config, runtime: int, now: nat)
    ensures var s0 := Initial(config, runtime, now); History(s0, [], s0) && PostOk(s0.l) && !Spoiled(s0.l)
  {
  }

  // A step that no accepted run takes, in terms of what happened: an exception; a child that stopped, did not
  // exit with 0, or was given up; a descendant seen, reaped or stopped; a deadline or clean-up check made too
  // late; a pipe without an end; a runtime that is not the attested one; a failed restore or attestation.
  ghost predicate Faulty(s0: State, before: seq<Event>, s: State, e: Event)
  {
    match e
    case Raises => true
    case WaitStopped => true
    case GivesUpWaiting => true
    case DrainReaps(_) => true
    case DrainSeesStopped(_) => true
    case Attests => s.os.runtime != s0.os.runtime || Children(s.os) != {}
    case WaitReaps => s.l.direct.Some? && s.l.direct.value in s.os.processes && s.os.processes[s.l.direct.value].phase != Zombie(0)
    case ChecksDeadline => exists clock: nat :: AttachedAt(s0, before, clock) && s.os.now >= clock + s0.config.timeout
    case Scans => Children(s.os) != {}
    case ChecksCleanup => exists clock: nat :: DrainBeganAt(s0, before, clock) && s.os.now >= clock + s0.config.cleanup
    case EndsPipes => s.l.pc.FinalPipes? && !(Ended(s0, before, Stdout) && Ended(s0, before, Stderr))
    case RestoresSubreaper(ok) => !ok
    case AttestsAgain(ok) => !ok || s.os.runtime != s0.os.runtime
    case _ => false
  }

  ghost predicate FaultAt(s0: State, events: seq<Event>, k: nat)
  {
    exists e, s :: Moment(s0, events, k, e, s) && Faulty(s0, events[..k], s, e)
  }

  lemma DrainClockUnique(s0: State, events: seq<Event>, a: nat, b: nat)
    requires DrainBeganAt(s0, events, a) && DrainBeganAt(s0, events, b)
    ensures a == b
  {
    hide Run;
    var i: nat, s :| Moment(s0, events, i, BeginsDrain, s) && s.os.now == a
                  && forall m | i < m < |events| :: events[m] != BeginsDrain;
    var j: nat, t :| Moment(s0, events, j, BeginsDrain, t) && t.os.now == b
                  && forall m | j < m < |events| :: events[m] != BeginsDrain;
    assert i == j;
  }

  lemma FaultMeans(s0: State, before: seq<Event>, s: State, e: Event)
    requires Run(s0, before) == Some(s) && s.config == s0.config && s.l.pre == s0.os.runtime
    requires History(s0, before, s) && FlowOk(s.l) && Step(s, e).Some?
    ensures FaultIn(s, e) <==> Faulty(s0, before, s, e)
  {
    hide Run, OsStep, FlowOk, AttachedAt, DrainBeganAt, Ended, Children;
    if e == ChecksDeadline {
      CheckedWhile(s);
    } else if e == ChecksCleanup {
      CleanedWhile(s);
      forall clock: nat | DrainBeganAt(s0, before, clock) ensures clock == s.l.drain.began {
        DrainClockUnique(s0, before, clock, s.l.drain.began);
      }
    } else if e == EndsPipes && s.l.pc.FinalPipes? {
      NotHandling(s);
      if s.l.io.open != {} { SomeOpen(s.l.io.open); }
    }
  }

  lemma SomeOpen(open: set<Stream>)
    requires open != {}
    ensures Stdout in open || Stderr in open
  {
    var st :| st in open;
    match st { case Stdout => case Stderr => }
  }

  lemma CheckedWhile(s: State)
    requires Step(s, ChecksDeadline).Some?
    ensures Watching(s.l.pc)
  {
    hide Children;
  }

  lemma CleanedWhile(s: State)
    requires Step(s, ChecksCleanup).Some?
    ensures InDrain(s.l.pc) && !s.l.pc.DrainStart?
  {
    hide Children;
  }

  lemma NotHandling(s: State)
    requires FlowOk(s.l) && s.l.pc.FinalPipes?
    ensures !s.l.handling
  {
  }

  lemma FaultsGrow(s0: State, events: seq<Event>, s: State, k: nat)
    requires events != [] && Run(s0, events[..|events| - 1]) == Some(s)
    ensures FaultAt(s0, events, k)
       <==> FaultAt(s0, events[..|events| - 1], k)
            || (k == |events| - 1 && Faulty(s0, events[..|events| - 1], s, events[|events| - 1]))
  {
    hide Run, Faulty;
    var n := |events| - 1;
    forall e, r ensures Moment(s0, events, k, e, r) <==> Moment(s0, events[..n], k, e, r) || (k == n && e == events[n] && r == s) {
      MomentsGrow(s0, events, k, e, r);
    }
    if k < n { assert events[..n][..k] == events[..k]; }
    if k == n { assert events[..k] == events[..n]; }
    hide Moment;
  }

  // The run is spoiled exactly when some step of it was faulty.
  lemma {:induction false} SpoiledExact(config: Config, runtime: int, now: nat, events: seq<Event>)
    requires Run(Initial(config, runtime, now), events).Some?
    ensures var s0 := Initial(config, runtime, now);
            Spoiled(Run(s0, events).value.l) <==> exists k: nat :: FaultAt(s0, events, k)
    decreases |events|
  {
    hide Step, Inv, History, PostOk, Spoiled, FaultAt, FaultIn, Faulty;
    var s0 := Initial(config, runtime, now);
    if events == [] {
      NothingYet(config, runtime, now);
      NoFaultYet(s0);
    } else {
      var n := |events| - 1;
      SpoiledExact(config, runtime, now, events[..n]);
      RunRecords(config, runtime, now, events[..n]);
      var s := Run(s0, events[..n]).value;
      StepSpoils(s, events[n]);
      FlowHolds(s);
      FaultMeans(s0, events[..n], s, events[n]);
      forall k: nat
        ensures FaultAt(s0, events, k)
           <==> FaultAt(s0, events[..n], k) || (k == n && Faulty(s0, events[..n], s, events[n]))
      {
        FaultsGrow(s0, events, s, k);
      }
      if Faulty(s0, events[..n], s, events[n]) { assert FaultAt(s0, events, n); }
      if k: nat :| FaultAt(s0, events[..n], k) { assert FaultAt(s0, events, k); }
    }
  }

  lemma NoFaultYet(s0: State)
    ensures forall k: nat :: !FaultAt(s0, [], k)
  {
  }

  lemma {:induction false} DoneVerdict(config: Config, runtime: int, now: nat, events: seq<Event>)
    requires Run(Initial(config, runtime, now), events).Some?
    ensures var l := Run(Initial(config, runtime, now), events).value.l; l.pc.Done? ==> l.pc.accepted == !Spoiled(l)
    decreases |events|
  {
    hide Step, Inv, History, PostOk, Spoiled;
    if events != [] {
      var n := |events| - 1;
      DoneVerdict(config, runtime, now, events[..n]);
      RunRecords(config, runtime, now, events[..n]);
      StepSpoils(Run(Initial(config, runtime, now), events[..n]).value, events[n]);
    }
  }

  // A finished record is accepted exactly when no step of the run was faulty.
  lemma VerdictExact(config: Config, runtime: int, now: nat, events: seq<Event>)
    requires Run(Initial(config, runtime, now), events).Some?
    requires Run(Initial(config, runtime, now), events).value.l.pc.Done?
    ensures var s0 := Initial(config, runtime, now);
            Run(s0, events).value.l.pc.accepted <==> forall k: nat :: !FaultAt(s0, events, k)
  {
    hide Run, FaultAt, Spoiled;
    SpoiledExact(config, runtime, now, events);
    DoneVerdict(config, runtime, now, events);
  }

  // ---------------------------------------------------------------- the timeout

  // A deadline check at or after the attach clock plus the timeout.
  ghost predicate LateCheck(s0: State, events: seq<Event>)
  {
    exists k: nat, s, clock: nat ::
      Moment(s0, events, k, ChecksDeadline, s) && AttachedAt(s0, events[..k], clock) && s.os.now >= clock + s0.config.timeout
  }

  lemma LateGrows(s0: State, events: seq<Event>, s: State)
    requires events != [] && Run(s0, events[..|events| - 1]) == Some(s)
    ensures var n := |events| - 1;
            LateCheck(s0, events)
            <==> LateCheck(s0, events[..n])
                 || (events[n] == ChecksDeadline
                     && exists clock: nat :: AttachedAt(s0, events[..n], clock) && s.os.now >= clock + s0.config.timeout)
  {
    hide Run, AttachedAt;
    var n := |events| - 1;
    forall k: nat, r: State
      ensures Moment(s0, events, k, ChecksDeadline, r)
         <==> Moment(s0, events[..n], k, ChecksDeadline, r) || (k == n && events[n] == ChecksDeadline && r == s)
    {
      MomentsGrow(s0, events, k, ChecksDeadline, r);
    }
    forall k: nat | k <= n ensures events[..n][..k] == events[..k] {}
    if events[n] == ChecksDeadline { assert Moment(s0, events, n, ChecksDeadline, s); }
    if LateCheck(s0, events[..n]) {
      var k: nat, r, clock: nat :|
        Moment(s0, events[..n], k, ChecksDeadline, r) && AttachedAt(s0, events[..n][..k], clock)
        && r.os.now >= clock + s0.config.timeout;
      assert Moment(s0, events, k, ChecksDeadline, r) && AttachedAt(s0, events[..k], clock);
    }
    if LateCheck(s0, events) {
      var k: nat, r, clock: nat :|
        Moment(s0, events, k, ChecksDeadline, r) && AttachedAt(s0, events[..k], clock) && r.os.now >= clock + s0.config.timeout;
      if k < n { assert Moment(s0, events[..n], k, ChecksDeadline, r) && AttachedAt(s0, events[..n][..k], clock); }
    }
  }

  // The child has timed out exactly when some deadline check came at or after the attach clock plus the
  // timeout.
  lemma {:induction false} TimeoutExact(config: Config, runtime: int, now: nat, events: seq<Event>)
    requires Run(Initial(config, runtime, now), events).Some?
    ensures var s0 := Initial(config, runtime, now);
            Run(s0, events).value.l.watch.timedOut <==> LateCheck(s0, events)
    decreases |events|
  {
    hide Step, Inv, History, PostOk, LateCheck, FlowOk;
    var s0 := Initial(config, runtime, now);
    if events == [] {
      NoCheckYet(config, runtime, now);
    } else {
      var n := |events| - 1;
      TimeoutExact(config, runtime, now, events[..n]);
      RunRecords(config, runtime, now, events[..n]);
      var s := Run(s0, events[..n]).value;
      LateGrows(s0, events, s);
      FlowHolds(s);
      TimedOutStep(s, events[n]);
      if events[n] == ChecksDeadline {
        FaultMeans(s0, events[..n], s, events[n]);
      }
    }
  }

  lemma NoCheckYet(config: Config, runtime: int, now: nat)
    ensures var s0 := Initial(config, runtime, now); !LateCheck(s0, []) && !s0.l.watch.timedOut
  {
  }

  lemma TimedOutStep(s: State, e: Event)
    requires Step(s, e).Some? && FlowOk(s.l)
    ensures Step(s, e).value.l.watch.timedOut <==> s.l.watch.timedOut || (e == ChecksDeadline && s.os.now >= s.l.watch.deadline)
  {
    hide Step;
    StepRecords(s, e);
  }

  // ---------------------------------------------------------------- the evidence

  // Some step of the run met the condition.
  ghost predicate Ever(s0: State, events: seq<Event>, hit: (State, Event) -> bool)
  {
    exists k: nat, e, s :: Moment(s0, events, k, e, s) && hit(s, e)
  }

  lemma EverGrows(s0: State, events: seq<Event>, s: State, hit: (State, Event) -> bool)
    requires events != [] && Run(s0, events[..|events| - 1]) == Some(s)
    ensures Ever(s0, events, hit) <==> Ever(s0, events[..|events| - 1], hit) || hit(s, events[|events| - 1])
  {
    hide Run;
    var n := |events| - 1;
    forall k: nat, e, r
      ensures Moment(s0, events, k, e, r) <==> Moment(s0, events[..n], k, e, r) || (k == n && e == events[n] && r == s)
    {
      MomentsGrow(s0, events, k, e, r);
    }
    assert Moment(s0, events, n, events[n], s);
    hide Moment;
  }

  lemma NeverYet(s0: State, hit: (State, Event) -> bool)
    ensures !Ever(s0, [], hit)
  {
  }

  function SeesId(id: Id): (State, Event) -> bool { (s: State, e: Event) => Sees(s, e, id) }

  function Reaps(): (State, Event) -> bool { (s: State, e: Event) => e == WaitReaps }

  function Verifies(): (State, Event) -> bool { (s: State, e: Event) => FindsNone(s, e) }

  lemma NoEvidenceYet(config: Config, runtime: int, now: nat)
    ensures var l := Initial(config, runtime, now).l; l.seen.observed == {} && l.status == None && !l.seen.echildVerified
  {
  }

  lemma StepEvidence(s: State, e: Event, id: Id)
    requires Inv(s) && Step(s, e).Some?
    ensures var t := Step(s, e).value;
            && (id in t.l.seen.observed <==> id in s.l.seen.observed || SeesId(id)(s, e))
            && (t.l.status.Some? <==> s.l.status.Some? || Reaps()(s, e))
            && (t.l.seen.echildVerified <==> s.l.seen.echildVerified || Verifies()(s, e))
  {
    hide Step, Sees, FindsNone, Inv, FlowOk, Flowed;
    FlowHolds(s);
    StepRecords(s, e);
  }

  // The evidence is what happened: the observed ids are those that some scan or wait saw, a status is there
  // exactly when the child was reaped, and ECHILD is verified exactly when a second look found no child.
  lemma {:induction false} EvidenceExact(config: Config, runtime: int, now: nat, events: seq<Event>, id: Id)
    requires Run(Initial(config, runtime, now), events).Some?
    ensures var s0 := Initial(config, runtime, now);
            var l := Run(s0, events).value.l;
            && (id in l.seen.observed <==> Ever(s0, events, SeesId(id)))
            && (l.status.Some? <==> Ever(s0, events, Reaps()))
            && (l.seen.echildVerified <==> Ever(s0, events, Verifies()))
    decreases |events|
  {
    hide Step, Inv, History, PostOk, Ever, Sees, FindsNone, FlowOk, Initial, SeesId, Reaps, Verifies;
    var s0 := Initial(config, runtime, now);
    if events == [] {
      NoEvidenceYet(config, runtime, now);
      NeverYet(s0, SeesId(id));
      NeverYet(s0, Reaps());
      NeverYet(s0, Verifies());
    } else {
      var n := |events| - 1;
      EvidenceExact(config, runtime, now, events[..n], id);
      RunRecords(config, runtime, now, events[..n]);
      var s := Run(s0, events[..n]).value;
      StepEvidence(s, events[n], id);
      EverGrows(s0, events, s, SeesId(id));
      EverGrows(s0, events, s, Reaps());
      EverGrows(s0, events, s, Verifies());
    }
  }

  // ---------------------------------------------------------------- what follows what

  // No event of this kind since the k-th.
  ghost predicate NoneSince(events: seq<Event>, k: nat, e: Event)
  {
    forall m | k < m < |events| :: events[m] != e
  }

  // The last grace check, and whether it came after the grace period of the drain.
  ghost predicate LastGrace(s0: State, events: seq<Event>, k: nat, due: bool)
  {
    exists s, clock: nat ::
      && Moment(s0, events, k, ChecksGrace, s) && NoneSince(events, k, ChecksGrace)
      && DrainBeganAt(s0, events[..k], clock) && due == (s.os.now >= clock + s0.config.grace)
  }

  ghost predicate KillDue(s0: State, events: seq<Event>)
  {
    exists k: nat :: LastGrace(s0, events, k, true) && NoneSince(events, k, ScansForKill)
  }

  ghost predicate KillSettled(s0: State, events: seq<Event>)
  {
    exists k: nat, due :: LastGrace(s0, events, k, due) && (due <==> !NoneSince(events, k, ScansForKill))
  }

  // A wait of the watch loop that found nothing has been followed by a deadline check.
  ghost predicate WaitsChecked(events: seq<Event>)
  {
    forall k | 0 <= k < |events| && events[k] == WaitNothing :: exists m :: k < m < |events| && events[m] == ChecksDeadline
  }

  ghost predicate Order(s0: State, events: seq<Event>, s: State)
  {
    && (s.l.pc.DrainKill? ==> KillDue(s0, events))
    && (s.l.pc.DrainWait? ==> KillSettled(s0, events))
    && (BeforeAttach(s.l.pc) || s.l.pc.Poll? || s.l.pc.WaitDirect? ==> WaitsChecked(events))
  }

  // How the program counter gets there.
  ghost predicate Arrives(s: State, e: Event, t: State)
  {
    && (t.l.pc.DrainKill? ==>
          || (s.l.pc.DrainKill? && e != ChecksGrace && e != ScansForKill)
          || (e == ChecksGrace && s.l.pc.DrainCheck? && s.os.now >= s.l.drain.began + s.config.grace))
    && (t.l.pc.DrainWait? ==>
          || (s.l.pc.DrainWait? && e != ChecksGrace && e != ScansForKill)
          || (e == ChecksGrace && s.l.pc.DrainCheck? && s.os.now < s.l.drain.began + s.config.grace)
          || (e == ScansForKill && s.l.pc.DrainKill?))
    && (BeforeAttach(t.l.pc) || t.l.pc.Poll? || t.l.pc.WaitDirect? ==>
          e != WaitNothing && (BeforeAttach(s.l.pc) || s.l.pc.Poll? || s.l.pc.WaitDirect? || e == ChecksDeadline))
  }

  lemma StepArrives(s: State, e: Event)
    requires Step(s, e).Some?
    ensures Arrives(s, e, Step(s, e).value)
  {
    hide OsStep, SetupStep, ReadStep, WatchStep, DrainScanStep, DrainWaitStep, DrainEndStep, HandlerStep,
         FinishStep, JudgeStep, Arrives;
    if OsStep(s.os, e).Some? {
      SystemArrives(s, e);
    } else if e.Reads? || e.ReadsEof? {
      ReadArrives(s, e);
    } else if e.Raises? {
      RaiseArrives(s);
    } else if s.l.pc.Start? || s.l.pc.Spawn? || s.l.pc.Fork? || s.l.pc.Attach? {
      SetupArrives(s, e);
    } else if s.l.pc.Poll? || s.l.pc.WaitDirect? || s.l.pc.Deadline? {
      WatchArrives(s, e);
    } else if s.l.pc.DrainStart? || s.l.pc.DrainScan? || s.l.pc.DrainCheck? || s.l.pc.DrainKill? {
      DrainScanArrives(s, e);
    } else if s.l.pc.DrainWait? {
      DrainWaitArrives(s, e);
    } else if InDrain(s.l.pc) {
      DrainEndArrives(s, e);
    } else if s.l.pc.HandlerWait? || s.l.pc.HandlerCheck? || s.l.pc.HandlerPipes? {
      HandlerArrives(s, e);
    } else if s.l.pc.FinalPipes? || s.l.pc.Finally? || s.l.pc.PostAttest? {
      FinishArrives(s, e);
    } else {
      JudgeArrives(s, e);
    }
  }

  lemma SystemArrives(s: State, e: Event)
    requires OsStep(s.os, e).Some?
    ensures Arrives(s, e, s.(os := OsStep(s.os, e).value))
  {
    hide OsStep;
  }

  lemma ReadArrives(s: State, e: Event)
    requires (e.Reads? || e.ReadsEof?) && ReadStep(s.os, s.l, e).Some?
    ensures Arrives(s, e, After(s, ReadStep(s.os, s.l, e)))
  {
    hide Held;
  }

  lemma RaiseArrives(s: State)
    requires InTry(s.l.pc)
    ensures Arrives(s, Raises, s.(l := Raise(s.l)))
  {
  }

  lemma SetupArrives(s: State, e: Event)
    requires SetupStep(s.config, s.os, s.l, e).Some?
    ensures Arrives(s, e, After(s, SetupStep(s.config, s.os, s.l, e)))
  {
    hide Children;
  }

  lemma WatchArrives(s: State, e: Event)
    requires WatchStep(s.os, s.l, e).Some?
    ensures Arrives(s, e, After(s, WatchStep(s.os, s.l, e)))
  {
    hide Reap;
  }

  lemma DrainScanArrives(s: State, e: Event)
    requires DrainScanStep(s.config, s.os, s.l, e).Some?
    ensures Arrives(s, e, After(s, DrainScanStep(s.config, s.os, s.l, e)))
  {
    hide Children;
  }

  lemma DrainWaitArrives(s: State, e: Event)
    requires s.l.pc.DrainWait? && DrainWaitStep(s.os, s.l, e).Some?
    ensures Arrives(s, e, After(s, DrainWaitStep(s.os, s.l, e)))
  {
    hide Children, Reap;
  }

  lemma DrainEndArrives(s: State, e: Event)
    requires DrainEndStep(s.config, s.os, s.l, e).Some?
    ensures Arrives(s, e, After(s, DrainEndStep(s.config, s.os, s.l, e)))
  {
    hide Children;
  }

  lemma HandlerArrives(s: State, e: Event)
    requires HandlerStep(s.os, s.l, e).Some?
    ensures Arrives(s, e, After(s, HandlerStep(s.os, s.l, e)))
  {
    hide Reap;
  }

  lemma FinishArrives(s: State, e: Event)
    requires FinishStep(s.os, s.l, e).Some?
    ensures Arrives(s, e, After(s, FinishStep(s.os, s.l, e)))
  {
  }

  lemma JudgeArrives(s: State, e: Event)
    requires JudgeStep(s.os, s.l, e).Some?
    ensures Arrives(s, e, After(s, JudgeStep(s.os, s.l, e)))
  {
  }

  lemma NoneSinceGrows(events: seq<Event>, k: nat, e: Event)
    requires events != [] && k < |events| - 1
    ensures NoneSince(events, k, e) <==> NoneSince(events[..|events| - 1], k, e) && events[|events| - 1] != e
  {
    var n := |events| - 1;
    forall m | k < m < n ensures events[..n][m] == events[m] {}
  }

  lemma GraceGrows(s0: State, events: seq<Event>, k: nat, due: bool)
    requires events != [] && events[|events| - 1] != ChecksGrace && LastGrace(s0, events[..|events| - 1], k, due)
    ensures k < |events| - 1 && LastGrace(s0, events, k, due)
  {
    hide Run, DrainBeganAt, NoneSince;
    var n := |events| - 1;
    var s, clock: nat :|
      && Moment(s0, events[..n], k, ChecksGrace, s) && NoneSince(events[..n], k, ChecksGrace)
      && DrainBeganAt(s0, events[..n][..k], clock) && due == (s.os.now >= clock + s0.config.grace);
    MomentsGrow(s0, events, k, ChecksGrace, s);
    NoneSinceGrows(events, k, ChecksGrace);
    assert events[..n][..k] == events[..k];
  }

  lemma GraceChecked(s0: State, events: seq<Event>, s: State)
    requires events != [] && events[|events| - 1] == ChecksGrace && Run(s0, events[..|events| - 1]) == Some(s)
    requires DrainBeganAt(s0, events[..|events| - 1], s.l.drain.began)
    ensures LastGrace(s0, events, |events| - 1, s.os.now >= s.l.drain.began + s0.config.grace)
  {
    hide Run, DrainBeganAt;
    assert Moment(s0, events, |events| - 1, ChecksGrace, s);
  }

  lemma OrderKeeps(s0: State, events: seq<Event>, s: State, t: State)
    requires events != [] && Run(s0, events[..|events| - 1]) == Some(s) && Step(s, events[|events| - 1]) == Some(t)
    requires History(s0, events[..|events| - 1], s) && Order(s0, events[..|events| - 1], s) && s.config == s0.config
    ensures Order(s0, events, t)
  {
    hide Run, Step, History, LastGrace, NoneSince, WaitsChecked;
    var n := |events| - 1;
    var e := events[n];
    StepArrives(s, e);
    if e == ChecksGrace && s.l.pc.DrainCheck? {
      DrainKnown(s0, events[..n], s);
      GraceChecked(s0, events, s);
      NothingSinceLast(events, ScansForKill);
    }
    if t.l.pc.DrainKill? && e != ChecksGrace {
      var k: nat :| LastGrace(s0, events[..n], k, true) && NoneSince(events[..n], k, ScansForKill);
      GraceGrows(s0, events, k, true);
      NoneSinceGrows(events, k, ScansForKill);
    }
    if t.l.pc.DrainWait? && e == ScansForKill {
      var k: nat :| LastGrace(s0, events[..n], k, true) && NoneSince(events[..n], k, ScansForKill);
      GraceGrows(s0, events, k, true);
      NoneSinceGrows(events, k, ScansForKill);
    } else if t.l.pc.DrainWait? && e != ChecksGrace {
      var k: nat, due :| LastGrace(s0, events[..n], k, due) && (due <==> !NoneSince(events[..n], k, ScansForKill));
      GraceGrows(s0, events, k, due);
      NoneSinceGrows(events, k, ScansForKill);
    }
    CheckedGrows(events);
  }

  lemma DrainKnown(s0: State, events: seq<Event>, s: State)
    requires History(s0, events, s) && InDrain(s.l.pc) && !s.l.pc.DrainStart?
    ensures DrainBeganAt(s0, events, s.l.drain.began)
  {
  }

  lemma NothingSinceLast(events: seq<Event>, e: Event)
    requires events != []
    ensures NoneSince(events, |events| - 1, e)
  {
  }

  lemma CheckedGrows(events: seq<Event>)
    requires events != []
    ensures events[|events| - 1] == ChecksDeadline ==> WaitsChecked(events)
    ensures events[|events| - 1] != WaitNothing && WaitsChecked(events[..|events| - 1]) ==> WaitsChecked(events)
  {
    var n := |events| - 1;
    var pre := events[..n];
    forall k | 0 <= k < n ensures pre[k] == events[k] {}
    if events[n] != WaitNothing && WaitsChecked(pre) {
      forall k | 0 <= k < |events| && events[k] == WaitNothing
        ensures exists m :: k < m < |events| && events[m] == ChecksDeadline
      {
        assert pre[k] == WaitNothing;
        var m :| k < m < |pre| && pre[m] == ChecksDeadline;
        assert events[m] == ChecksDeadline;
      }
    }
    if events[n] == ChecksDeadline {
      forall k | 0 <= k < |events| && events[k] == WaitNothing
        ensures exists m :: k < m < |events| && events[m] == ChecksDeadline
      {
        assert k < n && events[n] == ChecksDeadline;
      }
    }
  }

  // In every run: when the drain is about to wait, it has scanned for SIGKILL since the last grace check
  // exactly when that check came after the grace period, and it only ever scans when it did; and when the
  // watch loop goes round, every wait that found nothing has been followed by a deadline check.
  lemma {:induction false} OrderHolds(config: Config, runtime: int, now: nat, events: seq<Event>)
    requires Run(Initial(config, runtime, now), events).Some?
    ensures var s0 := Initial(config, runtime, now); Order(s0, events, Run(s0, events).value)
    decreases |events|
  {
    hide Step, Inv, History, PostOk, Order;
    var s0 := Initial(config, runtime, now);
    if events == [] {
      NoOrderYet(s0);
    } else {
      var n := |events| - 1;
      OrderHolds(config, runtime, now, events[..n]);
      RunRecords(config, runtime, now, events[..n]);
      OrderKeeps(s0, events, Run(s0, events[..n]).value, Run(s0, events).value);
    }
  }

  lemma NoOrderYet(s0: State)
    requires s0.l.pc.Start?
    ensures Order(s0, [], s0)
  {
  }

  // After an exception the drain is entered exactly when the child has been reaped and no second look has
  // yet found the launcher without children.
  lemma DrainAfterFailure(config: Config, runtime: int, now: nat, events: seq<Event>)
    requires Run(Initial(config, runtime, now), events + [DecidesDrain]).Some?
    ensures var s0 := Initial(config, runtime, now);
            var pc := Run(s0, events + [DecidesDrain]).value.l.pc;
            && (pc.DrainStart? <==> Ever(s0, events, Reaps()) && !Ever(s0, events, Verifies()))
            && (!pc.DrainStart? ==> pc.HandlerPipes?)
  {
    hide Run, Step, Ever, Inv, History, PostOk;
    var s0 := Initial(config, runtime, now);
    RunLast(s0, events, DecidesDrain);
    EvidenceExact(config, runtime, now, events, 0);
    RunRecords(config, runtime, now, events);
    DecisionStep(Run(s0, events).value);
  }

  lemma RunLast(s0: State, events: seq<Event>, e: Event)
    requires Run(s0, events + [e]).Some?
    ensures Run(s0, events).Some? && Run(s0, events + [e]) == Step(Run(s0, events).value, e)
  {
    hide Step;
    assert (events + [e])[..|events|] == events;
  }

  lemma DecisionStep(s: State)
    requires Inv(s) && Step(s, DecidesDrain).Some?
    ensures var pc := Step(s, DecidesDrain).value.l.pc;
            (pc.DrainStart? <==> s.l.status.Some? && !s.l.seen.echildVerified) && (!pc.DrainStart? ==> pc.HandlerPipes?)
  {
    hide Children, TreeInv, AdoptionInv, EchildInv, RecheckInv, PipeInv, StatusInv, ExitInv, ClockInv;
  }

  // ---------------------------------------------------------------- patience

  lemma {:induction false} RunAppend(s: State, a: seq<Event>, b: seq<Event>)
    requires Run(s, a).Some?
    ensures Run(s, a + b) == Run(Run(s, a).value, b)
    decreases |b|
  {
    hide Step;
    if b == [] {
      assert a + b == a;
    } else {
      var n := |b| - 1;
      assert (a + b)[..|a| + n] == a + b[..n];
      RunAppend(s, a, b[..n]);
    }
  }

  // One turn of the watch loop in which the child stays alive and the clock advances.
  function Round(pause: nat): seq<Event> { [EndsPoll, Ticks(pause), WaitNothing, ChecksDeadline] }

  function Rounds(pauses: seq<nat>): seq<Event>
  {
    if pauses == [] then [] else Rounds(pauses[..|pauses| - 1]) + Round(pauses[|pauses| - 1])
  }

  function Sum(pauses: seq<nat>): nat
  {
    if pauses == [] then 0 else Sum(pauses[..|pauses| - 1]) + pauses[|pauses| - 1]
  }

  function Later(s: State, clock: nat): State { s.(os := s.os.(now := clock)) }

  lemma RoundPasses(s: State, pause: nat)
    requires s.l.pc.Poll? && !s.l.watch.timedOut && s.os.now + pause < s.l.watch.deadline
    ensures Run(s, Round(pause)) == Some(Later(s, s.os.now + pause))
  {
    hide Run, OsStep;
    var a := Acted(s, EndsPoll);
    var t := s.os.now + pause;
    assert Step(a, Ticks(pause)) == Some(Later(a, t)) by { TickStep(a, pause); }
    var c := Acted(Later(a, t), WaitNothing);
    var d := Acted(c, ChecksDeadline);
    FourSteps(s, EndsPoll, Ticks(pause), WaitNothing, ChecksDeadline);
  }

  lemma TickStep(s: State, pause: nat)
    ensures Step(s, Ticks(pause)) == Some(Later(s, s.os.now + pause))
  {
  }

  lemma Acted(s: State, e: Event) returns (t: State)
    requires !OfSystem(e) && LauncherStep(s.config, s.os, s.l, e).Some?
    ensures Step(s, e) == Some(t) && Moved(s, LauncherStep(s.config, s.os, s.l, e), t)
  {
    hide LauncherStep;
    t := Step(s, e).value;
  }

  lemma FourSteps(s: State, a: Event, b: Event, c: Event, d: Event)
    requires Step(s, a).Some? && Step(Step(s, a).value, b).Some?
    requires Step(Step(Step(s, a).value, b).value, c).Some?
    ensures Run(s, [a, b, c, d]) == Step(Step(Step(Step(s, a).value, b).value, c).value, d)
  {
    hide Step;
    assert [a, b, c, d][..3] == [a, b, c] && [a, b, c][..2] == [a, b] && [a, b][..1] == [a] && [a][..0] == [];
    assert Run(s, []) == Some(s);
    assert Run(s, [a]) == Step(s, a);
    assert Run(s, [a, b]) == Step(Step(s, a).value, b);
    assert Run(s, [a, b, c]) == Step(Step(Step(s, a).value, b).value, c);
  }

  lemma {:induction false} RoundsPass(s: State, pauses: seq<nat>)
    requires s.l.pc.Poll? && !s.l.watch.timedOut && s.os.now + Sum(pauses) < s.l.watch.deadline
    ensures Run(s, Rounds(pauses)) == Some(Later(s, s.os.now + Sum(pauses)))
    decreases |pauses|
  {
    hide Step, Round;
    if pauses == [] {
      assert Run(s, []) == Some(s);
    } else {
      var n := |pauses| - 1;
      RoundsPass(s, pauses[..n]);
      RunAppend(s, Rounds(pauses[..n]), Round(pauses[n]));
      RoundPasses(Later(s, s.os.now + Sum(pauses[..n])), pauses[n]);
    }
  }

  // A child that is still alive after any number of turns, all before the deadline, and then writes its
  // output and exits with 0, is accepted.
  lemma PatientRunIsAccepted(config: Config, runtime: int, now: nat, pauses: seq<nat>, output: seq<Byte>)
    requires config.grace > 0 && output != [] && Sum(pauses) < config.timeout
    ensures exists before, after, s ::
              && Run(Initial(config, runtime, now), before + Rounds(pauses) + after) == Some(s)
              && s.l.pc.Done? && s.l.pc.accepted && Stdout in s.l.io.logs && s.l.io.logs[Stdout] == output
  {
    hide Run, CleanlyReaped, Step, Rounds, Sum;
    var s0 := Initial(config, runtime, now);
    var a := CleanSpawn(s0);
    var before :| Run(s0, before) == Some(a);
    RoundsPass(a, pauses);
    var m := Later(a, now + Sum(pauses));
    RunAppend(s0, before, Rounds(pauses));
    var e := CleanEnd(s0, m, output);
    var after :| Run(m, after) == Some(e);
    RunAppend(s0, before + Rounds(pauses), after);
  }

  lemma CleanEnd(s0: State, m: State, output: seq<Byte>) returns (e: State)
    requires s0 == Initial(s0.config, s0.os.runtime, s0.os.now) && s0.config.grace > 0 && output != []
    requires m == s0.(os := s0.os.(processes := map[2 := DIRECT], next := 3, subreaper := true, now := m.os.now),
                      l := s0.l.(direct := Some(2), pc := Poll, io := s0.l.io.(open := {Stdout, Stderr}),
                                 watch := Watch(false, s0.os.now + s0.config.timeout)))
    ensures From(m, e) && e.l.pc.Done? && e.l.pc.accepted && Stdout in e.l.io.logs && e.l.io.logs[Stdout] == output
  {
    hide Run, CleanlyReaped;
    StartRun(m);
    var b := CleanExit(m, s0, m, output);
    ReapedConfig(s0, b, output);
    var c := CleanDrain(m, s0, b, output);
    var d := CleanPipes(m, s0, c, output);
    PipesReopened(s0, c, d, output);
    e := CleanFinish(m, s0, d, output);
  }

  // ---------------------------------------------------------------- who inherits orphans

  // The parent, the parent's parent and so on.
  ghost predicate Lineage(os: Os, line: seq<Id>)
  {
    && line != [] && (forall i | 0 <= i < |line| - 1 :: line[i] in os.processes && os.processes[line[i]].parent == line[i + 1])
  }

  ghost predicate IsReaper(os: Os, id: Id)
  {
    if id == LAUNCHER then os.subreaper else id in os.processes && os.processes[id].reaper
  }

  // The heir is the nearest ancestor that is a subreaper; above the launcher it is somebody outside.
  lemma {:induction false} HeirIsNearest(os: Os, id: Id) returns (line: seq<Id>)
    requires TreeOk(os) && id in os.processes
    ensures Lineage(os, line) && |line| > 1 && line[0] == id
    ensures forall i | 0 < i < |line| - 1 :: !IsReaper(os, line[i])
    ensures if IsReaper(os, line[|line| - 1]) then HeirOf(os, id) == line[|line| - 1]
            else line[|line| - 1] in {LAUNCHER, OUTSIDE} && HeirOf(os, id) == OUTSIDE
    decreases id
  {
    var parent := os.processes[id].parent;
    if parent == LAUNCHER || parent == OUTSIDE || os.processes[parent].reaper {
      line := [id, parent];
    } else {
      var above := HeirIsNearest(os, parent);
      line := [id] + above;
      forall i | 0 <= i < |line| - 1 ensures line[i] in os.processes && os.processes[line[i]].parent == line[i + 1] {
        if i > 0 { assert line[i] == above[i - 1] && line[i + 1] == above[i]; }
      }
      forall i | 0 < i < |line| - 1 ensures !IsReaper(os, line[i]) {
        if i > 1 { assert line[i] == above[i - 1]; }
      }
    }
  }

  // An exit hands every child to the heir and changes no other parent.
  lemma ExitHandsOver(os: Os, id: Id, code: int, p: Id)
    requires TreeOk(os) && Alive(os, id) && p in os.processes
    ensures p in ExitOf(os, id, code).processes
    ensures ExitOf(os, id, code).processes[p].parent
         == if os.processes[p].parent == id then HeirOf(os, id) else os.processes[p].parent
    ensures p in ExitOf(os, id, code).adopted
       <==> p in os.adopted || (os.processes[p].parent == id && HeirOf(os, id) == LAUNCHER)
  {
    hide HeirOf;
    SmallIds(os);
  }
}
