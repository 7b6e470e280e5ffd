// The contained command runner.
module Containment {
  // The state joins the operating system (process tree, pipes, clock, runtime files) with the variables
  // of the launcher. An event is one atomic action: of a process, of the environment, or of the launcher
  // at its program counter. Every interleaving of events is a run.

  import opened Bytes
  import opened Collections

  type Id = nat

  const LAUNCHER: Id := 0
  const OUTSIDE: Id := 1

  datatype Stream = Stdout | Stderr
  datatype Phase = Running | Stopped | Zombie(code: int)
  datatype Process = Process(parent: Id, reaper: bool, phase: Phase, holds: set<Stream>)
  // The direct child as it is spawned.
  const DIRECT: Process := Process(LAUNCHER, false, Running, {Stdout, Stderr})

  datatype Pipe = Pipe(written: seq<Byte>, taken: nat)

  // `adopted` and `exits` record history: who ever became a child of the launcher without being spawned by
  // it, and who exited how.
  datatype Os = Os(processes: map<Id, Process>, next: Id, now: nat, pipes: map<Stream, Pipe>,
                   runtime: int, subreaper: bool, adopted: set<Id>, exits: map<Id, int>)

  datatype Config = Config(timeout: nat, grace: nat, cleanup: nat, poll: nat)

  datatype Counter =
    | Start | Spawn | Fork | Attach
    | Poll | WaitDirect | Deadline
    | DrainStart | DrainScan | DrainCheck | DrainKill | DrainWait | DrainRecheck | DrainDeadline | DrainSleep
    | FinalPipes
    | HandlerWait | HandlerCheck | HandlerPipes
    | Finally | PostAttest | Verdict | Done(accepted: bool) | Aborted

  datatype Watch = Watch(timedOut: bool, deadline: nat)
  datatype Io = Io(open: set<Stream>, logs: map<Stream, seq<Byte>>)
  datatype Evidence = Evidence(descendantsObserved: bool, observed: set<Id>, echildVerified: bool)
  datatype Drain = Drain(began: nat, rounds: nat, interrupts: nat)
  datatype Launcher = Launcher(
    pc: Counter, pre: int, post: Option<int>, direct: Option<Id>, status: Option<int>,
    failed: bool, handling: bool, restored: bool, watch: Watch, io: Io, seen: Evidence, drain: Drain)

  datatype State = State(config: Config, os: Os, l: Launcher)

  datatype Event =
    // processes and environment
    | Forks(parent: Id, inherited: set<Stream>) | ForksBeside(sibling: Id, inherited: set<Stream>)
    | Exits(id: Id, code: int) | Collects(id: Id) | Stops(id: Id) | Continues(id: Id) | Subreaps(id: Id, on: bool)
    | Closes(id: Id, stream: Stream) | Writes(id: Id, stream: Stream, data: seq<Byte>)
    | Ticks(ticks: nat) | Mutates(runtime: int)
    // launcher
    | Attests | EnablesSubreaper | SpawnsDirect | AttachesPipes
    | Reads(stream: Stream, size: nat) | ReadsEof(stream: Stream) | EndsPoll
    | WaitInterrupted | WaitNothing | WaitStopped | WaitReaps
    | ChecksDeadline
    | BeginsDrain | Scans | ChecksGrace | ScansForKill
    | DrainInterrupted | DrainEchild | DrainNothing | DrainReaps(id: Id) | DrainSeesStopped(id: Id)
    | Rechecks | ChecksCleanup | Sleeps(ticks: nat)
    | EndsPipes | Raises | Aborts
    | GivesUpWaiting | DecidesDrain | ClosesPipes
    | RestoresSubreaper(ok: bool) | AttestsAgain(ok: bool) | Judges

  // ---------------------------------------------------------------- the operating system

  function Children(os: Os): set<Id>
  {
    set p | p in os.processes && os.processes[p].parent == LAUNCHER
  }

  // Who inherits the children of a process: the nearest subreaper above it.
  function HeirOf(os: Os, id: Id): Id
    decreases id
  {
    if id !in os.processes then OUTSIDE else
    var parent := os.processes[id].parent;
    if parent == LAUNCHER then (if os.subreaper then LAUNCHER else OUTSIDE)
    else if parent == OUTSIDE || parent >= id || parent !in os.processes then OUTSIDE
    else if os.processes[parent].reaper then parent
    else HeirOf(os, parent)
  }

  function ChildrenOf(os: Os, id: Id): set<Id>
  {
    set p | p in os.processes && os.processes[p].parent == id
  }

  // An exiting process closes its files and leaves its children to the nearest subreaper.
  function ExitOf(os: Os, id: Id, code: int): Os
    requires id in os.processes
  {
    var orphans := ChildrenOf(os, id);
    os.(processes := map p | p in os.processes ::
          if p == id then os.processes[p].(phase := Zombie(code), holds := {})
          else if p in orphans then os.processes[p].(parent := HeirOf(os, id))
          else os.processes[p],
        adopted := if HeirOf(os, id) == LAUNCHER then os.adopted + orphans else os.adopted,
        exits := os.exits[id := code])
  }

  function Available(os: Os, stream: Stream): int
  {
    if stream in os.pipes then |os.pipes[stream].written| - os.pipes[stream].taken else 0
  }

  predicate Held(os: Os, stream: Stream)
  {
    exists p | p in os.processes :: stream in os.processes[p].holds
  }

  predicate Alive(os: Os, id: Id)
  {
    id in os.processes && !os.processes[id].phase.Zombie?
  }

  // A new process under the given parent.
  function NewProcess(os: Os, parent: Id, inherited: set<Stream>): Os
  {
    os.(processes := os.processes[os.next := Process(parent, false, Running, inherited)], next := os.next + 1,
        adopted := if parent == LAUNCHER then os.adopted + {os.next} else os.adopted)
  }

  // A zombie that its own parent may wait for; the launcher's waits are steps of the launcher.
  predicate Collectable(os: Os, id: Id)
  {
    && id in os.processes && os.processes[id].phase.Zombie? && os.processes[id].parent != LAUNCHER
    && (os.processes[id].parent in os.processes ==> os.processes[os.processes[id].parent].phase == Running)
  }

  function Reap(os: Os, id: Id): Os { os.(processes := os.processes - {id}) }

  // A change of one process that keeps its parent.
  function Touch(os: Os, id: Id, process: Process): Os { os.(processes := os.processes[id := process]) }

  predicate OfSystem(e: Event)
  {
    || e.Forks? || e.ForksBeside? || e.Exits? || e.Collects? || e.Subreaps? || e.Stops? || e.Continues?
    || e.Closes? || e.Writes? || e.Ticks? || e.Mutates?
  }

  function OsStep(os: Os, e: Event): (r: Option<Os>)
    ensures r.Some? ==> OfSystem(e)
  {
    if e.Forks? then
      if e.parent in os.processes && os.processes[e.parent].phase == Running && e.inherited <= os.processes[e.parent].holds
      then Some(NewProcess(os, e.parent, e.inherited)) else None
    else if e.ForksBeside? then
      if e.sibling in os.processes && os.processes[e.sibling].phase == Running && e.inherited <= os.processes[e.sibling].holds
      then Some(NewProcess(os, os.processes[e.sibling].parent, e.inherited)) else None
    else if e.Exits? then
      if Alive(os, e.id) then Some(ExitOf(os, e.id, e.code)) else None
    else if e.Collects? then
      if Collectable(os, e.id) then Some(Reap(os, e.id)) else None
    else if e.Subreaps? then
      if e.id in os.processes && os.processes[e.id].phase == Running
      then Some(Touch(os, e.id, os.processes[e.id].(reaper := e.on))) else None
    else if e.Stops? then
      if e.id in os.processes && os.processes[e.id].phase == Running
      then Some(Touch(os, e.id, os.processes[e.id].(phase := Stopped))) else None
    else if e.Continues? then
      if e.id in os.processes && os.processes[e.id].phase == Stopped
      then Some(Touch(os, e.id, os.processes[e.id].(phase := Running))) else None
    else if e.Closes? then
      if Alive(os, e.id)
      then Some(Touch(os, e.id, os.processes[e.id].(holds := os.processes[e.id].holds - {e.stream}))) else None
    else if e.Writes? then
      if e.id in os.processes && os.processes[e.id].phase == Running && e.stream in os.processes[e.id].holds
         && e.stream in os.pipes
      then Some(os.(pipes := os.pipes[e.stream := os.pipes[e.stream].(written := os.pipes[e.stream].written + e.data)]))
      else None
    else if e.Ticks? then Some(os.(now := os.now + e.ticks))
    else if e.Mutates? then Some(os.(runtime := e.runtime))
    else None
  }

  // ---------------------------------------------------------------- the launcher

  // The handler is entered with a failure; a failure inside the handler's own drain is only recorded.
  function Raise(l: Launcher): Launcher
  {
    l.(failed := true, handling := true, pc := if l.handling then HandlerPipes else HandlerWait)
  }

  predicate InTry(pc: Counter)
  {
    || pc.Start? || pc.Spawn? || pc.Fork? || pc.Attach? || pc.Poll? || pc.WaitDirect? || pc.Deadline? || pc.FinalPipes?
    || InDrain(pc)
  }

  predicate InDrain(pc: Counter)
  {
    || pc.DrainStart? || pc.DrainScan? || pc.DrainCheck? || pc.DrainKill? || pc.DrainWait? || pc.DrainRecheck?
    || pc.DrainDeadline? || pc.DrainSleep?
  }

  predicate ReadsPipes(pc: Counter) { (pc.Poll? || pc.FinalPipes? || pc.HandlerWait? || pc.HandlerPipes?) }

  function Saw(seen: Evidence, ids: set<Id>, reports: bool): Evidence
  {
    seen.(observed := seen.observed + ids, descendantsObserved := seen.descendantsObserved || reports)
  }

  // Before the first wait: the second attestation, the subreaper, the child and its pipes.
  function SetupStep(c: Config, os: Os, l: Launcher, e: Event): (r: Option<(Os, Launcher)>)
    ensures r.Some? ==> r.value.1.pre == l.pre
  {
    if l.pc.Start? && e.Attests? then
      Some((os, if os.runtime != l.pre || Children(os) != {} then Raise(l) else l.(pc := Spawn)))
    else if l.pc.Spawn? && e.EnablesSubreaper? then
      Some((os.(subreaper := true), l.(pc := Fork)))
    else if l.pc.Fork? && e.SpawnsDirect? then
      Some((os.(processes := os.processes[os.next := DIRECT], next := os.next + 1),
            l.(direct := Some(os.next), pc := Attach)))
    else if l.pc.Attach? && e.AttachesPipes? then
      Some((os, l.(io := l.io.(open := {Stdout, Stderr}), watch := l.watch.(deadline := os.now + c.timeout), pc := Poll)))
    else None
  }

  // Reading what a pipe holds, and closing it when it is empty and has no writer.
  function ReadStep(os: Os, l: Launcher, e: Event): (r: Option<(Os, Launcher)>)
    ensures r.Some? ==> r.value.1.pre == l.pre
  {
    if e.Reads? then
      if !(ReadsPipes(l.pc) && e.stream in l.io.open && e.stream in os.pipes && e.stream in l.io.logs
           && 0 < e.size <= Available(os, e.stream)) then None else
      var pipe := os.pipes[e.stream];
      Some((os.(pipes := os.pipes[e.stream := pipe.(taken := pipe.taken + e.size)]),
            l.(io := l.io.(logs := l.io.logs[e.stream := l.io.logs[e.stream] + pipe.written[pipe.taken..pipe.taken + e.size]]))))
    else if e.ReadsEof? then
      if !(ReadsPipes(l.pc) && e.stream in l.io.open && Available(os, e.stream) <= 0 && !Held(os, e.stream)) then None
      else Some((os, l.(io := l.io.(open := l.io.open - {e.stream}))))
    else None
  }

  // The wait status of the direct child; reaping it removes it from the process table.
  function WaitStep(os: Os, l: Launcher, e: Event, reaped: Counter, stopped: Launcher): (r: Option<(Os, Launcher)>)
    requires stopped.pre == l.pre
    ensures r.Some? ==> r.value.1.pre == l.pre
  {
    if !(l.status == None && l.direct.Some? && l.direct.value in os.processes) then None else
    var phase := os.processes[l.direct.value].phase;
    if e.WaitStopped? && phase == Stopped then Some((os, stopped))
    else if e.WaitReaps? && phase.Zombie? then
      Some((Reap(os, l.direct.value), l.(status := Some(phase.code), pc := reaped)))
    else None
  }

  // The loop that watches the direct child.
  function WatchStep(os: Os, l: Launcher, e: Event): (r: Option<(Os, Launcher)>)
    ensures r.Some? ==> r.value.1.pre == l.pre
  {
    if l.pc.Poll? && e.EndsPoll? then Some((os, l.(pc := WaitDirect)))
    else if l.pc.WaitDirect? then
      if e.WaitInterrupted? then Some((os, l.(pc := Poll)))
      else if e.WaitNothing? then Some((os, l.(pc := Deadline)))
      else WaitStep(os, l, e, DrainStart, l.(failed := true, pc := Deadline))
    else if l.pc.Deadline? && e.ChecksDeadline? then
      Some((os, l.(watch := l.watch.(timedOut := l.watch.timedOut || os.now >= l.watch.deadline), pc := Poll)))
    else None
  }

  // The drain of adopted descendants. The scan before SIGKILL records the children it sees but does
  // not itself report that a descendant was observed.
  function DrainScanStep(c: Config, os: Os, l: Launcher, e: Event): (r: Option<(Os, Launcher)>)
    ensures r.Some? ==> r.value.1.pre == l.pre
  {
    if l.pc.DrainStart? && e.BeginsDrain? then
      Some((os, l.(drain := Drain(os.now, 0, 0), pc := DrainScan)))
    else if l.pc.DrainScan? && e.Scans? then
      Some((os, l.(seen := Saw(l.seen, Children(os), Children(os) != {}), pc := DrainCheck)))
    else if l.pc.DrainCheck? && e.ChecksGrace? then
      Some((os, l.(pc := if os.now >= l.drain.began + c.grace then DrainKill else DrainWait)))
    else if l.pc.DrainKill? && e.ScansForKill? then
      Some((os, l.(seen := Saw(l.seen, Children(os), false), pc := DrainWait)))
    else None
  }

  // waitpid(-1): no children, none to report, an exited one to reap, or a stopped one.
  function DrainWaitStep(os: Os, l: Launcher, e: Event): (r: Option<(Os, Launcher)>)
    ensures r.Some? ==> r.value.1.pre == l.pre
  {
    if e.DrainInterrupted? then Some((os, l.(drain := l.drain.(interrupts := l.drain.interrupts + 1), pc := DrainScan)))
    else if e.DrainEchild? && Children(os) == {} then Some((os, l.(pc := DrainRecheck)))
    else if e.DrainNothing? && Children(os) != {} then Some((os, l.(pc := DrainDeadline)))
    else if e.DrainReaps? && e.id in Children(os) && os.processes[e.id].phase.Zombie? then
      Some((Reap(os, e.id), l.(seen := Saw(l.seen, {e.id}, true), pc := DrainDeadline)))
    else if e.DrainSeesStopped? && e.id in Children(os) && os.processes[e.id].phase == Stopped then
      Some((os, l.(seen := Saw(l.seen, {e.id}, true), pc := DrainDeadline)))
    else None
  }

  function DrainEndStep(c: Config, os: Os, l: Launcher, e: Event): (r: Option<(Os, Launcher)>)
    ensures r.Some? ==> r.value.1.pre == l.pre
  {
    if l.pc.DrainRecheck? && e.Rechecks? then
      if Children(os) != {} then Some((os, l.(pc := DrainDeadline)))
      else Some((os, l.(seen := l.seen.(echildVerified := true), pc := if l.handling then HandlerPipes else FinalPipes)))
    else if l.pc.DrainDeadline? && e.ChecksCleanup? then
      Some((os, if os.now >= l.drain.began + c.cleanup then Raise(l) else l.(pc := DrainSleep)))
    else if l.pc.DrainSleep? && e.Sleeps? && e.ticks >= c.poll then
      Some((os.(now := os.now + e.ticks), l.(drain := l.drain.(rounds := l.drain.rounds + 1), pc := DrainScan)))
    else None
  }

  // The exception handler: reap the direct child, drain, and close what is left of the pipes.
  function HandlerStep(os: Os, l: Launcher, e: Event): (r: Option<(Os, Launcher)>)
    ensures r.Some? ==> r.value.1.pre == l.pre
  {
    if l.pc.HandlerWait? then
      if e.Aborts? then Some((os, l.(pc := Aborted)))
      else if e.GivesUpWaiting? then Some((os, l.(pc := HandlerCheck)))
      else WaitStep(os, l, e, HandlerCheck, l)
    else if l.pc.HandlerCheck? && e.DecidesDrain? then
      Some((os, l.(pc := if l.direct.Some? && l.status.Some? && !l.seen.echildVerified then DrainStart else HandlerPipes)))
    else if l.pc.HandlerPipes? && e.ClosesPipes? then Some((os, l.(io := l.io.(open := {}), pc := Finally)))
    else None
  }

  // From the last look at the pipes to the second attestation.
  function FinishStep(os: Os, l: Launcher, e: Event): (r: Option<(Os, Launcher)>)
    ensures r.Some? ==> r.value.1.pre == l.pre
  {
    if l.pc.FinalPipes? && e.EndsPipes? then Some((os, if l.io.open != {} then Raise(l) else l.(pc := Finally)))
    else if l.pc.Finally? && e.RestoresSubreaper? then
      if e.ok then Some((os.(subreaper := false), l.(restored := true, pc := PostAttest)))
      else Some((os, l.(failed := true, pc := PostAttest)))
    else if l.pc.PostAttest? && e.AttestsAgain? then
      if e.ok then Some((os, l.(post := Some(os.runtime), pc := Verdict)))
      else Some((os, l.(failed := true, pc := Verdict)))
    else None
  }

  // Any recorded problem refuses the run.
  predicate Refuses(l: Launcher)
  {
    || l.failed || l.post != Some(l.pre) || (l.status.Some? && l.status.value != 0)
    || l.watch.timedOut || l.seen.descendantsObserved || !l.seen.echildVerified
  }

  function JudgeStep(os: Os, l: Launcher, e: Event): (r: Option<(Os, Launcher)>)
    ensures r.Some? ==> r.value.1.pre == l.pre
  {
    if l.pc.Verdict? && e.Judges? then Some((os, l.(failed := Refuses(l), pc := Done(!Refuses(l))))) else None
  }

  function LauncherStep(c: Config, os: Os, l: Launcher, e: Event): (r: Option<(Os, Launcher)>)
    ensures r.Some? ==> r.value.1.pre == l.pre
  {
    if e.Reads? || e.ReadsEof? then ReadStep(os, l, e)
    else if e.Raises? then if InTry(l.pc) then Some((os, Raise(l))) else None
    else if (l.pc.Start? || l.pc.Spawn? || l.pc.Fork? || l.pc.Attach?) then SetupStep(c, os, l, e)
    else if (l.pc.Poll? || l.pc.WaitDirect? || l.pc.Deadline?) then WatchStep(os, l, e)
    else if (l.pc.DrainStart? || l.pc.DrainScan? || l.pc.DrainCheck? || l.pc.DrainKill?) then DrainScanStep(c, os, l, e)
    else if l.pc.DrainWait? then DrainWaitStep(os, l, e)
    else if InDrain(l.pc) then DrainEndStep(c, os, l, e)
    else if (l.pc.HandlerWait? || l.pc.HandlerCheck? || l.pc.HandlerPipes?) then HandlerStep(os, l, e)
    else if (l.pc.FinalPipes? || l.pc.Finally? || l.pc.PostAttest?) then FinishStep(os, l, e)
    else JudgeStep(os, l, e)
  }

  function Step(s: State, e: Event): Option<State>
  {
    var os := OsStep(s.os, e);
    if os.Some? then Some(s.(os := os.value)) else
    var both := LauncherStep(s.config, s.os, s.l, e);
    if both.Some? then Some(s.(os := both.value.0, l := both.value.1)) else None
  }

  function Run(s: State, events: seq<Event>): Option<State>
  {
    if events == [] then Some(s) else
    var before := Run(s, events[..|events| - 1]);
    if before == None then None else Step(before.value, events[|events| - 1])
  }

  function Initial(config: Config, runtime: int, now: nat): State
  {
    var empty := Pipe([], 0);
    State(config,
          Os(map[], 2, now, map[Stdout := empty, Stderr := empty], runtime, false, {}, map[]),
          Launcher(Start, runtime, None, None, None, false, false, false, Watch(false, 0),
                   Io({}, map[Stdout := [], Stderr := []]), Evidence(false, {}, false), Drain(0, 0, 0)))
  }

  // ---------------------------------------------------------------- invariants

  // Every process descends from the launcher through live parents that are older than it.
  ghost predicate TreeOk(os: Os)
  {
    && os.next >= 2
    && forall p | p in os.processes ::
      && 2 <= p < os.next
      && var parent := os.processes[p].parent;
         (parent == LAUNCHER || parent == OUTSIDE) || (parent < p && Alive(os, parent))
  }

  ghost predicate NoneOutside(os: Os)
  {
    forall p | p in os.processes :: os.processes[p].parent != OUTSIDE
  }

  ghost predicate TreeInv(s: State)
  {
    && TreeOk(s.os)
    && (s.l.direct.Some? ==> s.l.direct.value < s.os.next)
    && (s.l.direct.Some? && s.l.direct.value in s.os.processes ==> s.os.processes[s.l.direct.value].parent == LAUNCHER)
    // the subreaper holds from the spawn to the end of the run
    && (s.l.direct.Some? && !s.l.restored ==> s.os.subreaper)
    && (s.l.pc.Fork? ==> s.os.subreaper)
    && (s.l.direct == None ==> s.os.processes == map[] && s.os.adopted == {})
    && (!s.l.restored ==> NoneOutside(s.os))
    && (s.l.restored ==> (s.l.pc.PostAttest? || s.l.pc.Verdict? || s.l.pc.Aborted?) || s.l.pc.Done?)
  }

  // Whoever was adopted is still a child of the launcher, or the drain has reported a descendant; and no
  // other child than the direct one escapes the record.
  ghost predicate AdoptionInv(s: State)
  {
    && (forall a | a in s.os.adopted ::
          && s.l.direct != Some(a) && a < s.os.next
          && (s.l.seen.descendantsObserved || (a in s.os.processes && s.os.processes[a].parent == LAUNCHER)))
    && (forall p | p in Children(s.os) :: s.l.direct == Some(p) || p in s.os.adopted)
  }

  // A verified ECHILD means that no descendant is left, and none can appear again.
  ghost predicate EchildInv(s: State)
  {
    s.l.seen.echildVerified ==> s.os.processes == map[]
  }

  // The drain waits until ECHILD, so between the two checks nothing is left either.
  ghost predicate RecheckInv(s: State)
  {
    s.l.pc.DrainRecheck? ==> s.os.processes == map[]
  }

  // Logs hold exactly what was taken from each pipe; a stream that the normal path closed had reached
  // its end and has no writer left.
  ghost predicate PipeInv(s: State)
  {
    && (forall st: Stream :: LogOk(s, st))
    && (!s.l.handling && Attached(s.l) ==> forall st: Stream | st !in s.l.io.open :: Drained(s.os, st))
  }

  ghost predicate LogOk(s: State, st: Stream)
  {
    && st in s.os.pipes && st in s.l.io.logs
    && s.os.pipes[st].taken <= |s.os.pipes[st].written|
    && s.l.io.logs[st] == s.os.pipes[st].written[..s.os.pipes[st].taken]
  }

  ghost predicate Drained(os: Os, st: Stream)
  {
    Available(os, st) == 0 && !Held(os, st)
  }

  predicate Attached(l: Launcher) { l.direct.Some? && !l.pc.Attach? }

  predicate AfterWait(pc: Counter)
  {
    InDrain(pc) || (pc.FinalPipes? || pc.Finally? || pc.PostAttest? || pc.Verdict?) || pc.Done?
  }

  predicate AfterPipes(pc: Counter) { (pc.Finally? || pc.PostAttest? || pc.Verdict?) || pc.Done? }

  // What the launcher's variables mean at each program counter.
  predicate FlowOk(l: Launcher)
  {
    && (l.handling ==> l.failed)
    && (l.direct == None ==> !l.seen.echildVerified)
    && (l.pc.FinalPipes? ==> !l.handling)
    && (l.status.Some? ==> l.direct.Some?)
    && (l.pc.Start? || l.pc.Spawn? || l.pc.Fork? ==> l.direct == None && l.status == None && !l.handling)
    && (Watches(l.pc) ==> l.direct.Some? && l.status == None && !l.handling)
    && (InDrain(l.pc) ==> l.direct.Some? && l.status.Some?)
    && (!l.handling && AfterWait(l.pc) ==> l.status.Some?)
    && (!l.handling && (l.pc.FinalPipes? || AfterPipes(l.pc)) ==> l.seen.echildVerified)
    && (!l.handling && AfterPipes(l.pc) ==> l.io.open == {})
    && (Handles(l.pc) || l.pc.Aborted? ==> l.handling)
    && (l.pc.Done? && l.pc.accepted ==>
          && !l.failed && l.post == Some(l.pre) && l.status == Some(0)
          && !l.watch.timedOut && !l.seen.descendantsObserved && l.seen.echildVerified)
  }

  predicate Watches(pc: Counter) { pc.Attach? || pc.Poll? || pc.WaitDirect? || pc.Deadline? }

  predicate Handles(pc: Counter) { pc.HandlerWait? || pc.HandlerCheck? || pc.HandlerPipes? }

  // The recorded status is how the direct child exited.
  ghost predicate StatusInv(s: State)
  {
    s.l.status.Some? ==>
      && s.l.direct.Some? && s.l.direct.value !in s.os.processes
      && s.l.direct.value in s.os.exits && s.os.exits[s.l.direct.value] == s.l.status.value
  }

  ghost predicate ControlInv(s: State)
  {
    FlowOk(s.l) && StatusInv(s)
  }

  // Exits are final: a zombie keeps the code it exited with.
  ghost predicate ExitInv(s: State)
  {
    && (forall p | p in s.os.processes && s.os.processes[p].phase.Zombie? ::
          p in s.os.exits && s.os.exits[p] == s.os.processes[p].phase.code)
    && (forall p | p in s.os.exits :: p < s.os.next)
    && (forall p | p in s.os.exits && p in s.os.processes :: s.os.processes[p].phase.Zombie?)
  }

  function Slept(rounds: nat, poll: nat): nat { rounds * poll }

  // Rounds of the drain are paid for by the clock.
  ghost predicate ClockInv(s: State)
  {
    && (InDrain(s.l.pc) && !s.l.pc.DrainStart? ==>
          s.l.drain.began <= s.os.now && Slept(s.l.drain.rounds, s.config.poll) <= s.os.now - s.l.drain.began)
    && (s.l.drain.rounds > 0 ==> Slept(s.l.drain.rounds - 1, s.config.poll) < s.config.cleanup)
    && (s.l.pc.DrainSleep? ==> Slept(s.l.drain.rounds, s.config.poll) < s.config.cleanup)
  }

  ghost predicate Inv(s: State)
  {
    && TreeInv(s) && AdoptionInv(s) && EchildInv(s) && RecheckInv(s)
    && PipeInv(s) && ControlInv(s) && ExitInv(s) && ClockInv(s)
  }

  // ---------------------------------------------------------------- steps of the operating system

  // What one step of the operating system can do to the process tree.
  ghost predicate OsChange(os: Os, os': Os)
  {
    && TreeOk(os') && os'.subreaper == os.subreaper && os.next <= os'.next
    && (os.processes == map[] ==> os'.processes == map[])
    && (os.subreaper && NoneOutside(os) ==> NoneOutside(os'))
    && (forall p | p in os.processes && os.processes[p].parent == LAUNCHER ::
          p in os'.processes && os'.processes[p].parent == LAUNCHER)
    && (forall p | p in os'.processes && p !in os.processes :: p == os.next < os'.next)
    && (forall p | p in Children(os') :: p in Children(os) || p in os'.adopted)
    && (forall a | a in os'.adopted && a !in os.adopted :: a < os'.next && a !in Children(os) && a in Children(os'))
  }

  lemma {:induction false} HeirOk(os: Os, id: Id)
    requires TreeOk(os) && id in os.processes
    ensures var heir := HeirOf(os, id);
            || heir == OUTSIDE || (heir == LAUNCHER && os.subreaper) || (2 <= heir < id && Alive(os, heir))
    ensures os.subreaper && NoneOutside(os) ==> HeirOf(os, id) != OUTSIDE
    decreases id
  {
    var parent := os.processes[id].parent;
    if 2 <= parent && !os.processes[parent].reaper { HeirOk(os, parent); }
  }

  lemma ForkChanges(os: Os, near: Id, parent: Id, inherited: set<Stream>)
    requires TreeOk(os) && Alive(os, near) && (parent == near || parent == os.processes[near].parent)
    ensures OsChange(os, NewProcess(os, parent, inherited))
  {
  }

  lemma ExitKeepsTree(os: Os, id: Id, code: int)
    requires TreeOk(os) && Alive(os, id)
    ensures TreeOk(ExitOf(os, id, code))
  {
    hide HeirOf;
    HeirOk(os, id);
  }

  lemma ExitChanges(os: Os, id: Id, code: int)
    requires TreeOk(os) && Alive(os, id)
    ensures OsChange(os, ExitOf(os, id, code))
  {
    hide HeirOf, TreeOk;
    SmallIds(os);
    ExitKeepsTree(os, id, code);
    HeirOk(os, id);
  }

  lemma CollectChanges(os: Os, id: Id)
    requires TreeOk(os) && Collectable(os, id)
    ensures OsChange(os, Reap(os, id))
  {
  }

  lemma TouchChanges(os: Os, id: Id, process: Process)
    requires TreeOk(os) && Alive(os, id) && process.parent == os.processes[id].parent && !process.phase.Zombie?
    ensures OsChange(os, Touch(os, id, process))
  {
  }

  lemma OtherChanges(os: Os, os': Os)
    requires TreeOk(os) && os'.processes == os.processes && os'.next == os.next
    requires os'.subreaper == os.subreaper && os'.adopted == os.adopted
    ensures OsChange(os, os')
  {
  }

  lemma OsChanges(os: Os, e: Event)
    requires TreeOk(os) && OsStep(os, e).Some?
    ensures OsChange(os, OsStep(os, e).value)
  {
    hide ExitOf, HeirOf, TreeOk, OsChange, Touch, NewProcess, Reap;
    if e.Forks? {
      ForkChanges(os, e.parent, e.parent, e.inherited);
    } else if e.ForksBeside? {
      ForkChanges(os, e.sibling, os.processes[e.sibling].parent, e.inherited);
    } else if e.Collects? {
      CollectChanges(os, e.id);
    } else if e.Subreaps? {
      TouchChanges(os, e.id, os.processes[e.id].(reaper := e.on));
    } else if e.Exits? {
      ExitChanges(os, e.id, e.code);
    } else if e.Stops? {
      TouchChanges(os, e.id, os.processes[e.id].(phase := Stopped));
    } else if e.Continues? {
      TouchChanges(os, e.id, os.processes[e.id].(phase := Running));
    } else if e.Closes? {
      TouchChanges(os, e.id, os.processes[e.id].(holds := os.processes[e.id].holds - {e.stream}));
    } else {
      OtherChanges(os, OsStep(os, e).value);
    }
  }

  lemma TreeOfOs(s: State, os': Os)
    requires TreeInv(s) && AdoptionInv(s) && OsChange(s.os, os')
    requires forall a | a in s.os.adopted :: a in os'.adopted
    ensures TreeInv(s.(os := os')) && AdoptionInv(s.(os := os'))
  {
  }

  // The rest of what one step of the operating system can do.
  ghost predicate IoChange(os: Os, os': Os)
  {
    && os.now <= os'.now
    && (forall st | st in os.pipes ::
          && st in os'.pipes && os'.pipes[st].taken == os.pipes[st].taken
          && |os.pipes[st].written| <= |os'.pipes[st].written|
          && os'.pipes[st].written[..|os.pipes[st].written|] == os.pipes[st].written)
    && (forall st :: !Held(os, st) ==> !Held(os', st) && (st in os.pipes ==> os'.pipes[st] == os.pipes[st]))
    && (forall p | p in os.exits && p !in os.processes :: p in os'.exits && os'.exits[p] == os.exits[p])
    && (forall a | a in os.adopted :: a in os'.adopted)
  }

  lemma IoChanges(os: Os, e: Event)
    requires TreeOk(os) && OsStep(os, e).Some?
    ensures IoChange(os, OsStep(os, e).value)
  {
    hide TreeOk, IoChange, ExitOf, NewProcess;
    if e.Exits? {
      ExitIo(os, e.id, e.code);
    } else if e.Forks? {
      ForkIo(os, e.parent, e.parent, e.inherited);
    } else if e.ForksBeside? {
      ForkIo(os, e.sibling, os.processes[e.sibling].parent, e.inherited);
    } else {
      RestIo(os, e);
    }
  }

  lemma ExitIo(os: Os, id: Id, code: int)
    requires id in os.processes
    ensures IoChange(os, ExitOf(os, id, code))
  {
    hide HeirOf;
  }

  lemma ForkIo(os: Os, near: Id, parent: Id, inherited: set<Stream>)
    requires near in os.processes && inherited <= os.processes[near].holds
    ensures IoChange(os, NewProcess(os, parent, inherited))
  {
  }

  lemma RestIo(os: Os, e: Event)
    requires OsStep(os, e).Some? && !e.Exits? && !e.Forks? && !e.ForksBeside?
    ensures IoChange(os, OsStep(os, e).value)
  {
    hide NewProcess, ExitOf;
  }

  lemma ExitsOfOs(s: State, e: Event)
    requires TreeInv(s) && ExitInv(s) && OsStep(s.os, e).Some?
    ensures ExitInv(s.(os := OsStep(s.os, e).value))
  {
    hide TreeOk, ExitInv, ExitOf, NewProcess, HeirOf;
    assert forall p | p in s.os.processes :: p < s.os.next by { assert TreeOk(s.os); SmallIds(s.os); }
    if e.Exits? {
      ExitsOfExit(s, e.id, e.code);
    } else if e.Forks? {
      ExitsOfFork(s, e.parent, e.inherited);
    } else if e.ForksBeside? {
      ExitsOfFork(s, s.os.processes[e.sibling].parent, e.inherited);
    } else {
      ExitsOfRest(s, e);
    }
  }

  lemma ExitsOfExit(s: State, id: Id, code: int)
    requires ExitInv(s) && id in s.os.processes && id < s.os.next
    ensures ExitInv(s.(os := ExitOf(s.os, id, code)))
  {
    hide HeirOf;
  }

  lemma ExitsOfFork(s: State, parent: Id, inherited: set<Stream>)
    requires ExitInv(s)
    ensures ExitInv(s.(os := NewProcess(s.os, parent, inherited)))
  {
  }

  lemma ExitsOfRest(s: State, e: Event)
    requires ExitInv(s) && OsStep(s.os, e).Some? && !e.Exits? && !e.Forks? && !e.ForksBeside?
    ensures ExitInv(s.(os := OsStep(s.os, e).value))
  {
    hide NewProcess, ExitOf;
  }

  lemma SmallIds(os: Os)
    requires TreeOk(os)
    ensures forall p | p in os.processes :: 2 <= p < os.next && os.processes[p].parent != p
  {
  }

  lemma OsKeeps(s: State, e: Event)
    requires Inv(s) && OsStep(s.os, e).Some?
    ensures Inv(s.(os := OsStep(s.os, e).value))
  {
    hide OsStep, OsChange, TreeInv, AdoptionInv, ExitInv;
    var os' := OsStep(s.os, e).value;
    TreeHolds(s);
    OsChanges(s.os, e);
    IoChanges(s.os, e);
    TreeOfOs(s, os');
    ExitsOfOs(s, e);
    EmptyStays(s.os, os');
    PipesOfOs(s, os');
    NewIds(s, os');
  }

  lemma TreeHolds(s: State)
    requires TreeInv(s)
    ensures TreeOk(s.os)
  {
  }

  lemma EmptyStays(os: Os, os': Os)
    requires OsChange(os, os')
    ensures os.processes == map[] ==> os'.processes == map[]
  {
  }

  // An id that was given out and is gone never comes back.
  lemma NewIds(s: State, os': Os)
    requires TreeInv(s) && OsChange(s.os, os')
    ensures s.l.direct.Some? && s.l.direct.value !in s.os.processes ==> s.l.direct.value !in os'.processes
  {
  }

  lemma PipesOfOs(s: State, os': Os)
    requires PipeInv(s) && IoChange(s.os, os')
    ensures PipeInv(s.(os := os'))
  {
    hide Held;
    forall st: Stream ensures LogOk(s.(os := os'), st) {
      assert LogOk(s, st);
    }
    if !s.l.handling && Attached(s.l) {
      forall st: Stream | st !in s.l.io.open ensures Drained(os', st) {
        assert Drained(s.os, st) && LogOk(s, st);
      }
    }
  }

  // ---------------------------------------------------------------- steps of the launcher

  lemma {:induction false} NoneBelow(os: Os, n: nat)
    requires TreeOk(os) && Children(os) == {}
    requires NoneOutside(os)
    ensures forall p | p in os.processes :: p >= n
  {
    if n > 0 {
      NoneBelow(os, n - 1);
      assert n - 1 in os.processes ==> n - 1 in Children(os);
    }
  }

  // A launcher without children has no descendants at all.
  lemma NoChildrenNoDescendants(os: Os)
    requires TreeOk(os) && Children(os) == {}
    requires NoneOutside(os)
    ensures os.processes == map[]
  {
    NoneBelow(os, os.next);
    assert forall p :: p !in os.processes;
  }

  lemma ReapKeepsTree(os: Os, id: Id)
    requires TreeOk(os) && id in os.processes && os.processes[id].phase.Zombie?
    ensures TreeOk(Reap(os, id))
  {
  }

  lemma SpawnKeepsTree(os: Os)
    requires TreeOk(os) && os.next >= 2
    ensures TreeOk(os.(processes := os.processes[os.next := DIRECT], next := os.next + 1))
  {
  }

  ghost predicate Moved(s: State, r: Option<(Os, Launcher)>, t: State)
  {
    r.Some? && t == s.(os := r.value.0, l := r.value.1)
  }

  // A step that reads nothing.
  ghost predicate PipesMove(s: State, t: State)
  {
    && t.os.pipes == s.os.pipes && t.l.io.logs == s.l.io.logs && (s.l.handling ==> t.l.handling)
    && (!t.l.handling && Attached(t.l) ==> (Attached(s.l) && t.l.io.open == s.l.io.open) || t.l.io.open == {Stdout, Stderr})
    && (!t.l.handling && Attached(s.l) ==> forall st | Held(t.os, st) :: Held(s.os, st))
  }

  lemma PipesKept(s: State, t: State)
    requires PipeInv(s) && PipesMove(s, t)
    ensures PipeInv(t)
  {
    hide Held;
    forall st: Stream ensures LogOk(t, st) { assert LogOk(s, st); }
    if !t.l.handling && Attached(t.l) {
      forall st: Stream | st !in t.l.io.open ensures Drained(t.os, st) {
        match st { case Stdout => case Stderr => }
        assert Drained(s.os, st);
      }
    }
  }

  // A step of the launcher after the spawn keeps the process table, except that it may reap a zombie:
  // the direct child, or an adopted one, which it then reports.
  ghost predicate TreeMove(s: State, t: State, gone: Option<Id>)
  {
    && t.os.next == s.os.next && t.os.adopted == s.os.adopted && t.os.exits == s.os.exits
    && (gone == None ==> t.os.processes == s.os.processes)
    && (gone.Some? ==> t.os == Reap(s.os, gone.value) && gone.value in s.os.processes
                       && s.os.processes[gone.value].phase.Zombie?
                       && (s.l.direct == gone || t.l.seen.descendantsObserved))
    && t.l.direct == s.l.direct && t.l.direct.Some?
    && (s.l.seen.descendantsObserved ==> t.l.seen.descendantsObserved)
    && (t.l.restored <==> s.l.restored || t.os.subreaper != s.os.subreaper)
    && (t.os.subreaper ==> s.os.subreaper)
    && !t.l.pc.Fork? && (t.l.restored ==> (t.l.pc.PostAttest? || t.l.pc.Verdict? || t.l.pc.Aborted?) || t.l.pc.Done?)
  }

  lemma TreeMoveKeeps(s: State, t: State, gone: Option<Id>)
    requires TreeInv(s) && AdoptionInv(s) && ExitInv(s) && TreeMove(s, t, gone)
    ensures TreeInv(t) && AdoptionInv(t) && ExitInv(t)
  {
    hide TreeOk;
    if gone.Some? { ReapKeepsTree(s.os, gone.value); } else { SameTree(s.os, t.os); }
  }

  lemma SameTree(os: Os, os': Os)
    requires TreeOk(os) && os'.processes == os.processes && os'.next == os.next
    ensures TreeOk(os')
  {
  }

  lemma SpawnKeeps(s: State, t: State)
    requires TreeInv(s) && ExitInv(s) && s.l.pc.Fork? && s.l.direct == None
    requires Moved(s, SetupStep(s.config, s.os, s.l, SpawnsDirect), t)
    ensures TreeInv(t) && AdoptionInv(t) && ExitInv(t)
  {
    hide TreeOk;
    assert s.os.next >= 2 by { NextId(s.os); }
    SpawnKeepsTree(s.os);
  }

  lemma NextId(os: Os)
    requires TreeOk(os)
    ensures os.next >= 2
  {
  }

  lemma SetupKeeps(s: State, e: Event, t: State)
    requires Inv(s) && Moved(s, SetupStep(s.config, s.os, s.l, e), t)
    ensures Inv(t)
  {
    hide PipeInv, TreeOk, ControlInv, ClockInv, EchildInv, RecheckInv;
    SetupControl(s, e, t);
    FactsOf(s);
    if s.l.pc.Fork? { SpawnKeeps(s, t); } else { SameTree(s.os, t.os); }
    PipesKept(s, t);
  }

  lemma SetupControl(s: State, e: Event, t: State)
    requires Inv(s) && Moved(s, SetupStep(s.config, s.os, s.l, e), t)
    ensures ControlInv(t) && EchildInv(t) && RecheckInv(t) && ClockInv(t)
  {
    hide TreeOk, AdoptionInv, PipeInv, ExitInv, Slept, Children, FlowOk, NoneOutside;
    SetupFlow(s.config, s.os, s.l, e);
  }

  lemma SetupFlow(c: Config, os: Os, l: Launcher, e: Event)
    requires FlowOk(l) && SetupStep(c, os, l, e).Some?
    ensures FlowOk(SetupStep(c, os, l, e).value.1)
    ensures l.status == None && (!l.pc.Attach? ==> l.direct == None && !l.seen.echildVerified)
  {
    hide Children;
  }

  lemma ReadKeeps(s: State, e: Event, t: State)
    requires Inv(s) && Moved(s, ReadStep(s.os, s.l, e), t)
    ensures Inv(t)
  {
    hide PipeInv;
    PipesRead(s, e, t);
  }

  lemma PipesRead(s: State, e: Event, t: State)
    requires PipeInv(s) && Moved(s, ReadStep(s.os, s.l, e), t)
    ensures PipeInv(t)
  {
    hide Held;
    forall st: Stream ensures LogOk(t, st) { assert LogOk(s, st); }
    if !t.l.handling && Attached(t.l) {
      forall st: Stream | st !in t.l.io.open ensures Drained(t.os, st) {
        assert LogOk(s, st);
        assert st !in s.l.io.open ==> Drained(s.os, st);
        SameHolders(s.os, t.os, st);
      }
    }
  }

  lemma SameHolders(os: Os, os': Os, st: Stream)
    requires os'.processes == os.processes
    ensures Held(os', st) == Held(os, st)
  {
  }

  lemma WatchKeeps(s: State, e: Event, t: State)
    requires Inv(s) && Moved(s, WatchStep(s.os, s.l, e), t) && (s.l.pc.Poll? || s.l.pc.WaitDirect? || s.l.pc.Deadline?)
    ensures Inv(t)
  {
    hide TreeInv, AdoptionInv, ExitInv, PipeInv, TreeMove, PipesMove, WatchStep, ClockInv, ControlInv;
    WatchMoves(s, e, t);
    WatchControl(s, e, t);
    PipesKept(s, t);
    TreeMoveKeeps(s, t, if e.WaitReaps? then s.l.direct else None);
  }

  lemma WatchMoves(s: State, e: Event, t: State)
    requires Inv(s) && Moved(s, WatchStep(s.os, s.l, e), t) && (s.l.pc.Poll? || s.l.pc.WaitDirect? || s.l.pc.Deadline?)
    ensures PipesMove(s, t) && TreeMove(s, t, if e.WaitReaps? then s.l.direct else None)
  {
    hide TreeOk, AdoptionInv, PipeInv, ClockInv, ExitInv;
  }

  lemma WatchControl(s: State, e: Event, t: State)
    requires Inv(s) && Moved(s, WatchStep(s.os, s.l, e), t) && (s.l.pc.Poll? || s.l.pc.WaitDirect? || s.l.pc.Deadline?)
    ensures ControlInv(t) && EchildInv(t) && RecheckInv(t) && ClockInv(t)
  {
    hide TreeInv, AdoptionInv, PipeInv, Slept, FlowOk;
    WatchFlow(s.os, s.l, e);
  }

  lemma WatchFlow(os: Os, l: Launcher, e: Event)
    requires FlowOk(l) && WatchStep(os, l, e).Some? && (l.pc.Poll? || l.pc.WaitDirect? || l.pc.Deadline?)
    ensures FlowOk(WatchStep(os, l, e).value.1)
  {
    hide Reap;
  }

  lemma SleptStep(rounds: nat, poll: nat)
    ensures Slept(0, poll) == 0 && Slept(rounds + 1, poll) == Slept(rounds, poll) + poll
  {
  }

  lemma DrainScanKeeps(s: State, e: Event, t: State)
    requires Inv(s) && Moved(s, DrainScanStep(s.config, s.os, s.l, e), t)
    ensures Inv(t)
  {
    hide TreeInv, AdoptionInv, ExitInv, PipeInv, TreeMove, PipesMove, DrainScanStep, ClockInv, ControlInv;
    DrainScanMoves(s, e, t);
    DrainScanControl(s, e, t);
    PipesKept(s, t);
    TreeMoveKeeps(s, t, None);
  }

  lemma DrainScanMoves(s: State, e: Event, t: State)
    requires Inv(s) && Moved(s, DrainScanStep(s.config, s.os, s.l, e), t)
    ensures PipesMove(s, t) && TreeMove(s, t, None)
  {
    hide Inv, DrainScanStep, PipesMove, TreeMove;
    DrainScanPipes(s, e, t);
    DrainScanTree(s, e, t);
  }

  lemma DrainScanPipes(s: State, e: Event, t: State)
    requires Inv(s) && Moved(s, DrainScanStep(s.config, s.os, s.l, e), t)
    ensures PipesMove(s, t)
  {
    hide TreeInv, AdoptionInv, PipeInv, ClockInv, ExitInv, Children;
  }

  lemma DrainScanTree(s: State, e: Event, t: State)
    requires Inv(s) && Moved(s, DrainScanStep(s.config, s.os, s.l, e), t)
    ensures TreeMove(s, t, None)
  {
    hide TreeOk, AdoptionInv, PipeInv, ClockInv, ExitInv, Children;
  }

  lemma DrainScanControl(s: State, e: Event, t: State)
    requires Inv(s) && Moved(s, DrainScanStep(s.config, s.os, s.l, e), t)
    ensures ControlInv(t) && EchildInv(t) && RecheckInv(t) && ClockInv(t)
  {
    hide TreeInv, AdoptionInv, PipeInv, ExitInv, Children, Slept;
    SleptStep(0, s.config.poll);
  }

  lemma DrainWaitKeeps(s: State, e: Event, t: State)
    requires Inv(s) && s.l.pc.DrainWait? && Moved(s, DrainWaitStep(s.os, s.l, e), t)
    ensures Inv(t)
  {
    hide TreeInv, AdoptionInv, ExitInv, PipeInv, TreeMove, PipesMove, DrainWaitStep, ClockInv, ControlInv;
    DrainWaitMoves(s, e, t);
    DrainWaitControl(s, e, t);
    PipesKept(s, t);
    TreeMoveKeeps(s, t, if e.DrainReaps? then Some(e.id) else None);
  }

  lemma DrainWaitMoves(s: State, e: Event, t: State)
    requires Inv(s) && s.l.pc.DrainWait? && Moved(s, DrainWaitStep(s.os, s.l, e), t)
    ensures PipesMove(s, t) && TreeMove(s, t, if e.DrainReaps? then Some(e.id) else None)
  {
    hide TreeOk, AdoptionInv, PipeInv, ClockInv, ExitInv, EchildInv, RecheckInv, StatusInv, NoneOutside;
  }

  lemma DrainWaitControl(s: State, e: Event, t: State)
    requires Inv(s) && s.l.pc.DrainWait? && Moved(s, DrainWaitStep(s.os, s.l, e), t)
    ensures ControlInv(t) && EchildInv(t) && RecheckInv(t) && ClockInv(t)
  {
    hide TreeOk, AdoptionInv, PipeInv, ExitInv, Slept;
    FactsOf(s);
    if e.DrainEchild? { NoChildrenNoDescendants(s.os); }
  }

  lemma DrainEndKeeps(s: State, e: Event, t: State)
    requires Inv(s) && Moved(s, DrainEndStep(s.config, s.os, s.l, e), t)
    ensures Inv(t)
  {
    hide TreeInv, AdoptionInv, ExitInv, PipeInv, TreeMove, PipesMove, DrainEndStep, ClockInv, ControlInv;
    FactsOf(s);
    DrainEndMoves(s, e, t);
    DrainEndControl(s, e, t);
    TreeMoveKeeps(s, t, None);
    PipesKept(s, t);
  }

  lemma DrainEndMoves(s: State, e: Event, t: State)
    requires Inv(s) && Moved(s, DrainEndStep(s.config, s.os, s.l, e), t)
    ensures TreeMove(s, t, None) && PipesMove(s, t)
  {
    hide TreeOk, AdoptionInv, PipeInv, ClockInv, ExitInv, Children;
  }

  lemma DrainEndFlow(c: Config, os: Os, l: Launcher, e: Event)
    requires FlowOk(l) && DrainEndStep(c, os, l, e).Some?
    ensures FlowOk(DrainEndStep(c, os, l, e).value.1)
  {
    hide Children;
  }

  lemma DrainEndControl(s: State, e: Event, t: State)
    requires Inv(s) && Moved(s, DrainEndStep(s.config, s.os, s.l, e), t)
    ensures ControlInv(t) && EchildInv(t) && RecheckInv(t) && ClockInv(t)
  {
    hide TreeInv, AdoptionInv, PipeInv, ExitInv, Children, Slept, FlowOk;
    DrainEndFlow(s.config, s.os, s.l, e);
    SleptStep(s.l.drain.rounds, s.config.poll);
  }

  lemma HandlerKeeps(s: State, e: Event, t: State)
    requires Inv(s) && Moved(s, HandlerStep(s.os, s.l, e), t)
    ensures Inv(t)
  {
    hide TreeInv, AdoptionInv, ExitInv, PipeInv, TreeMove, PipesMove, HandlerStep, ClockInv, ControlInv;
    HandlerMoves(s, e, t);
    HandlerControl(s, e, t);
    PipesKept(s, t);
    if s.l.direct.Some? {
      TreeMoveKeeps(s, t, if e.WaitReaps? then s.l.direct else None);
    } else {
      NoDirectKeeps(s, t);
    }
  }

  lemma HandlerMoves(s: State, e: Event, t: State)
    requires Inv(s) && Moved(s, HandlerStep(s.os, s.l, e), t)
    ensures PipesMove(s, t)
    ensures if s.l.direct.Some? then TreeMove(s, t, if e.WaitReaps? then s.l.direct else None) else NoDirectMove(s, t)
  {
    hide TreeOk, AdoptionInv, PipeInv, ClockInv, ExitInv;
  }

  lemma HandlerFlow(os: Os, l: Launcher, e: Event)
    requires FlowOk(l) && HandlerStep(os, l, e).Some?
    ensures FlowOk(HandlerStep(os, l, e).value.1)
  {
    hide Reap;
  }

  lemma HandlerClock(s: State, e: Event, t: State)
    requires Inv(s) && Moved(s, HandlerStep(s.os, s.l, e), t)
    ensures ClockInv(t)
  {
    hide TreeInv, AdoptionInv, PipeInv, Slept, FlowOk, ExitInv, EchildInv, StatusInv;
  }

  lemma HandlerStatus(s: State, e: Event, t: State)
    requires Inv(s) && Moved(s, HandlerStep(s.os, s.l, e), t)
    ensures StatusInv(t) && EchildInv(t) && RecheckInv(t)
  {
    hide TreeInv, AdoptionInv, PipeInv, Slept, ClockInv, WaitStep;
    if s.l.pc.HandlerWait? && !e.Aborts? && !e.GivesUpWaiting? { WaitStatus(s, e); }
  }

  // Waiting for the direct child in the handler.
  lemma WaitStatus(s: State, e: Event)
    requires ExitInv(s) && StatusInv(s) && EchildInv(s) && s.l.pc.HandlerWait?
    requires WaitStep(s.os, s.l, e, HandlerCheck, s.l).Some?
    ensures var (os, l) := WaitStep(s.os, s.l, e, HandlerCheck, s.l).value;
            var t := s.(os := os, l := l);
            StatusInv(t) && EchildInv(t) && RecheckInv(t)
  {
  }

  lemma HandlerControl(s: State, e: Event, t: State)
    requires Inv(s) && Moved(s, HandlerStep(s.os, s.l, e), t)
    ensures ControlInv(t) && EchildInv(t) && RecheckInv(t) && ClockInv(t)
  {
    hide TreeInv, AdoptionInv, PipeInv, Slept, FlowOk, ExitInv, EchildInv, StatusInv, RecheckInv, ClockInv;
    HandlerFlow(s.os, s.l, e);
    HandlerClock(s, e, t);
    HandlerStatus(s, e, t);
  }

  lemma FinishKeeps(s: State, e: Event, t: State)
    requires Inv(s) && Moved(s, FinishStep(s.os, s.l, e), t)
    ensures Inv(t)
  {
    hide TreeInv, AdoptionInv, ExitInv, PipeInv, TreeMove, PipesMove, FinishStep, ClockInv, ControlInv;
    FinishMoves(s, e, t);
    FinishControl(s, e, t);
    PipesKept(s, t);
    if s.l.direct.Some? { TreeMoveKeeps(s, t, None); } else { NoDirectKeeps(s, t); }
  }

  lemma FinishMoves(s: State, e: Event, t: State)
    requires Inv(s) && Moved(s, FinishStep(s.os, s.l, e), t)
    ensures PipesMove(s, t)
    ensures if s.l.direct.Some? then TreeMove(s, t, None) else NoDirectMove(s, t)
  {
    hide TreeOk, AdoptionInv, PipeInv, ClockInv, ExitInv;
  }

  lemma FinishFlow(os: Os, l: Launcher, e: Event)
    requires FlowOk(l) && FinishStep(os, l, e).Some?
    ensures FlowOk(FinishStep(os, l, e).value.1)
  {
    hide FlowOk;
    if l.pc.FinalPipes? { PipesFlow(l); } else { EndFlow(os, l, e); }
  }

  lemma PipesFlow(l: Launcher)
    requires FlowOk(l) && l.pc.FinalPipes?
    ensures FlowOk(if l.io.open != {} then Raise(l) else l.(pc := Finally))
  {
  }

  lemma EndFlow(os: Os, l: Launcher, e: Event)
    requires FlowOk(l) && !l.pc.FinalPipes? && FinishStep(os, l, e).Some?
    ensures FlowOk(FinishStep(os, l, e).value.1)
  {
  }

  lemma FinishClock(s: State, e: Event, t: State)
    requires Inv(s) && Moved(s, FinishStep(s.os, s.l, e), t)
    ensures ClockInv(t)
  {
    hide TreeInv, AdoptionInv, PipeInv, Slept, FlowOk, ExitInv, EchildInv, StatusInv;
  }

  lemma FinishStatus(s: State, e: Event, t: State)
    requires Inv(s) && Moved(s, FinishStep(s.os, s.l, e), t)
    ensures StatusInv(t) && EchildInv(t) && RecheckInv(t)
  {
    hide TreeInv, AdoptionInv, PipeInv, Slept, ClockInv, ExitInv, FlowOk;
  }

  lemma FinishControl(s: State, e: Event, t: State)
    requires Inv(s) && Moved(s, FinishStep(s.os, s.l, e), t)
    ensures ControlInv(t) && EchildInv(t) && RecheckInv(t) && ClockInv(t)
  {
    hide TreeInv, AdoptionInv, PipeInv, Slept, FlowOk, ExitInv, EchildInv, StatusInv, RecheckInv, ClockInv;
    FinishFlow(s.os, s.l, e);
    FinishClock(s, e, t);
    FinishStatus(s, e, t);
  }

  lemma JudgeKeeps(s: State, e: Event, t: State)
    requires Inv(s) && Moved(s, JudgeStep(s.os, s.l, e), t)
    ensures Inv(t)
  {
    hide TreeOk, AdoptionInv, PipeInv, Children, Slept, ExitInv;
    FactsOf(s);
    PipesKept(s, t);
    if s.l.direct.Some? { TreeMoveKeeps(s, t, None); } else { NoDirectKeeps(s, t); }
    hide TreeInv;
  }

  // Nothing was spawned, so there is nothing to keep.
  ghost predicate NoDirectMove(s: State, t: State)
  {
    && s.l.direct == None && t.l.direct == None
    && t.os.processes == s.os.processes && t.os.next == s.os.next && t.os.adopted == s.os.adopted
    && t.os.exits == s.os.exits && !t.l.pc.Fork?
    && (t.l.restored ==> (t.l.pc.PostAttest? || t.l.pc.Verdict? || t.l.pc.Aborted?) || t.l.pc.Done?)
  }

  lemma NoDirectKeeps(s: State, t: State)
    requires TreeInv(s) && ExitInv(s) && NoDirectMove(s, t)
    ensures TreeInv(t) && AdoptionInv(t) && ExitInv(t)
  {
    hide TreeOk;
    SameTree(s.os, t.os);
  }

  lemma FactsOf(s: State)
    requires Inv(s)
    ensures TreeOk(s.os) && ((s.l.pc.Start? || s.l.pc.Spawn? || s.l.pc.Fork?) ==> s.l.direct == None)
    ensures ((s.l.pc.Attach? || s.l.pc.Poll? || s.l.pc.WaitDirect? || s.l.pc.Deadline?) || InDrain(s.l.pc) ==> s.l.direct.Some?)
  {
  }

  lemma RaiseKeeps(s: State, t: State)
    requires Inv(s) && InTry(s.l.pc) && t == s.(l := Raise(s.l))
    ensures Inv(t)
  {
    hide PipeInv;
    PipesKept(s, t);
  }

  lemma StepKeeps(s: State, e: Event)
    requires Inv(s) && Step(s, e).Some?
    ensures Inv(Step(s, e).value)
  {
    hide Inv, OsStep, SetupStep, ReadStep, WatchStep, DrainScanStep, DrainWaitStep, DrainEndStep, HandlerStep,
         FinishStep, JudgeStep;
    var t := Step(s, e).value;
    if OsStep(s.os, e).Some? {
      OsKeeps(s, e);
    } else if e.Reads? || e.ReadsEof? {
      ReadKeeps(s, e, t);
    } else if e.Raises? {
      RaiseKeeps(s, t);
    } else if (s.l.pc.Start? || s.l.pc.Spawn? || s.l.pc.Fork? || s.l.pc.Attach?) {
      SetupKeeps(s, e, t);
    } else if (s.l.pc.Poll? || s.l.pc.WaitDirect? || s.l.pc.Deadline?) {
      WatchKeeps(s, e, t);
    } else if (s.l.pc.DrainStart? || s.l.pc.DrainScan? || s.l.pc.DrainCheck? || s.l.pc.DrainKill?) {
      DrainScanKeeps(s, e, t);
    } else if s.l.pc.DrainWait? {
      DrainWaitKeeps(s, e, t);
    } else if InDrain(s.l.pc) {
      DrainEndKeeps(s, e, t);
    } else if (s.l.pc.HandlerWait? || s.l.pc.HandlerCheck? || s.l.pc.HandlerPipes?) {
      HandlerKeeps(s, e, t);
    } else if (s.l.pc.FinalPipes? || s.l.pc.Finally? || s.l.pc.PostAttest?) {
      FinishKeeps(s, e, t);
    } else {
      JudgeKeeps(s, e, t);
    }
  }

  lemma InitialInv(config: Config, runtime: int, now: nat)
    ensures Inv(Initial(config, runtime, now))
  {
    var s := Initial(config, runtime, now);
    forall st: Stream ensures LogOk(s, st) {
      match st { case Stdout => case Stderr => }
    }
  }

  lemma {:induction false} RunKeeps(s: State, events: seq<Event>)
    requires Inv(s) && Run(s, events).Some?
    ensures Inv(Run(s, events).value)
  {
    hide Inv, Step;
    if events != [] {
      var n := |events| - 1;
      RunKeeps(s, events[..n]);
      StepKeeps(Run(s, events[..n]).value, events[n]);
    }
  }

  // ---------------------------------------------------------------- what acceptance means

  ghost predicate From(s0: State, s: State)
  {
    exists events :: Run(s0, events) == Some(s)
  }

  ghost predicate Reachable(config: Config, runtime: int, now: nat, s: State)
  {
    From(Initial(config, runtime, now), s)
  }

  // The command ran alone, ended well, and everything it wrote was read.
  ghost predicate Contained(s: State, runtime: int)
  {
    && s.l.direct.Some? && s.l.direct.value in s.os.exits && s.os.exits[s.l.direct.value] == 0
    && !s.l.watch.timedOut
    && s.os.adopted == {} && s.os.processes == map[]
    && s.l.io.open == {}
    && (forall st: Stream :: st in s.os.pipes && st in s.l.io.logs && s.l.io.logs[st] == s.os.pipes[st].written)
    && s.l.pre == runtime && s.l.post == Some(runtime)
  }

  lemma {:induction false} PreStays(s: State, events: seq<Event>)
    requires Run(s, events).Some?
    ensures Run(s, events).value.l.pre == s.l.pre && Run(s, events).value.config == s.config
  {
    hide Step;
    if events != [] {
      PreStays(s, events[..|events| - 1]);
      PreStep(Run(s, events[..|events| - 1]).value, events[|events| - 1]);
    }
  }

  lemma PreStep(s: State, e: Event)
    requires Step(s, e).Some?
    ensures Step(s, e).value.l.pre == s.l.pre && Step(s, e).value.config == s.config
  {
    hide OsStep, LauncherStep;
  }

  // In every interleaving, an accepted record means containment. A child that only the scan before
  // SIGKILL has seen is covered: it was adopted, so it must be reaped by the drain, which reports it.
  lemma AcceptedIsContained(config: Config, runtime: int, now: nat, s: State)
    requires Reachable(config, runtime, now, s) && s.l.pc.Done? && s.l.pc.accepted
    ensures Contained(s, runtime)
  {
    hide Run, TreeOk, ClockInv, ExitInv;
    var initial := Initial(config, runtime, now);
    var events :| Run(initial, events) == Some(s);
    InitialInv(config, runtime, now);
    RunKeeps(initial, events);
    PreStays(initial, events);
    forall st: Stream
      ensures st in s.os.pipes && st in s.l.io.logs && s.l.io.logs[st] == s.os.pipes[st].written
    {
      assert LogOk(s, st) && Drained(s.os, st);
      assert s.os.pipes[st].written[..|s.os.pipes[st].written|] == s.os.pipes[st].written;
    }
    assert forall a :: a !in s.os.adopted;
  }

  // A verified ECHILD is final, also in runs that are refused: no descendant is left, ever.
  lemma EchildIsFinal(config: Config, runtime: int, now: nat, s: State)
    requires Reachable(config, runtime, now, s) && s.l.seen.echildVerified
    ensures s.os.processes == map[]
  {
    hide Run, TreeOk;
    var initial := Initial(config, runtime, now);
    var events :| Run(initial, events) == Some(s);
    InitialInv(config, runtime, now);
    RunKeeps(initial, events);
  }

  // The drain ends: each round sleeps for at least one poll interval and a round is entered only
  // before the cleanup deadline, so apart from interrupted waits there are boundedly many.
  lemma DrainTerminates(config: Config, runtime: int, now: nat, s: State)
    requires config.poll > 0
    requires Reachable(config, runtime, now, s)
    ensures s.l.drain.rounds <= config.cleanup / config.poll + 1
  {
    hide Run, TreeOk;
    var initial := Initial(config, runtime, now);
    var events :| Run(initial, events) == Some(s);
    InitialInv(config, runtime, now);
    RunKeeps(initial, events);
    PreStays(initial, events);
    if s.l.drain.rounds > 0 {
      QuotientBound(s.l.drain.rounds - 1, config.poll, config.cleanup);
    }
  }

  lemma QuotientBound(n: nat, poll: nat, cleanup: nat)
    requires poll > 0 && n * poll < cleanup
    ensures n <= cleanup / poll
  {
    var q := cleanup / poll;
    assert cleanup < (q + 1) * poll;
    if n > q { ProductGrows(q + 1, n, poll); }
  }

  lemma ProductGrows(a: nat, b: nat, c: nat)
    requires a <= b
    ensures a * c <= b * c
  {
  }

  // ---------------------------------------------------------------- acceptance is possible

  lemma Extend(start: State, s: State, e: Event)
    requires From(start, s) && Step(s, e).Some?
    ensures From(start, Step(s, e).value)
  {
    hide Step;
    var events :| Run(start, events) == Some(s);
    assert (events + [e])[..|events|] == events;
    assert Run(start, events + [e]) == Step(s, e);
  }

  // A step of the launcher, and one of a process, at the end of a run.
  lemma Acts(start: State, s: State, e: Event) returns (t: State)
    requires From(start, s) && !OfSystem(e) && LauncherStep(s.config, s.os, s.l, e).Some?
    ensures From(start, t) && Moved(s, LauncherStep(s.config, s.os, s.l, e), t)
  {
    hide LauncherStep, From;
    t := Step(s, e).value;
    Extend(start, s, e);
  }

  lemma Happens(start: State, s: State, e: Event) returns (t: State)
    requires From(start, s) && OsStep(s.os, e).Some?
    ensures From(start, t) && t == s.(os := OsStep(s.os, e).value)
  {
    hide LauncherStep, OsStep, From;
    t := Step(s, e).value;
    Extend(start, s, e);
  }

  lemma CleanSpawn(s0: State) returns (t: State)
    requires s0 == Initial(s0.config, s0.os.runtime, s0.os.now)
    ensures From(s0, t)
    ensures t == s0.(os := s0.os.(processes := map[2 := DIRECT], next := 3, subreaper := true),
                     l := s0.l.(direct := Some(2), pc := Poll, io := s0.l.io.(open := {Stdout, Stderr}),
                                watch := Watch(false, s0.os.now + s0.config.timeout)))
  {
    hide Run, From, OsStep;
    StartRun(s0);
    var s1 := Acts(s0, s0, Attests);
    var s2 := Acts(s0, s1, EnablesSubreaper);
    var s3 := Acts(s0, s2, SpawnsDirect);
    t := Acts(s0, s3, AttachesPipes);
  }

  lemma StartRun(s: State)
    ensures From(s, s)
  {
    assert Run(s, []) == Some(s);
  }

  // The child has exited with 0 after writing `output`, and the launcher has reaped it.
  ghost predicate CleanlyReaped(s0: State, s: State, output: seq<Byte>)
  {
    && s.config == s0.config && s.l.pre == s.os.runtime == s0.os.runtime
    && s.os.processes == map[] && s.l.status == Some(0) && s.l.direct.Some?
    && !s.l.failed && !s.l.handling && !s.l.watch.timedOut && !s.l.seen.descendantsObserved
    && s.os.pipes == map[Stdout := Pipe(output, |output|), Stderr := Pipe([], 0)]
    && s.l.io == Io({Stdout, Stderr}, map[Stdout := output, Stderr := []])
  }

  lemma CleanExit(start: State, s0: State, s: State, output: seq<Byte>) returns (t: State)
    requires s0 == Initial(s0.config, s0.os.runtime, s0.os.now) && From(start, s) && output != []
    requires s == s0.(os := s0.os.(processes := map[2 := DIRECT], next := 3, subreaper := true, now := s.os.now),
                      l := s0.l.(direct := Some(2), pc := Poll, io := s0.l.io.(open := {Stdout, Stderr}),
                                 watch := Watch(false, s0.os.now + s0.config.timeout)))
    ensures From(start, t) && CleanlyReaped(s0, t, output) && t.l.pc.DrainStart?
  {
    hide Run, From, OsStep;
    var s2 := CleanOutput(start, s0, s, output);
    var s3 := Acts(start, s2, Reads(Stdout, |output|));
    assert s3.l.io.logs[Stdout] == output;
    var s4 := Acts(start, s3, EndsPoll);
    t := Acts(start, s4, WaitReaps);
  }

  // The child 2 writes and exits.
  lemma CleanOutput(start: State, s0: State, s: State, output: seq<Byte>) returns (t: State)
    requires From(start, s) && s.os.processes == map[2 := DIRECT]
    requires s.os.pipes == map[Stdout := Pipe([], 0), Stderr := Pipe([], 0)]
    ensures From(start, t) && t == s.(os := t.os) && t.os.runtime == s.os.runtime
    ensures t.os.processes == map[2 := Process(LAUNCHER, false, Zombie(0), {})]
    ensures t.os.pipes == map[Stdout := Pipe(output, 0), Stderr := Pipe([], 0)]
  {
    hide Run, From, LauncherStep, HeirOf;
    var s1 := Happens(start, s, Writes(2, Stdout, output));
    assert s1.os.pipes[Stdout] == Pipe(output, 0);
    t := Happens(start, s1, Exits(2, 0));
  }

  lemma CleanDrain(start: State, s0: State, s: State, output: seq<Byte>) returns (t: State)
    requires From(start, s) && CleanlyReaped(s0, s, output) && s.l.pc.DrainStart? && s.config.grace > 0
    ensures From(start, t) && CleanlyReaped(s0, t, output) && t.l.pc.FinalPipes? && t.l.seen.echildVerified
  {
    hide Run, From, OsStep;
    var s1 := Acts(start, s, BeginsDrain);
    var s2 := Acts(start, s1, Scans);
    var s3 := Acts(start, s2, ChecksGrace);
    var s4 := Acts(start, s3, DrainEchild);
    t := Acts(start, s4, Rechecks);
  }

  lemma CleanPipes(start: State, s0: State, s: State, output: seq<Byte>) returns (t: State)
    requires From(start, s) && CleanlyReaped(s0, s, output) && s.l.pc.FinalPipes? && s.l.seen.echildVerified
    ensures From(start, t) && t == s.(l := s.l.(io := s.l.io.(open := {}), pc := Finally))
  {
    hide Run, From, OsStep;
    var s1 := Acts(start, s, ReadsEof(Stdout));
    var s2 := Acts(start, s1, ReadsEof(Stderr));
    assert s2.l.io.open == {};
    t := Acts(start, s2, EndsPipes);
  }

  lemma CleanFinish(start: State, s0: State, s: State, output: seq<Byte>) returns (t: State)
    requires From(start, s) && CleanlyReaped(s0, s.(l := s.l.(io := s.l.io.(open := {Stdout, Stderr}))), output)
    requires s.l.pc.Finally? && s.l.seen.echildVerified
    ensures From(start, t) && t.l.pc.Done? && t.l.pc.accepted && t.l.io.logs == s.l.io.logs
  {
    hide Run, From, OsStep;
    var s1 := Acts(start, s, RestoresSubreaper(true));
    var s2 := Acts(start, s1, AttestsAgain(true));
    t := Acts(start, s2, Judges);
  }

  // Acceptance is possible: a single child that writes its output and exits with 0 before the drain
  // begins is accepted, and its output is in the log.
  lemma CleanRunIsAccepted(config: Config, runtime: int, now: nat, output: seq<Byte>)
    requires config.grace > 0 && output != []
    ensures exists s :: Reachable(config, runtime, now, s) && s.l.pc.Done? && s.l.pc.accepted
                        && Stdout in s.l.io.logs && s.l.io.logs[Stdout] == output
  {
    hide Run, CleanlyReaped;
    var s0 := Initial(config, runtime, now);
    var a := CleanSpawn(s0);
    var b := CleanExit(s0, s0, a, output);
    ReapedConfig(s0, b, output);
    var c := CleanDrain(s0, s0, b, output);
    var d := CleanPipes(s0, s0, c, output);
    PipesReopened(s0, c, d, output);
    var e := CleanFinish(s0, s0, d, output);
    assert Reachable(config, runtime, now, e);
  }

  lemma PipesReopened(s0: State, s: State, t: State, output: seq<Byte>)
    requires CleanlyReaped(s0, s, output) && t == s.(l := s.l.(io := s.l.io.(open := {}), pc := Finally))
    ensures CleanlyReaped(s0, t.(l := t.l.(io := t.l.io.(open := {Stdout, Stderr}))), output)
    ensures Stdout in t.l.io.logs && t.l.io.logs[Stdout] == output
  {
  }

  lemma ReapedConfig(s0: State, s: State, output: seq<Byte>)
    requires CleanlyReaped(s0, s, output)
    ensures s.config == s0.config
  {
  }
}
