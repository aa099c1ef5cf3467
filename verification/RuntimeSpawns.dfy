/**
 * Children and ready promises of the runtime over whole runs: a superseded child stays out of it,
 * and a cell is sent to the kernel it was issued to exactly when that kernel's ready promise was
 * not rejected while the kernel was still to come.
 */
module RuntimeSpawns {
  import opened Wrappers
  import opened RuntimeModel
  import opened RuntimeInvariants
  import opened RuntimeEffects

  // ---- Superseded children ----

  lemma {:induction false} StaysSuperseded(s: State, es: seq<Event>, child: nat)
    requires child < s.proc.nextChild && s.proc.child != Some(child)
    ensures child < Run(s, es).proc.nextChild && Run(s, es).proc.child != Some(child)
    decreases |es|
  {
    if es != [] {
      SupersededStep(s, es[0], child);
      StaysSuperseded(Step(s, es[0]), es[1..], child);
    }
  }

  predicate NoNewChild(p: Process, p': Process) {
    (p'.child == p.child || p'.child == None) && p'.nextChild == p.nextChild
  }

  lemma NoNewChildByTimers(s: State, t: Timer, id: nat)
    ensures NoNewChild(s.proc, FireStep(s, t).proc) && NoNewChild(s.proc, GraceStep(s, id).proc)
  {
    hide Settle, Disarm, Waiting;
  }

  lemma NoNewChildByCalls(s: State, id: nat)
    ensures NoNewChild(s.proc, CancelStep(s).proc) && NoNewChild(s.proc, DisposeStep(s).proc)
    ensures NoNewChild(s.proc, SendRunStep(s, id).proc) && NoNewChild(s.proc, RunCellStep(s).proc)
  {
    hide FailAll, Register, SettleIfWaiting;
  }

  lemma NoNewChildByKernels(s: State, child: nat, frame: Frame)
    ensures NoNewChild(s.proc, ExitStep(s, child).proc) && NoNewChild(s.proc, ReceiveStep(s, frame).proc)
  {
    hide FailAll, Settle, ResetInactivity, AnswerSnapshot;
  }

  lemma SupersededStep(s: State, e: Event, child: nat)
    requires child < s.proc.nextChild && s.proc.child != Some(child)
    ensures child < Step(s, e).proc.nextChild && Step(s, e).proc.child != Some(child)
  {
    hide FireStep, GraceStep, CancelStep, DisposeStep, SendRunStep, RunCellStep;
    hide ExitStep, ReceiveStep, FailAll, AddSnapshot;
    match e
    case RunCell | Cancel | Dispose => NoNewChildByCalls(s, 0);
    case SendRun(id) => NoNewChildByCalls(s, id);
    case Fire(t) => NoNewChildByTimers(s, t, 0);
    case GraceElapsed(id) => NoNewChildByTimers(s, Timer(0, Total, 0), id);
    case Exit(c) => NoNewChildByKernels(s, c, Ready);
    case Receive(_, frame) => NoNewChildByKernels(s, 0, frame);
    case _ =>
  }

  /** The run without the frames of a child. */
  function Silenced(es: seq<Event>, child: nat): seq<Event> {
    if es == [] then []
    else (if es[0].Receive? && es[0].child == child then [] else [es[0]]) + Silenced(es[1..], child)
  }

  /** Whatever a superseded child still writes, every run ends as if it had been silent. */
  lemma {:induction false} SupersededFramesAreErasable(s: State, es: seq<Event>, child: nat)
    requires child < s.proc.nextChild && s.proc.child != Some(child)
    ensures Run(s, Silenced(es, child)) == Run(s, es)
    ensures Possible(s, es) ==> Possible(s, Silenced(es, child))
    decreases |es|
  {
    if es != [] {
      var e, rest := es[0], Silenced(es[1..], child);
      if e.Receive? && e.child == child {
        SupersededIsIgnored(s, child, e.frame);
        assert Silenced(es, child) == rest;
        SupersededFramesAreErasable(s, es[1..], child);
      } else {
        SupersededStep(s, e, child);
        SupersededFramesAreErasable(Step(s, e), es[1..], child);
        assert ([e] + rest)[1..] == rest;
        hide Step, Enabled;
      }
    }
  }

  // ---- Ready promises ----

  /** Rejecting the promise of a kernel still to come, or of one that reports it cannot start. */
  predicate Spoils(s: State, e: Event) {
    && s.proc.ready !in s.proc.resolvedReady && s.proc.child.Some?
    && (|| (e == Exit(s.proc.child.value) && !s.disposed && s.proc.spawning > 0)
        || e == Receive(s.proc.child.value, StartupError))
  }

  /** Whether the current ready promise was spoiled since its spawn began. */
  function Spoiled(s: State, es: seq<Event>, was: bool): bool
    decreases |es|
  {
    if es == [] then was else Spoiled(Step(s, es[0]), es[1..], SpoiledNext(s, es[0], was))
  }

  function SpoiledNext(s: State, e: Event, was: bool): bool {
    Step(s, e).proc.ready == s.proc.ready && (was || Spoils(s, e))
  }

  ghost predicate PromisesOk(p: Process) {
    && p.resolvedReady !! p.rejectedReady
    && forall r :: r in p.resolvedReady || r in p.rejectedReady ==> r <= p.ready
  }

  /** A rejected promise that was not spoiled belongs to a kernel that is gone. */
  ghost predicate ReadyInv(p: Process, spoiled: bool) {
    && PromisesOk(p)
    && (spoiled ==> p.ready in p.rejectedReady)
    && (p.ready in p.rejectedReady && !spoiled ==> !p.alive && p.spawning == 0)
  }

  lemma ReadyExit(s: State, child: nat, was: bool)
    requires ReadyInv(s.proc, was)
    ensures ReadyInv(ExitStep(s, child).proc, was || Spoils(s, Exit(child)))
    ensures ExitStep(s, child).proc.ready == s.proc.ready
  {
    hide FailAll;
  }

  lemma ReadyReceive(s: State, frame: Frame, was: bool)
    requires ReadyInv(s.proc, was) && s.proc.child.Some?
    ensures ReadyInv(ReceiveStep(s, frame).proc, was || Spoils(s, Receive(s.proc.child.value, frame)))
    ensures ReceiveStep(s, frame).proc.ready == s.proc.ready
  {
    hide Settle, ResetInactivity, AnswerSnapshot;
  }

  /** The promises as they were, and no life without a spawn. */
  predicate KeepsPromises(p: Process, p': Process) {
    && p'.ready == p.ready && p'.resolvedReady == p.resolvedReady && p'.rejectedReady == p.rejectedReady
    && p'.spawning <= p.spawning && (p'.alive ==> p.alive || p.spawning > 0)
  }

  predicate NewPromise(p: Process, p': Process) {
    p'.ready == p.ready + 1 && p'.resolvedReady == p.resolvedReady && p'.rejectedReady == p.rejectedReady
  }

  lemma TimerSteps(s: State, t: Timer, id: nat)
    ensures KeepsPromises(s.proc, FireStep(s, t).proc) && KeepsPromises(s.proc, GraceStep(s, id).proc)
  {
    hide Settle, Disarm, Waiting;
  }

  lemma CallSteps(s: State, id: nat)
    ensures KeepsPromises(s.proc, CancelStep(s).proc) && KeepsPromises(s.proc, DisposeStep(s).proc)
    ensures SendRunStep(s, id).proc == s.proc
    ensures RunCellStep(s).proc == s.proc || NewPromise(s.proc, RunCellStep(s).proc)
  {
    hide FailAll, Register, SettleIfWaiting;
  }

  lemma OtherSteps(s: State, e: Event)
    requires !e.Exit? && !e.Receive?
    ensures KeepsPromises(s.proc, Step(s, e).proc) || NewPromise(s.proc, Step(s, e).proc)
  {
    hide FireStep, GraceStep, CancelStep, DisposeStep, SendRunStep, RunCellStep, FailAll, AddSnapshot;
    match e
    case RunCell | Cancel | Dispose => CallSteps(s, 0);
    case SendRun(id) => CallSteps(s, id);
    case Fire(t) => TimerSteps(s, t, 0);
    case GraceElapsed(id) => TimerSteps(s, Timer(0, Total, 0), id);
    case _ =>
  }

  /** Every other step leaves the promises alone, or begins a spawn with a new one. */
  lemma ReadyOther(s: State, e: Event, was: bool)
    requires ReadyInv(s.proc, was) && !e.Exit? && !e.Receive?
    ensures ReadyInv(Step(s, e).proc, SpoiledNext(s, e, was))
  {
    OtherSteps(s, e);
    hide Step;
  }

  lemma ReadyStep(s: State, e: Event, was: bool)
    requires ReadyInv(s.proc, was)
    ensures ReadyInv(Step(s, e).proc, SpoiledNext(s, e, was))
  {
    hide ReadyInv, ExitStep, ReceiveStep;
    match e
    case Exit(child) => ReadyExit(s, child, was);
    case Receive(child, frame) => if s.proc.child == Some(child) { ReadyReceive(s, frame, was); }
    case _ => ReadyOther(s, e, was);
  }

  lemma {:induction false} ReadyRun(s: State, es: seq<Event>, was: bool)
    requires ReadyInv(s.proc, was)
    ensures ReadyInv(Run(s, es).proc, Spoiled(s, es, was))
    decreases |es|
  {
    if es != [] {
      ReadyStep(s, es[0], was);
      ReadyRun(Step(s, es[0]), es[1..], SpoiledNext(s, es[0], was));
    }
  }

  /** With a kernel alive or on its way, its ready promise is rejected exactly when something spoiled it. */
  lemma RejectedIffSpoiled(es: seq<Event>)
    ensures var p := Run(Initial, es).proc;
            p.alive || p.spawning > 0 ==> (p.ready in p.rejectedReady <==> Spoiled(Initial, es, false))
  {
    ReadyRun(Initial, es, false);
  }

  /** Promises settle once. */
  lemma {:induction false} PromisesStick(s: State, es: seq<Event>, r: nat)
    requires PromisesOk(s.proc)
    ensures PromisesOk(Run(s, es).proc) && s.proc.ready <= Run(s, es).proc.ready
    ensures r in s.proc.resolvedReady ==> r in Run(s, es).proc.resolvedReady
    ensures r in s.proc.rejectedReady ==> r in Run(s, es).proc.rejectedReady
    decreases |es|
  {
    if es != [] {
      PromisesStickStep(s, es[0], r);
      PromisesStick(Step(s, es[0]), es[1..], r);
    }
  }

  lemma PromisesStickStep(s: State, e: Event, r: nat)
    requires PromisesOk(s.proc)
    ensures PromisesOk(Step(s, e).proc) && s.proc.ready <= Step(s, e).proc.ready
    ensures r in s.proc.resolvedReady ==> r in Step(s, e).proc.resolvedReady
    ensures r in s.proc.rejectedReady ==> r in Step(s, e).proc.rejectedReady
  {
    match e
    case Exit(child) => hide FailAll;
    case Receive(child, frame) => hide Settle, ResetInactivity, AnswerSnapshot;
    case _ =>
      OtherSteps(s, e);
      hide Step;
  }

  /**
   * A kernel reports ready and later, with no further spawn begun, a cell is issued to it alive:
   * the cell's run frame can be sent exactly when nothing had spoiled the kernel's promise.
   */
  lemma IssuedToReadyKernelIff(es: seq<Event>, child: nat, later: seq<Event>)
    requires var s := Run(Initial, es); s.proc.child == Some(child) && (s.proc.alive || s.proc.spawning > 0)
    requires var s, t := Run(Initial, es), Run(Step(Run(Initial, es), Receive(child, Ready)), later);
             t.proc.ready == s.proc.ready && t.proc.alive && !t.disposed
    ensures var t := Run(Step(Run(Initial, es), Receive(child, Ready)), later);
            Enabled(Step(t, RunCell), SendRun(t.cells.nextId)) <==> !Spoiled(Initial, es, false)
  {
    var s := Run(Initial, es);
    var t := Step(s, Receive(child, Ready));
    ReadyRun(Initial, es, false);
    RejectedIffSpoiled(es);
    assert s.proc.ready in t.proc.resolvedReady <==> s.proc.ready !in s.proc.rejectedReady;
    PromisesStickStep(s, Receive(child, Ready), s.proc.ready);
    PromisesStick(t, later, s.proc.ready);
    hide Run, Spoiled, Register;
  }

  /** A cell bound to a rejected promise is never sent. */
  lemma {:induction false} RejectedIsNeverSent(s: State, es: seq<Event>, id: nat)
    requires Inv(s) && PromisesOk(s.proc) && Possible(s, es)
    requires id in s.sends.unsent && s.sends.unsent[id] in s.proc.rejectedReady
    ensures var t := Run(s, es);
            && id in t.sends.unsent && !Enabled(t, SendRun(id))
            && forall i :: 0 <= i < |t.sends.sent| ==> t.sends.sent[i].1 != id
    decreases |es|
  {
    if es != [] {
      StepKeeps(s, es[0]);
      PromisesStickStep(s, es[0], s.sends.unsent[id]);
      UnsentStays(s, es[0], id);
      RejectedIsNeverSent(Step(s, es[0]), es[1..], id);
    }
  }

  lemma UnsentStays(s: State, e: Event, id: nat)
    requires Inv(s) && Enabled(s, e) && e != SendRun(id) && id in s.sends.unsent
    ensures id in Step(s, e).sends.unsent && Step(s, e).sends.unsent[id] == s.sends.unsent[id]
  {
    assert id in s.cells.calls;
    assert id < s.cells.nextId;
    hide Inv, FailAll, Settle, Register, ResetInactivity, AnswerSnapshot, AddSnapshot, Disarm, SettleIfWaiting;
  }

  /** The killed kernel's exit comes after the restart has begun; the next kernel is up and its cell is not sent. */
  lemma SpoiledKernelIgnoresItsCell() returns (s: State)
    ensures Reachable(s) && s.proc.child == Some(1) && s.proc.alive && s.proc.childReady && s.proc.spawning == 0
    ensures 3 in s.cells.pending && 3 in s.sends.unsent && s.sends.unsent[3] in s.proc.rejectedReady
  {
    s := FirstChildTimesOut();
    ReachablePromises(s);
    s := Take(s, RunCell);
    assert s.proc.spawning == 1 && s.cells.nextId == 3 && s.proc.ready !in s.proc.resolvedReady;
    s := Take(s, Exit(0));
    assert s.proc.ready in s.proc.rejectedReady && s.cells.nextId == 3 && s.proc.nextChild == 1;
    s := Take(s, SpawnDone);
    assert s.proc.child == Some(1) && s.proc.alive && s.proc.ready in s.proc.rejectedReady && s.cells.nextId == 3;
    s := Take(s, Receive(1, Ready));
    assert s.proc.childReady && s.proc.ready in s.proc.rejectedReady && s.cells.nextId == 3 && !s.disposed;
    s := Take(s, RunCell);
  }

  lemma ReachablePromises(s: State)
    requires Reachable(s)
    ensures PromisesOk(s.proc)
  {
    var es :| Possible(Initial, es) && Run(Initial, es) == s;
    ReadyRun(Initial, es, false);
  }

  // ---- Children nobody stops ----

  predicate ToldToStop(p: Process, child: nat) {
    (child, SigTerm) in p.signals
  }

  /** The children that were alive when another one took their place. */
  function Orphans(s: State, es: seq<Event>): set<nat>
    decreases |es|
  {
    if es == [] then {}
    else OrphansAfter(s, es[0], {}) + Orphans(Step(s, es[0]), es[1..])
  }

  function OrphansAfter(s: State, e: Event, orphans: set<nat>): set<nat> {
    orphans + if e == SpawnDone && s.proc.alive && s.proc.child.Some? then {s.proc.child.value} else {}
  }

  /** The live child has neither exited nor been told to stop; a former one has, but for the orphans. */
  ghost predicate ChildrenInv(p: Process, orphans: set<nat>) {
    && (p.alive ==> p.child.Some?)
    && (p.child.Some? ==> p.child.value < p.nextChild && p.child.value !in orphans)
    && (forall c :: c in orphans ==> c < p.nextChild && !ToldToStop(p, c))
    && (forall c, g :: (c, g) in p.signals ==> c < p.nextChild)
    && (forall c :: c in p.exited ==> c < p.nextChild)
    && (forall c: nat :: c < p.nextChild ==>
          if p.alive && p.child == Some(c) then !ToldToStop(p, c) && c !in p.exited
          else ToldToStop(p, c) || c in p.exited || c in orphans)
  }

  lemma ChildrenStep(s: State, e: Event, orphans: set<nat>)
    requires Inv(s) && Enabled(s, e) && ChildrenInv(s.proc, orphans)
    ensures ChildrenInv(Step(s, e).proc, OrphansAfter(s, e, orphans))
  {
    StepProcess(s, e);
    ExitIsOfKnown(s, e);
    ChildrenAfter(s, e, Step(s, e).proc, orphans);
    hide *;
  }

  lemma ExitIsOfKnown(s: State, e: Event)
    requires Enabled(s, e)
    ensures e.Exit? ==> e.child < s.proc.nextChild
  {}

  lemma ChildrenAfter(s: State, e: Event, p': Process, orphans: set<nat>)
    requires ChildrenInv(s.proc, orphans) && ChildAfter(s, e, p') && (e.Exit? ==> e.child < s.proc.nextChild)
    ensures ChildrenInv(p', OrphansAfter(s, e, orphans))
  {
    var p := s.proc;
    KillsCurrent(s, e);
    hide Kills, Begins;
    forall c: nat
      ensures ToldToStop(p', c) <==>
                ToldToStop(p, c) || (p.child == Some(c) && (Kills(s, e) || (e == Dispose && !s.disposed)))
    {
      StopsAfter(s, e, p', c);
    }
    assert forall c, g :: (c, g) in p'.signals ==> (c, g) in p.signals || p.child == Some(c);
    hide Signals, ToldToStop;
    assert forall c :: c in p'.exited <==> c in p.exited || (e.Exit? && e.child == c);
  }

  lemma StopsAfter(s: State, e: Event, p': Process, c: nat)
    requires ChildAfter(s, e, p')
    ensures ToldToStop(p', c) <==>
              ToldToStop(s.proc, c) || (s.proc.child == Some(c) && (Kills(s, e) || (e == Dispose && !s.disposed)))
  {
    hide Kills, Begins;
    KillsCurrent(s, e);
    assert (c, SigTerm) in p'.signals <==> (c, SigTerm) in s.proc.signals || (c, SigTerm) in Signals(s, e);
  }

  lemma KillsCurrent(s: State, e: Event)
    ensures Kills(s, e) ==> s.proc.child.Some? && e != Dispose && e != SpawnDone && !e.Exit?
  {}

  lemma {:induction false} ChildrenRun(s: State, es: seq<Event>, orphans: set<nat>)
    requires Inv(s) && Possible(s, es) && ChildrenInv(s.proc, orphans)
    ensures ChildrenInv(Run(s, es).proc, orphans + Orphans(s, es))
    decreases |es|
  {
    if es == [] {
      assert orphans + {} == orphans;
    } else {
      StepKeeps(s, es[0]);
      ChildrenStep(s, es[0], orphans);
      ChildrenRun(Step(s, es[0]), es[1..], OrphansAfter(s, es[0], orphans));
      hide Inv, Step, Run, Possible, ChildrenInv;
      assert OrphansAfter(s, es[0], orphans) == orphans + OrphansAfter(s, es[0], {});
      assert orphans + Orphans(s, es)
          == OrphansAfter(s, es[0], orphans) + Orphans(Step(s, es[0]), es[1..]);
    }
  }

  /**
   * In every run, of the children that are not the live one and have not exited, exactly those are
   * never told to stop that were alive when another child took their place.
   */
  lemma NeverStoppedIff(es: seq<Event>, child: nat)
    requires Possible(Initial, es)
    requires var p := Run(Initial, es).proc;
             child < p.nextChild && child !in p.exited && !(p.alive && p.child == Some(child))
    ensures !ToldToStop(Run(Initial, es).proc, child) <==> child in Orphans(Initial, es)
  {
    assert ChildrenInv(Initial.proc, {});
    assert Inv(Initial);
    ChildrenRun(Initial, es, {});
    assert {} + Orphans(Initial, es) == Orphans(Initial, es);
    hide Run, Possible, Orphans, ToldToStop;
  }

  /** A cell is run before the first kernel's environment is there. */
  lemma TwoKernelsLive() returns (s: State)
    ensures Reachable(s) && !s.disposed && s.proc.child == Some(1) && s.proc.nextChild == 2
    ensures s.proc.signals == [] && s.proc.exited == {}
  {
    s := Initial;
    assert Possible(s, []) && Run(s, []) == s;
    s := Take(s, Start);
    assert s.proc.spawning == 1 && !s.proc.alive && s.restarts.sinceSuccess == 0 && s.proc.nextChild == 0;
    assert s.proc.signals == [] && s.proc.exited == {} && !s.disposed;
    s := Take(s, RunCell);
    assert s.proc.spawning == 2 && s.proc.signals == [] && s.proc.nextChild == 0 && s.proc.exited == {} && !s.disposed;
    s := Take(s, SpawnDone);
    s := Take(s, SpawnDone);
  }

  /** The first of them outlives even dispose. */
  lemma OrphanHappens() returns (s: State)
    ensures Reachable(s) && s.disposed && s.proc.nextChild == 2 && 0 !in s.proc.exited && !ToldToStop(s.proc, 0)
  {
    s := TwoKernelsLive();
    s := Take(s, Dispose);
  }
}
