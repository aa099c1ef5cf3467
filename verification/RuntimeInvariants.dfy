/** What every run of the runtime keeps, and what follows for its callers. */
module RuntimeInvariants {
  import opened Wrappers
  import opened RuntimeModel

  // ---- The invariant, operation by operation ----

  lemma SettleKeeps(c: Cells, id: nat, outcome: Outcome)
    requires CellsInv(c) && id in c.pending
    ensures CellsInv(Settle(c, id, outcome)) && Settle(c, id, outcome).calls.Keys == c.calls.Keys
  {
    forall t ensures t in Settle(c, id, outcome).armed <==> Owns(Settle(c, id, outcome).pending, t) {
      assert t in c.armed <==> Owns(c.pending, t);
    }
  }

  lemma FailAllKeeps(c: Cells, reason: Reason)
    requires CellsInv(c)
    ensures CellsInv(FailAll(c, reason)) && Idle(FailAll(c, reason))
    ensures FailAll(c, reason).armed == {} && FailAll(c, reason).calls.Keys == c.calls.Keys
  {
    var c' := FailAll(c, reason);
    assert c'.armed == {};
    assert c'.calls.Keys == c.calls.Keys && c'.snapshotCalls.Keys == c.snapshotCalls.Keys;
  }

  lemma RegisterIds(c: Cells)
    requires IdsInv(c)
    ensures IdsInv(Register(c)) && c.nextId !in c.calls && c.nextId !in c.snapshotCalls
  {
    var c' := Register(c);
    assert c.nextId !in c.calls && c.nextId !in c.snapshotCalls;
    forall i ensures 1 <= i < c'.nextId <==> i in c'.calls || i in c'.snapshotCalls {
      assert 1 <= i < c.nextId <==> i in c.calls || i in c.snapshotCalls;
    }
  }

  lemma RegisterTimers(c: Cells)
    requires TimersInv(c) && c.nextId !in c.pending
    ensures TimersInv(Register(c))
  {
    var c' := Register(c);
    forall t ensures t in c'.armed <==> Owns(c'.pending, t) {
      assert t in c.armed <==> Owns(c.pending, t);
    }
  }

  lemma RegisterKeeps(c: Cells)
    requires CellsInv(c)
    ensures CellsInv(Register(c)) && c.nextId !in c.calls
  {
    RegisterIds(c);
    RegisterTimers(c);
    hide IdsInv, TimersInv;
  }

  lemma ResetKeeps(c: Cells)
    requires CellsInv(c)
    ensures CellsInv(ResetInactivity(c)) && ResetInactivity(c).calls == c.calls
  {
    if c.activeId.Some? {
      var c' := ResetInactivity(c);
      forall t ensures t in c'.armed <==> Owns(c'.pending, t) {
        assert t in c.armed <==> Owns(c.pending, t);
      }
    }
  }

  lemma AddSnapshotKeeps(c: Cells)
    requires CellsInv(c)
    ensures CellsInv(AddSnapshot(c))
  {
    var c' := AddSnapshot(c);
    assert c.nextId !in c.calls && c.nextId !in c.snapshotCalls;
    forall i ensures 1 <= i < c'.nextId <==> i in c'.calls || i in c'.snapshotCalls {
      assert 1 <= i < c.nextId <==> i in c.calls || i in c.snapshotCalls;
    }
  }

  lemma AnswerSnapshotKeeps(c: Cells, id: nat)
    requires CellsInv(c)
    ensures CellsInv(AnswerSnapshot(c, id))
  {}

  lemma DropSnapshotKeeps(c: Cells, id: nat)
    requires CellsInv(c)
    ensures CellsInv(c.(pendingSnapshots := c.pendingSnapshots - {id}))
  {}

  /** Firing a timer first disarms it, which settling its cell would have done anyway. */
  lemma FireIsSettle(c: Cells, t: Timer, outcome: Outcome)
    requires CellsInv(c) && t in c.armed
    ensures Waiting(c, t.id) && Waiting(Disarm(c, t), t.id)
    ensures Settle(Disarm(c, t), t.id, outcome) == Settle(c, t.id, outcome)
  {
    assert Owns(c.pending, t);
    assert Settle(Disarm(c, t), t.id, outcome).armed == Settle(c, t.id, outcome).armed;
  }

  lemma NoteRestartKeeps(r: Restarts)
    requires RestartsInv(r) && r.sinceSuccess == 0
    ensures RestartsInv(NoteRestart(r))
  {
    assert NoteRestart(r).history[..|r.history|] == r.history;
  }

  lemma NoteCompletedKeeps(r: Restarts)
    requires RestartsInv(r)
    ensures RestartsInv(NoteCompleted(r))
  {}

  lemma RunCellKeeps(s: State)
    requires Inv(s)
    ensures Inv(RunCellStep(s))
  {
    RegisterKeeps(s.cells);
    if !RunCellRefused(s) && !s.proc.alive { NoteRestartKeeps(s.restarts); }
  }

  lemma ReceiveKeeps(s: State, frame: Frame)
    requires Inv(s)
    ensures Inv(ReceiveStep(s, frame))
  {
    match frame
    case Progress => ResetKeeps(s.cells);
    case Result(id, ok, payload) =>
      if Waiting(s.cells, id) {
        SettleKeeps(s.cells, id, if ok then Resolved(payload) else Rejected(CellFailed(payload)));
        NoteCompletedKeeps(s.restarts);
      }
    case SnapshotResult(id) => AnswerSnapshotKeeps(s.cells, id);
    case _ =>
  }

  lemma FireKeeps(s: State, t: Timer)
    requires Inv(s) && t in s.cells.armed
    ensures Inv(FireStep(s, t))
  {
    FireIsSettle(s.cells, t, Rejected(TimedOut(t.kind)));
    SettleKeeps(s.cells, t.id, Rejected(TimedOut(t.kind)));
  }

  lemma SendRunKeeps(s: State, id: nat)
    requires Inv(s) && id in s.sends.unsent
    ensures Inv(SendRunStep(s, id))
  {}

  lemma FailAllStepKeeps(s: State, reason: Reason)
    requires Inv(s)
    ensures Inv(s.(cells := FailAll(s.cells, reason)))
    ensures Inv(s.(cells := FailAll(s.cells, reason), disposed := true))
  {
    hide CellsInv, RestartsInv, SendsInv, FailAll, Idle;
    FailAllKeeps(s.cells, reason);
  }

  /** The invariant does not look at the process or at pending cancellations. */
  lemma ProcessKeeps(s: State, proc: Process, graces: multiset<nat>)
    requires Inv(s)
    ensures Inv(s.(proc := proc, graces := graces))
  {
    hide CellsInv, RestartsInv, SendsInv, Idle;
  }

  lemma SettleStepKeeps(s: State, id: nat, outcome: Outcome)
    requires Inv(s) && id in s.cells.pending
    ensures Waiting(s.cells, id) && Inv(s.(cells := Settle(s.cells, id, outcome)))
  {
    SettleKeeps(s.cells, id, outcome);
  }

  lemma CancelKeeps(s: State)
    requires Inv(s)
    ensures Inv(CancelStep(s))
  {
    if s.cells.activeId.Some? { SettleStepKeeps(s, s.cells.activeId.value, Rejected(Cancelled)); }
    hide Inv, Settle;
    var c := CancelStep(s);
    ProcessKeeps(s.(cells := c.cells), c.proc, c.graces);
  }

  lemma GraceKeeps(s: State, id: nat)
    requires Inv(s)
    ensures Inv(GraceStep(s, id))
  {
    if id in s.cells.pending { SettleStepKeeps(s, id, Rejected(Cancelled)); }
    hide Inv, Settle;
    var c := GraceStep(s, id);
    ProcessKeeps(s.(cells := c.cells), c.proc, c.graces);
  }

  lemma ExitKeeps(s: State, child: nat)
    requires Inv(s)
    ensures Inv(ExitStep(s, child))
  {
    hide Inv, FailAll;
    FailAllStepKeeps(s, KernelExited);
    var c := ExitStep(s, child);
    ProcessKeeps(s.(cells := c.cells), c.proc, s.graces);
  }

  lemma DisposeKeeps(s: State)
    requires Inv(s)
    ensures Inv(DisposeStep(s))
  {
    hide Inv, FailAll;
    FailAllStepKeeps(s, RuntimeDisposed);
    var c := DisposeStep(s);
    ProcessKeeps(s.(cells := c.cells, disposed := true), c.proc, s.graces);
  }

  lemma SnapshotKeeps(s: State, id: nat)
    requires Inv(s)
    ensures !s.disposed ==> Inv(s.(cells := AddSnapshot(s.cells)))
    ensures Inv(s.(cells := s.cells.(pendingSnapshots := s.cells.pendingSnapshots - {id})))
  {
    AddSnapshotKeeps(s.cells);
    DropSnapshotKeeps(s.cells, id);
    hide CellsInv, RestartsInv, SendsInv;
  }

  lemma StepKeeps(s: State, e: Event)
    requires Inv(s) && Enabled(s, e)
    ensures Inv(Step(s, e))
  {
    hide Inv, RunCellStep, ReceiveStep, FireStep, CancelStep, GraceStep;
    hide ExitStep, DisposeStep, SendRunStep, FailAll, AddSnapshot;
    match e
    case Start => ProcessKeeps(s, BeginSpawn(s.proc), s.graces);
    case SpawnDone => ProcessKeeps(s, FinishSpawn(s.proc), s.graces);
    case SpawnFailed => ProcessKeeps(s, s.proc.(spawning := s.proc.spawning - 1), s.graces);
    case RunCell => RunCellKeeps(s);
    case SendRun(id) => SendRunKeeps(s, id);
    case Receive(child, frame) => ReceiveKeeps(s, frame);
    case ReadError(child) => FailAllStepKeeps(s, ReadFailed);
    case Exit(child) => ExitKeeps(s, child);
    case Fire(timer) => FireKeeps(s, timer);
    case Cancel => CancelKeeps(s);
    case GraceElapsed(id) => GraceKeeps(s, id);
    case Snapshot => SnapshotKeeps(s, 0);
    case SnapshotContinue(id, written) => SnapshotKeeps(s, id);
    case Dispose => DisposeKeeps(s);
  }

  lemma {:induction false} RunKeeps(s: State, es: seq<Event>)
    requires Inv(s) && Possible(s, es)
    ensures Inv(Run(s, es))
    decreases |es|
  {
    if es != [] {
      StepKeeps(s, es[0]);
      RunKeeps(Step(s, es[0]), es[1..]);
    }
  }

  lemma ReachableInv(s: State)
    requires Reachable(s)
    ensures Inv(s)
  {
    var es :| Possible(Initial, es) && Run(Initial, es) == s;
    assert Inv(Initial);
    RunKeeps(Initial, es);
  }

  lemma {:induction false} RunSnoc(s: State, es: seq<Event>, e: Event)
    requires Possible(s, es) && Enabled(Run(s, es), e)
    ensures Possible(s, es + [e]) && Run(s, es + [e]) == Step(Run(s, es), e)
    decreases |es|
  {
    if es == [] {
      assert [e][1..] == [];
    } else {
      RunSnoc(Step(s, es[0]), es[1..], e);
      assert (es + [e])[1..] == es[1..] + [e];
    }
  }

  lemma Take(s: State, e: Event) returns (s': State)
    requires Reachable(s) && Enabled(s, e)
    ensures Reachable(s') && s' == Step(s, e)
  {
    var es :| Possible(Initial, es) && Run(Initial, es) == s;
    RunSnoc(Initial, es, e);
    s' := Step(s, e);
  }

  // ---- Settlement ----

  /** In every run each issued cell is waiting and unsettled, or settled by exactly one call. */
  lemma SettledExactlyOnce(s: State, id: nat)
    requires Reachable(s) && id in s.cells.calls
    ensures var c := s.cells;
            if id in c.pending
            then c.calls[id] == [] && c.pending[id].total in c.armed && c.pending[id].inactivity in c.armed
            else |c.calls[id]| == 1 && forall t :: t in c.armed ==> t.id != id
  {
    ReachableInv(s);
    if id in s.cells.pending {
      assert Owns(s.cells.pending, s.cells.pending[id].total) && Owns(s.cells.pending, s.cells.pending[id].inactivity);
    }
  }

  /** Why a step may settle a cell. */
  predicate Justified(s: State, e: Event, id: nat, outcome: Outcome) {
    match outcome
    case Resolved(value) => s.proc.child.Some? && e == Receive(s.proc.child.value, Result(id, true, value))
    case Rejected(CellFailed(error)) => s.proc.child.Some? && e == Receive(s.proc.child.value, Result(id, false, error))
    case Rejected(TimedOut(kind)) => e.Fire? && e.timer in s.cells.armed && e.timer.id == id && e.timer.kind == kind
    case Rejected(Cancelled) =>
      e == GraceElapsed(id) || (e == Cancel && s.cells.activeId == Some(id) && !s.proc.childReady)
    case Rejected(KernelExited) => s.proc.child.Some? && e == Exit(s.proc.child.value) && !s.disposed
    case Rejected(ReadFailed) => e.ReadError?
    case Rejected(RuntimeDisposed) => e == Dispose
  }

  /** A step leaves a cell's promise alone or makes the one call the event justifies. */
  ghost predicate Effect(s: State, e: Event, c': Cells, id: nat)
    requires id in s.cells.calls
  {
    && id in c'.calls
    && if id in s.cells.pending && id !in c'.pending
       then |c'.calls[id]| == 1 && Justified(s, e, id, c'.calls[id][0])
       else c'.calls[id] == s.cells.calls[id] && (id in s.cells.pending <==> id in c'.pending)
  }

  lemma SettleEffect(s: State, e: Event, cell: nat, outcome: Outcome, id: nat)
    requires Inv(s) && id in s.cells.calls && cell in s.cells.pending && Justified(s, e, cell, outcome)
    ensures Effect(s, e, Settle(s.cells, cell, outcome), id)
  {}

  lemma FailAllEffect(s: State, e: Event, reason: Reason, id: nat)
    requires Inv(s) && id in s.cells.calls && forall cell :: Justified(s, e, cell, Rejected(reason))
    ensures Effect(s, e, FailAll(s.cells, reason), id)
  {}

  lemma ReceiveEffect(s: State, child: nat, frame: Frame, id: nat)
    requires Inv(s) && id in s.cells.calls
    ensures Effect(s, Receive(child, frame), Step(s, Receive(child, frame)).cells, id)
  {
    var e := Receive(child, frame);
    if s.proc.child == Some(child) {
      match frame
      case Result(cell, ok, payload) =>
        if Waiting(s.cells, cell) {
          SettleEffect(s, e, cell, if ok then Resolved(payload) else Rejected(CellFailed(payload)), id);
        }
      case _ =>
    }
  }

  lemma FireEffect(s: State, t: Timer, id: nat)
    requires Inv(s) && id in s.cells.calls && t in s.cells.armed
    ensures Effect(s, Fire(t), Step(s, Fire(t)).cells, id)
  {
    FireIsSettle(s.cells, t, Rejected(TimedOut(t.kind)));
    SettleEffect(s, Fire(t), t.id, Rejected(TimedOut(t.kind)), id);
  }

  lemma RegisterEffect(s: State, id: nat)
    requires Inv(s) && id in s.cells.calls
    ensures Effect(s, RunCell, Register(s.cells), id)
  {
    RegisterKeeps(s.cells);
  }

  lemma CancelEffect(s: State, id: nat)
    requires Inv(s) && id in s.cells.calls
    ensures Effect(s, Cancel, CancelStep(s).cells, id)
  {
    if s.cells.activeId.Some? && !s.proc.childReady {
      SettleEffect(s, Cancel, s.cells.activeId.value, Rejected(Cancelled), id);
    }
    hide Inv, Settle, Justified;
  }

  lemma GraceEffect(s: State, cell: nat, id: nat)
    requires Inv(s) && id in s.cells.calls
    ensures Effect(s, GraceElapsed(cell), GraceStep(s, cell).cells, id)
  {
    if cell in s.cells.pending { SettleEffect(s, GraceElapsed(cell), cell, Rejected(Cancelled), id); }
    hide Inv, Settle, Justified;
  }

  lemma ExitEffect(s: State, child: nat, id: nat)
    requires Inv(s) && id in s.cells.calls
    ensures Effect(s, Exit(child), ExitStep(s, child).cells, id)
  {
    if s.proc.child == Some(child) && !s.disposed { FailAllEffect(s, Exit(child), KernelExited, id); }
    hide Inv, FailAll, Justified;
  }

  /** Cells with the same calls and the same waiting ones. */
  lemma NoEffect(s: State, e: Event, c': Cells, id: nat)
    requires id in s.cells.calls && c'.calls == s.cells.calls && c'.pending == s.cells.pending
    ensures Effect(s, e, c', id)
  {
    hide Justified;
  }

  lemma StepEffect(s: State, e: Event, id: nat)
    requires Inv(s) && Enabled(s, e) && id in s.cells.calls
    ensures Effect(s, e, Step(s, e).cells, id)
  {
    match e
    case RunCell => RegisterEffect(s, id); NoEffect(s, e, s.cells, id); hide Inv, Effect, Register;
    case Receive(child, frame) => ReceiveEffect(s, child, frame, id);
    case ReadError(child) => FailAllEffect(s, e, ReadFailed, id); hide Inv, Effect, FailAll;
    case Exit(child) => ExitEffect(s, child, id); hide Inv, Effect, ExitStep;
    case Fire(timer) => FireEffect(s, timer, id);
    case Cancel => CancelEffect(s, id); hide Inv, Effect, CancelStep;
    case GraceElapsed(cell) => GraceEffect(s, cell, id); hide Inv, Effect, GraceStep;
    case Dispose =>
      FailAllEffect(s, e, RuntimeDisposed, id);
      NoEffect(s, e, s.cells, id);
      hide Inv, Effect, FailAll;
    case _ =>
      hide Inv;
      NoEffect(s, e, Step(s, e).cells, id);
  }

  /** A cell promise once settled keeps its outcome, whatever happens next. */
  lemma {:induction false} OutcomeIsFinal(s: State, es: seq<Event>, id: nat)
    requires Inv(s) && Possible(s, es) && id in s.cells.calls && id !in s.cells.pending
    ensures var c := Run(s, es).cells; id in c.calls && id !in c.pending && c.calls[id] == s.cells.calls[id]
    decreases |es|
  {
    if es != [] {
      StepKeeps(s, es[0]);
      StepEffect(s, es[0], id);
      OutcomeIsFinal(Step(s, es[0]), es[1..], id);
    }
  }

  /** Whatever the kernel does, the total timer of a waiting cell can end its wait. */
  lemma TotalTimerEndsTheWait(s: State, id: nat)
    requires Inv(s) && id in s.cells.pending
    ensures var e := Fire(s.cells.pending[id].total);
            Enabled(s, e) && id in Step(s, e).cells.calls && Step(s, e).cells.calls[id] == [Rejected(TimedOut(Total))]
            && (s.proc.child.Some? ==> !Step(s, e).proc.alive)
  {
    assert Owns(s.cells.pending, s.cells.pending[id].total);
  }

  /** A heartbeat replaces the silence timer of the active cell and of no other. */
  lemma ProgressRearmsActiveOnly(s: State, child: nat)
    requires Inv(s) && s.proc.child == Some(child)
    ensures var c, c' := s.cells, Step(s, Receive(child, Progress)).cells;
            && c'.pending.Keys == c.pending.Keys && c'.calls == c.calls
            && forall id :: id in c.pending ==>
                 && c'.pending[id].total == c.pending[id].total
                 && (c.activeId == Some(id) ==>
                       c'.pending[id].windowMs == 60_000 && c.pending[id].inactivity !in c'.armed
                       && c'.pending[id].inactivity in c'.armed)
                 && (c.activeId != Some(id) ==> c'.pending[id] == c.pending[id])
  {}

  // ---- Superseded children ----

  /** Frames and exits of a child that is no longer the current one change nothing. */
  lemma SupersededIsIgnored(s: State, child: nat, frame: Frame)
    requires s.proc.child != Some(child)
    ensures Step(s, Receive(child, frame)) == s
    ensures Step(s, Exit(child)) == s.(proc := s.proc.(exited := s.proc.exited + {child}))
  {}

  /** A read error has no such guard: it is harmless only when nothing is waiting. */
  lemma ReadErrorHarmlessIff(s: State, child: nat)
    requires Inv(s)
    ensures Step(s, ReadError(child)) == s <==> Idle(s.cells)
  {
    if Idle(s.cells) {
      var c' := FailAll(s.cells, ReadFailed);
      assert c'.calls == s.cells.calls && c'.snapshotCalls == s.cells.snapshotCalls && c'.armed == s.cells.armed;
    }
  }

  /** A first child running its only cell. */
  lemma FirstChildRunsCell() returns (s: State)
    ensures Reachable(s) && !s.disposed && s.restarts == Restarts(0, [])
    ensures s.proc.child == Some(0) && s.proc.nextChild == 1 && s.proc.spawning == 0 && s.proc.exited == {}
    ensures s.cells == Register(Initial.cells)
  {
    s := Initial;
    assert Possible(s, []) && Run(s, []) == s;
    s := Take(s, Start);
    assert s.proc.spawning == 1 && s.cells == Initial.cells && s.restarts == Restarts(0, []) && !s.disposed;
    s := Take(s, SpawnDone);
    assert s.proc.child == Some(0) && s.proc.alive && s.proc.nextChild == 1 && s.proc.spawning == 0;
    s := Take(s, RunCell);
  }

  /** That cell runs into its total timeout. */
  lemma FirstChildTimesOut() returns (s: State)
    ensures Reachable(s)
    ensures !s.disposed && !s.proc.alive && s.restarts.sinceSuccess == 0 && s.cells.nextId == 2
    ensures s.proc.child == Some(0) && s.proc.nextChild == 1 && s.proc.spawning == 0 && s.proc.exited == {}
  {
    s := FirstChildRunsCell();
    var t := Timer(1, Total, 0);
    assert t in s.cells.armed && Waiting(Disarm(s.cells, t), 1);
    s := Take(s, Fire(t));
  }

  /** A second child runs cell 2 when the first one's stream breaks. */
  lemma SupersededReadErrorFailsNewCell() returns (s: State)
    ensures Reachable(s) && s.proc.child == Some(1) && 2 in s.cells.pending && Enabled(s, ReadError(0))
    ensures 2 in Step(s, ReadError(0)).cells.calls && Step(s, ReadError(0)).cells.calls[2] == [Rejected(ReadFailed)]
  {
    s := FirstChildTimesOut();
    s := Take(s, RunCell);
    assert 2 in s.cells.pending && 2 in s.cells.calls && s.cells.calls[2] == [];
    s := Take(s, SpawnDone);
  }

  // ---- Restarts ----

  /** Between two restarts some cell completed. */
  lemma RestartsSeparated(s: State, i: nat, j: nat)
    requires Reachable(s) && i < j < |s.restarts.history|
    requires s.restarts.history[i] == s.restarts.history[j] == Restarted
    ensures exists k :: i < k < j && s.restarts.history[k] == Completed
  {
    ReachableInv(s);
    assert s.restarts.history[i + 1] == Completed;
  }

  // ---- Dispose ----

  ghost predicate NeverRevived(s: State) {
    forall es :: Possible(s, es) ==> Run(s, es).proc.child.None?
  }

  lemma {:induction false} DisposedStaysDown(s: State, es: seq<Event>)
    requires s.disposed && s.proc.child.None? && s.proc.spawning == 0 && Possible(s, es)
    ensures Run(s, es).proc.child.None?
    decreases |es|
  {
    if es != [] {
      DisposedStaysDown(Step(s, es[0]), es[1..]);
    }
  }

  /** Dispose is final for the process exactly when no spawn was still waiting for its environment. */
  lemma DisposeFinalIff(s: State)
    requires !s.disposed
    ensures NeverRevived(Step(s, Dispose)) <==> s.proc.spawning == 0
  {
    var d := Step(s, Dispose);
    if s.proc.spawning == 0 {
      forall es | Possible(d, es) ensures Run(d, es).proc.child.None? { DisposedStaysDown(d, es); }
    } else {
      var es := [SpawnDone];
      assert es[1..] == [];
      assert Possible(d, es) && Run(d, es).proc.child.Some?;
    }
  }

  lemma DisposedStep(s: State, e: Event)
    requires Inv(s) && s.disposed && Enabled(s, e)
    ensures Step(s, e).disposed && Step(s, e).cells.calls.Keys == s.cells.calls.Keys
  {
    match e
    case Fire(timer) => FireIsSettle(s.cells, timer, Rejected(TimedOut(timer.kind)));
    case ReadError(child) => FailAllKeeps(s.cells, ReadFailed);
    case Exit(child) => FailAllKeeps(s.cells, KernelExited);
    case _ =>
  }

  /** After dispose no cell is accepted or left waiting, and no timer is armed. */
  lemma {:induction false} NothingWaitsAfterDispose(s: State, es: seq<Event>)
    requires Inv(s) && s.disposed && Possible(s, es)
    ensures var s' := Run(s, es);
            && s'.disposed && s'.cells.pending == map[] && s'.cells.armed == {}
            && s'.cells.calls.Keys == s.cells.calls.Keys
    decreases |es|
  {
    if es == [] {
      forall t ensures t !in s.cells.armed { assert t in s.cells.armed <==> Owns(s.cells.pending, t); }
    } else {
      StepKeeps(s, es[0]);
      DisposedStep(s, es[0]);
      NothingWaitsAfterDispose(Step(s, es[0]), es[1..]);
    }
  }
}
