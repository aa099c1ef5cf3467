/**
 * What each event does to a cell, its timers, the child and the counters, event by event over the
 * whole alphabet: the events that settle a waiting cell settle it, and no others do.
 */
module RuntimeEffects {
  import opened Wrappers
  import opened RuntimeModel
  import opened RuntimeInvariants

  // ---- Which event settles a waiting cell, and how ----

  /** The outcome an event brings a waiting cell. */
  function Due(s: State, e: Event, id: nat): Option<Outcome> {
    match e
    case Receive(child, Result(cell, ok, payload)) =>
      if s.proc.child == Some(child) && cell == id
      then Some(if ok then Resolved(payload) else Rejected(CellFailed(payload))) else None
    case Fire(timer) => if timer.id == id then Some(Rejected(TimedOut(timer.kind))) else None
    case Cancel =>
      if s.proc.child.Some? && s.proc.alive && !s.proc.childReady && s.cells.activeId == Some(id)
      then Some(Rejected(Cancelled)) else None
    case GraceElapsed(cell) => if cell == id then Some(Rejected(Cancelled)) else None
    case Exit(child) => if s.proc.child == Some(child) && !s.disposed then Some(Rejected(KernelExited)) else None
    case ReadError(_) => Some(Rejected(ReadFailed))
    case Dispose => if s.disposed then None else Some(Rejected(RuntimeDisposed))
    case _ => None
  }

  /** Settled: out of the map, both timers cleared, not active, its promise called once with the outcome. */
  ghost predicate SettledWith(c: Cells, id: nat, outcome: Outcome) {
    && id !in c.pending && c.activeId != Some(id)
    && (forall t: Timer :: t in c.armed ==> t.id != id)
    && id in c.calls && c.calls[id] == [outcome]
  }

  /** Still waiting: its promise not called, its total timer untouched, its two timers armed and no other of its own. */
  ghost predicate StillWaiting(c: Cells, c': Cells, id: nat)
    requires id in c.pending
  {
    && id in c'.pending && c'.pending[id].total == c.pending[id].total
    && id in c'.calls && c'.calls[id] == []
    && forall t: Timer :: t.id == id ==>
         (t in c'.armed <==> t == c'.pending[id].total || t == c'.pending[id].inactivity)
  }

  lemma WaitingFacts(c: Cells, id: nat)
    requires CellsInv(c) && id in c.pending
    ensures Waiting(c, id) && StillWaiting(c, c, id)
  {
    forall t: Timer | t.id == id
      ensures t in c.armed <==> t == c.pending[id].total || t == c.pending[id].inactivity
    {
      assert t in c.armed <==> Owns(c.pending, t);
    }
  }

  lemma SettleSettles(c: Cells, id: nat, outcome: Outcome)
    requires CellsInv(c) && id in c.pending
    ensures Waiting(c, id) && SettledWith(Settle(c, id, outcome), id, outcome)
  {
    WaitingFacts(c, id);
    SettleKeeps(c, id, outcome);
    hide CellsInv;
  }

  lemma SettleSpares(c: Cells, id: nat, outcome: Outcome, other: nat)
    requires CellsInv(c) && id in c.pending && other in c.pending && other != id
    ensures Waiting(c, id) && StillWaiting(c, Settle(c, id, outcome), other)
  {
    WaitingFacts(c, id);
    WaitingFacts(c, other);
    SettleKeeps(c, id, outcome);
    hide CellsInv;
    assert forall t :: t in TimersOf(c.pending[id]) ==> t.id == id by { OwnTimers(c, id); }
  }

  lemma OwnTimers(c: Cells, id: nat)
    requires CellsInv(c) && id in c.pending
    ensures c.pending[id].total.id == id && c.pending[id].inactivity.id == id
  {}

  lemma FailAllSettles(c: Cells, reason: Reason, id: nat)
    requires CellsInv(c) && id in c.pending
    ensures SettledWith(FailAll(c, reason), id, Rejected(reason))
  {
    FailAllKeeps(c, reason);
    WaitingFacts(c, id);
    hide CellsInv;
  }

  /** Nothing about cells changed but what a waiting cell does not look at. */
  lemma SameCells(c: Cells, c': Cells, id: nat)
    requires CellsInv(c) && id in c.pending
    requires c'.pending == c.pending && c'.armed == c.armed && c'.calls == c.calls
    ensures StillWaiting(c, c', id)
  {
    WaitingFacts(c, id);
    hide CellsInv;
  }

  lemma RegisterSpares(c: Cells, id: nat)
    requires CellsInv(c) && id in c.pending
    ensures StillWaiting(c, Register(c), id) && id != c.nextId
  {
    WaitingFacts(c, id);
    RegisterKeeps(c);
    hide CellsInv;
  }

  lemma ProgressSpares(c: Cells, id: nat)
    requires CellsInv(c) && id in c.pending
    ensures StillWaiting(c, ResetInactivity(c), id)
  {
    WaitingFacts(c, id);
    ResetKeeps(c);
    if c.activeId.Some? && c.activeId.value in c.pending { OwnTimers(c, c.activeId.value); }
    var c' := ResetInactivity(c);
    WaitingFacts(c', id);
    hide CellsInv;
  }

  /** The event settles the cell as due, or leaves it waiting. */
  ghost predicate Settles(s: State, e: Event, c': Cells, id: nat)
    requires id in s.cells.pending
  {
    match Due(s, e, id)
    case Some(outcome) => SettledWith(c', id, outcome)
    case None => StillWaiting(s.cells, c', id)
  }

  lemma SettleOne(s: State, e: Event, cell: nat, outcome: Outcome, id: nat)
    requires Inv(s) && id in s.cells.pending && cell in s.cells.pending
    requires Due(s, e, id) == if cell == id then Some(outcome) else None
    ensures Waiting(s.cells, cell) && Settles(s, e, Settle(s.cells, cell, outcome), id)
  {
    if cell == id { SettleSettles(s.cells, id, outcome); } else { SettleSpares(s.cells, cell, outcome, id); }
    hide CellsInv, Settle, SettledWith, StillWaiting;
  }

  lemma SettleAll(s: State, e: Event, reason: Reason, id: nat)
    requires Inv(s) && id in s.cells.pending && Due(s, e, id) == Some(Rejected(reason))
    ensures Settles(s, e, FailAll(s.cells, reason), id)
  {
    FailAllSettles(s.cells, reason, id);
    hide CellsInv, FailAll, SettledWith;
  }

  lemma SettleNone(s: State, e: Event, c': Cells, id: nat)
    requires Inv(s) && id in s.cells.pending && Due(s, e, id) == None
    requires c'.pending == s.cells.pending && c'.armed == s.cells.armed && c'.calls == s.cells.calls
    ensures Settles(s, e, c', id)
  {
    SameCells(s.cells, c', id);
    hide CellsInv, StillWaiting;
  }

  lemma ReceiveSettles(s: State, child: nat, frame: Frame, id: nat)
    requires Inv(s) && id in s.cells.pending
    ensures Settles(s, Receive(child, frame), Step(s, Receive(child, frame)).cells, id)
  {
    var e := Receive(child, frame);
    WaitingFacts(s.cells, id);
    hide CellsInv, Settle, Settles;
    if s.proc.child != Some(child) {
      SettleNone(s, e, s.cells, id);
    } else {
      match frame
      case Result(cell, ok, payload) =>
        if cell in s.cells.pending {
          SettleOne(s, e, cell, if ok then Resolved(payload) else Rejected(CellFailed(payload)), id);
        } else {
          SettleNone(s, e, s.cells, id);
        }
      case Progress => ProgressSettles(s, child, id);
      case _ => SettleNone(s, e, Step(s, e).cells, id);
    }
  }

  lemma ProgressSettles(s: State, child: nat, id: nat)
    requires Inv(s) && id in s.cells.pending
    ensures Settles(s, Receive(child, Progress), ResetInactivity(s.cells), id)
  {
    ProgressSpares(s.cells, id);
    hide CellsInv, StillWaiting, ResetInactivity;
  }

  lemma FireSettles(s: State, t: Timer, id: nat)
    requires Inv(s) && id in s.cells.pending && t in s.cells.armed
    ensures Settles(s, Fire(t), Step(s, Fire(t)).cells, id)
  {
    FireIsSettle(s.cells, t, Rejected(TimedOut(t.kind)));
    SettleOne(s, Fire(t), t.id, Rejected(TimedOut(t.kind)), id);
    hide CellsInv, Settle, Settles, Disarm;
  }

  lemma CancelSettles(s: State, id: nat)
    requires Inv(s) && id in s.cells.pending
    ensures Settles(s, Cancel, CancelStep(s).cells, id)
  {
    if s.proc.child.Some? && s.proc.alive && !s.proc.childReady && s.cells.activeId.Some? {
      assert s.cells.activeId.value in s.cells.pending;
      SettleOne(s, Cancel, s.cells.activeId.value, Rejected(Cancelled), id);
      hide CellsInv, Settle, Settles;
    } else {
      SettleNone(s, Cancel, s.cells, id);
      hide CellsInv, Settles;
    }
  }

  lemma GraceSettles(s: State, cell: nat, id: nat)
    requires Inv(s) && id in s.cells.pending
    ensures Settles(s, GraceElapsed(cell), GraceStep(s, cell).cells, id)
  {
    if cell in s.cells.pending {
      WaitingFacts(s.cells, cell);
      SettleOne(s, GraceElapsed(cell), cell, Rejected(Cancelled), id);
    } else {
      SettleNone(s, GraceElapsed(cell), s.cells, id);
    }
    hide CellsInv, Settle, Settles;
  }

  lemma RunCellSettles(s: State, id: nat)
    requires Inv(s) && id in s.cells.pending
    ensures Settles(s, RunCell, RunCellStep(s).cells, id)
  {
    RegisterSpares(s.cells, id);
    SettleNone(s, RunCell, s.cells, id);
    hide CellsInv, Register, StillWaiting;
  }

  /** A waiting cell is settled exactly by the events that are due, with exactly that outcome. */
  lemma StepSettlesIff(s: State, e: Event, id: nat)
    requires Inv(s) && Enabled(s, e) && id in s.cells.pending
    ensures var c' := Step(s, e).cells;
            match Due(s, e, id)
            case Some(outcome) => SettledWith(c', id, outcome)
            case None => StillWaiting(s.cells, c', id)
  {
    hide Inv, SettledWith, StillWaiting, FireStep, GraceStep, CancelStep, RunCellStep, ReceiveStep, SendRunStep;
    hide FailAll, AddSnapshot;
    match e
    case RunCell => RunCellSettles(s, id);
    case Receive(child, frame) => ReceiveSettles(s, child, frame, id);
    case ReadError(child) => SettleAll(s, e, ReadFailed, id);
    case Exit(child) =>
      if s.proc.child == Some(child) && !s.disposed { SettleAll(s, e, KernelExited, id); }
      else { SettleNone(s, e, s.cells, id); }
    case Fire(timer) => FireSettles(s, timer, id);
    case Cancel => CancelSettles(s, id);
    case GraceElapsed(cell) => GraceSettles(s, cell, id);
    case Dispose =>
      if s.disposed { SettleNone(s, e, s.cells, id); } else { SettleAll(s, e, RuntimeDisposed, id); }
    case _ => OtherSettles(s, e, id);
  }

  lemma OtherSettles(s: State, e: Event, id: nat)
    requires Inv(s) && id in s.cells.pending
    requires e.Start? || e.SpawnDone? || e.SpawnFailed? || e.SendRun? || e.Snapshot? || e.SnapshotContinue?
    ensures Settles(s, e, Step(s, e).cells, id)
  {
    hide Inv, Settles, BeginSpawn, FinishSpawn;
    SettleNone(s, e, Step(s, e).cells, id);
  }

  // ---- The child process ----

  /** The event kills the current child: a timeout, the end of a grace period, or cancel before ready. */
  predicate Kills(s: State, e: Event) {
    && s.proc.child.Some?
    && match e
       case Fire(timer) => timer.id in s.cells.pending
       case GraceElapsed(id) => id in s.cells.pending
       case Cancel => s.proc.alive && !s.proc.childReady
       case _ => false
  }

  /** The current child goes down: killed, exited or let go. */
  predicate Downs(s: State, e: Event) {
    Kills(s, e) || (s.proc.child.Some? && e == Exit(s.proc.child.value)) || (e == Dispose && !s.disposed)
  }

  /** The signals an event sends. */
  function Signals(s: State, e: Event): seq<(nat, Signal)> {
    match s.proc.child
    case None => []
    case Some(c) =>
      if Kills(s, e) then [(c, SigTerm), (c, SigKill)]
      else if e == Cancel && s.proc.alive then [(c, SigInt)]
      else if e == Dispose && !s.disposed then [(c, SigTerm)]
      else []
  }

  /** A spawn begins: by start, or by runCell on a runtime whose kernel is down. */
  predicate Begins(s: State, e: Event) {
    (e == Start && !s.disposed) || (e == RunCell && !RunCellRefused(s) && !s.proc.alive)
  }

  /** The child, whether it lives and is ready, and what it is sent, after any event. */
  ghost predicate ChildAfter(s: State, e: Event, p': Process) {
    var p := s.proc;
    && p'.child == (if e == SpawnDone then Some(p.nextChild) else if e == Dispose && !s.disposed then None else p.child)
    && p'.nextChild == p.nextChild + (if e == SpawnDone then 1 else 0)
    && (p'.alive <==> e == SpawnDone || (p.alive && !Downs(s, e)))
    && (p'.childReady <==>
          || (p.child.Some? && e == Receive(p.child.value, Ready))
          || (p.childReady && e != SpawnDone && !Downs(s, e)))
    && p'.signals == p.signals + Signals(s, e)
    && p'.exited == p.exited + (if e.Exit? then {e.child} else {})
    && p'.spawning == p.spawning + (if Begins(s, e) then 1 else 0) - (if e.SpawnDone? || e.SpawnFailed? then 1 else 0)
  }

  /** The ready promises after any event. */
  ghost predicate ReadyAfter(s: State, e: Event, p': Process) {
    var p := s.proc;
    && p'.ready == p.ready + (if Begins(s, e) then 1 else 0)
    && p'.resolvedReady == p.resolvedReady
         + (if p.child.Some? && p.ready !in p.rejectedReady && e == Receive(p.child.value, Ready)
            then {p.ready} else {})
    && p'.rejectedReady == p.rejectedReady
         + (if && p.child.Some? && p.ready !in p.resolvedReady
               && (e == Receive(p.child.value, StartupError) || (e == Exit(p.child.value) && !s.disposed))
            then {p.ready} else {})
  }

  ghost predicate ProcessAfter(s: State, e: Event, p': Process) {
    ChildAfter(s, e, p') && ReadyAfter(s, e, p')
  }

  lemma ReceiveChild(s: State, child: nat, frame: Frame)
    ensures ProcessAfter(s, Receive(child, frame), Step(s, Receive(child, frame)).proc)
  {
    hide Settle, ResetInactivity, AnswerSnapshot, Waiting;
  }

  lemma ExitChild(s: State, child: nat)
    ensures ProcessAfter(s, Exit(child), Step(s, Exit(child)).proc)
  {
    hide FailAll;
  }

  /** A timer and a grace period change the child only by killing it. */
  lemma KillChild(s: State, e: Event)
    requires e.Fire? || e.GraceElapsed?
    ensures ProcessAfter(s, e, if Kills(s, e) then MarkDead(s.proc) else s.proc)
  {}

  lemma FireChild(s: State, t: Timer)
    requires Inv(s) && t in s.cells.armed
    ensures ProcessAfter(s, Fire(t), Step(s, Fire(t)).proc)
  {
    FireIsSettle(s.cells, t, Rejected(TimedOut(t.kind)));
    KillChild(s, Fire(t));
    hide Inv, Settle, ProcessAfter;
  }

  lemma GraceChild(s: State, id: nat)
    requires Inv(s)
    ensures ProcessAfter(s, GraceElapsed(id), Step(s, GraceElapsed(id)).proc)
  {
    if id in s.cells.pending { WaitingFacts(s.cells, id); }
    KillChild(s, GraceElapsed(id));
    hide Inv, Settle, StillWaiting, ProcessAfter;
  }

  lemma RunCellChild(s: State)
    ensures ProcessAfter(s, RunCell, Step(s, RunCell).proc)
  {
    hide Register;
  }

  lemma CancelChild(s: State)
    ensures ProcessAfter(s, Cancel, Step(s, Cancel).proc)
  {
    hide SettleIfWaiting;
  }

  lemma DisposeChild(s: State)
    ensures ProcessAfter(s, Dispose, Step(s, Dispose).proc)
  {
    hide FailAll;
  }

  lemma StartChild(s: State)
    ensures ProcessAfter(s, Start, Step(s, Start).proc)
  {}

  lemma SpawnChild(s: State)
    requires s.proc.spawning > 0
    ensures ProcessAfter(s, SpawnDone, Step(s, SpawnDone).proc)
    ensures ProcessAfter(s, SpawnFailed, Step(s, SpawnFailed).proc)
  {}

  lemma SameChild(s: State, e: Event)
    requires e.SendRun? || e.ReadError? || e.Snapshot? || e.SnapshotContinue?
    ensures ProcessAfter(s, e, s.proc) && Step(s, e).proc == s.proc
  {
    hide FailAll, AddSnapshot;
  }

  lemma StepProcess(s: State, e: Event)
    requires Inv(s) && Enabled(s, e)
    ensures ProcessAfter(s, e, Step(s, e).proc)
  {
    hide *;
    match e
    case Receive(child, frame) => ReceiveChild(s, child, frame);
    case Exit(child) => ExitChild(s, child);
    case Fire(timer) => ArmedIs(s, timer); FireChild(s, timer);
    case GraceElapsed(id) => GraceChild(s, id);
    case RunCell => RunCellChild(s);
    case Cancel => CancelChild(s);
    case Dispose => DisposeChild(s);
    case Start => StartChild(s);
    case SpawnDone => SpawnsAre(s, e); SpawnChild(s);
    case SpawnFailed => SpawnsAre(s, e); SpawnChild(s);
    case _ => SameChild(s, e);
  }

  lemma SpawnsAre(s: State, e: Event)
    requires Enabled(s, e) && (e.SpawnDone? || e.SpawnFailed?)
    ensures s.proc.spawning > 0
  {}

  lemma ArmedIs(s: State, t: Timer)
    requires Enabled(s, Fire(t))
    ensures t in s.cells.armed
  {}

  // ---- Counters and frames ----

  /** The current child's result for a waiting cell. */
  predicate Completes(s: State, e: Event) {
    && s.proc.child.Some? && e.Receive? && e.child == s.proc.child.value
    && e.frame.Result? && e.frame.id in s.cells.pending
  }

  /** Restarts without a completed cell: a result counts whether the cell succeeded or failed. */
  lemma RestartsCounted(s: State, e: Event)
    requires Inv(s) && Enabled(s, e)
    ensures Step(s, e).restarts.sinceSuccess
         == if Completes(s, e) then 0
            else s.restarts.sinceSuccess
                 + if e == RunCell && !s.disposed && !s.proc.alive && s.restarts.sinceSuccess == 0 then 1 else 0
  {
    if e.Receive? && e.frame.Result? && e.frame.id in s.cells.pending { WaitingFacts(s.cells, e.frame.id); }
    hide Inv, StillWaiting, Settle, FailAll, Register, ResetInactivity, AnswerSnapshot, AddSnapshot, Disarm;
    hide SettleIfWaiting, MarkDead, LetGo, RejectReady, ResolveReady, BeginSpawn, FinishSpawn;
  }

  /** A cell is accepted unless the runtime is disposed or its kernel was restarted once in vain. */
  lemma RunCellAccepted(s: State)
    requires Inv(s)
    ensures var s' := Step(s, RunCell);
            var id := s.cells.nextId;
            if s.disposed || (!s.proc.alive && s.restarts.sinceSuccess >= 1) then s' == s
            else
              && id !in s.cells.calls && s'.cells.nextId == id + 1
              && s'.cells.activeId == Some(id) && id in s'.cells.pending && s'.cells.calls == s.cells.calls[id := []]
              && s'.cells.pending[id].windowMs == 30_000
              && (forall t: Timer :: t.id == id ==>
                    (t in s'.cells.armed <==> t == s'.cells.pending[id].total || t == s'.cells.pending[id].inactivity))
              && s'.sends.unsent == s.sends.unsent[id := s'.proc.ready]
  {
    RegisterKeeps(s.cells);
    NewTimers(s.cells);
    hide CellsInv, RestartsInv, SendsInv;
  }

  lemma NewTimers(c: Cells)
    requires CellsInv(c)
    ensures var c' := Register(c);
            forall t: Timer :: t.id == c.nextId ==>
              (t in c'.armed <==> t == c'.pending[c.nextId].total || t == c'.pending[c.nextId].inactivity)
  {
    forall t | t in c.armed ensures t.id != c.nextId {
      assert Owns(c.pending, t);
      assert t.id in c.calls;
    }
  }

  /** A run frame is written by its send step alone, and only for a waiting cell, to the child of that moment. */
  lemma FramesSent(s: State, e: Event)
    requires Enabled(s, e)
    ensures Step(s, e).sends.sent
         == s.sends.sent + if e.SendRun? && s.proc.child.Some? && e.id in s.cells.pending
                           then [(s.proc.child.value, e.id)] else []
    ensures e.SendRun? ==> Step(s, e).sends.unsent == s.sends.unsent - {e.id}
    ensures !e.SendRun? && !e.RunCell? ==> Step(s, e).sends == s.sends
  {
    hide FailAll, Settle, Register, ResetInactivity, AnswerSnapshot, AddSnapshot, Disarm, SettleIfWaiting, Waiting;
  }

  /** An event that answers a pending snapshot: its own frame, or one that fails everything. */
  predicate Answers(s: State, e: Event, id: nat) {
    || (s.proc.child.Some? && e == Receive(s.proc.child.value, SnapshotResult(id)))
    || (s.proc.child.Some? && e == Exit(s.proc.child.value) && !s.disposed)
    || e.ReadError? || (e == Dispose && !s.disposed)
  }

  predicate Withdraws(s: State, e: Event, id: nat) {
    e.SnapshotContinue? && e.id == id && (s.proc.child.None? || !e.written)
  }

  ghost predicate SnapshotAfter(s: State, e: Event, c': Cells, id: nat) {
    && id in c'.snapshotCalls && c'.snapshotCalls[id] == (if Answers(s, e, id) then 1 else 0)
    && (id in c'.pendingSnapshots <==> !Answers(s, e, id) && !Withdraws(s, e, id))
  }

  lemma FailAllSnapshots(c: Cells, reason: Reason, id: nat)
    requires CellsInv(c) && id in c.pendingSnapshots
    ensures var c' := FailAll(c, reason);
            id in c'.snapshotCalls && c'.snapshotCalls[id] == 1 && id !in c'.pendingSnapshots
  {}

  predicate SameSnapshots(c: Cells, c': Cells) {
    c'.snapshotCalls == c.snapshotCalls && c'.pendingSnapshots == c.pendingSnapshots
  }

  lemma CallKeepsSnapshots(s: State, e: Event)
    requires e.RunCell? || e.Fire? || e.Cancel? || e.GraceElapsed?
    ensures SameSnapshots(s.cells, Step(s, e).cells)
  {
    hide MarkDead, BeginSpawn, RunCellRefused;
    match e
    case RunCell =>
    case Fire(timer) =>
    case Cancel =>
    case GraceElapsed(id) =>
  }

  lemma SameAfter(s: State, e: Event, c': Cells, id: nat)
    requires CellsInv(s.cells) && id in s.cells.pendingSnapshots && SameSnapshots(s.cells, c')
    requires e.RunCell? || e.Fire? || e.Cancel? || e.GraceElapsed?
    ensures SnapshotAfter(s, e, c', id)
  {
    SnapshotFacts(s.cells, id);
    hide CellsInv;
  }

  lemma ReceiveSnapshots(s: State, child: nat, frame: Frame, id: nat)
    requires Inv(s) && id in s.cells.pendingSnapshots
    ensures SnapshotAfter(s, Receive(child, frame), Step(s, Receive(child, frame)).cells, id)
  {
    SnapshotFacts(s.cells, id);
    hide Inv, ResolveReady, RejectReady;
  }

  lemma CallSnapshots(s: State, e: Event, id: nat)
    requires Inv(s) && id in s.cells.pendingSnapshots
    requires e.RunCell? || e.Fire? || e.Cancel? || e.GraceElapsed?
    ensures SnapshotAfter(s, e, Step(s, e).cells, id)
  {
    assert CellsInv(s.cells);
    hide *;
    CallKeepsSnapshots(s, e);
    SameAfter(s, e, Step(s, e).cells, id);
  }

  lemma EndSnapshots(s: State, e: Event, id: nat)
    requires Inv(s) && id in s.cells.pendingSnapshots && (e.Exit? || e.ReadError? || e.Dispose?)
    ensures SnapshotAfter(s, e, Step(s, e).cells, id)
  {
    SnapshotFacts(s.cells, id);
    FailAllSnapshots(s.cells, KernelExited, id);
    FailAllSnapshots(s.cells, ReadFailed, id);
    FailAllSnapshots(s.cells, RuntimeDisposed, id);
    hide Inv, FailAll, LetGo, RejectReady;
  }

  lemma OtherSnapshots(s: State, e: Event, id: nat)
    requires Inv(s) && id in s.cells.pendingSnapshots
    requires e.Start? || e.SpawnDone? || e.SpawnFailed? || e.SendRun? || e.Snapshot? || e.SnapshotContinue?
    ensures SnapshotAfter(s, e, Step(s, e).cells, id)
  {
    SnapshotFacts(s.cells, id);
    hide Inv, BeginSpawn, FinishSpawn;
  }

  /** A pending snapshot is answered once by those events, withdrawn by its own continuation, and else stays. */
  lemma SnapshotsAnswered(s: State, e: Event, id: nat)
    requires Inv(s) && id in s.cells.pendingSnapshots
    ensures SnapshotAfter(s, e, Step(s, e).cells, id)
  {
    hide *;
    match e
    case Receive(child, frame) => ReceiveSnapshots(s, child, frame, id);
    case RunCell | Fire(_) | Cancel | GraceElapsed(_) => CallSnapshots(s, e, id);
    case Exit(_) | ReadError(_) | Dispose => EndSnapshots(s, e, id);
    case _ => OtherSnapshots(s, e, id);
  }

  lemma SnapshotFacts(c: Cells, id: nat)
    requires CellsInv(c) && id in c.pendingSnapshots
    ensures id in c.snapshotCalls && c.snapshotCalls[id] == 0 && id < c.nextId
  {}

  /** A snapshot is asked of a live kernel only, under a new id that shares the counter of the cells. */
  lemma SnapshotAccepted(s: State)
    requires Inv(s)
    ensures var s' := Step(s, Snapshot);
            var id := s.cells.nextId;
            if s.disposed || !s.proc.alive || s.proc.child.None? then s' == s
            else
              && id !in s.cells.calls && id !in s.cells.snapshotCalls && s'.cells.nextId == id + 1
              && s'.cells.pendingSnapshots == s.cells.pendingSnapshots + {id}
              && s'.cells.snapshotCalls == s.cells.snapshotCalls[id := 0]
  {
    assert IdsInv(s.cells);
    hide Inv, CellsInv;
  }

  /** Cancelling a ready kernel opens a grace period for the active cell; nothing else does. */
  lemma GracesOpened(s: State, e: Event)
    ensures Step(s, e).graces
         == if e == Cancel && s.proc.child.Some? && s.proc.alive && s.proc.childReady && s.cells.activeId.Some?
            then s.graces + multiset{s.cells.activeId.value}
            else if e.GraceElapsed? then s.graces - multiset{e.id}
            else s.graces
    ensures Step(s, e).disposed <==> s.disposed || e == Dispose
  {
    hide FailAll, Settle, Register, ResetInactivity, AnswerSnapshot, AddSnapshot, Disarm, SettleIfWaiting, Waiting;
    hide MarkDead, LetGo, RejectReady, ResolveReady, BeginSpawn, FinishSpawn, RunCellRefused, SnapshotRefused;
  }

  /** The result of a waiting cell stands in every further run. */
  lemma ResultStands(s: State, id: nat, ok: bool, payload: Payload, es: seq<Event>)
    requires Inv(s) && s.proc.child.Some? && s.proc.child.value < s.proc.nextChild && id in s.cells.pending
    requires Possible(Step(s, Receive(s.proc.child.value, Result(id, ok, payload))), es)
    ensures var c := Run(Step(s, Receive(s.proc.child.value, Result(id, ok, payload))), es).cells;
            id in c.calls && c.calls[id] == [if ok then Resolved(payload) else Rejected(CellFailed(payload))]
  {
    var e := Receive(s.proc.child.value, Result(id, ok, payload));
    StepSettlesIff(s, e, id);
    StepKeeps(s, e);
    hide Inv, Step, Run, Possible, Effect;
    OutcomeIsFinal(Step(s, e), es, id);
  }
}
