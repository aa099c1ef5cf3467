/**
 * packages/coworker-scratchpad/src/child-process-runtime.ts: the class, each method proved to take
 * the step of RuntimeModel. `world` is what the class acts on: the processes it spawned, the
 * timers it armed, the promises it settled and the frames it wrote.
 */
module ChildProcessRuntime {
  import opened Wrappers
  import opened RuntimeModel
  import opened RuntimeInvariants

  datatype World = World(
    nextChild: nat, spawning: nat, ready: nat, resolvedReady: set<nat>, rejectedReady: set<nat>, exited: set<nat>,
    signals: seq<(nat, Signal)>, armed: set<Timer>, nextSerial: nat, calls: map<nat, seq<Outcome>>,
    snapshotCalls: map<nat, nat>, history: seq<Mark>, sends: Sends, graces: multiset<nat>)

  datatype RunCellReply = Accepted(id: nat) | DisposedError | RepeatedlyCrashed

  class ChildProcessRuntime {
    var child: Option<nat>
    var pending: map<nat, Pending>
    var pendingSnapshots: set<nat>
    var activeId: Option<nat>
    var nextId: nat
    var alive: bool
    var childReady: bool
    var disposed: bool
    var restartsSinceSuccess: nat
    var world: World

    function Proc(): Process
      reads this
    {
      Process(child, world.nextChild, world.spawning, alive, childReady, world.ready, world.resolvedReady,
              world.rejectedReady, world.exited, world.signals)
    }

    function CellState(): Cells
      reads this
    {
      Cells(nextId, pending, activeId, world.armed, world.nextSerial,
            world.calls, pendingSnapshots, world.snapshotCalls)
    }

    function View(): State
      reads this
    {
      State(disposed, Proc(), CellState(), Restarts(restartsSinceSuccess, world.history), world.sends, world.graces)
    }

    ghost predicate Valid()
      reads this
    {
      Inv(View())
    }

    constructor ()
      ensures Valid() && View() == Initial
    {
      child, pending, pendingSnapshots, activeId, nextId := None, map[], {}, None, 1;
      alive, childReady, disposed, restartsSinceSuccess := false, false, false, 0;
      world := World(0, 0, 0, {0}, {}, {}, [], {}, 0, map[], map[], [], Sends(map[], []), multiset{});
    }

    // ---- Promise and timer plumbing ----

    method ClearTimers(p: Pending)
      modifies this`world
      ensures world == old(world).(armed := old(world.armed) - TimersOf(p))
    {
      world := world.(armed := world.armed - {p.total});
      world := world.(armed := world.armed - {p.inactivity});
    }

    method SetTimer(id: nat, kind: TimerKind) returns (t: Timer)
      modifies this`world
      ensures t == Timer(id, kind, old(world.nextSerial))
      ensures world == old(world).(armed := old(world.armed) + {t}, nextSerial := old(world.nextSerial) + 1)
    {
      t := Timer(id, kind, world.nextSerial);
      world := world.(armed := world.armed + {t}, nextSerial := world.nextSerial + 1);
    }

    /** Clear both timers, forget the cell, settle its promise. */
    method SettleCell(id: nat, outcome: Outcome)
      requires Valid() && id in pending
      modifies this`world, this`pending, this`activeId
      ensures CellState() == Settle(old(CellState()), id, outcome)
      ensures View() == old(View()).(cells := CellState())
    {
      ClearTimers(pending[id]);
      pending := pending - {id};
      if activeId == Some(id) { activeId := None; }
      world := world.(calls := world.calls[id := world.calls[id] + [outcome]]);
    }

    method MarkDead()
      modifies this`world, this`alive, this`childReady
      ensures View() == old(View()).(proc := RuntimeModel.MarkDead(old(Proc())))
    {
      if child.Some? {
        alive, childReady := false, false;
        world := world.(signals := world.signals + [(child.value, SigTerm), (child.value, SigKill)]);
      }
    }

    method RejectActive(id: Option<nat>, reason: Reason)
      requires Valid()
      modifies this`world, this`pending, this`activeId
      ensures View() == old(View()).(cells := if id.None? then old(CellState())
                                              else SettleIfWaiting(old(CellState()), id.value, Rejected(reason)))
    {
      if id.Some? && id.value in pending {
        SettleCell(id.value, Rejected(reason));
      }
    }

    method FailCell(id: nat, reason: Reason)
      requires id in pending && id in world.calls
      modifies this`world
      ensures world == old(world).(armed := old(world.armed) - TimersOf(pending[id]),
                                   calls := old(world.calls)[id := old(world.calls)[id] + [Rejected(reason)]])
    {
      ClearTimers(pending[id]);
      world := world.(calls := world.calls[id := world.calls[id] + [Rejected(reason)]]);
    }

    /** Timers and promises when all waiting cells but those still to do have been failed. */
    static ghost predicate FailedBut(
      c: Cells, todo: set<nat>, reason: Reason, armed: set<Timer>, calls: map<nat, seq<Outcome>>) {
      && calls.Keys == c.calls.Keys
      && (forall id :: id in calls ==>
            calls[id] == if id in c.pending && id !in todo then c.calls[id] + [Rejected(reason)] else c.calls[id])
      && (forall t :: t in armed <==> t in c.armed && !(Owns(c.pending, t) && t.id !in todo))
    }

    static lemma FailedOneMore(
      c: Cells, todo: set<nat>, id: nat, reason: Reason, armed: set<Timer>, calls: map<nat, seq<Outcome>>)
      requires TimersInv(c) && FailedBut(c, todo, reason, armed, calls) && id in todo && id in c.pending && id in calls
      ensures FailedBut(c, todo - {id}, reason,
                        armed - TimersOf(c.pending[id]), calls[id := calls[id] + [Rejected(reason)]])
    {}

    static lemma FailedButNone(c: Cells, reason: Reason, armed: set<Timer>, calls: map<nat, seq<Outcome>>)
      requires FailedBut(c, {}, reason, armed, calls)
      ensures armed == FailAll(c, reason).armed && calls == FailAll(c, reason).calls
    {}

    method FailPendingCells(reason: Reason)
      requires TimersInv(CellState()) && pending.Keys <= world.calls.Keys
      modifies this`world
      ensures world == old(world).(armed := FailAll(old(CellState()), reason).armed,
                                   calls := FailAll(old(CellState()), reason).calls)
    {
      var todo := pending.Keys;
      assert FailedBut(CellState(), todo, reason, world.armed, world.calls);
      hide TimersInv, FailedBut, FailAll;
      while todo != {}
        invariant todo <= pending.Keys
        invariant world == old(world).(armed := world.armed, calls := world.calls)
        invariant world.calls.Keys == old(world.calls).Keys
        invariant FailedBut(old(CellState()), todo, reason, world.armed, world.calls)
      {
        var id :| id in todo;
        FailedOneMore(old(CellState()), todo, id, reason, world.armed, world.calls);
        FailCell(id, reason);
        todo := todo - {id};
      }
      FailedButNone(old(CellState()), reason, world.armed, world.calls);
    }

    method FailPendingSnapshots()
      requires pendingSnapshots <= world.snapshotCalls.Keys
      modifies this`world
      ensures world == old(world).(snapshotCalls := map id | id in old(world.snapshotCalls) ::
                if id in pendingSnapshots then old(world.snapshotCalls)[id] + 1 else old(world.snapshotCalls)[id])
    {
      var todo := pendingSnapshots;
      while todo != {}
        invariant todo <= pendingSnapshots
        invariant world == old(world).(snapshotCalls := world.snapshotCalls)
        invariant world.snapshotCalls.Keys == old(world.snapshotCalls).Keys
        invariant forall id :: id in world.snapshotCalls ==>
                    world.snapshotCalls[id]
                    == old(world.snapshotCalls)[id] + if id in pendingSnapshots && id !in todo then 1 else 0
      {
        var id :| id in todo;
        world := world.(snapshotCalls := world.snapshotCalls[id := world.snapshotCalls[id] + 1]);
        todo := todo - {id};
      }
    }

    method FailAllPending(reason: Reason)
      requires Valid()
      modifies this`world, this`pending, this`activeId, this`pendingSnapshots
      ensures View() == old(View()).(cells := FailAll(old(CellState()), reason))
    {
      FailPendingCells(reason);
      pending := map[];
      activeId := None;
      FailPendingSnapshots();
      pendingSnapshots := {};
    }

    // ---- Spawning ----

    /** The synchronous part of spawnChild: a new ready promise, then the wait for the environment. */
    method SpawnChild()
      modifies this`world
      ensures View() == old(View()).(proc := BeginSpawn(old(Proc())))
    {
      world := world.(ready := world.ready + 1, spawning := world.spawning + 1);
    }

    /** The rest of spawnChild, once the environment is there. */
    method OnEnvironmentReady()
      requires Valid() && Enabled(View(), SpawnDone)
      modifies this
      ensures Valid() && View() == Step(old(View()), SpawnDone)
    {
      child := Some(world.nextChild);
      alive := true;
      childReady := false;
      world := world.(spawning := world.spawning - 1, nextChild := world.nextChild + 1);
      StepKeeps(old(View()), SpawnDone);
    }

    method OnEnvironmentFailed()
      requires Valid() && Enabled(View(), SpawnFailed)
      modifies this
      ensures Valid() && View() == Step(old(View()), SpawnFailed)
    {
      world := world.(spawning := world.spawning - 1);
      StepKeeps(old(View()), SpawnFailed);
    }

    method Start() returns (ok: bool)
      requires Valid()
      modifies this
      ensures ok == !old(disposed)
      ensures Valid() && View() == Step(old(View()), RuntimeModel.Start)
    {
      StepKeeps(View(), RuntimeModel.Start);
      if disposed { return false; }
      SpawnChild();
      return true;
    }

    // ---- Cells ----

    /** Promise, timers, map entry, active id, and the run frame left to the ready promise. */
    method RegisterCell() returns (id: nat)
      modifies this
      ensures id == old(nextId)
      ensures var sends := old(world.sends);
              View() == old(View()).(cells := Register(old(CellState())),
                                     sends := sends.(unsent := sends.unsent[id := old(world.ready)]))
    {
      hide Register;
      id := AddCell();
      world := world.(sends := world.sends.(unsent := world.sends.unsent[id := world.ready]));
    }

    method AddCell() returns (id: nat)
      modifies this
      ensures id == old(nextId)
      ensures View() == old(View()).(cells := Register(old(CellState())))
    {
      id := nextId;
      nextId := nextId + 1;
      var total := SetTimer(id, Total);
      var inactivity := SetTimer(id, Inactivity);
      pending := pending[id := Pending(total, inactivity, INITIAL_WINDOW_MS)];
      world := world.(calls := world.calls[id := []]);
      activeId := Some(id);
      assert CellState().armed == Register(old(CellState())).armed;
    }

    method RunCell() returns (reply: RunCellReply)
      requires Valid()
      modifies this
      ensures reply == if old(disposed) then DisposedError
                       else if RunCellRefused(old(View())) then RepeatedlyCrashed
                       else Accepted(old(nextId))
      ensures Valid() && View() == Step(old(View()), RuntimeModel.RunCell)
    {
      hide Inv;
      StepKeeps(View(), RuntimeModel.RunCell);
      if disposed { return DisposedError; }
      if !alive {
        if restartsSinceSuccess >= MAX_RESTARTS_BEFORE_SUCCESS { return RepeatedlyCrashed; }
        restartsSinceSuccess := restartsSinceSuccess + 1;
        world := world.(history := world.history + [Restarted]);
        SpawnChild();
      }
      var id := RegisterCell();
      return Accepted(id);
    }

    /** The continuation of the ready promise: write the run frame if the cell still waits. */
    method OnReadyForCell(id: nat)
      requires Valid() && Enabled(View(), SendRun(id))
      modifies this
      ensures Valid() && View() == Step(old(View()), SendRun(id))
    {
      StepKeeps(View(), SendRun(id));
      world := world.(sends := world.sends.(unsent := world.sends.unsent - {id}));
      if child.Some? && id in pending {
        world := world.(sends := world.sends.(sent := world.sends.sent + [(child.value, id)]));
      }
    }

    method ResetInactivityTimer()
      requires Valid()
      modifies this
      ensures View() == old(View()).(cells := ResetInactivity(old(CellState())))
    {
      if activeId.None? { return; }
      var id := activeId.value;
      if id !in pending { return; }
      var p := pending[id];
      world := world.(armed := world.armed - {p.inactivity});
      var timer := SetTimer(id, Inactivity);
      pending := pending[id := p.(inactivity := timer, windowMs := AFTER_PROGRESS_WINDOW_MS)];
    }

    method OnResult(id: nat, ok: bool, payload: Payload)
      requires Valid()
      modifies this
      ensures View() == ReceiveStep(old(View()), Result(id, ok, payload))
    {
      assert id in pending ==> id in world.calls;
      hide Inv, Settle;
      if id !in pending { return; }
      SettleCell(id, if ok then Resolved(payload) else Rejected(CellFailed(payload)));
      restartsSinceSuccess := 0;
      world := world.(history := world.history + [Completed]);
    }

    method OnSnapshotResult(id: nat)
      requires Valid()
      modifies this
      ensures View() == ReceiveStep(old(View()), SnapshotResult(id))
    {
      if id in pendingSnapshots {
        pendingSnapshots := pendingSnapshots - {id};
        world := world.(snapshotCalls := world.snapshotCalls[id := world.snapshotCalls[id] + 1]);
      }
    }

    method OnReadyFrame()
      modifies this
      ensures View() == ReceiveStep(old(View()), Ready)
    {
      childReady := true;
      if world.ready !in world.rejectedReady {
        world := world.(resolvedReady := world.resolvedReady + {world.ready});
      }
    }

    method RejectReadyPromise()
      modifies this`world
      ensures View() == old(View()).(proc := RejectReady(old(Proc())))
    {
      if world.ready !in world.resolvedReady {
        world := world.(rejectedReady := world.rejectedReady + {world.ready});
      }
    }

    /** One turn of readLoop for a frame of the given child. */
    method OnFrame(from: nat, frame: Frame)
      requires Valid() && Enabled(View(), Receive(from, frame))
      modifies this
      ensures Valid() && View() == Step(old(View()), Receive(from, frame))
    {
      hide Inv;
      StepKeeps(View(), Receive(from, frame));
      if child != Some(from) { return; }
      match frame
      case Ready => OnReadyFrame();
      case StartupError => RejectReadyPromise();
      case Progress => ResetInactivityTimer();
      case SnapshotResult(id) => OnSnapshotResult(id);
      case Result(id, ok, payload) => OnResult(id, ok, payload);
      case OtherEvent =>
      case RpcRequest =>
      case Unknown =>
    }

    /** readLoop's catch: it does not ask whose stream failed. */
    method OnReadError(from: nat)
      requires Valid() && Enabled(View(), ReadError(from))
      modifies this
      ensures Valid() && View() == Step(old(View()), ReadError(from))
    {
      StepKeeps(View(), ReadError(from));
      FailAllPending(ReadFailed);
    }

    method OnExit(from: nat)
      requires Valid() && Enabled(View(), Exit(from))
      modifies this
      ensures Valid() && View() == Step(old(View()), Exit(from))
    {
      StepKeeps(View(), Exit(from));
      world := world.(exited := world.exited + {from});
      if child != Some(from) { return; }
      alive := false;
      childReady := false;
      if disposed { return; }
      RejectReadyPromise();
      FailAllPending(KernelExited);
    }

    // ---- Timeouts, cancel, snapshots, dispose ----

    /** onTotalTimeout and onInactivityTimeout: the timer has gone off, clear the other one. */
    method OnTimer(t: Timer)
      requires Valid() && Enabled(View(), Fire(t))
      modifies this
      ensures Valid() && View() == Step(old(View()), Fire(t))
    {
      hide Inv;
      StepKeeps(View(), Fire(t));
      FiringTimer(View(), t);
      world := world.(armed := world.armed - {t});
      if t.id !in pending { return; }
      var p := pending[t.id];
      world := world.(armed := world.armed - {if t.kind == Total then p.inactivity else p.total});
      pending := pending - {t.id};
      if activeId == Some(t.id) { activeId := None; }
      MarkDead();
      world := world.(calls := world.calls[t.id := world.calls[t.id] + [Rejected(TimedOut(t.kind))]]);
    }

    /** An armed timer is one of its cell's two; the other one is told by the kind. */
    static lemma FiringTimer(s: State, t: Timer)
      requires Inv(s) && t in s.cells.armed
      ensures var c := s.cells;
              && Waiting(c, t.id)
              && var both := TimersOf(c.pending[t.id]);
              && c.armed - {t} - both
                 == c.armed - {t} - {if t.kind == Total then c.pending[t.id].inactivity else c.pending[t.id].total}
    {
      assert Owns(s.cells.pending, t);
    }

    method Cancel()
      requires Valid()
      modifies this
      ensures Valid() && View() == Step(old(View()), RuntimeModel.Cancel)
    {
      StepKeeps(View(), RuntimeModel.Cancel);
      if child.None? || !alive { return; }
      var id := activeId;
      if !childReady {
        RejectActive(id, Cancelled);
        MarkDead();
        return;
      }
      world := world.(signals := world.signals + [(child.value, SigInt)]);
      if id.None? { return; }
      world := world.(graces := world.graces + multiset{id.value});
    }

    method OnGraceElapsed(id: nat)
      requires Valid() && Enabled(View(), GraceElapsed(id))
      modifies this
      ensures Valid() && View() == Step(old(View()), GraceElapsed(id))
    {
      StepKeeps(View(), GraceElapsed(id));
      world := world.(graces := world.graces - multiset{id});
      if id !in pending { return; }
      SettleCell(id, Rejected(Cancelled));
      MarkDead();
    }

    method Snapshot() returns (id: Option<nat>)
      requires Valid()
      modifies this
      ensures id == if SnapshotRefused(old(View())) then None else Some(old(nextId))
      ensures Valid() && View() == Step(old(View()), RuntimeModel.Snapshot)
    {
      hide Inv;
      StepKeeps(View(), RuntimeModel.Snapshot);
      if disposed || !alive || child.None? { return None; }
      id := Some(nextId);
      pendingSnapshots := pendingSnapshots + {nextId};
      world := world.(snapshotCalls := world.snapshotCalls[nextId := 0]);
      nextId := nextId + 1;
    }

    method OnSnapshotContinue(id: nat, written: bool)
      requires Valid() && Enabled(View(), SnapshotContinue(id, written))
      modifies this
      ensures Valid() && View() == Step(old(View()), SnapshotContinue(id, written))
    {
      StepKeeps(View(), SnapshotContinue(id, written));
      if child.None? || !written { pendingSnapshots := pendingSnapshots - {id}; }
    }

    method Dispose()
      requires Valid()
      modifies this
      ensures Valid() && View() == Step(old(View()), RuntimeModel.Dispose)
    {
      StepKeeps(View(), RuntimeModel.Dispose);
      hide Inv, FailAll, LetGo;
      if disposed { return; }
      FailAllPending(RuntimeDisposed);
      disposed := true;
      LetChildGo();
    }

    method LetChildGo()
      modifies this`world, this`alive, this`childReady, this`child
      ensures View() == old(View()).(proc := LetGo(old(Proc())))
    {
      alive := false;
      childReady := false;
      if child.Some? { world := world.(signals := world.signals + [(child.value, SigTerm)]); }
      child := None;
    }
  }
}
