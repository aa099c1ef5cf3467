/**
 * The state machine of packages/coworker-scratchpad/src/child-process-runtime.ts on values: one
 * step per API call, per frame, per timer and per process event. Children are numbered in the
 * order they are spawned. Spawning is two steps, because spawnChild awaits the environment
 * between creating the ready promise and starting the process.
 */
module RuntimeModel {
  import opened Wrappers

  type Payload = string

  const INITIAL_WINDOW_MS: nat := 30_000
  const AFTER_PROGRESS_WINDOW_MS: nat := 60_000
  const MAX_RESTARTS_BEFORE_SUCCESS: nat := 1

  datatype TimerKind = Total | Inactivity

  /** serial tells a re-armed inactivity timer from the one it replaces. */
  datatype Timer = Timer(id: nat, kind: TimerKind, serial: nat)

  datatype Pending = Pending(total: Timer, inactivity: Timer, windowMs: nat)

  datatype Reason =
    | CellFailed(error: Payload)
    | TimedOut(kind: TimerKind)
    | Cancelled
    | KernelExited
    | ReadFailed
    | RuntimeDisposed

  datatype Outcome = Resolved(value: Payload) | Rejected(reason: Reason)

  datatype Signal = SigInt | SigTerm | SigKill

  /** The child process and the ready promise. */
  datatype Process = Process(
    child: Option<nat>,
    nextChild: nat,
    spawning: nat,                       // spawnChild calls waiting for their environment
    alive: bool,
    childReady: bool,
    ready: nat,                          // the current ready promise
    resolvedReady: set<nat>,
    rejectedReady: set<nat>,
    exited: set<nat>,
    signals: seq<(nat, Signal)>)

  /** Cells, their timers and promises, and snapshots, which share the id counter. */
  datatype Cells = Cells(
    nextId: nat,
    pending: map<nat, Pending>,
    activeId: Option<nat>,
    armed: set<Timer>,
    nextSerial: nat,
    calls: map<nat, seq<Outcome>>,       // resolve/reject calls on each cell promise
    pendingSnapshots: set<nat>,
    snapshotCalls: map<nat, nat>)        // number of resolver calls for each snapshot

  /** What bounds the restarts: a kernel restarted by runCell, and a cell that got its result. */
  datatype Mark = Restarted | Completed

  datatype Restarts = Restarts(sinceSuccess: nat, history: seq<Mark>)

  /** Run frames: waiting for a ready promise, or written to a child. */
  datatype Sends = Sends(unsent: map<nat, nat>, sent: seq<(nat, nat)>)

  datatype State = State(
    disposed: bool,
    proc: Process,
    cells: Cells,
    restarts: Restarts,
    sends: Sends,
    graces: multiset<nat>)               // cancel() calls inside their grace window

  const Initial := State(
    false,
    Process(None, 0, 0, false, false, 0, {0}, {}, {}, []),
    Cells(1, map[], None, {}, 0, map[], {}, map[]),
    Restarts(0, []),
    Sends(map[], []),
    multiset{})

  datatype Frame =
    | Ready
    | StartupError
    | Progress
    | OtherEvent
    | SnapshotResult(id: nat)
    | RpcRequest
    | Result(id: nat, ok: bool, payload: Payload)
    | Unknown

  datatype Event =
    | Start
    | SpawnDone
    | SpawnFailed
    | RunCell
    | SendRun(id: nat)
    | Receive(child: nat, frame: Frame)
    | ReadError(child: nat)
    | Exit(child: nat)
    | Fire(timer: Timer)
    | Cancel
    | GraceElapsed(id: nat)
    | Snapshot
    | SnapshotContinue(id: nat, written: bool)
    | Dispose

  // ---- The process ----

  function MarkDead(p: Process): Process {
    match p.child
    case None => p
    case Some(c) => p.(alive := false, childReady := false, signals := p.signals + [(c, SigTerm), (c, SigKill)])
  }

  function ResolveReady(p: Process): Process {
    if p.ready in p.rejectedReady then p else p.(resolvedReady := p.resolvedReady + {p.ready})
  }

  function RejectReady(p: Process): Process {
    if p.ready in p.resolvedReady then p else p.(rejectedReady := p.rejectedReady + {p.ready})
  }

  function BeginSpawn(p: Process): Process {
    p.(ready := p.ready + 1, spawning := p.spawning + 1)
  }

  function FinishSpawn(p: Process): Process
    requires p.spawning > 0
  {
    p.(spawning := p.spawning - 1, child := Some(p.nextChild), nextChild := p.nextChild + 1,
       alive := true, childReady := false)
  }

  // ---- The cells ----

  function TimersOf(p: Pending): set<Timer> {
    {p.total, p.inactivity}
  }

  /** t is one of the two timers of the pending cell it names. */
  predicate Owns(pending: map<nat, Pending>, t: Timer) {
    t.id in pending && t in TimersOf(pending[t.id])
  }

  predicate Waiting(c: Cells, id: nat) {
    id in c.pending && id in c.calls
  }

  /** Both timers cleared, the entry deleted, the promise resolved or rejected. */
  function Settle(c: Cells, id: nat, outcome: Outcome): Cells
    requires Waiting(c, id)
  {
    c.(pending := c.pending - {id},
       armed := c.armed - TimersOf(c.pending[id]),
       activeId := if c.activeId == Some(id) then None else c.activeId,
       calls := c.calls[id := c.calls[id] + [outcome]])
  }

  function SettleIfWaiting(c: Cells, id: nat, outcome: Outcome): Cells {
    if Waiting(c, id) then Settle(c, id, outcome) else c
  }

  function FailAll(c: Cells, reason: Reason): Cells {
    c.(pending := map[],
       armed := (set t | t in c.armed && !Owns(c.pending, t)),
       activeId := None,
       calls := map id | id in c.calls :: if id in c.pending then c.calls[id] + [Rejected(reason)] else c.calls[id],
       pendingSnapshots := {},
       snapshotCalls := map id | id in c.snapshotCalls ::
         if id in c.pendingSnapshots then c.snapshotCalls[id] + 1 else c.snapshotCalls[id])
  }

  /** A new cell: promise, both timers, active id. */
  function Register(c: Cells): Cells {
    var id := c.nextId;
    var total, inactivity := Timer(id, Total, c.nextSerial), Timer(id, Inactivity, c.nextSerial + 1);
    c.(nextId := id + 1,
       nextSerial := c.nextSerial + 2,
       pending := c.pending[id := Pending(total, inactivity, INITIAL_WINDOW_MS)],
       armed := c.armed + {total, inactivity},
       calls := c.calls[id := []],
       activeId := Some(id))
  }

  function ResetInactivity(c: Cells): Cells {
    if c.activeId.None? || c.activeId.value !in c.pending then c
    else
      var id := c.activeId.value;
      var timer := Timer(id, Inactivity, c.nextSerial);
      c.(nextSerial := c.nextSerial + 1,
         armed := c.armed - {c.pending[id].inactivity} + {timer},
         pending := c.pending[id := c.pending[id].(inactivity := timer, windowMs := AFTER_PROGRESS_WINDOW_MS)])
  }

  function AddSnapshot(c: Cells): Cells {
    c.(nextId := c.nextId + 1,
       pendingSnapshots := c.pendingSnapshots + {c.nextId},
       snapshotCalls := c.snapshotCalls[c.nextId := 0])
  }

  function AnswerSnapshot(c: Cells, id: nat): Cells {
    if id in c.pendingSnapshots && id in c.snapshotCalls
    then c.(pendingSnapshots := c.pendingSnapshots - {id},
            snapshotCalls := c.snapshotCalls[id := c.snapshotCalls[id] + 1])
    else c
  }

  function Disarm(c: Cells, t: Timer): Cells {
    c.(armed := c.armed - {t})
  }

  // ---- Steps ----

  predicate RunCellRefused(s: State) {
    s.disposed || (!s.proc.alive && s.restarts.sinceSuccess >= MAX_RESTARTS_BEFORE_SUCCESS)
  }

  function NoteRestart(r: Restarts): Restarts {
    Restarts(r.sinceSuccess + 1, r.history + [Restarted])
  }

  function NoteCompleted(r: Restarts): Restarts {
    Restarts(0, r.history + [Completed])
  }

  function RunCellStep(s: State): State {
    if RunCellRefused(s) then s
    else
      var proc := if s.proc.alive then s.proc else BeginSpawn(s.proc);
      s.(proc := proc,
         restarts := if s.proc.alive then s.restarts else NoteRestart(s.restarts),
         cells := Register(s.cells),
         sends := s.sends.(unsent := s.sends.unsent[s.cells.nextId := proc.ready]))
  }

  function ReceiveStep(s: State, frame: Frame): State {
    match frame
    case Ready => s.(proc := ResolveReady(s.proc.(childReady := true)))
    case StartupError => s.(proc := RejectReady(s.proc))
    case Progress => s.(cells := ResetInactivity(s.cells))
    case SnapshotResult(id) => s.(cells := AnswerSnapshot(s.cells, id))
    case Result(id, ok, payload) =>
      if !Waiting(s.cells, id) then s
      else s.(cells := Settle(s.cells, id, if ok then Resolved(payload) else Rejected(CellFailed(payload))),
              restarts := NoteCompleted(s.restarts))
    case OtherEvent => s
    case RpcRequest => s
    case Unknown => s
  }

  /** A timer that goes off is no longer armed; its cell is rejected and the kernel killed. */
  function FireStep(s: State, t: Timer): State {
    var cells := Disarm(s.cells, t);
    if !Waiting(cells, t.id) then s.(cells := cells)
    else s.(cells := Settle(cells, t.id, Rejected(TimedOut(t.kind))), proc := MarkDead(s.proc))
  }

  function CancelStep(s: State): State {
    if s.proc.child.None? || !s.proc.alive then s
    else if !s.proc.childReady then
      s.(cells := if s.cells.activeId.None? then s.cells
                  else SettleIfWaiting(s.cells, s.cells.activeId.value, Rejected(Cancelled)),
         proc := MarkDead(s.proc))
    else
      s.(proc := s.proc.(signals := s.proc.signals + [(s.proc.child.value, SigInt)]),
         graces := if s.cells.activeId.None? then s.graces else s.graces + multiset{s.cells.activeId.value})
  }

  function GraceStep(s: State, id: nat): State {
    var s' := s.(graces := s.graces - multiset{id});
    if !Waiting(s.cells, id) then s'
    else s'.(cells := Settle(s.cells, id, Rejected(Cancelled)), proc := MarkDead(s.proc))
  }

  function ExitStep(s: State, child: nat): State {
    var proc := s.proc.(exited := s.proc.exited + {child});
    if s.proc.child != Some(child) then s.(proc := proc)
    else
      var down := proc.(alive := false, childReady := false);
      if s.disposed then s.(proc := down)
      else s.(proc := RejectReady(down), cells := FailAll(s.cells, KernelExited))
  }

  predicate SnapshotRefused(s: State) {
    s.disposed || !s.proc.alive || s.proc.child.None?
  }

  function DisposeStep(s: State): State {
    if s.disposed then s
    else
      s.(disposed := true,
         cells := FailAll(s.cells, RuntimeDisposed),
         proc := LetGo(s.proc))
  }

  function LetGo(p: Process): Process {
    p.(alive := false, childReady := false, child := None,
       signals := if p.child.None? then p.signals else p.signals + [(p.child.value, SigTerm)])
  }

  function SendRunStep(s: State, id: nat): State {
    s.(sends := Sends(s.sends.unsent - {id},
                      if s.proc.child.Some? && id in s.cells.pending
                      then s.sends.sent + [(s.proc.child.value, id)] else s.sends.sent))
  }

  /** What may happen next. */
  predicate Enabled(s: State, e: Event) {
    match e
    case SpawnDone => s.proc.spawning > 0
    case SpawnFailed => s.proc.spawning > 0
    case SendRun(id) => id in s.sends.unsent && s.sends.unsent[id] in s.proc.resolvedReady
    case Receive(child, _) => child < s.proc.nextChild
    case ReadError(child) => child < s.proc.nextChild
    case Exit(child) => child < s.proc.nextChild && child !in s.proc.exited
    case Fire(timer) => timer in s.cells.armed
    case GraceElapsed(id) => id in s.graces
    case SnapshotContinue(id, _) => id in s.cells.snapshotCalls
    case _ => true
  }

  function Step(s: State, e: Event): State {
    match e
    case Start => if s.disposed then s else s.(proc := BeginSpawn(s.proc))
    case SpawnDone => if s.proc.spawning == 0 then s else s.(proc := FinishSpawn(s.proc))
    case SpawnFailed => if s.proc.spawning == 0 then s else s.(proc := s.proc.(spawning := s.proc.spawning - 1))
    case RunCell => RunCellStep(s)
    case SendRun(id) => SendRunStep(s, id)
    case Receive(child, frame) => if s.proc.child == Some(child) then ReceiveStep(s, frame) else s
    case ReadError(child) => s.(cells := FailAll(s.cells, ReadFailed))
    case Exit(child) => ExitStep(s, child)
    case Fire(timer) => FireStep(s, timer)
    case Cancel => CancelStep(s)
    case GraceElapsed(id) => GraceStep(s, id)
    case Snapshot => if SnapshotRefused(s) then s else s.(cells := AddSnapshot(s.cells))
    case SnapshotContinue(id, written) =>
      if s.proc.child.None? || !written
      then s.(cells := s.cells.(pendingSnapshots := s.cells.pendingSnapshots - {id})) else s
    case Dispose => DisposeStep(s)
  }

  ghost predicate Possible(s: State, es: seq<Event>)
    decreases |es|
  {
    es == [] || (Enabled(s, es[0]) && Possible(Step(s, es[0]), es[1..]))
  }

  function Run(s: State, es: seq<Event>): State
    decreases |es|
  {
    if es == [] then s else Run(Step(s, es[0]), es[1..])
  }

  ghost predicate Reachable(s: State) {
    exists es :: Possible(Initial, es) && Run(Initial, es) == s
  }

  // ---- What every step keeps ----

  /** A cell is waiting, or its promise got exactly one call. */
  ghost predicate SettledOnce(c: Cells) {
    && c.pending.Keys <= c.calls.Keys
    && (forall id :: id in c.calls ==> |c.calls[id]| == if id in c.pending then 0 else 1)
    && (c.activeId.Some? ==> c.activeId.value in c.pending)
  }

  ghost predicate TimersInv(c: Cells) {
    && (forall id :: id in c.pending ==>
          && c.pending[id].total.id == id && c.pending[id].total.kind == Total
          && c.pending[id].inactivity.id == id && c.pending[id].inactivity.kind == Inactivity)
    && (forall t :: t in c.armed <==> Owns(c.pending, t))
    && (forall t :: t in c.armed ==> t.serial < c.nextSerial)
  }

  ghost predicate IdsInv(c: Cells) {
    && (forall id :: 1 <= id < c.nextId <==> id in c.calls || id in c.snapshotCalls)
    && c.calls.Keys !! c.snapshotCalls.Keys
    && c.nextId >= 1
  }

  ghost predicate SnapshotsInv(c: Cells) {
    && c.pendingSnapshots <= c.snapshotCalls.Keys
    && (forall id :: id in c.snapshotCalls ==> c.snapshotCalls[id] <= if id in c.pendingSnapshots then 0 else 1)
  }

  ghost predicate CellsInv(c: Cells) {
    SettledOnce(c) && TimersInv(c) && IdsInv(c) && SnapshotsInv(c)
  }

  /** Restarts since the last completed cell. */
  function TrailingRestarts(history: seq<Mark>): nat {
    if history == [] || history[|history| - 1] == Completed then 0
    else 1 + TrailingRestarts(history[..|history| - 1])
  }

  ghost predicate RestartsInv(r: Restarts) {
    && r.sinceSuccess == TrailingRestarts(r.history) <= MAX_RESTARTS_BEFORE_SUCCESS
    && forall i, j :: 0 <= i < j < |r.history| && j == i + 1 ==> r.history[i] == Completed || r.history[j] == Completed
  }

  /** Each run frame is written at most once. */
  ghost predicate SendsInv(sends: Sends, issued: set<nat>) {
    && sends.unsent.Keys <= issued
    && (forall i :: 0 <= i < |sends.sent| ==> sends.sent[i].1 in issued && sends.sent[i].1 !in sends.unsent)
    && (forall i, j :: 0 <= i < j < |sends.sent| ==> sends.sent[i].1 != sends.sent[j].1)
  }

  ghost predicate Idle(c: Cells) {
    c.pending == map[] && c.pendingSnapshots == {}
  }

  ghost predicate Inv(s: State) {
    && CellsInv(s.cells)
    && RestartsInv(s.restarts)
    && SendsInv(s.sends, s.cells.calls.Keys)
    && (s.disposed ==> Idle(s.cells))
  }
}
