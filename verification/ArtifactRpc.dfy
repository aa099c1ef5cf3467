/**
 * The two-way protocol between the parent (child-process-runtime.ts) and the kernel
 * (kernel-entry.ts) while one child lives: cells travel down and their results up, artifact
 * requests travel up and their responses down, each direction an ordered pipe. RPC ids are the
 * counters inside `art-<pid>-<n>`.
 */
module ArtifactRpc {
  import opened Wrappers

  datatype Up =
    | RpcRequest(id: nat)
    | CellResult(cell: nat)
    | SnapshotResult(id: nat)
    | Notice                             // ready, progress, data_load, artifact_create

  datatype Down =
    | RpcResponse(id: nat, ok: bool)
    | RunCell(cell: nat)
    | TakeSnapshot(id: nat)
    | Other                              // any other frame is skipped

  datatype Settlement = RpcResolved | RpcRejected

  /** The kernel: its side of the pipes and the promises its cells hold. */
  datatype Kernel = Kernel(
    nextRpcId: nat,
    pendingRpc: set<nat>,
    calls: map<nat, seq<Settlement>>,
    running: set<nat>,
    blocked: map<nat, nat>,              // cell -> the RPC whose promise it awaits
    stdout: seq<Up>,
    ended: bool)                         // the dispatch loop is over

  const FreshKernel := Kernel(1, {}, map[], {}, map[], [], false)

  // ---- Kernel operations ----

  function Send(k: Kernel, frame: Up): Kernel {
    k.(stdout := k.stdout + [frame])
  }

  function Issue(k: Kernel): Kernel {
    var id := k.nextRpcId;
    Send(k.(nextRpcId := id + 1, pendingRpc := k.pendingRpc + {id}, calls := k.calls[id := []]), RpcRequest(id))
  }

  /** Cells no longer held up by the given RPCs. */
  function Unblock(blocked: map<nat, nat>, settled: set<nat>): map<nat, nat> {
    map cell | cell in blocked && blocked[cell] !in settled :: blocked[cell]
  }

  function Route(k: Kernel, id: nat, ok: bool): Kernel {
    if id !in k.pendingRpc || id !in k.calls then k
    else k.(pendingRpc := k.pendingRpc - {id},
            calls := k.calls[id := k.calls[id] + [if ok then RpcResolved else RpcRejected]],
            blocked := Unblock(k.blocked, {id}))
  }

  function Dispatch(k: Kernel, frame: Down): Kernel {
    match frame
    case RpcResponse(id, ok) => Route(k, id, ok)
    case TakeSnapshot(id) => Send(k, SnapshotResult(id))
    case RunCell(cell) => k.(running := k.running + {cell})
    case Other => k
  }

  /** The finally clause of the dispatch loop. */
  function EndOfInput(k: Kernel): Kernel {
    k.(pendingRpc := {},
       calls := map id | id in k.calls :: if id in k.pendingRpc then k.calls[id] + [RpcRejected] else k.calls[id],
       blocked := Unblock(k.blocked, k.pendingRpc),
       ended := true)
  }

  function Finish(k: Kernel, cell: nat): Kernel {
    Send(k.(running := k.running - {cell}), CellResult(cell))
  }

  // ---- The whole system ----

  datatype System = System(
    kernel: Kernel,
    stdin: seq<Down>,
    handlers: multiset<nat>,             // artifact handlers at work in the parent
    nextCell: nat,
    owed: set<nat>)                      // cells sent down whose result has not come back

  const Start := System(FreshKernel, [], multiset{}, 1, {})

  datatype Event =
    | KernelIssues(cell: nat)
    | KernelAwaits(cell: nat, id: nat)
    | KernelFinishes(cell: nat)
    | KernelNotifies
    | KernelReads
    | KernelInputEnds
    | ParentReads
    | ParentHandled(id: nat, ok: bool)
    | ParentRuns
    | ParentSnapshots(id: nat)

  predicate Free(k: Kernel, cell: nat) {
    cell in k.running && cell !in k.blocked
  }

  predicate Enabled(s: System, e: Event) {
    match e
    case KernelIssues(cell) => Free(s.kernel, cell)
    case KernelAwaits(cell, id) => Free(s.kernel, cell) && 1 <= id < s.kernel.nextRpcId
    case KernelFinishes(cell) => Free(s.kernel, cell)
    case KernelReads => s.stdin != [] && !s.kernel.ended
    case KernelInputEnds => !s.kernel.ended
    case ParentReads => s.kernel.stdout != []
    case ParentHandled(id, _) => id in s.handlers
    case _ => true
  }

  /** A frame written to a kernel that reads no more is lost. */
  function Write(s: System, frame: Down): System {
    if s.kernel.ended then s else s.(stdin := s.stdin + [frame])
  }

  function Take(s: System, frame: Up): System {
    match frame
    case RpcRequest(id) => s.(handlers := s.handlers + multiset{id})
    case CellResult(cell) => s.(owed := s.owed - {cell})
    case SnapshotResult(_) => s
    case Notice => s
  }

  function Step(s: System, e: Event): System {
    match e
    case KernelIssues(cell) => s.(kernel := Issue(s.kernel))
    case KernelAwaits(cell, id) =>
      if id in s.kernel.pendingRpc then s.(kernel := s.kernel.(blocked := s.kernel.blocked[cell := id])) else s
    case KernelFinishes(cell) => s.(kernel := Finish(s.kernel, cell))
    case KernelNotifies => s.(kernel := Send(s.kernel, Notice))
    case KernelReads => if s.stdin == [] then s else s.(kernel := Dispatch(s.kernel, s.stdin[0]), stdin := s.stdin[1..])
    case KernelInputEnds => s.(kernel := EndOfInput(s.kernel), stdin := [])
    case ParentReads =>
      if s.kernel.stdout == [] then s
      else Take(s.(kernel := s.kernel.(stdout := s.kernel.stdout[1..])), s.kernel.stdout[0])
    case ParentHandled(id, ok) => Write(s.(handlers := s.handlers - multiset{id}), RpcResponse(id, ok))
    case ParentRuns => Write(s.(nextCell := s.nextCell + 1, owed := s.owed + {s.nextCell}), RunCell(s.nextCell))
    case ParentSnapshots(id) => Write(s, TakeSnapshot(id))
  }

  ghost predicate Possible(s: System, es: seq<Event>)
    decreases |es|
  {
    es == [] || (Enabled(s, es[0]) && Possible(Step(s, es[0]), es[1..]))
  }

  function Run(s: System, es: seq<Event>): System
    decreases |es|
  {
    if es == [] then s else Run(Step(s, es[0]), es[1..])
  }

  ghost predicate Reachable(s: System) {
    exists es :: Possible(Start, es) && Run(Start, es) == s
  }

  // ---- Tokens ----

  function One(b: bool): nat {
    if b then 1 else 0
  }

  /** How often a frame is in a pipe. */
  function Ups(up: seq<Up>, frame: Up): nat {
    if up == [] then 0 else One(up[0] == frame) + Ups(up[1..], frame)
  }

  function Responses(down: seq<Down>, id: nat): nat {
    if down == [] then 0 else One(down[0].RpcResponse? && down[0].id == id) + Responses(down[1..], id)
  }

  function Runs(down: seq<Down>, cell: nat): nat {
    if down == [] then 0 else One(down[0] == RunCell(cell)) + Runs(down[1..], cell)
  }

  lemma {:induction false} UpSnoc(up: seq<Up>, last: Up, frame: Up)
    ensures Ups(up + [last], frame) == Ups(up, frame) + One(last == frame)
  {
    if up == [] {
      assert up + [last] == [last];
    } else {
      assert (up + [last])[1..] == up[1..] + [last];
      UpSnoc(up[1..], last, frame);
    }
  }

  lemma {:induction false} DownSnoc(down: seq<Down>, last: Down, n: nat)
    ensures Responses(down + [last], n) == Responses(down, n) + One(last.RpcResponse? && last.id == n)
    ensures Runs(down + [last], n) == Runs(down, n) + One(last == RunCell(n))
  {
    if down == [] {
      assert down + [last] == [last];
    } else {
      assert (down + [last])[1..] == down[1..] + [last];
      DownSnoc(down[1..], last, n);
    }
  }

  /** Everything about an RPC that is on its way: request, running handler, response. */
  function RpcTokens(s: System, id: nat): nat {
    Ups(s.kernel.stdout, RpcRequest(id)) + s.handlers[id] + Responses(s.stdin, id)
  }

  /** Where the one result owed for a cell comes from: run frame, running cell, result frame. */
  function CellTokens(s: System, cell: nat): nat {
    Runs(s.stdin, cell) + One(cell in s.kernel.running) + Ups(s.kernel.stdout, CellResult(cell))
  }

  ghost predicate KernelInv(k: Kernel) {
    && (forall id :: 1 <= id < k.nextRpcId <==> id in k.calls)
    && k.nextRpcId >= 1
    && k.pendingRpc <= k.calls.Keys
    && (forall id :: id in k.calls ==> |k.calls[id]| == if id in k.pendingRpc then 0 else 1)
    && (forall cell :: cell in k.blocked ==> cell in k.running && k.blocked[cell] in k.pendingRpc)
  }

  /** While the kernel reads, what is pending is exactly what is on its way, once. */
  ghost predicate TokensInv(s: System) {
    !s.kernel.ended ==>
      && (forall id :: RpcTokens(s, id) == One(id in s.kernel.pendingRpc))
      && (forall cell :: CellTokens(s, cell) == One(cell in s.owed))
  }

  ghost predicate Inv(s: System) {
    KernelInv(s.kernel) && TokensInv(s) && forall cell :: cell in s.owed ==> cell < s.nextCell
  }
}
