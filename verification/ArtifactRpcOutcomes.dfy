/**
 * What becomes of a request over runs: the handler's verdict reaches the promise that asked for
 * it, a promise once settled stays as it is, a cell is held up exactly as long as the RPC it
 * awaits is pending, and every snapshot request is answered once.
 */
module ArtifactRpcOutcomes {
  import opened Wrappers
  import opened ArtifactRpc
  import opened ArtifactRpcInvariants

  // ---- The handler's verdict ----

  /** Every response to id in the pipe carries the verdict. */
  predicate AllSay(down: seq<Down>, id: nat, ok: bool) {
    forall i :: 0 <= i < |down| && down[i].RpcResponse? && down[i].id == id ==> down[i].ok == ok
  }

  function Verdict(ok: bool): Settlement {
    if ok then RpcResolved else RpcRejected
  }

  /** The handler of id has answered: its response is on its way, or has settled the promise. */
  ghost predicate Answered(s: System, id: nat, ok: bool) {
    && Inv(s) && !s.kernel.ended && id in s.kernel.calls
    && Responses(s.stdin, id) == One(id in s.kernel.pendingRpc)
    && AllSay(s.stdin, id, ok)
    && s.kernel.calls[id] == if id in s.kernel.pendingRpc then [] else [Verdict(ok)]
  }

  lemma {:induction false} NoResponses(down: seq<Down>, id: nat, ok: bool)
    requires Responses(down, id) == 0
    ensures AllSay(down, id, ok)
  {
    if down != [] {
      NoResponses(down[1..], id, ok);
      assert forall i :: 1 <= i < |down| ==> down[i] == down[1..][i - 1];
    }
  }

  lemma HandlerAnswers(s: System, id: nat, ok: bool)
    requires Inv(s) && !s.kernel.ended && id in s.handlers
    ensures Answered(Step(s, ParentHandled(id, ok)), id, ok) && id in s.kernel.pendingRpc
  {
    assert RpcTokens(s, id) >= 1;
    NoResponses(s.stdin, id, ok);
    HandledKeeps(s, id, ok);
    DownSnoc(s.stdin, RpcResponse(id, ok), id);
    hide RpcTokens, CellTokens;
  }

  lemma AnsweredTokens(s: System, id: nat, ok: bool)
    requires Answered(s, id, ok)
    ensures id !in s.handlers && Ups(s.kernel.stdout, RpcRequest(id)) == 0
  {
    assert RpcTokens(s, id) == One(id in s.kernel.pendingRpc);
  }

  lemma WriteSays(s: System, frame: Down, id: nat, ok: bool)
    requires AllSay(s.stdin, id, ok) && !(frame.RpcResponse? && frame.id == id) && !s.kernel.ended
    ensures AllSay(Write(s, frame).stdin, id, ok) && Responses(Write(s, frame).stdin, id) == Responses(s.stdin, id)
  {
    DownSnoc(s.stdin, frame, id);
  }

  lemma AnsweredStep(s: System, e: Event, id: nat, ok: bool)
    requires Answered(s, id, ok) && Enabled(s, e) && !e.KernelInputEnds?
    ensures Answered(Step(s, e), id, ok)
  {
    StepKeeps(s, e);
    AnsweredTokens(s, id, ok);
    match e
    case KernelReads => ReadsAnswer(s, id, ok);
    case ParentHandled(other, verdict) =>
      WriteSays(s.(handlers := s.handlers - multiset{other}), RpcResponse(other, verdict), id, ok);
      hide Inv, Responses, AllSay;
    case ParentRuns =>
      WriteSays(s.(nextCell := s.nextCell + 1, owed := s.owed + {s.nextCell}), RunCell(s.nextCell), id, ok);
      hide Inv, Responses, AllSay;
    case ParentSnapshots(n) => WriteSays(s, TakeSnapshot(n), id, ok); hide Inv, Responses, AllSay;
    case KernelIssues(cell) =>
      assert s.kernel.nextRpcId !in s.kernel.calls;
      hide Inv, Responses, AllSay;
    case _ => hide Inv, Responses, AllSay;
  }

  lemma ReadsAnswer(s: System, id: nat, ok: bool)
    requires Answered(s, id, ok) && Enabled(s, KernelReads) && Inv(Step(s, KernelReads))
    ensures Answered(Step(s, KernelReads), id, ok)
  {
    var frame, rest := s.stdin[0], s.stdin[1..];
    assert forall i :: 0 <= i < |rest| ==> rest[i] == s.stdin[i + 1];
    assert AllSay(rest, id, ok);
    assert Responses(s.stdin, id) == One(frame.RpcResponse? && frame.id == id) + Responses(rest, id);
    hide Inv, Responses, AllSay;
  }

  lemma {:induction false} AnsweredRun(s: System, es: seq<Event>, id: nat, ok: bool)
    requires Answered(s, id, ok) && Possible(s, es) && forall i :: 0 <= i < |es| ==> !es[i].KernelInputEnds?
    ensures Answered(Run(s, es), id, ok)
    decreases |es|
  {
    if es != [] {
      AnsweredStep(s, es[0], id, ok);
      AnsweredRun(Step(s, es[0]), es[1..], id, ok);
    }
  }

  /** While input lasts, a handled RPC settles as its handler decided and no other way. */
  lemma HandlerDecides(s: System, id: nat, ok: bool, es: seq<Event>)
    requires Reachable(s) && !s.kernel.ended && id in s.handlers
    requires Possible(Step(s, ParentHandled(id, ok)), es) && forall i :: 0 <= i < |es| ==> !es[i].KernelInputEnds?
    ensures var k := Run(Step(s, ParentHandled(id, ok)), es).kernel;
            id in k.calls && k.calls[id] == if id in k.pendingRpc then [] else [if ok then RpcResolved else RpcRejected]
  {
    ReachableInv(s);
    HandlerAnswers(s, id, ok);
    AnsweredRun(Step(s, ParentHandled(id, ok)), es, id, ok);
  }

  // ---- Settled for good ----

  lemma SettledStays(s: System, e: Event, id: nat)
    requires KernelInv(s.kernel) && Enabled(s, e) && id in s.kernel.calls && id !in s.kernel.pendingRpc
    ensures var k := Step(s, e).kernel;
            id in k.calls && id !in k.pendingRpc && k.calls[id] == s.kernel.calls[id]
  {
    hide Unblock;
    match e
    case KernelIssues(cell) => assert s.kernel.nextRpcId !in s.kernel.calls;
    case _ =>
  }

  /** A settled promise keeps its outcome in every further run. */
  lemma {:induction false} OutcomeIsFinal(s: System, es: seq<Event>, id: nat)
    requires Inv(s) && Possible(s, es) && id in s.kernel.calls && id !in s.kernel.pendingRpc
    ensures var k := Run(s, es).kernel;
            id in k.calls && id !in k.pendingRpc && k.calls[id] == s.kernel.calls[id]
    decreases |es|
  {
    if es != [] {
      StepKeeps(s, es[0]);
      SettledStays(s, es[0], id);
      OutcomeIsFinal(Step(s, es[0]), es[1..], id);
    }
  }

  // ---- Waiting cells ----

  ghost predicate Holds(s: System, cell: nat, id: nat) {
    && Inv(s) && id in s.kernel.calls
    && (id in s.kernel.pendingRpc <==> cell in s.kernel.blocked && s.kernel.blocked[cell] == id)
  }

  lemma HoldsInKernel(s: System, e: Event, cell: nat, id: nat)
    requires KernelInv(s.kernel) && Enabled(s, e) && id in s.kernel.calls
    requires id in s.kernel.pendingRpc <==> cell in s.kernel.blocked && s.kernel.blocked[cell] == id
    ensures var k := Step(s, e).kernel;
            id in k.calls && (id in k.pendingRpc <==> cell in k.blocked && k.blocked[cell] == id)
  {
    match e
    case KernelIssues(c) => assert s.kernel.nextRpcId !in s.kernel.calls;
    case KernelReads => hide KernelInv;
    case KernelInputEnds =>
    case KernelAwaits(c, n) =>
    case _ => hide KernelInv;
  }

  lemma HoldsStep(s: System, e: Event, cell: nat, id: nat)
    requires Holds(s, cell, id) && Enabled(s, e)
    ensures Holds(Step(s, e), cell, id)
  {
    StepKeeps(s, e);
    HoldsInKernel(s, e, cell, id);
    hide Step, TokensInv, KernelInv;
  }

  lemma {:induction false} HoldsRun(s: System, es: seq<Event>, cell: nat, id: nat)
    requires Holds(s, cell, id) && Possible(s, es)
    ensures Holds(Run(s, es), cell, id)
    decreases |es|
  {
    if es != [] {
      HoldsStep(s, es[0], cell, id);
      HoldsRun(Step(s, es[0]), es[1..], cell, id);
    }
  }

  /** A cell that awaits a pending RPC is held up, in every run, exactly until that RPC is settled. */
  lemma HeldUntilSettled(s: System, cell: nat, id: nat, es: seq<Event>)
    requires Reachable(s) && cell in s.kernel.running && cell !in s.kernel.blocked && id in s.kernel.pendingRpc
    requires Possible(Step(s, KernelAwaits(cell, id)), es)
    ensures var k := Run(Step(s, KernelAwaits(cell, id)), es).kernel;
            (cell in k.blocked && k.blocked[cell] == id) <==> id in k.pendingRpc
  {
    ReachableInv(s);
    assert Enabled(s, KernelAwaits(cell, id));
    StepKeeps(s, KernelAwaits(cell, id));
    HoldsRun(Step(s, KernelAwaits(cell, id)), es, cell, id);
  }

  // ---- Snapshots ----

  function Asks(down: seq<Down>, id: nat): nat {
    if down == [] then 0 else One(down[0] == TakeSnapshot(id)) + Asks(down[1..], id)
  }

  lemma {:induction false} AsksSnoc(down: seq<Down>, last: Down, id: nat)
    ensures Asks(down + [last], id) == Asks(down, id) + One(last == TakeSnapshot(id))
  {
    if down == [] {
      assert down + [last] == [last];
    } else {
      assert (down + [last])[1..] == down[1..] + [last];
      AsksSnoc(down[1..], last, id);
    }
  }

  /** Snapshot requests and results on their way. */
  function SnapshotTokens(s: System, id: nat): nat {
    Asks(s.stdin, id) + Ups(s.kernel.stdout, SnapshotResult(id))
  }

  /** How often a run asks for the snapshot, and how often the parent reads its result. */
  function Asked(es: seq<Event>, id: nat): nat {
    if es == [] then 0 else One(es[0] == ParentSnapshots(id)) + Asked(es[1..], id)
  }

  predicate ReadsResult(s: System, e: Event, id: nat) {
    e.ParentReads? && s.kernel.stdout != [] && s.kernel.stdout[0] == SnapshotResult(id)
  }

  function Got(s: System, es: seq<Event>, id: nat): nat
    decreases |es|
  {
    if es == [] then 0 else One(ReadsResult(s, es[0], id)) + Got(Step(s, es[0]), es[1..], id)
  }

  lemma SnapshotStep(s: System, e: Event, id: nat)
    requires Enabled(s, e) && !s.kernel.ended && !e.KernelInputEnds?
    ensures !Step(s, e).kernel.ended
    ensures SnapshotTokens(Step(s, e), id) + One(ReadsResult(s, e, id))
         == SnapshotTokens(s, id) + One(e == ParentSnapshots(id))
  {
    var result := SnapshotResult(id);
    match e
    case KernelIssues(cell) => UpSnoc(s.kernel.stdout, RpcRequest(s.kernel.nextRpcId), result);
    case KernelFinishes(cell) => UpSnoc(s.kernel.stdout, CellResult(cell), result);
    case KernelNotifies => UpSnoc(s.kernel.stdout, Notice, result);
    case KernelReads => if s.stdin[0].TakeSnapshot? { UpSnoc(s.kernel.stdout, SnapshotResult(s.stdin[0].id), result); }
    case ParentHandled(n, ok) => AsksSnoc(s.stdin, RpcResponse(n, ok), id);
    case ParentRuns => AsksSnoc(s.stdin, RunCell(s.nextCell), id);
    case ParentSnapshots(n) => AsksSnoc(s.stdin, TakeSnapshot(n), id);
    case _ =>
  }

  /** While input lasts every snapshot request is answered by exactly one result, under its id. */
  lemma {:induction false} SnapshotsConserved(s: System, es: seq<Event>, id: nat)
    requires Possible(s, es) && !s.kernel.ended && forall i :: 0 <= i < |es| ==> !es[i].KernelInputEnds?
    ensures SnapshotTokens(Run(s, es), id) + Got(s, es, id) == SnapshotTokens(s, id) + Asked(es, id)
    decreases |es|
  {
    if es != [] {
      SnapshotStep(s, es[0], id);
      SnapshotsConserved(Step(s, es[0]), es[1..], id);
    }
  }
}
