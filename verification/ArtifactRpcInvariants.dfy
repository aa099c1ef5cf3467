/** Conservation of RPCs and cells over every run, and freedom from deadlock. */
module ArtifactRpcInvariants {
  import opened Wrappers
  import opened ArtifactRpc

  // ---- Tokens, operation by operation ----

  lemma SendTokens(s: System, k: Kernel, frame: Up, n: nat)
    requires k.stdout == s.kernel.stdout + [frame]
    ensures RpcTokens(s.(kernel := k), n) == RpcTokens(s, n) + One(frame == RpcRequest(n))
    ensures CellTokens(s.(kernel := k), n) + One(n in s.kernel.running)
         == CellTokens(s, n) + One(n in k.running) + One(frame == CellResult(n))
  {
    UpSnoc(s.kernel.stdout, frame, RpcRequest(n));
    UpSnoc(s.kernel.stdout, frame, CellResult(n));
  }

  lemma IssueKeeps(s: System)
    requires Inv(s)
    ensures Inv(s.(kernel := Issue(s.kernel)))
  {
    var id := s.kernel.nextRpcId;
    assert id !in s.kernel.calls;
    forall n ensures RpcTokens(s.(kernel := Issue(s.kernel)), n) == RpcTokens(s, n) + One(n == id)
      ensures CellTokens(s.(kernel := Issue(s.kernel)), n) == CellTokens(s, n)
    {
      SendTokens(s, Issue(s.kernel), RpcRequest(id), n);
    }
    IssueKeepsKernel(s.kernel);
  }

  lemma IssueKeepsKernel(k: Kernel)
    requires KernelInv(k)
    ensures KernelInv(Issue(k))
  {}

  lemma FinishKeeps(s: System, cell: nat)
    requires Inv(s) && Free(s.kernel, cell)
    ensures Inv(s.(kernel := Finish(s.kernel, cell)))
  {
    forall n ensures RpcTokens(s.(kernel := Finish(s.kernel, cell)), n) == RpcTokens(s, n)
      ensures CellTokens(s.(kernel := Finish(s.kernel, cell)), n) == CellTokens(s, n)
    {
      SendTokens(s, Finish(s.kernel, cell), CellResult(cell), n);
    }
  }

  lemma NotifyKeeps(s: System, frame: Up)
    requires Inv(s) && (frame.Notice? || frame.SnapshotResult?)
    ensures Inv(s.(kernel := Send(s.kernel, frame)))
  {
    forall n ensures RpcTokens(s.(kernel := Send(s.kernel, frame)), n) == RpcTokens(s, n)
      ensures CellTokens(s.(kernel := Send(s.kernel, frame)), n) == CellTokens(s, n)
    {
      SendTokens(s, Send(s.kernel, frame), frame, n);
    }
  }

  lemma RouteKeeps(k: Kernel, id: nat, ok: bool)
    requires KernelInv(k)
    ensures KernelInv(Route(k, id, ok))
  {}

  lemma PopTokens(s: System, k: Kernel, n: nat)
    requires s.stdin != [] && k.stdout == s.kernel.stdout
    ensures RpcTokens(s.(kernel := k, stdin := s.stdin[1..]), n) + One(s.stdin[0].RpcResponse? && s.stdin[0].id == n)
         == RpcTokens(s, n)
    ensures CellTokens(s.(kernel := k, stdin := s.stdin[1..]), n)
            + One(s.stdin[0] == RunCell(n)) + One(n in s.kernel.running)
         == CellTokens(s, n) + One(n in k.running)
  {}

  lemma ReadResponseKeeps(s: System, id: nat, ok: bool)
    requires Inv(s) && Enabled(s, KernelReads) && s.stdin[0] == RpcResponse(id, ok)
    ensures id in s.kernel.pendingRpc && Inv(Step(s, KernelReads))
  {
    assert RpcTokens(s, id) >= 1;
    RouteKeeps(s.kernel, id, ok);
    forall n ensures RpcTokens(Step(s, KernelReads), n) + One(n == id) == RpcTokens(s, n)
      ensures CellTokens(Step(s, KernelReads), n) == CellTokens(s, n)
    {
      PopTokens(s, Route(s.kernel, id, ok), n);
    }
  }

  lemma ReadRunKeeps(s: System, cell: nat)
    requires Inv(s) && Enabled(s, KernelReads) && s.stdin[0] == RunCell(cell)
    ensures cell !in s.kernel.running && Inv(Step(s, KernelReads))
  {
    assert CellTokens(s, cell) <= 1;
    forall n ensures RpcTokens(Step(s, KernelReads), n) == RpcTokens(s, n)
      ensures CellTokens(Step(s, KernelReads), n) == CellTokens(s, n)
    {
      PopTokens(s, Dispatch(s.kernel, s.stdin[0]), n);
    }
  }

  /** A frame that carries no token may be dropped from the pipe. */
  lemma DropKeeps(s: System)
    requires Inv(s) && Enabled(s, KernelReads) && (s.stdin[0].TakeSnapshot? || s.stdin[0].Other?)
    ensures Inv(s.(stdin := s.stdin[1..]))
  {
    forall n ensures RpcTokens(s.(stdin := s.stdin[1..]), n) == RpcTokens(s, n)
      ensures CellTokens(s.(stdin := s.stdin[1..]), n) == CellTokens(s, n)
    {
      PopTokens(s, s.kernel, n);
    }
  }

  lemma ReadKeeps(s: System)
    requires Inv(s) && Enabled(s, KernelReads)
    ensures Inv(Step(s, KernelReads))
  {
    match s.stdin[0]
    case RpcResponse(id, ok) => ReadResponseKeeps(s, id, ok);
    case TakeSnapshot(id) =>
      DropKeeps(s);
      NotifyKeeps(s.(stdin := s.stdin[1..]), SnapshotResult(id));
    case RunCell(cell) => ReadRunKeeps(s, cell);
    case Other => DropKeeps(s);
  }

  lemma WriteTokens(s: System, frame: Down, n: nat)
    requires !s.kernel.ended
    ensures RpcTokens(Write(s, frame), n) == RpcTokens(s, n) + One(frame.RpcResponse? && frame.id == n)
    ensures CellTokens(Write(s, frame), n) == CellTokens(s, n) + One(frame == RunCell(n))
  {
    DownSnoc(s.stdin, frame, n);
  }

  lemma SnapshotRequestKeeps(s: System, id: nat)
    requires Inv(s)
    ensures Inv(Step(s, ParentSnapshots(id)))
  {
    if !s.kernel.ended {
      var s' := Step(s, ParentSnapshots(id));
      forall n ensures RpcTokens(s', n) == RpcTokens(s, n) && CellTokens(s', n) == CellTokens(s, n) {
        WriteTokens(s, TakeSnapshot(id), n);
      }
    }
  }

  lemma HandlerTokens(s: System, id: nat, n: nat)
    requires id in s.handlers
    ensures var s1 := s.(handlers := s.handlers - multiset{id});
            RpcTokens(s1, n) + One(n == id) == RpcTokens(s, n) && CellTokens(s1, n) == CellTokens(s, n)
  {}

  lemma HandledKeeps(s: System, id: nat, ok: bool)
    requires Inv(s) && id in s.handlers
    ensures Inv(Step(s, ParentHandled(id, ok)))
    ensures !s.kernel.ended ==> Responses(Step(s, ParentHandled(id, ok)).stdin, id) >= 1
  {
    if !s.kernel.ended {
      var s1, s' := s.(handlers := s.handlers - multiset{id}), Step(s, ParentHandled(id, ok));
      DownSnoc(s1.stdin, RpcResponse(id, ok), id);
      forall n ensures RpcTokens(s', n) == RpcTokens(s, n) && CellTokens(s', n) == CellTokens(s, n) {
        WriteTokens(s1, RpcResponse(id, ok), n);
        HandlerTokens(s, id, n);
      }
    }
  }

  lemma RunsKeeps(s: System)
    requires Inv(s)
    ensures Inv(Step(s, ParentRuns))
  {
    if !s.kernel.ended {
      var s1, s' := s.(nextCell := s.nextCell + 1, owed := s.owed + {s.nextCell}), Step(s, ParentRuns);
      assert s.nextCell !in s.owed;
      forall n
        ensures RpcTokens(s', n) == RpcTokens(s, n)
        ensures CellTokens(s', n) == CellTokens(s, n) + One(n == s.nextCell)
      {
        WriteTokens(s1, RunCell(s.nextCell), n);
        assert RpcTokens(s1, n) == RpcTokens(s, n);
        assert CellTokens(s1, n) == CellTokens(s, n);
      }
    }
  }

  lemma TakeTokens(s: System, n: nat)
    requires s.kernel.stdout != []
    ensures RpcTokens(Step(s, ParentReads), n) == RpcTokens(s, n)
    ensures CellTokens(Step(s, ParentReads), n) + One(s.kernel.stdout[0] == CellResult(n)) == CellTokens(s, n)
  {}

  lemma TakeKeeps(s: System)
    requires Inv(s) && Enabled(s, ParentReads)
    ensures Inv(Step(s, ParentReads))
  {
    var s' := Step(s, ParentReads);
    forall n ensures RpcTokens(s', n) == RpcTokens(s, n)
      ensures CellTokens(s', n) + One(s.kernel.stdout[0] == CellResult(n)) == CellTokens(s, n)
    {
      TakeTokens(s, n);
    }
    if s.kernel.stdout[0].CellResult? && !s.kernel.ended {
      assert CellTokens(s, s.kernel.stdout[0].cell) >= 1;
    }
  }

  lemma EndKeeps(s: System)
    requires Inv(s)
    ensures Inv(Step(s, KernelInputEnds))
  {
    assert EndOfInput(s.kernel).calls.Keys == s.kernel.calls.Keys;
  }

  lemma StepKeeps(s: System, e: Event)
    requires Inv(s) && Enabled(s, e)
    ensures Inv(Step(s, e))
  {
    match e
    case KernelIssues(cell) => IssueKeeps(s);
    case KernelAwaits(cell, id) =>
    case KernelFinishes(cell) => FinishKeeps(s, cell);
    case KernelNotifies => NotifyKeeps(s, Notice);
    case KernelReads => ReadKeeps(s);
    case KernelInputEnds => EndKeeps(s);
    case ParentReads => TakeKeeps(s);
    case ParentHandled(id, ok) => HandledKeeps(s, id, ok);
    case ParentRuns => RunsKeeps(s);
    case ParentSnapshots(id) => SnapshotRequestKeeps(s, id);
  }

  lemma {:induction false} RunKeeps(s: System, es: seq<Event>)
    requires Inv(s) && Possible(s, es)
    ensures Inv(Run(s, es))
    decreases |es|
  {
    if es != [] {
      StepKeeps(s, es[0]);
      RunKeeps(Step(s, es[0]), es[1..]);
    }
  }

  lemma ReachableInv(s: System)
    requires Reachable(s)
    ensures Inv(s)
  {
    var es :| Possible(Start, es) && Run(Start, es) == s;
    assert Inv(Start);
    RunKeeps(Start, es);
  }

  // ---- Main results ----

  /** Every pending RPC has exactly one token and nothing else has any; each promise is settled at most once. */
  lemma OneTokenPerPendingRpc(s: System, id: nat)
    requires Reachable(s)
    ensures !s.kernel.ended ==> RpcTokens(s, id) == if id in s.kernel.pendingRpc then 1 else 0
    ensures id in s.kernel.calls ==> |s.kernel.calls[id]| == if id in s.kernel.pendingRpc then 0 else 1
  {
    ReachableInv(s);
  }

  /** A cell sent down is owed exactly one result, which is on its way or still to be produced. */
  lemma OneTokenPerOwedCell(s: System, cell: nat)
    requires Reachable(s) && !s.kernel.ended
    ensures CellTokens(s, cell) == if cell in s.owed then 1 else 0
  {
    ReachableInv(s);
  }

  /** A response settles its own RPC as it says, and no other promise moves. */
  lemma ResponseSettlesItsOwn(s: System, id: nat, ok: bool, other: nat)
    requires Reachable(s) && Enabled(s, KernelReads) && s.stdin[0] == RpcResponse(id, ok)
    requires other in s.kernel.calls && other != id
    ensures id in s.kernel.pendingRpc && id in Step(s, KernelReads).kernel.calls
    ensures Step(s, KernelReads).kernel.calls[id] == [if ok then RpcResolved else RpcRejected]
    ensures other in Step(s, KernelReads).kernel.calls
    ensures Step(s, KernelReads).kernel.calls[other] == s.kernel.calls[other]
  {
    ReachableInv(s);
    ReadResponseKeeps(s, id, ok);
    assert s.kernel.calls[id] == [];
  }

  // ---- No deadlock ----

  /** Steps of the pipes and of the artifact handlers: no cell has to move. */
  predicate Transport(e: Event) {
    e.KernelReads? || e.ParentReads? || e.ParentHandled?
  }

  ghost predicate Serves(s: System, es: seq<Event>, id: nat) {
    && Possible(s, es)
    && (forall i :: 0 <= i < |es| ==> Transport(es[i]))
    && id !in Run(s, es).kernel.pendingRpc
  }

  lemma Prepend(s: System, e: Event, es: seq<Event>, id: nat)
    requires Enabled(s, e) && Transport(e) && Serves(Step(s, e), es, id)
    ensures Serves(s, [e] + es, id)
  {
    assert ([e] + es)[1..] == es;
  }

  lemma {:induction false} ServeFromStdin(s: System, id: nat) returns (es: seq<Event>)
    requires Inv(s) && !s.kernel.ended && id in s.kernel.pendingRpc && Responses(s.stdin, id) >= 1
    ensures Serves(s, es, id) && |es| <= |s.stdin|
    decreases |s.stdin|
  {
    StepKeeps(s, KernelReads);
    var s' := Step(s, KernelReads);
    if id in s'.kernel.pendingRpc {
      assert Responses(s'.stdin, id) >= 1;
      es := ServeFromStdin(s', id);
    } else {
      es := [];
    }
    Prepend(s, KernelReads, es, id);
    es := [KernelReads] + es;
  }

  lemma ServeFromHandler(s: System, id: nat) returns (es: seq<Event>)
    requires Inv(s) && !s.kernel.ended && id in s.kernel.pendingRpc && id in s.handlers
    ensures Serves(s, es, id) && |es| <= |s.stdin| + 2
  {
    var e := ParentHandled(id, true);
    StepKeeps(s, e);
    HandledKeeps(s, id, true);
    es := ServeFromStdin(Step(s, e), id);
    Prepend(s, e, es, id);
    es := [e] + es;
  }

  lemma {:induction false} ServeFromStdout(s: System, id: nat) returns (es: seq<Event>)
    requires Inv(s) && !s.kernel.ended && id in s.kernel.pendingRpc && Ups(s.kernel.stdout, RpcRequest(id)) >= 1
    ensures Serves(s, es, id) && |es| <= |s.kernel.stdout| + |s.stdin| + 2
    decreases |s.kernel.stdout|
  {
    StepKeeps(s, ParentReads);
    var s' := Step(s, ParentReads);
    if s.kernel.stdout[0] == RpcRequest(id) {
      es := ServeFromHandler(s', id);
    } else {
      es := ServeFromStdout(s', id);
    }
    Prepend(s, ParentReads, es, id);
    es := [ParentReads] + es;
  }

  /** Pipes and handlers alone can serve a pending RPC, in a bounded number of steps. */
  lemma PendingCanBeServed(s: System, id: nat) returns (es: seq<Event>)
    requires Reachable(s) && !s.kernel.ended && id in s.kernel.pendingRpc
    ensures Serves(s, es, id)
    ensures |es| <= |s.kernel.stdout| + |s.stdin| + 2
  {
    ReachableInv(s);
    assert RpcTokens(s, id) == 1;
    if Responses(s.stdin, id) >= 1 {
      es := ServeFromStdin(s, id);
    } else if id in s.handlers {
      es := ServeFromHandler(s, id);
    } else {
      es := ServeFromStdout(s, id);
    }
  }

  /** Whatever has happened, a cell that waits for an RPC can be served without any cell moving. */
  lemma WaitingCellCanBeServed(s: System, cell: nat) returns (es: seq<Event>)
    requires Reachable(s) && !s.kernel.ended && cell in s.kernel.blocked
    ensures Serves(s, es, s.kernel.blocked[cell])
    ensures |es| <= |s.kernel.stdout| + |s.stdin| + 2
  {
    ReachableInv(s);
    es := PendingCanBeServed(s, s.kernel.blocked[cell]);
  }

  // ---- Why the dispatch loop does not await its cells ----

  /** The rejected design: while a cell runs the loop reads nothing, and so does not see the end of its input either. */
  ghost predicate PossibleInline(s: System, es: seq<Event>)
    decreases |es|
  {
    || es == []
    || (&& Enabled(s, es[0])
        && (es[0].KernelReads? || es[0].KernelInputEnds? ==> s.kernel.running == {})
        && PossibleInline(Step(s, es[0]), es[1..]))
  }

  lemma InlineStep(s: System, e: Event, cell: nat)
    requires KernelInv(s.kernel) && cell in s.kernel.blocked && Enabled(s, e) && !e.KernelReads? && !e.KernelInputEnds?
    ensures var k := Step(s, e).kernel;
            KernelInv(k) && cell in k.blocked && k.blocked[cell] == s.kernel.blocked[cell]
  {
    match e
    case KernelIssues(c) => IssueKeepsKernel(s.kernel);
    case _ =>
  }

  /** Under it a cell that waits for an RPC waits for ever. */
  lemma {:induction false} InlineDispatchDeadlocks(s: System, es: seq<Event>, cell: nat)
    requires KernelInv(s.kernel) && cell in s.kernel.blocked && PossibleInline(s, es)
    ensures cell in Run(s, es).kernel.blocked && Run(s, es).kernel.blocked[cell] == s.kernel.blocked[cell]
    decreases |es|
  {
    if es != [] {
      InlineStep(s, es[0], cell);
      InlineDispatchDeadlocks(Step(s, es[0]), es[1..], cell);
    }
  }

  /** End of input rejects whatever is pending and frees every waiting cell. */
  lemma EndOfInputFreesAll(s: System, id: nat)
    requires Reachable(s) && id in s.kernel.pendingRpc
    ensures var k := Step(s, KernelInputEnds).kernel;
            k.pendingRpc == {} && k.blocked == map[] && id in k.calls && k.calls[id] == [RpcRejected]
  {
    ReachableInv(s);
  }

  /** That happens once: an RPC a cell issues after the end of input is pending for ever. */
  lemma {:induction false} LateRpcIsNeverSettled(s: System, es: seq<Event>, id: nat)
    requires Possible(s, es) && s.kernel.ended && id in s.kernel.pendingRpc
    ensures Run(s, es).kernel.ended && id in Run(s, es).kernel.pendingRpc
    decreases |es|
  {
    if es != [] { LateRpcIsNeverSettled(Step(s, es[0]), es[1..], id); }
  }

  ghost predicate CanSettle(s: System, id: nat) {
    exists es :: Possible(s, es) && id !in Run(s, es).kernel.pendingRpc
  }

  /** A pending RPC can still be settled exactly while the kernel reads its input. */
  lemma CanSettleIffReading(s: System, id: nat)
    requires Reachable(s) && id in s.kernel.pendingRpc
    ensures CanSettle(s, id) <==> !s.kernel.ended
  {
    if s.kernel.ended {
      forall es | Possible(s, es) ensures id in Run(s, es).kernel.pendingRpc { LateRpcIsNeverSettled(s, es, id); }
    } else {
      var es := PendingCanBeServed(s, id);
    }
  }

  /** A cell that still runs when the input ends issues an RPC. */
  lemma LateRpcHappens() returns (s: System)
    ensures Reachable(s) && s.kernel.ended && 1 in s.kernel.pendingRpc && !CanSettle(s, 1)
  {
    var es := [ParentRuns, KernelReads, KernelInputEnds, KernelIssues(1)];
    var s1 := Step(Start, es[0]);
    var s2 := Step(s1, es[1]);
    var s3 := Step(s2, es[2]);
    assert s1.stdin == [RunCell(1)] && Free(s2.kernel, 1) && Free(s3.kernel, 1);
    s := Step(s3, es[3]);
    assert es[1..] == [es[1], es[2], es[3]] && es[1..][1..] == [es[2], es[3]];
    assert es[2..][1..] == [es[3]] && [es[3]][1..] == [];
    assert Possible(s3, [es[3]]) && Run(s3, [es[3]]) == s;
    assert Possible(s2, es[2..]) && Run(s2, es[2..]) == s;
    assert Possible(s1, es[1..]) && Run(s1, es[1..]) == s;
    assert Possible(Start, es) && Run(Start, es) == s;
    CanSettleIffReading(s, 1);
  }
}
