/**
 * packages/coworker-scratchpad/src/kernel-entry.ts: the module-level RPC table and the dispatch
 * loop, proved to do what ArtifactRpc's kernel operations say.
 */
module KernelEntry {
  import opened ArtifactRpc
  import opened ArtifactRpcInvariants

  /** What can happen between two turns of the event loop: a frame, or a step of a running cell. */
  datatype Turn = Arrives(frame: Down) | Issues(cell: nat) | Awaits(cell: nat, id: nat) | Finishes(cell: nat)

  function TakeTurn(k: Kernel, t: Turn): Kernel {
    match t
    case Arrives(frame) => Dispatch(k, frame)
    case Issues(cell) => if Free(k, cell) then Issue(k) else k
    case Awaits(cell, id) => if Free(k, cell) && id in k.pendingRpc then k.(blocked := k.blocked[cell := id]) else k
    case Finishes(cell) => if Free(k, cell) then Finish(k, cell) else k
  }

  function TakeTurns(k: Kernel, turns: seq<Turn>): Kernel {
    if turns == [] then k else TakeTurn(TakeTurns(k, turns[..|turns| - 1]), turns[|turns| - 1])
  }

  /** A turn of the loop is the step of the whole system in which the kernel takes part in it. */
  lemma TurnsAreSteps(s: System, cell: nat, id: nat)
    ensures Enabled(s, KernelReads) ==>
              TakeTurn(s.kernel, Arrives(s.stdin[0])) == Step(s, KernelReads).kernel
    ensures TakeTurn(s.kernel, Issues(cell))
         == if Enabled(s, KernelIssues(cell)) then Step(s, KernelIssues(cell)).kernel else s.kernel
    ensures Enabled(s, KernelAwaits(cell, id)) ==>
              TakeTurn(s.kernel, Awaits(cell, id)) == Step(s, KernelAwaits(cell, id)).kernel
    ensures TakeTurn(s.kernel, Finishes(cell))
         == if Enabled(s, KernelFinishes(cell)) then Step(s, KernelFinishes(cell)).kernel else s.kernel
  {}

  class KernelProcess {
    var pendingRpc: set<nat>
    var nextRpcId: nat
    var running: set<nat>
    var calls: map<nat, seq<Settlement>>
    var blocked: map<nat, nat>
    var stdout: seq<Up>
    var ended: bool

    function View(): Kernel
      reads this
    {
      Kernel(nextRpcId, pendingRpc, calls, running, blocked, stdout, ended)
    }

    ghost predicate Valid()
      reads this
    {
      KernelInv(View())
    }

    constructor ()
      ensures Valid() && View() == FreshKernel
    {
      pendingRpc, nextRpcId, running, calls, blocked, stdout, ended := {}, 1, {}, map[], map[], [], false;
    }

    method Write(frame: Up)
      modifies this`stdout
      ensures View() == Send(old(View()), frame)
    {
      stdout := stdout + [frame];
    }

    method NewRpcId() returns (id: nat)
      modifies this`nextRpcId
      ensures id == old(nextRpcId) && nextRpcId == id + 1
    {
      id := nextRpcId;
      nextRpcId := nextRpcId + 1;
    }

    /** Register the promise before the request leaves. */
    method Request() returns (id: nat)
      requires Valid()
      modifies this
      ensures Valid() && View() == Issue(old(View()))
      ensures id == old(nextRpcId) && id !in old(pendingRpc)
    {
      IssueKeepsKernel(View());
      id := NewRpcId();
      pendingRpc := pendingRpc + {id};
      calls := calls[id := []];
      Write(RpcRequest(id));
    }

    method Settle(id: nat, outcome: Settlement)
      requires id in calls
      modifies this`calls, this`blocked
      ensures calls == old(calls)[id := old(calls)[id] + [outcome]] && blocked == Unblock(old(blocked), {id})
    {
      calls := calls[id := calls[id] + [outcome]];
      blocked := map cell | cell in blocked && blocked[cell] != id :: blocked[cell];
    }

    /** A response for an id nobody waits for is consumed and dropped. */
    method TryRouteRpcResponse(frame: Down) returns (consumed: bool)
      requires Valid()
      modifies this
      ensures consumed == frame.RpcResponse?
      ensures Valid() && View() == if frame.RpcResponse? then Route(old(View()), frame.id, frame.ok) else old(View())
    {
      if !frame.RpcResponse? { return false; }
      RouteKeeps(View(), frame.id, frame.ok);
      if frame.id !in pendingRpc { return true; }
      pendingRpc := pendingRpc - {frame.id};
      Settle(frame.id, if frame.ok then RpcResolved else RpcRejected);
      return true;
    }

    method DispatchFrame(frame: Down)
      requires Valid()
      modifies this
      ensures Valid() && View() == Dispatch(old(View()), frame)
    {
      var consumed := TryRouteRpcResponse(frame);
      if consumed { return; }
      match frame
      case TakeSnapshot(id) => Write(SnapshotResult(id));
      case RunCell(cell) => running := running + {cell};
      case Other =>
    }

    static lemma UnblockMore(waits: map<nat, nat>, settled: set<nat>, id: nat)
      ensures Unblock(Unblock(waits, settled), {id}) == Unblock(waits, settled + {id})
    {}

    static lemma NothingUnblocked(waits: map<nat, nat>)
      ensures Unblock(waits, {}) == waits
    {}

    static lemma EndKeepsKernel(k: Kernel)
      requires KernelInv(k)
      ensures KernelInv(EndOfInput(k))
    {
      assert EndOfInput(k).calls.Keys == k.calls.Keys;
    }

    /** Reject every pending promise. */
    method RejectEach()
      requires pendingRpc <= calls.Keys
      modifies this`calls, this`blocked
      ensures calls.Keys == old(calls).Keys
      ensures forall id :: id in calls ==>
                calls[id] == if id in pendingRpc then old(calls)[id] + [RpcRejected] else old(calls)[id]
      ensures blocked == Unblock(old(blocked), pendingRpc)
    {
      var todo := pendingRpc;
      NothingUnblocked(blocked);
      assert pendingRpc - todo == {};
      while todo != {}
        invariant todo <= pendingRpc
        invariant calls.Keys == old(calls).Keys
        invariant forall id :: id in calls ==>
                    calls[id]
                    == if id in pendingRpc && id !in todo then old(calls)[id] + [RpcRejected] else old(calls)[id]
        invariant blocked == Unblock(old(blocked), pendingRpc - todo)
      {
        var id :| id in todo;
        UnblockMore(old(blocked), pendingRpc - todo, id);
        assert pendingRpc - (todo - {id}) == pendingRpc - todo + {id};
        Settle(id, RpcRejected);
        todo := todo - {id};
      }
      assert pendingRpc - {} == pendingRpc;
    }

    method RejectAllPending()
      requires Valid()
      modifies this
      ensures Valid() && View() == EndOfInput(old(View()))
    {
      EndKeepsKernel(View());
      RejectEach();
      pendingRpc := {};
      ended := true;
      assert calls == EndOfInput(old(View())).calls;
    }

    /** A running cell sends its result. */
    method FinishCell(cell: nat)
      requires Valid() && Free(View(), cell)
      modifies this
      ensures Valid() && View() == Finish(old(View()), cell)
    {
      running := running - {cell};
      Write(CellResult(cell));
    }

    method AwaitRpc(cell: nat, id: nat)
      requires Valid() && Free(View(), cell) && id in pendingRpc
      modifies this`blocked
      ensures Valid() && View() == old(View()).(blocked := old(blocked)[cell := id])
    {
      blocked := blocked[cell := id];
    }

    method OnTurn(t: Turn)
      requires Valid()
      modifies this
      ensures Valid() && View() == TakeTurn(old(View()), t)
    {
      hide KernelInv;
      match t
      case Arrives(frame) => DispatchFrame(frame);
      case Issues(cell) =>
        if cell in running && cell !in blocked { var _ := Request(); }
      case Awaits(cell, id) =>
        if cell in running && cell !in blocked && id in pendingRpc { AwaitRpc(cell, id); }
      case Finishes(cell) =>
        if cell in running && cell !in blocked { FinishCell(cell); }
    }

    /** The dispatch loop up to the end of input, with the cells moving between its turns, then its finally clause. */
    method Dispatcher(turns: seq<Turn>)
      requires Valid()
      modifies this
      ensures Valid() && View() == EndOfInput(TakeTurns(old(View()), turns))
      ensures pendingRpc == {} && forall id :: id in calls ==> |calls[id]| == 1
    {
      for i := 0 to |turns|
        invariant Valid() && View() == TakeTurns(old(View()), turns[..i])
      {
        OnTurn(turns[i]);
        assert turns[..i + 1][..i] == turns[..i];
      }
      assert turns[..|turns|] == turns;
      RejectAllPending();
    }
  }
}
