/**
 * packages/coworker-scratchpad/src/scratchpad-manager.ts: the manager class, each method proved
 * to take the step of ScratchpadModel. Every call is one step; what the runtime, the lock and the
 * clock answer are parameters.
 */
module ScratchpadManager {
  import opened Wrappers
  import opened CellArchive
  import opened KernelPool
  import opened ScratchpadModel
  import opened ScratchpadInvariants

  class ScratchpadManager {
    const maxLive: int
    var disposed: bool
    var order: seq<Name>
    var entries: Entries
    var disk: Disk

    function View(): Manager
      reads this
    {
      Manager(disposed, maxLive, order, entries, disk)
    }

    ghost predicate Valid()
      reads this
    {
      Inv(View())
    }

    /** A manager on a directory that earlier managers may have written. */
    constructor (maxLive: int, disk: Disk)
      requires forall n :: n in disk ==> ValidDoc(disk[n])
      ensures Valid() && View() == Manager(false, maxLive, [], map[], disk)
    {
      this.maxLive := maxLive;
      this.disposed, this.order, this.entries, this.disk := false, [], map[], disk;
    }

    method CountWarm() returns (n: nat)
      requires Valid()
      ensures n == WarmCount(order, entries)
    {
      n := 0;
      for i := 0 to |order|
        invariant n == WarmCount(order[..i], entries)
      {
        if entries[order[i]].runtime.Warm? { n := n + 1; }
        assert order[..i + 1][..i] == order[..i];
      }
      assert order[..|order|] == order;
    }

    method FindVictim() returns (victim: Option<Name>)
      requires Valid()
      ensures victim == Victim(order, entries)
    {
      victim := None;
      for i := 0 to |order|
        invariant victim == Victim(order[..i], entries)
      {
        var n := order[i];
        assert order[..i + 1][..i] == order[..i];
        if entries[n].runtime.Cold? { continue; }
        if entries[n].runtime.busy { continue; }
        if victim.None? || entries[n].lastUsedAt < entries[victim.value].lastUsedAt { victim := Some(n); }
      }
      assert order[..|order|] == order;
    }

    /** Snapshot if possible, dispose the kernel, forget the runtime. */
    method SnapshotThenDispose(name: Name)
      requires name in entries
      modifies this`entries
      ensures entries == Cool(old(entries), name)
    {
      entries := entries[name := entries[name].(runtime := Cold)];
    }

    method EvictLruIfNeeded()
      requires Valid()
      modifies this`entries
      ensures Valid() && View() == Evicting(old(View())) && entries.Keys == old(entries).Keys
    {
      EvictingKeeps(View());
      while true
        invariant Valid() && EvictLru(order, entries, maxLive) == EvictLru(order, old(entries), maxLive)
        decreases WarmCount(order, entries)
      {
        var warm := CountWarm();
        if warm < maxLive { break; }
        var victim := FindVictim();
        if victim.None? { break; }
        CoolLowersCount(order, entries, victim.value);
        CoolKeeps(View(), victim.value);
        SnapshotThenDispose(victim.value);
      }
    }

    /** The periodic sweep. */
    method EvictIdle(cutoff: int)
      requires Valid()
      modifies this`entries
      ensures Valid() && View() == Step(old(View()), Event.EvictIdle(cutoff))
    {
      if disposed { return; }
      SweepKeeps(View(), cutoff);
      SweptIsCoolOverdue(order, entries, cutoff);
      hide Inv;
      Sweep(cutoff);
    }

    method Sweep(cutoff: int)
      requires forall i :: 0 <= i < |order| ==> order[i] in entries
      modifies this`entries
      ensures entries == Swept(order, old(entries), cutoff)
    {
      for i := 0 to |order|
        invariant entries.Keys == old(entries).Keys
        invariant entries == Swept(order[..i], old(entries), cutoff)
      {
        var n := order[i];
        assert order[..i + 1][..i] == order[..i];
        if entries[n].runtime.Cold? { continue; }
        if entries[n].runtime.busy { continue; }
        if entries[n].lastUsedAt <= cutoff { SnapshotThenDispose(n); }
      }
      assert order[..|order|] == order;
    }

    /** acquireLock, writeMeta, room in the pool, spawn, register, restore the leaf. */
    method AttachUnmanaged(name: Name, now: int, env: Env) returns (ok: bool)
      requires Valid() && name !in entries
      modifies this
      ensures ok == (env.lockFree && env.spawns)
      ensures Valid() && View() == ScratchpadModel.AttachUnmanaged(old(View()), name, now, env)
    {
      AttachUnmanagedKeeps(View(), name, now, env);
      if !env.lockFree { return false; }
      WriteMetaKeeps(View(), name);
      hide ValidDoc, Mirrors, Ordered;
      disk := WriteMeta(entries, disk, name);
      EvictLruIfNeeded();
      if !env.spawns { return false; }
      AdoptEntry(name, now);
      return true;
    }

    method AdoptEntry(name: Name, now: int)
      requires name !in entries && name in disk
      modifies this`order, this`entries
      ensures View() == Adopt(old(View()), name, now)
    {
      var archive := OpenArchive(disk[name].cells);
      order := order + [name];
      entries := entries[name := Entry(Warm(false), now, archive)];
      RestoreLeafOnAttach(name);
    }

    method RestoreLeafOnAttach(name: Name)
      requires name in entries && name in disk
      modifies this`entries
      ensures var e := old(entries)[name];
              entries == old(entries)[name := e.(archive := RestoreLeaf(e.archive, disk[name]))]
    {
      var persisted := disk[name].leaf;
      var e := entries[name];
      entries := entries[name := e];
      if persisted.Some? && e.archive.leafId != persisted {
        entries := entries[name := e.(archive := e.archive.(leafId := persisted))];
      }
    }

    method Create(name: Name, now: int, env: Env) returns (ok: bool)
      requires Valid()
      modifies this
      ensures ok == Succeeds(old(View()), Event.Create(name, now, env))
      ensures Valid() && View() == Step(old(View()), Event.Create(name, now, env))
    {
      if disposed || name in entries || name in disk { return false; }
      ok := AttachUnmanaged(name, now, env);
    }

    /** The cold half of getOrAttach: make room, spawn, restore the leaf. */
    method WarmUp(name: Name, env: Env) returns (ok: bool)
      requires Valid() && name in entries
      modifies this`entries
      ensures ok == env.spawns
      ensures Valid() && name in Evicting(old(View())).entries
      ensures View() == if env.spawns then Rewarm(Evicting(old(View())), name) else Evicting(old(View()))
    {
      EvictingKeeps(View());
      RewarmKeeps(Evicting(View()), name);
      assert name in disk;
      hide Inv;
      EvictLruIfNeeded();
      if !env.spawns { return false; }
      Respawn(name);
      return true;
    }

    method Respawn(name: Name)
      requires name in entries && name in disk
      modifies this`entries
      ensures View() == Rewarm(old(View()), name)
    {
      entries := entries[name := entries[name].(runtime := Warm(false))];
      RestoreLeafOnAttach(name);
    }

    method AttachManaged(name: Name, now: int, env: Env) returns (ok: bool)
      requires Valid() && name in entries
      modifies this`entries
      ensures ok == (old(entries)[name].runtime.Warm? || env.spawns)
      ensures Valid() && View() == ScratchpadModel.AttachManaged(old(View()), name, now, env)
    {
      TouchKeeps(View(), name, now);
      hide Inv;
      entries := entries[name := entries[name].(lastUsedAt := now)];
      if entries[name].runtime.Warm? { return true; }
      ok := WarmUp(name, env);
    }

    /** getOrAttach once the manager is known to be open. */
    method AttachOpen(name: Name, now: int, env: Env) returns (ok: bool)
      requires Valid()
      modifies this
      ensures ok == AttachSucceeds(old(View()), name, env)
      ensures Valid() && View() == Attach(old(View()), name, now, env)
    {
      hide Inv, ScratchpadModel.AttachManaged, ScratchpadModel.AttachUnmanaged;
      if name in entries {
        ok := AttachManaged(name, now, env);
      } else {
        ok := AttachUnmanaged(name, now, env);
      }
    }

    method GetOrAttach(name: Name, now: int, env: Env) returns (ok: bool)
      requires Valid()
      modifies this
      ensures ok == Succeeds(old(View()), Event.GetOrAttach(name, now, env))
      ensures Valid() && View() == Step(old(View()), Event.GetOrAttach(name, now, env))
    {
      if disposed { return false; }
      ok := AttachOpen(name, now, env);
    }

    /** Run a cell and journal what came out of it, a value or an error. */
    method RunCell(name: Name, input: AppendInput, now: int, env: Env) returns (cell: Option<nat>)
      requires Valid()
      modifies this
      ensures cell.Some? == Succeeds(old(View()), Event.RunCell(name, input, now, env))
      ensures cell.Some? ==> cell.value == |DocOf(old(disk), name).cells| + 1
      ensures Valid() && View() == Step(old(View()), Event.RunCell(name, input, now, env))
    {
      RunCellKeeps(View(), name, input, now, env);
      if disposed { return None; }
      RunCellStep(View(), name, input, now, env);
      AttachKeeps(View(), name, now, env);
      var ok := AttachOpen(name, now, env);
      if !ok { return None; }
      AppendToDisk(View(), name, input, now);
      assert DocOf(disk, name) == DocOf(old(disk), name);
      hide Inv, Attach, AppendTo;
      var id := JournalCell(name, input, now);
      cell := Some(id);
    }

    /** archive.append followed by writeMeta. */
    method JournalCell(name: Name, input: AppendInput, now: int) returns (id: nat)
      requires name in entries && name in disk
      modifies this`entries, this`disk
      ensures id == old(entries)[name].archive.nextId
      ensures View() == AppendTo(old(View()), name, input, now)
    {
      AppendToParts(View(), name, input, now);
      hide AppendTo, WriteMeta;
      id := ArchiveAppend(name, input, now);
      WriteMetaOfLeaf(entries, disk, name);
      OverwriteTwice(old(disk), name, disk[name], Doc(disk[name].cells, Some(id)));
      disk := WriteMeta(entries, disk, name);
    }

    /** The archive names and links the cell, then writes its line. */
    method ArchiveAppend(name: Name, input: AppendInput, now: int) returns (id: nat)
      requires name in entries && name in disk
      modifies this`entries, this`disk
      ensures var e := old(entries)[name];
        && id == e.archive.nextId
        && entries == old(entries)[name := e.(lastUsedAt := now, archive := Archive(id + 1, Some(id), Some(id)))]
        && disk == old(disk)[name := Doc(old(disk)[name].cells + [CellEntry(id, e.archive.leafId, input)],
                                         old(disk)[name].leaf)]
    {
      var e := entries[name];
      id := e.archive.nextId;
      disk := disk[name := Doc(disk[name].cells + [CellEntry(id, e.archive.leafId, input)], disk[name].leaf)];
      entries := entries[name := e.(lastUsedAt := now, archive := Archive(id + 1, Some(id), Some(id)))];
    }

    method SetLeaf(name: Name, id: nat) returns (ok: bool)
      requires Valid()
      modifies this
      ensures ok == Succeeds(old(View()), Event.SetLeaf(name, id))
      ensures Valid() && View() == Step(old(View()), Event.SetLeaf(name, id))
    {
      SetLeafKeeps(View(), name, id);
      SetLeafStep(View(), name, id);
      hide Inv, Step, MoveLeaf;
      if disposed || name !in disk || !HasCell(disk[name].cells, id) { return false; }
      StoreLeaf(name, id);
      return true;
    }

    /** Live archive first, then meta.json, which is all a cold scratchpad has. */
    method StoreLeaf(name: Name, id: nat)
      requires name in disk
      modifies this`entries, this`disk
      ensures View() == MoveLeaf(old(View()), name, id)
    {
      if name in entries {
        entries := entries[name := entries[name].(archive := entries[name].archive.(leafId := Some(id)))];
      }
      disk := disk[name := disk[name].(leaf := Some(id))];
    }

    method ClearHistory(name: Name) returns (ok: bool)
      requires Valid()
      modifies this
      ensures ok == Succeeds(old(View()), Event.ClearHistory(name))
      ensures Valid() && View() == Step(old(View()), Event.ClearHistory(name))
    {
      ClearKeeps(View(), name);
      ClearStep(View(), name);
      hide Inv, Step, Cleared;
      if disposed || (name in entries && entries[name].runtime == Warm(true)) { return false; }
      ResetFiles(name);
      return true;
    }

    method ResetFiles(name: Name)
      modifies this`entries, this`disk
      ensures View() == Cleared(old(View()), name)
    {
      if name in entries { entries := entries[name := entries[name].(archive := Archive(1, None, None))]; }
      if name in disk { disk := disk[name := EmptyDoc]; }
    }

    method Evict(name: Name, force: bool) returns (ok: bool)
      requires Valid()
      modifies this`entries
      ensures ok == Succeeds(old(View()), Event.Evict(name, force))
      ensures Valid() && View() == Step(old(View()), Event.Evict(name, force))
    {
      if disposed || name !in entries || entries[name].runtime.Cold? { return false; }
      if entries[name].runtime.busy && !force { return false; }
      CoolKeeps(View(), name);
      SnapshotThenDispose(name);
      return true;
    }

    /** Copy the files and register the copy without a kernel. */
    method CopyCold(src: Name, dst: Name, now: int)
      requires src in disk
      modifies this`disk, this`entries, this`order
      ensures disk == old(disk)[dst := old(disk)[src]]
      ensures entries == old(entries)[dst := Entry(Cold, now, OpenArchive(old(disk)[src].cells))]
      ensures order == old(order) + [dst]
    {
      disk := disk[dst := disk[src]];
      entries := entries[dst := Entry(Cold, now, OpenArchive(disk[dst].cells))];
      order := order + [dst];
    }

    /** Dispose the source kernel, then copy; exits: it goes away in time. */
    method CoolThenCopy(src: Name, dst: Name, now: int, exits: bool) returns (ok: bool)
      requires src in disk
      modifies this
      ensures disposed == old(disposed)
      ensures ok == (exits || !IsWarm(old(entries), src))
      ensures View() == if ok then Forked(old(View()), src, dst, now)
                        else old(View()).(entries := Cool(old(entries), src))
    {
      CoolIsIdle(entries, src);
      hide Cool, OpenArchive;
      if src in entries && entries[src].runtime.Warm? {
        SnapshotThenDispose(src);
        if !exits { return false; }
      }
      CopyCold(src, dst, now);
      ok := true;
    }

    method Fork(src: Name, dst: Name, now: int, exits: bool) returns (ok: bool)
      requires Valid()
      modifies this
      ensures ok == Succeeds(old(View()), Event.Fork(src, dst, now, exits))
      ensures Valid() && View() == Step(old(View()), Event.Fork(src, dst, now, exits))
    {
      ForkKeeps(View(), src, dst, now, exits);
      ForkCases(View(), src, dst, now, exits);
      hide Inv, Step, Succeeds, Cool, Forked, IsWarm;
      if disposed || dst in entries || dst in disk || src !in disk { return false; }
      ok := CoolThenCopy(src, dst, now, exits);
    }

    method Remove(name: Name)
      requires Valid()
      modifies this
      ensures Valid() && View() == Step(old(View()), Event.Remove(name))
    {
      RemoveKeeps(View(), name);
      entries := entries - {name};
      order := Without(order, name);
      disk := disk - {name};
    }

    method DisposeAll()
      requires Valid()
      modifies this
      ensures Valid() && View() == Step(old(View()), Event.DisposeAll)
    {
      EmptyManagerKeeps(View(), true);
      disposed := true;
      entries := map[];
      order := [];
    }
  }
}
