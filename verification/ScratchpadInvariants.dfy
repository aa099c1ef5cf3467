/** The manager refines plain documents: evictions, restarts and forks never lose a cell or a leaf. */
module ScratchpadInvariants {
  import opened Wrappers
  import opened CellArchive
  import opened CellTree
  import opened KernelPool
  import opened ScratchpadModel

  // ---- One entry or one document at a time ----

  lemma UpdateEntry(m: Manager, name: Name, e: Entry)
    requires Inv(m) && name in m.entries && Mirrors(e, m.disk[name])
    ensures Inv(m.(entries := m.entries[name := e]))
  {
    hide ValidDoc, Mirrors;
  }

  lemma UpdateDoc(m: Manager, name: Name, doc: Doc)
    requires Inv(m) && name !in m.entries && ValidDoc(doc)
    ensures Inv(m.(disk := m.disk[name := doc]))
  {
    hide ValidDoc, Mirrors;
  }

  lemma UpdateBoth(m: Manager, name: Name, e: Entry, doc: Doc)
    requires Inv(m) && name in m.entries && ValidDoc(doc) && Mirrors(e, doc)
    ensures Inv(m.(entries := m.entries[name := e], disk := m.disk[name := doc]))
  {
    hide ValidDoc, Mirrors;
  }

  lemma AddEntry(m: Manager, name: Name, e: Entry)
    requires Inv(m) && name !in m.entries && name in m.disk && Mirrors(e, m.disk[name])
    ensures Inv(m.(entries := m.entries[name := e], order := m.order + [name]))
  {
    hide ValidDoc, Mirrors;
  }

  /** Cooling any set of entries. */
  lemma CoolSome(m: Manager, entries: Entries)
    requires Inv(m) && entries.Keys == m.entries.Keys
    requires forall n :: n in m.entries ==> entries[n] == m.entries[n] || entries[n] == m.entries[n].(runtime := Cold)
    ensures Inv(m.(entries := entries))
  {
    forall n | n in entries ensures Mirrors(entries[n], m.disk[n]) {
      ColdMirrors(m.entries[n], m.disk[n]);
    }
    hide ValidDoc, Mirrors;
  }

  lemma ColdMirrors(e: Entry, doc: Doc)
    requires Mirrors(e, doc)
    ensures Mirrors(e.(runtime := Cold), doc)
  {}

  lemma OpenArchiveMirrors(doc: Doc, now: int)
    requires ValidDoc(doc)
    ensures Mirrors(Entry(Cold, now, OpenArchive(doc.cells)), doc)
    ensures Mirrors(Entry(Warm(false), now, RestoreLeaf(OpenArchive(doc.cells), doc)), doc)
  {}

  lemma EmptyDocMirrors(e: Entry)
    ensures ValidDoc(EmptyDoc) && Mirrors(e.(archive := Archive(1, None, None)), EmptyDoc)
  {}

  // ---- Step by step ----

  lemma EvictingKeeps(m: Manager)
    requires Inv(m)
    ensures Inv(Evicting(m)) && Evicting(m).entries.Keys == m.entries.Keys
  {
    EvictLruOnlyCoolsIdle(m.order, m.entries, m.maxLive);
    CoolSome(m, Evicting(m).entries);
  }

  lemma TouchKeeps(m: Manager, name: Name, now: int)
    requires Inv(m) && name in m.entries
    ensures Inv(Touch(m, name, now))
  {
    UpdateEntry(m, name, m.entries[name].(lastUsedAt := now));
  }

  lemma RewarmKeeps(m: Manager, name: Name)
    requires Inv(m) && name in m.entries
    ensures Inv(Rewarm(m, name))
  {
    var e, doc := m.entries[name], m.disk[name];
    assert ValidDoc(doc) && Mirrors(e, doc);
    UpdateEntry(m, name, e.(runtime := Warm(false), archive := RestoreLeaf(e.archive, doc)));
  }

  lemma AdoptKeeps(m: Manager, name: Name, now: int)
    requires Inv(m) && name !in m.entries && name in m.disk
    ensures Inv(Adopt(m, name, now))
  {
    OpenArchiveMirrors(m.disk[name], now);
    AddEntry(m, name, Entry(Warm(false), now, RestoreLeaf(OpenArchive(m.disk[name].cells), m.disk[name])));
  }

  lemma WriteMetaKeeps(m: Manager, name: Name)
    requires Inv(m) && name !in m.entries
    ensures Inv(m.(disk := WriteMeta(m.entries, m.disk, name)))
    ensures forall n :: DocOf(WriteMeta(m.entries, m.disk, name), n) == DocOf(m.disk, n)
  {
    EmptyDocMirrors(Entry(Cold, 0, Archive(1, None, None)));
    UpdateDoc(m, name, DocOf(m.disk, name));
  }

  lemma AttachUnmanagedKeeps(m: Manager, name: Name, now: int, env: Env)
    requires Inv(m) && name !in m.entries
    ensures Inv(AttachUnmanaged(m, name, now, env))
    ensures forall n :: DocOf(AttachUnmanaged(m, name, now, env).disk, n) == DocOf(m.disk, n)
  {
    WriteMetaKeeps(m, name);
    var made := m.(disk := WriteMeta(m.entries, m.disk, name));
    EvictingKeeps(made);
    if env.lockFree && env.spawns { AdoptKeeps(Evicting(made), name, now); }
  }

  lemma AttachKeeps(m: Manager, name: Name, now: int, env: Env)
    requires Inv(m)
    ensures Inv(Attach(m, name, now, env))
    ensures forall n :: DocOf(Attach(m, name, now, env).disk, n) == DocOf(m.disk, n)
  {
    if name !in m.entries {
      AttachUnmanagedKeeps(m, name, now, env);
    } else {
      var touched := Touch(m, name, now);
      TouchKeeps(m, name, now);
      EvictingKeeps(touched);
      if env.spawns { RewarmKeeps(Evicting(touched), name); }
    }
  }

  /** On disk, the cell lands below the recorded leaf. */
  lemma AppendToDisk(m: Manager, name: Name, input: AppendInput, now: int)
    requires Inv(m) && IsWarm(m.entries, name)
    ensures name in m.disk && m.entries[name].archive.nextId == |m.disk[name].cells| + 1
    ensures AppendTo(m, name, input, now).disk
         == var doc := m.disk[name];
            m.disk[name := Doc(AppendCell(doc.cells, doc.leaf, input), Some(|doc.cells| + 1))]
  {
    assert Mirrors(m.entries[name], m.disk[name]);
  }

  lemma OverwriteTwice(disk: Disk, name: Name, first: Doc, second: Doc)
    ensures disk[name := first][name := second] == disk[name := second]
  {}

  lemma SetLeafStep(m: Manager, name: Name, id: nat)
    requires Inv(m)
    ensures Step(m, Event.SetLeaf(name, id))
         == if Succeeds(m, Event.SetLeaf(name, id)) then MoveLeaf(m, name, id) else m
  {
    hide Inv, MoveLeaf;
  }

  lemma ClearStep(m: Manager, name: Name)
    requires Inv(m)
    ensures Step(m, ClearHistory(name)) == if Succeeds(m, ClearHistory(name)) then Cleared(m, name) else m
  {
    hide Inv, Cleared;
  }

  /** What journaling a cell comes to, field by field. */
  lemma AppendToParts(m: Manager, name: Name, input: AppendInput, now: int)
    requires name in m.entries && name in m.disk
    ensures var e := m.entries[name];
      var id := e.archive.nextId;
      AppendTo(m, name, input, now)
      == m.(entries := m.entries[name := e.(lastUsedAt := now, archive := Archive(id + 1, Some(id), Some(id)))],
            disk := m.disk[name := Doc(m.disk[name].cells + [CellEntry(id, e.archive.leafId, input)], Some(id))])
  {}

  lemma WriteMetaOfLeaf(entries: Entries, disk: Disk, name: Name)
    requires name in entries && name in disk && entries[name].archive.leafId.Some?
    ensures WriteMeta(entries, disk, name) == disk[name := Doc(disk[name].cells, entries[name].archive.leafId)]
  {}

  /** Appending below the leaf in force. */
  lemma AppendDocValid(doc: Doc, e: Entry, input: AppendInput, now: int)
    requires ValidDoc(doc) && Mirrors(e, doc) && e.runtime.Warm?
    ensures CellEntry(e.archive.nextId, e.archive.leafId, input) == CellEntry(|doc.cells| + 1, doc.leaf, input)
    ensures var doc' := Doc(AppendCell(doc.cells, doc.leaf, input), Some(|doc.cells| + 1));
            && ValidDoc(doc')
            && Mirrors(e.(lastUsedAt := now, archive := Archive(|doc.cells| + 2, doc'.leaf, doc'.leaf)), doc')
  {
    AppendKeepsJournal(doc.cells, doc.leaf, input);
  }

  lemma AppendToKeeps(m: Manager, name: Name, input: AppendInput, now: int)
    requires Inv(m) && IsWarm(m.entries, name)
    ensures Inv(AppendTo(m, name, input, now))
  {
    hide ValidDoc, Mirrors, ValidJournal, LeafOf;
    var doc, e := m.disk[name], m.entries[name];
    AppendDocValid(doc, e, input, now);
    var doc' := Doc(AppendCell(doc.cells, doc.leaf, input), Some(|doc.cells| + 1));
    UpdateBoth(m, name, e.(lastUsedAt := now, archive := Archive(|doc.cells| + 2, doc'.leaf, doc'.leaf)), doc');
  }

  lemma SetLeafKeeps(m: Manager, name: Name, id: nat)
    requires Inv(m)
    ensures Inv(Step(m, Event.SetLeaf(name, id)))
  {
    if Succeeds(m, Event.SetLeaf(name, id)) {
      var doc := m.disk[name];
      assert ValidDoc(doc.(leaf := Some(id)));
      if name in m.entries {
        var e := m.entries[name];
        assert Mirrors(e.(archive := e.archive.(leafId := Some(id))), doc.(leaf := Some(id)));
        UpdateBoth(m, name, e.(archive := e.archive.(leafId := Some(id))), doc.(leaf := Some(id)));
      } else {
        UpdateDoc(m, name, doc.(leaf := Some(id)));
      }
    }
  }

  lemma ClearKeeps(m: Manager, name: Name)
    requires Inv(m)
    ensures Inv(Step(m, ClearHistory(name)))
  {
    if Succeeds(m, ClearHistory(name)) {
      EmptyDocMirrors(Entry(Cold, 0, Archive(1, None, None)));
      if name in m.entries {
        var e := m.entries[name];
        EmptyDocMirrors(e);
        UpdateBoth(m, name, e.(archive := Archive(1, None, None)), EmptyDoc);
      } else if name in m.disk {
        UpdateDoc(m, name, EmptyDoc);
      }
    }
  }

  lemma CoolKeeps(m: Manager, name: Name)
    requires Inv(m)
    ensures Inv(m.(entries := Cool(m.entries, name)))
  {
    CoolSome(m, Cool(m.entries, name));
  }

  lemma ForkKeeps(m: Manager, src: Name, dst: Name, now: int, exits: bool)
    requires Inv(m)
    ensures Inv(Step(m, Fork(src, dst, now, exits)))
  {
    hide ValidDoc, Mirrors, Ordered;
    if src in m.disk && dst !in m.entries {
      var doc := m.disk[src];
      CoolKeeps(m, src);
      OpenArchiveMirrors(doc, now);
      var cooled := m.(entries := Cool(m.entries, src));
      UpdateDoc(cooled, dst, doc);
      var copied := cooled.(disk := cooled.disk[dst := doc]);
      AddEntry(copied, dst, Entry(Cold, now, OpenArchive(doc.cells)));
    }
  }

  /** The three ways a fork can go. */
  lemma ForkCases(m: Manager, src: Name, dst: Name, now: int, exits: bool)
    requires Inv(m)
    ensures var f := Fork(src, dst, now, exits);
            if m.disposed || dst in m.entries || dst in m.disk || src !in m.disk then
              Step(m, f) == m && !Succeeds(m, f)
            else if IsWarm(m.entries, src) && !exits then
              Step(m, f) == m.(entries := Cool(m.entries, src)) && !Succeeds(m, f)
            else
              Step(m, f) == Forked(m, src, dst, now) && Succeeds(m, f)
  {
    hide Inv;
  }

  lemma {:induction false} WithoutElems(order: seq<Name>, name: Name)
    requires forall i, j :: 0 <= i < j < |order| ==> order[i] != order[j]
    ensures forall n :: n in Without(order, name) <==> n in order && n != name
    ensures forall i, j :: 0 <= i < j < |Without(order, name)| ==> Without(order, name)[i] != Without(order, name)[j]
  {
    if order != [] {
      var k := |order| - 1;
      WithoutElems(order[..k], name);
      assert order == order[..k] + [order[k]];
      assert order[k] !in order[..k];
    }
  }

  lemma RemoveKeeps(m: Manager, name: Name)
    requires Inv(m)
    ensures Inv(Step(m, Remove(name)))
  {
    WithoutElems(m.order, name);
    hide ValidDoc, Mirrors;
  }

  lemma RunCellStep(m: Manager, name: Name, input: AppendInput, now: int, env: Env)
    requires Inv(m) && !m.disposed
    ensures AttachSucceeds(m, name, env) ==>
              IsWarm(Attach(m, name, now, env).entries, name) && name in Attach(m, name, now, env).disk
    ensures Step(m, RunCell(name, input, now, env))
         == if AttachSucceeds(m, name, env) then AppendTo(Attach(m, name, now, env), name, input, now)
            else Attach(m, name, now, env)
  {
    AttachHolds(m, name, now, env);
    hide Attach, AttachSucceeds, AppendTo;
  }

  lemma AppendedDoc(before: Disk, disk: Disk, name: Name, input: AppendInput, n: Name)
    requires name in disk && DocOf(disk, name) == DocOf(before, name) && DocOf(disk, n) == DocOf(before, n)
    ensures var doc := DocOf(before, name);
            var doc' := Doc(AppendCell(doc.cells, doc.leaf, input), Some(|doc.cells| + 1));
            && disk[name].cells == doc.cells && disk[name].leaf == doc.leaf
            && DocOf(disk[name := doc'], n) == if n == name then doc' else DocOf(before, n)
  {}

  lemma RunCellKeeps(m: Manager, name: Name, input: AppendInput, now: int, env: Env)
    requires Inv(m)
    ensures Inv(Step(m, RunCell(name, input, now, env)))
  {
    AttachKeeps(m, name, now, env);
    if !m.disposed {
      RunCellStep(m, name, input, now, env);
      if AttachSucceeds(m, name, env) { AppendToKeeps(Attach(m, name, now, env), name, input, now); }
    }
    hide Inv, Attach, AppendTo;
  }

  lemma RunCellRefines(m: Manager, name: Name, input: AppendInput, now: int, env: Env, n: Name)
    requires Inv(m)
    ensures DocOf(Step(m, RunCell(name, input, now, env)).disk, n)
         == DocAfter(m.disk, RunCell(name, input, now, env), Succeeds(m, RunCell(name, input, now, env)), n)
  {
    if m.disposed || !AttachSucceeds(m, name, env) {
      RunCellFails(m, name, input, now, env, n);
    } else {
      RunCellLands(m, name, input, now, env, n);
    }
    hide Inv, AttachSucceeds, Step, DocOf, AppendCell;
  }

  lemma RunCellFails(m: Manager, name: Name, input: AppendInput, now: int, env: Env, n: Name)
    requires Inv(m) && (m.disposed || !AttachSucceeds(m, name, env))
    ensures DocOf(Step(m, RunCell(name, input, now, env)).disk, n) == DocOf(m.disk, n)
  {
    AttachKeeps(m, name, now, env);
    hide Inv, Attach, AttachSucceeds;
  }

  lemma DocAfterRunCell(disk: Disk, name: Name, input: AppendInput, now: int, env: Env, n: Name)
    ensures DocAfter(disk, RunCell(name, input, now, env), true, n)
         == if n != name then DocOf(disk, n)
            else
              var doc := DocOf(disk, name);
              Doc(AppendCell(doc.cells, doc.leaf, input), Some(|doc.cells| + 1))
  {}

  lemma RunCellLands(m: Manager, name: Name, input: AppendInput, now: int, env: Env, n: Name)
    requires Inv(m) && !m.disposed && AttachSucceeds(m, name, env)
    ensures DocOf(Step(m, RunCell(name, input, now, env)).disk, n)
         == DocAfter(m.disk, RunCell(name, input, now, env), true, n)
  {
    hide *;
    AttachedForCell(m, name, now, env, n);
    RunCellSucceeds(m, name, input, now, env);
    JournaledDoc(m, Attach(m, name, now, env), name, input, now, n);
    DocAfterRunCell(m.disk, name, input, now, env, n);
  }

  /** What a successful attach leaves for the cell to run on. */
  lemma AttachedForCell(m: Manager, name: Name, now: int, env: Env, n: Name)
    requires Inv(m) && AttachSucceeds(m, name, env)
    ensures WellOrdered(m) && m.entries.Keys <= m.disk.Keys
    ensures var attached := Attach(m, name, now, env);
      && Inv(attached) && IsWarm(attached.entries, name) && name in attached.disk
      && DocOf(attached.disk, name) == DocOf(m.disk, name) && DocOf(attached.disk, n) == DocOf(m.disk, n)
  {
    AttachKeeps(m, name, now, env);
    AttachHolds(m, name, now, env);
    hide Attach, AttachSucceeds, DocOf;
  }

  lemma RunCellSucceeds(m: Manager, name: Name, input: AppendInput, now: int, env: Env)
    requires Inv(m) && !m.disposed && AttachSucceeds(m, name, env)
    ensures name in Attach(m, name, now, env).entries && name in Attach(m, name, now, env).disk
    ensures Step(m, RunCell(name, input, now, env)) == AppendTo(Attach(m, name, now, env), name, input, now)
  {
    AttachHolds(m, name, now, env);
    hide Attach, AttachSucceeds, AppendTo;
  }

  /** An attach that changed no document, then a cell. */
  lemma JournaledDoc(m: Manager, attached: Manager, name: Name, input: AppendInput, now: int, n: Name)
    requires Inv(attached) && IsWarm(attached.entries, name) && name in attached.disk
    requires DocOf(attached.disk, name) == DocOf(m.disk, name) && DocOf(attached.disk, n) == DocOf(m.disk, n)
    ensures DocOf(AppendTo(attached, name, input, now).disk, n)
         == if n != name then DocOf(m.disk, n)
            else
              var doc := DocOf(m.disk, name);
              Doc(AppendCell(doc.cells, doc.leaf, input), Some(|doc.cells| + 1))
  {
    AppendToDisk(attached, name, input, now);
    AppendedDoc(m.disk, attached.disk, name, input, n);
    hide Inv, AppendTo, AppendCell;
  }

  lemma SetBusyKeeps(m: Manager, name: Name, busy: bool)
    requires Inv(m)
    ensures Inv(Step(m, SetBusy(name, busy)))
  {
    if IsWarm(m.entries, name) { UpdateEntry(m, name, m.entries[name].(runtime := Warm(busy))); }
  }

  lemma SweepKeeps(m: Manager, cutoff: int)
    requires Inv(m)
    ensures Inv(m.(entries := CoolOverdue(m.entries, cutoff)))
  {
    CoolSome(m, CoolOverdue(m.entries, cutoff));
  }

  lemma EmptyManagerKeeps(m: Manager, disposed: bool)
    requires Inv(m)
    ensures Inv(m.(disposed := disposed, entries := map[], order := []))
  {}

  lemma StepKeeps(m: Manager, e: Event)
    requires Inv(m)
    ensures Inv(Step(m, e))
  {
    match e
    case Create(name, now, env) => if name !in m.entries { AttachUnmanagedKeeps(m, name, now, env); }
    case GetOrAttach(name, now, env) => AttachKeeps(m, name, now, env);
    case RunCell(name, input, now, env) => RunCellKeeps(m, name, input, now, env);
    case SetLeaf(name, id) => SetLeafKeeps(m, name, id);
    case ClearHistory(name) => ClearKeeps(m, name);
    case Evict(name, force) => CoolKeeps(m, name);
    case EvictIdle(cutoff) => SweepKeeps(m, cutoff);
    case Fork(src, dst, now, exits) => ForkKeeps(m, src, dst, now, exits);
    case Remove(name) => RemoveKeeps(m, name);
    case SetBusy(name, busy) => SetBusyKeeps(m, name, busy);
    case DisposeAll => EmptyManagerKeeps(m, true);
    case Reopen => EmptyManagerKeeps(m, false);
  }

  lemma CreateKeepsDocs(m: Manager, name: Name, now: int, env: Env, n: Name)
    requires Inv(m)
    ensures DocOf(Step(m, Create(name, now, env)).disk, n) == DocOf(m.disk, n)
  {
    if name !in m.entries { AttachUnmanagedKeeps(m, name, now, env); }
    hide Inv, AttachUnmanaged;
  }

  lemma AttachKeepsDocs(m: Manager, name: Name, now: int, env: Env, n: Name)
    requires Inv(m)
    ensures DocOf(Step(m, GetOrAttach(name, now, env)).disk, n) == DocOf(m.disk, n)
  {
    AttachKeeps(m, name, now, env);
    hide Inv, Attach;
  }

  /** Calls on kernels alone leave every file as it is; the others do what they say. */
  lemma OtherStepsRefine(m: Manager, e: Event, n: Name)
    requires Inv(m) && !e.Create? && !e.GetOrAttach? && !e.RunCell?
    ensures DocOf(Step(m, e).disk, n) == DocAfter(m.disk, e, Succeeds(m, e), n)
  {
    hide ValidDoc, Mirrors, Ordered;
  }

  /** Every step keeps the invariant and does to the documents what the call means. */
  lemma StepRefinesDocs(m: Manager, e: Event, n: Name)
    requires Inv(m)
    ensures Inv(Step(m, e))
    ensures DocOf(Step(m, e).disk, n) == DocAfter(m.disk, e, Succeeds(m, e), n)
  {
    StepKeeps(m, e);
    hide Inv, Step;
    match e
    case Create(name, now, env) => CreateKeepsDocs(m, name, now, env, n);
    case GetOrAttach(name, now, env) => AttachKeepsDocs(m, name, now, env, n);
    case RunCell(name, input, now, env) => RunCellRefines(m, name, input, now, env, n);
    case _ => OtherStepsRefine(m, e, n);
  }

  // ---- Runs ----

  ghost function Run(m: Manager, es: seq<Event>): Manager
    requires Inv(m)
    decreases |es|
  {
    if es == [] then m
    else
      StepRefinesDocs(m, es[0], "");
      Run(Step(m, es[0]), es[1..])
  }

  lemma {:induction false} RunKeeps(m: Manager, es: seq<Event>)
    requires Inv(m)
    ensures Inv(Run(m, es))
    decreases |es|
  {
    if es != [] {
      StepRefinesDocs(m, es[0], "");
      RunKeeps(Step(m, es[0]), es[1..]);
    }
  }

  /** Calls that are meant to change the document of n. */
  predicate Edits(e: Event, n: Name) {
    match e
    case RunCell(name, _, _, _) => name == n
    case SetLeaf(name, _) => name == n
    case ClearHistory(name) => name == n
    case Fork(_, dst, _, _) => dst == n
    case Remove(name) => name == n
    case _ => false
  }

  /** Without a call that edits n its journal and leaf stay, through any attach, eviction or restart. */
  lemma {:induction false} DocSurvives(m: Manager, es: seq<Event>, n: Name)
    requires Inv(m) && forall i :: 0 <= i < |es| ==> !Edits(es[i], n)
    ensures DocOf(Run(m, es).disk, n) == DocOf(m.disk, n)
    decreases |es|
  {
    if es != [] {
      StepRefinesDocs(m, es[0], n);
      DocSurvives(Step(m, es[0]), es[1..], n);
    }
  }

  /** The leaf of a warm scratchpad is again in force whenever it is warm later, whoever warmed it. */
  lemma LeafSurvivesEviction(m: Manager, es: seq<Event>, n: Name)
    requires Inv(m) && IsWarm(m.entries, n) && forall i :: 0 <= i < |es| ==> !Edits(es[i], n)
    requires IsWarm(Run(m, es).entries, n)
    ensures Run(m, es).entries[n].archive == m.entries[n].archive
  {
    DocSurvives(m, es, n);
    RunKeeps(m, es);
  }

  /** A fork starts with the journal and the leaf of its source, and keeps them until edited. */
  lemma ForkCarriesLeaf(m: Manager, src: Name, dst: Name, now: int, es: seq<Event>)
    requires Inv(m) && Succeeds(m, Fork(src, dst, now, true))
    requires forall i :: 0 <= i < |es| ==> !Edits(es[i], dst)
    ensures Inv(Step(m, Fork(src, dst, now, true)))
    ensures var r := Run(Step(m, Fork(src, dst, now, true)), es);
            && DocOf(r.disk, dst) == m.disk[src]
            && (IsWarm(r.entries, dst) ==> r.entries[dst].archive.leafId == m.disk[src].leaf)
  {
    var f := Fork(src, dst, now, true);
    StepRefinesDocs(m, f, dst);
    DocSurvives(Step(m, f), es, dst);
    RunKeeps(Step(m, f), es);
  }

  lemma {:induction false} FirstIsParentless(cells: seq<CellEntry>)
    requires ValidJournal(cells) && forall i :: 0 <= i < |cells| ==> (cells[i].parentId.None? <==> i == 0)
    ensures Parentless(cells) == if cells == [] then [] else [1]
  {
    if cells != [] {
      FirstIsParentless(cells[..|cells| - 1]);
    }
  }

  /** In every run a journal has one root and no orphans, so its tree is printed under one root. */
  lemma OneRootNoOrphans(m: Manager, n: Name)
    requires Inv(m) && n in m.disk
    ensures Project(m.disk[n].cells).orphans == []
    ensures Project(m.disk[n].cells).root == if m.disk[n].cells == [] then None else Some(1)
  {
    assert ValidDoc(m.disk[n]);
    ProjectRoots(m.disk[n].cells);
    FirstIsParentless(m.disk[n].cells);
    hide *;
  }

  function NewManager(maxLive: int, disk: Disk): Manager {
    Manager(false, maxLive, [], map[], disk)
  }

  lemma NewManagerInv(maxLive: int, disk: Disk)
    requires forall n :: n in disk ==> ValidDoc(disk[n])
    ensures Inv(NewManager(maxLive, disk))
  {}

  /** Every run of a new manager on well-formed files ends with such files, each printed under one root. */
  lemma EveryRunFromDisk(maxLive: int, disk: Disk, es: seq<Event>, n: Name)
    requires forall n :: n in disk ==> ValidDoc(disk[n])
    ensures Inv(NewManager(maxLive, disk))
    ensures var m := Run(NewManager(maxLive, disk), es);
            Inv(m) && (n in m.disk ==>
                         && Project(m.disk[n].cells).orphans == []
                         && Project(m.disk[n].cells).root == if m.disk[n].cells == [] then None else Some(1))
  {
    NewManagerInv(maxLive, disk);
    var m := Run(NewManager(maxLive, disk), es);
    RunKeeps(NewManager(maxLive, disk), es);
    hide *;
    if n in m.disk { OneRootNoOrphans(m, n); }
  }

  // ---- The pool in whole operations ----

  /** Did this attach start a kernel? */
  predicate Spawns(m: Manager, name: Name, env: Env) {
    AttachSucceeds(m, name, env) && !IsWarm(m.entries, name)
  }

  /** Right after a spawning attach the pool is within its limit or everything else is busy. */
  lemma AttachKeepsPoolBounded(m: Manager, name: Name, now: int, env: Env)
    requires Inv(m) && Spawns(m, name, env)
    ensures var r := Attach(m, name, now, env); PoolBounded(r.order, r.entries, m.maxLive, name)
  {
    var before := if name in m.entries then Touch(m, name, now) else m;
    var r := Attach(m, name, now, env);
    SpawnKeepsPoolBounded(before.order, before.entries, m.maxLive, name, r.entries[name]);
    EvictLruOnlyCoolsIdle(before.order, before.entries, m.maxLive);
    assert r.entries == EvictLru(before.order, before.entries, m.maxLive)[name := r.entries[name]];
  }

  /** An attach never disturbs a kernel that is running a cell. */
  lemma AttachSparesBusy(m: Manager, name: Name, now: int, env: Env, other: Name)
    requires Inv(m) && other != name && IsWarm(m.entries, other) && m.entries[other].runtime.busy
    ensures other in Attach(m, name, now, env).entries && Attach(m, name, now, env).entries[other] == m.entries[other]
  {
    hide ValidDoc, Mirrors, Ordered;
    if name in m.entries {
      TouchKeeps(m, name, now);
      EvictingSparesBusy(Touch(m, name, now), other);
    } else {
      WriteMetaKeeps(m, name);
      EvictingSparesBusy(m.(disk := WriteMeta(m.entries, m.disk, name)), other);
    }
  }

  lemma EvictingSparesBusy(m: Manager, other: Name)
    requires Inv(m) && IsWarm(m.entries, other) && m.entries[other].runtime.busy
    ensures other in Evicting(m).entries && Evicting(m).entries[other] == m.entries[other]
  {
    EvictLruOnlyCoolsIdle(m.order, m.entries, m.maxLive);
  }
}
