/**
 * The operations of packages/coworker-scratchpad/src/scratchpad-manager.ts on values, each one
 * step. The directory of a scratchpad is its journal and the leaf recorded in meta.json.
 */
module ScratchpadModel {
  import opened Wrappers
  import opened CellArchive
  import opened KernelPool

  /** cells.jsonl and cell_leaf_id. */
  datatype Doc = Doc(cells: seq<CellEntry>, leaf: Option<nat>)

  const EmptyDoc := Doc([], None)

  type Disk = map<Name, Doc>

  datatype Manager = Manager(disposed: bool, maxLive: int, order: seq<Name>, entries: Entries, disk: Disk)

  /** Whether the session lock can be taken and whether the kernel starts. */
  datatype Env = Env(lockFree: bool, spawns: bool)

  datatype Event =
    | Create(name: Name, now: int, env: Env)
    | GetOrAttach(name: Name, now: int, env: Env)
    | RunCell(name: Name, input: AppendInput, now: int, env: Env)
    | SetLeaf(name: Name, id: nat)
    | ClearHistory(name: Name)
    | Evict(name: Name, force: bool)
    | EvictIdle(cutoff: int)
    | Fork(src: Name, dst: Name, now: int, exits: bool)
    | Remove(name: Name)
    | SetBusy(name: Name, busy: bool)    // a caller of the runtime starts or ends a cell
    | DisposeAll
    | Reopen                             // a new manager on the same directory

  function OpenArchive(cells: seq<CellEntry>): Archive {
    var last := LastIdOf(cells);
    Archive(last.GetOr(0) + 1, last, last)
  }

  function RestoreLeaf(archive: Archive, doc: Doc): Archive {
    if doc.leaf.Some? then archive.(leafId := doc.leaf) else archive
  }

  /** writeMeta: keep the recorded leaf unless a live archive knows better. */
  function WriteMeta(entries: Entries, disk: Disk, name: Name): Disk {
    var doc := if name in disk then disk[name] else EmptyDoc;
    disk[name := if name in entries && entries[name].archive.leafId.Some?
                 then doc.(leaf := entries[name].archive.leafId) else doc]
  }

  ghost predicate WellOrdered(m: Manager) {
    Ordered(m.order, m.entries)
  }

  function Evicting(m: Manager): Manager
    requires WellOrdered(m)
  {
    m.(entries := EvictLru(m.order, m.entries, m.maxLive))
  }

  /** Re-warm a managed scratchpad: the leaf comes back from meta.json. */
  function Rewarm(m: Manager, name: Name): Manager
    requires name in m.entries && name in m.disk
  {
    var e := m.entries[name];
    m.(entries := m.entries[name := e.(runtime := Warm(false), archive := RestoreLeaf(e.archive, m.disk[name]))])
  }

  function Adopt(m: Manager, name: Name, now: int): Manager
    requires name in m.disk
  {
    var archive := RestoreLeaf(OpenArchive(m.disk[name].cells), m.disk[name]);
    m.(entries := m.entries[name := Entry(Warm(false), now, archive)], order := m.order + [name])
  }

  function Touch(m: Manager, name: Name, now: int): Manager
    requires name in m.entries
  {
    m.(entries := m.entries[name := m.entries[name].(lastUsedAt := now)])
  }

  /** A scratchpad this manager does not hold yet. */
  function AttachUnmanaged(m: Manager, name: Name, now: int, env: Env): Manager
    requires WellOrdered(m) && name !in m.entries
  {
    if !env.lockFree then m
    else
      var made := Evicting(m.(disk := WriteMeta(m.entries, m.disk, name)));
      if env.spawns then Adopt(made, name, now) else made
  }

  /** A scratchpad this manager holds, warm or cold. */
  function AttachManaged(m: Manager, name: Name, now: int, env: Env): Manager
    requires WellOrdered(m) && name in m.entries && name in m.disk
  {
    var touched := Touch(m, name, now);
    if touched.entries[name].runtime.Warm? then touched
    else
      EvictLruOnlyCoolsIdle(touched.order, touched.entries, touched.maxLive);
      if env.spawns then Rewarm(Evicting(touched), name) else Evicting(touched)
  }

  /** Managed scratchpads are on disk; see Inv. */
  function Attach(m: Manager, name: Name, now: int, env: Env): Manager
    requires WellOrdered(m) && m.entries.Keys <= m.disk.Keys
  {
    if name in m.entries then AttachManaged(m, name, now, env) else AttachUnmanaged(m, name, now, env)
  }

  predicate AttachSucceeds(m: Manager, name: Name, env: Env) {
    if name in m.entries then m.entries[name].runtime.Warm? || env.spawns else env.lockFree && env.spawns
  }

  /** The archive writes what it remembers: its next id and its leaf. */
  function AppendTo(m: Manager, name: Name, input: AppendInput, now: int): Manager
    requires name in m.entries && name in m.disk
  {
    var e := m.entries[name];
    var cell := CellEntry(e.archive.nextId, e.archive.leafId, input);
    var archive := Archive(cell.id + 1, Some(cell.id), Some(cell.id));
    m.(entries := m.entries[name := e.(lastUsedAt := now, archive := archive)],
       disk := m.disk[name := Doc(m.disk[name].cells + [cell], Some(cell.id))])
  }

  /** Live archive, if there is one, and file. */
  function MoveLeaf(m: Manager, name: Name, id: nat): Manager
    requires name in m.disk
  {
    var disk := m.disk[name := m.disk[name].(leaf := Some(id))];
    if name !in m.entries then m.(disk := disk)
    else
      var e := m.entries[name];
      m.(entries := m.entries[name := e.(archive := e.archive.(leafId := Some(id)))], disk := disk)
  }

  function Cleared(m: Manager, name: Name): Manager {
    var disk := if name in m.disk then m.disk[name := EmptyDoc] else m.disk;
    if name !in m.entries then m.(disk := disk)
    else m.(entries := m.entries[name := m.entries[name].(archive := Archive(1, None, None))], disk := disk)
  }

  /** The source goes cold, the copy is registered cold with the source's journal and leaf. */
  function Forked(m: Manager, src: Name, dst: Name, now: int): Manager
    requires src in m.disk
  {
    var doc := m.disk[src];
    m.(entries := Cool(m.entries, src)[dst := Entry(Cold, now, OpenArchive(doc.cells))],
       order := m.order + [dst],
       disk := m.disk[dst := doc])
  }

  predicate HasCell(cells: seq<CellEntry>, id: nat) {
    exists i :: 0 <= i < |cells| && cells[i].id == id
  }

  /** Whether the call returns normally; runCell counts once its cell is journaled. */
  predicate Succeeds(m: Manager, e: Event) {
    match e
    case Create(name, _, env) => !m.disposed && name !in m.entries && name !in m.disk && env.lockFree && env.spawns
    case GetOrAttach(name, _, env) => !m.disposed && AttachSucceeds(m, name, env)
    case RunCell(name, _, _, env) => !m.disposed && AttachSucceeds(m, name, env)
    case SetLeaf(name, id) => !m.disposed && name in m.disk && HasCell(m.disk[name].cells, id)
    case ClearHistory(name) => !m.disposed && !(name in m.entries && m.entries[name].runtime == Warm(true))
    case Evict(name, force) => !m.disposed && IsWarm(m.entries, name) && (force || IsIdle(m.entries, name))
    case EvictIdle(_) => true
    case Fork(src, dst, _, exits) =>
      !m.disposed && dst !in m.entries && dst !in m.disk && src in m.disk && (exits || !IsWarm(m.entries, src))
    case _ => true
  }

  function Without(order: seq<Name>, name: Name): seq<Name> {
    if order == [] then []
    else Without(order[..|order| - 1], name) + if order[|order| - 1] == name then [] else [order[|order| - 1]]
  }

  function Step(m: Manager, e: Event): Manager
    requires WellOrdered(m) && m.entries.Keys <= m.disk.Keys
  {
    match e
    case Create(name, now, env) =>
      if m.disposed || name in m.entries || name in m.disk then m else AttachUnmanaged(m, name, now, env)
    case GetOrAttach(name, now, env) => if m.disposed then m else Attach(m, name, now, env)
    case RunCell(name, input, now, env) =>
      if m.disposed then m
      else
        AttachHolds(m, name, now, env);
        if AttachSucceeds(m, name, env) then AppendTo(Attach(m, name, now, env), name, input, now)
        else Attach(m, name, now, env)
    case SetLeaf(name, id) => if Succeeds(m, e) then MoveLeaf(m, name, id) else m
    case ClearHistory(name) => if Succeeds(m, e) then Cleared(m, name) else m
    case Evict(name, force) => if !Succeeds(m, e) then m else m.(entries := Cool(m.entries, name))
    case EvictIdle(cutoff) => if m.disposed then m else m.(entries := CoolOverdue(m.entries, cutoff))
    case Fork(src, dst, now, exits) =>
      if m.disposed || dst in m.entries || dst in m.disk || src !in m.disk then m
      else if Succeeds(m, e) then Forked(m, src, dst, now)
      else m.(entries := Cool(m.entries, src))
    case Remove(name) =>
      m.(entries := m.entries - {name}, order := Without(m.order, name), disk := m.disk - {name})
    case SetBusy(name, busy) =>
      if IsWarm(m.entries, name) then m.(entries := m.entries[name := m.entries[name].(runtime := Warm(busy))]) else m
    case DisposeAll => m.(disposed := true, entries := map[], order := [])
    case Reopen => m.(disposed := false, entries := map[], order := [])
  }

  /** A successful attach leaves the scratchpad warm, managed and on disk. */
  lemma AttachHolds(m: Manager, name: Name, now: int, env: Env)
    requires WellOrdered(m) && m.entries.Keys <= m.disk.Keys
    ensures AttachSucceeds(m, name, env) ==>
              name in Attach(m, name, now, env).disk && IsWarm(Attach(m, name, now, env).entries, name)
  {}

  // ---- The documents a user sees, without kernels ----

  function DocOf(disk: Disk, name: Name): Doc {
    if name in disk then disk[name] else EmptyDoc
  }

  /** What a call means for the document of scratchpad n. */
  function DocAfter(disk: Disk, e: Event, ok: bool, n: Name): Doc {
    var doc := DocOf(disk, n);
    match e
    case RunCell(name, input, _, _) =>
      if ok && name == n then Doc(AppendCell(doc.cells, doc.leaf, input), Some(|doc.cells| + 1)) else doc
    case SetLeaf(name, id) => if ok && name == n then doc.(leaf := Some(id)) else doc
    case ClearHistory(name) => if ok && name == n then EmptyDoc else doc
    case Fork(src, dst, _, _) => if ok && dst == n then DocOf(disk, src) else doc
    case Remove(name) => if name == n then EmptyDoc else doc
    case _ => doc
  }

  // ---- What every step keeps ----

  /** A journal with at most one parentless cell, and a leaf exactly when there are cells. */
  ghost predicate ValidDoc(doc: Doc) {
    && ValidJournal(doc.cells)
    && LeafOf(doc.cells, doc.leaf)
    && (doc.leaf.None? <==> doc.cells == [])
    && (forall i :: 0 <= i < |doc.cells| ==> (doc.cells[i].parentId.None? <==> i == 0))
  }

  /** The archive in memory agrees with the file, and with the recorded leaf while a kernel is warm. */
  ghost predicate Mirrors(e: Entry, doc: Doc) {
    && e.archive.nextId == |doc.cells| + 1
    && e.archive.lastId == LastIdOf(doc.cells)
    && LeafOf(doc.cells, e.archive.leafId)
    && (e.archive.leafId.None? <==> doc.cells == [])
    && (e.runtime.Warm? ==> e.archive.leafId == doc.leaf)
  }

  ghost predicate Inv(m: Manager) {
    && WellOrdered(m)
    && m.entries.Keys <= m.disk.Keys
    && (forall n :: n in m.disk ==> ValidDoc(m.disk[n]))
    && (forall n :: n in m.entries ==> Mirrors(m.entries[n], m.disk[n]))
  }
}
