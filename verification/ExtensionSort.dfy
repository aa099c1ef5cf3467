/**
 * src/extension-sort.ts: dependency-first ordering of extension entry paths.
 * Reading a manifest file is a parameter; a manifest whose dependency list is absent or not an
 * array has deps == [].
 */
module ExtensionSort {
  import opened Wrappers
  import opened StringOrder
  import opened DependencyGraph

  type Path = string

  datatype Manifest = Manifest(id: Id, deps: seq<Id>)

  type Reader = Path -> Option<Manifest>

  datatype WarningKind = Missing | Cycle

  datatype SortWarning = SortWarning(declaringId: Id, missingId: Id, kind: WarningKind)

  // ---- What the input says ----

  function WithoutId(paths: seq<Path>, read: Reader): seq<Path> {
    if paths == [] then []
    else
      var n := |paths| - 1;
      WithoutId(paths[..n], read) + if read(paths[n]).None? then [paths[n]] else []
  }

  /** A repeated manifest id keeps only the last path. */
  function IdToPath(paths: seq<Path>, read: Reader): map<Id, Path> {
    if paths == [] then map[]
    else
      var n := |paths| - 1;
      match read(paths[n])
      case None => IdToPath(paths[..n], read)
      case Some(manifest) => IdToPath(paths[..n], read)[manifest.id := paths[n]]
  }

  /** Map keys in insertion order: a repeated id keeps its first place. */
  function IdKeys(paths: seq<Path>, read: Reader): seq<Id> {
    if paths == [] then []
    else
      var n := |paths| - 1;
      var before := IdKeys(paths[..n], read);
      match read(paths[n])
      case None => before
      case Some(manifest) => if manifest.id in before then before else before + [manifest.id]
  }

  lemma {:induction false} IdKeysAreKeys(paths: seq<Path>, read: Reader)
    ensures Distinct(IdKeys(paths, read))
    ensures Elems(IdKeys(paths, read)) == IdToPath(paths, read).Keys
  {
    if paths != [] {
      var n := |paths| - 1;
      IdKeysAreKeys(paths[..n], read);
      match read(paths[n])
      case None =>
      case Some(manifest) =>
        assert manifest.id in IdKeys(paths[..n], read) <==> manifest.id in Elems(IdKeys(paths[..n], read));
    }
  }

  function DepsOf(read: Reader, m: map<Id, Path>, id: Id): seq<Id>
    requires id in m
  {
    match read(m[id])
    case None => []
    case Some(manifest) => manifest.deps
  }

  function EdgeTo(dep: Id, id: Id, ids: set<Id>): seq<Id> {
    if dep != id && dep in ids then [dep] else []
  }

  /** The declared dependencies that become edges, with repetitions. */
  function Valid(deps: seq<Id>, id: Id, ids: set<Id>): seq<Id> {
    if deps == [] then []
    else
      var n := |deps| - 1;
      Valid(deps[..n], id, ids) + EdgeTo(deps[n], id, ids)
  }

  lemma {:induction false} ValidElems(deps: seq<Id>, id: Id, ids: set<Id>)
    ensures forall d :: d in Valid(deps, id, ids) <==> d in deps && d != id && d in ids
  {
    if deps != [] {
      var n := |deps| - 1;
      ValidElems(deps[..n], id, ids);
      assert deps == deps[..n] + [deps[n]];
    }
  }

  function EdgesOf(read: Reader, m: map<Id, Path>, id: Id): seq<Id>
    requires id in m
  {
    Valid(DepsOf(read, m, id), id, m.Keys)
  }

  ghost function GraphOf(read: Reader, m: map<Id, Path>): Graph {
    map id | id in m :: Elems(EdgesOf(read, m, id))
  }

  lemma GraphOfClosed(read: Reader, m: map<Id, Path>)
    ensures Closed(GraphOf(read, m))
    ensures forall id, d :: id in m ==> (d in GraphOf(read, m)[id] <==> d in DepsOf(read, m, id) && d != id && d in m)
  {
    forall id | id in m
      ensures forall d :: d in GraphOf(read, m)[id] <==> d in DepsOf(read, m, id) && d != id && d in m
    {
      ValidElems(DepsOf(read, m, id), id, m.Keys);
    }
  }

  // ---- What the output says ----

  ghost predicate AllIn(ids: seq<Id>, m: map<Id, Path>) {
    forall x :: x in ids ==> x in m
  }

  ghost function PathsOf(m: map<Id, Path>, ids: seq<Id>): (r: seq<Path>)
    requires AllIn(ids, m)
  {
    if ids == [] then []
    else PathsOf(m, ids[..|ids| - 1]) + [m[ids[|ids| - 1]]]
  }

  /** Path number i belongs to identifier number i. */
  lemma {:induction false} PathsOfAt(m: map<Id, Path>, ids: seq<Id>)
    requires AllIn(ids, m)
    ensures |PathsOf(m, ids)| == |ids|
    ensures forall i :: 0 <= i < |ids| ==> PathsOf(m, ids)[i] == m[ids[i]]
  {
    if ids != [] {
      PathsOfAt(m, ids[..|ids| - 1]);
    }
  }

  /** What is warned about: a missing dependency, or one between two members of a set. */
  function WarningEdge(id: Id, dep: Id, ids: set<Id>, kind: WarningKind): seq<SortWarning> {
    if dep != id && (kind.Cycle? <==> dep in ids) then [SortWarning(id, dep, kind)] else []
  }

  function WarningsFor(id: Id, deps: seq<Id>, ids: set<Id>, kind: WarningKind): seq<SortWarning> {
    if deps == [] then []
    else
      var n := |deps| - 1;
      WarningsFor(id, deps[..n], ids, kind) + WarningEdge(id, deps[n], ids, kind)
  }

  function WarningsOf(read: Reader, m: map<Id, Path>, keys: seq<Id>, ids: set<Id>, kind: WarningKind): seq<SortWarning>
    requires AllIn(keys, m)
  {
    if keys == [] then []
    else
      var n := |keys| - 1;
      WarningsOf(read, m, keys[..n], ids, kind) + WarningsFor(keys[n], DepsOf(read, m, keys[n]), ids, kind)
  }

  /** The sorted identifiers: the reference order, then the leftovers alphabetically. */
  ghost function SortedIds(read: Reader, m: map<Id, Path>): (r: seq<Id>) {
    var g := GraphOf(read, m);
    Order(g) + Ascend(Leftover(g))
  }

  lemma SortedIdsCoverKeys(read: Reader, m: map<Id, Path>)
    ensures Distinct(SortedIds(read, m)) && Elems(SortedIds(read, m)) == m.Keys
  {
    var g := GraphOf(read, m);
    OrderRespects(g);
    RespectsMeaning(g, Order(g));
    AscendProperties(Leftover(g));
    AscendingDistinct(Ascend(Leftover(g)));
    ConcatDistinct(Order(g), Ascend(Leftover(g)));
    assert Elems(Order(g) + Ascend(Leftover(g))) == Elems(Order(g)) + Leftover(g);
  }

  // ---- Step 1: the id map ----

  method BuildIdMap(paths: seq<Path>, read: Reader)
    returns (pathsWithoutId: seq<Path>, idToPath: map<Id, Path>, keys: seq<Id>)
    ensures pathsWithoutId == WithoutId(paths, read)
    ensures idToPath == IdToPath(paths, read)
    ensures keys == IdKeys(paths, read)
  {
    pathsWithoutId, idToPath, keys := [], map[], [];
    for i := 0 to |paths|
      invariant pathsWithoutId == WithoutId(paths[..i], read)
      invariant idToPath == IdToPath(paths[..i], read)
      invariant keys == IdKeys(paths[..i], read)
    {
      assert paths[..i + 1][..i] == paths[..i];
      match read(paths[i]) {
        case None => pathsWithoutId := pathsWithoutId + [paths[i]];
        case Some(manifest) =>
          if manifest.id !in keys { keys := keys + [manifest.id]; }
          idToPath := idToPath[manifest.id := paths[i]];
      }
    }
    assert paths[..|paths|] == paths;
  }

  // ---- Step 2: in-degrees and dependents ----

  /** The counters and the adjacency lists agree with the edges entered so far. */
  ghost predicate Counts(entered: map<Id, seq<Id>>, inDegree: map<Id, int>, dependents: map<Id, seq<Id>>) {
    && inDegree.Keys == entered.Keys
    && dependents.Keys == entered.Keys
    && (forall x :: x in entered ==> inDegree[x] == |entered[x]|)
    && (forall d, x :: d in entered ==> multiset(dependents[d])[x] == Multiplicity(entered, x, d))
  }

  ghost function Multiplicity(entered: map<Id, seq<Id>>, x: Id, d: Id): nat {
    if x in entered then multiset(entered[x])[d] else 0
  }

  lemma EnterEdge(
    entered: map<Id, seq<Id>>, inDegree: map<Id, int>, dependents: map<Id, seq<Id>>, id: Id, dep: Id)
    requires Counts(entered, inDegree, dependents) && id in entered && dep in entered
    ensures Counts(entered[id := entered[id] + [dep]], inDegree[id := inDegree[id] + 1],
                   dependents[dep := dependents[dep] + [id]])
  {
    var entered', dependents' := entered[id := entered[id] + [dep]], dependents[dep := dependents[dep] + [id]];
    forall d, x | d in entered' ensures multiset(dependents'[d])[x] == Multiplicity(entered', x, d) {
      var more := if d == dep && x == id then 1 else 0;
      assert multiset(dependents'[d])[x] == multiset(dependents[d])[x] + more;
      assert multiset(entered[id] + [dep])[d] == multiset(entered[id])[d] + if d == dep then 1 else 0;
    }
  }

  /** The edges of every finished extension, and the part cur of those of id. */
  ghost function EdgesEntered(read: Reader, m: map<Id, Path>, done: set<Id>, id: Id, cur: seq<Id>): map<Id, seq<Id>> {
    map x | x in m :: if x == id then cur else if x in done then EdgesOf(read, m, x) else []
  }

  ghost function AllEdges(read: Reader, m: map<Id, Path>, done: set<Id>): map<Id, seq<Id>> {
    map x | x in m :: if x in done then EdgesOf(read, m, x) else []
  }

  lemma EnterNext(
    read: Reader, m: map<Id, Path>, done: set<Id>, id: Id, cur: seq<Id>,
    inDegree: map<Id, int>, dependents: map<Id, seq<Id>>, dep: Id)
    requires id in m && dep in m && Counts(EdgesEntered(read, m, done, id, cur), inDegree, dependents)
    ensures Counts(EdgesEntered(read, m, done, id, cur + [dep]), inDegree[id := inDegree[id] + 1],
                   dependents[dep := dependents[dep] + [id]])
  {
    var entered := EdgesEntered(read, m, done, id, cur);
    EnterEdge(entered, inDegree, dependents, id, dep);
    assert entered[id := entered[id] + [dep]] == EdgesEntered(read, m, done, id, cur + [dep]);
  }

  /** The body of the inner step-2 loop. */
  method EnterDependency(
    read: Reader, m: map<Id, Path>, id: Id, dep: Id, inDegree0: map<Id, int>, dependents0: map<Id, seq<Id>>,
    ghost done: set<Id>, ghost cur: seq<Id>)
    returns (inDegree: map<Id, int>, dependents: map<Id, seq<Id>>, warnings: seq<SortWarning>)
    requires id in m && Counts(EdgesEntered(read, m, done, id, cur), inDegree0, dependents0)
    ensures Counts(EdgesEntered(read, m, done, id, cur + EdgeTo(dep, id, m.Keys)), inDegree, dependents)
    ensures warnings == WarningEdge(id, dep, m.Keys, Missing)
  {
    inDegree, dependents, warnings := inDegree0, dependents0, [];
    assert cur + [] == cur;
    if dep != id {
      if dep !in m {
        warnings := [SortWarning(id, dep, Missing)];
      } else {
        EnterNext(read, m, done, id, cur, inDegree, dependents, dep);
        inDegree := inDegree[id := inDegree[id] + 1];
        dependents := dependents[dep := dependents[dep] + [id]];
      }
    }
  }

  /** The body of the outer step-2 loop. */
  method EnterDependencies(
    read: Reader, m: map<Id, Path>, id: Id, inDegree0: map<Id, int>, dependents0: map<Id, seq<Id>>, ghost done: set<Id>)
    returns (inDegree: map<Id, int>, dependents: map<Id, seq<Id>>, warnings: seq<SortWarning>)
    requires id in m && id !in done
    requires Counts(AllEdges(read, m, done), inDegree0, dependents0)
    ensures Counts(AllEdges(read, m, done + {id}), inDegree, dependents)
    ensures warnings == WarningsFor(id, DepsOf(read, m, id), m.Keys, Missing)
  {
    hide *;
    var deps := DepsOf(read, m, id);
    EnteringEdges(read, m, id, deps, done);
    inDegree, dependents, warnings := inDegree0, dependents0, [];
    for j := 0 to |deps|
      invariant Counts(EdgesEntered(read, m, done, id, Valid(deps[..j], id, m.Keys)), inDegree, dependents)
      invariant warnings == WarningsFor(id, deps[..j], m.Keys, Missing)
    {
      var more;
      inDegree, dependents, more :=
        EnterDependency(read, m, id, deps[j], inDegree, dependents, done, Valid(deps[..j], id, m.Keys));
      warnings := warnings + more;
      NextEdge(deps, j, id, m.Keys);
    }
    assert deps[..|deps|] == deps;
  }

  lemma NextEdge(deps: seq<Id>, j: nat, id: Id, ids: set<Id>)
    requires j < |deps|
    ensures Valid(deps[..j + 1], id, ids) == Valid(deps[..j], id, ids) + EdgeTo(deps[j], id, ids)
    ensures WarningsFor(id, deps[..j + 1], ids, Missing)
         == WarningsFor(id, deps[..j], ids, Missing) + WarningEdge(id, deps[j], ids, Missing)
  {
    assert deps[..j + 1][..j] == deps[..j];
  }

  lemma EnteringEdges(read: Reader, m: map<Id, Path>, id: Id, deps: seq<Id>, done: set<Id>)
    requires id in m && id !in done && deps == DepsOf(read, m, id)
    ensures Valid(deps[..0], id, m.Keys) == [] && WarningsFor(id, deps[..0], m.Keys, Missing) == []
    ensures EdgesEntered(read, m, done, id, []) == AllEdges(read, m, done)
    ensures EdgesEntered(read, m, done, id, Valid(deps, id, m.Keys)) == AllEdges(read, m, done + {id})
  {}

  method BuildGraph(read: Reader, m: map<Id, Path>, keys: seq<Id>)
    returns (inDegree: map<Id, int>, dependents: map<Id, seq<Id>>, warnings: seq<SortWarning>)
    requires Distinct(keys) && Elems(keys) == m.Keys
    ensures AllIn(keys, m) && warnings == WarningsOf(read, m, keys, m.Keys, Missing)
    ensures Counts(AllEdges(read, m, m.Keys), inDegree, dependents)
  {
    inDegree := map id | id in m :: 0;
    dependents := map id | id in m :: [];
    warnings := [];
    NothingEntered(read, m, keys, inDegree, dependents);
    hide *;
    for k := 0 to |keys|
      invariant AllIn(keys[..k], m)
      invariant Counts(AllEdges(read, m, Elems(keys[..k])), inDegree, dependents)
      invariant warnings == WarningsOf(read, m, keys[..k], m.Keys, Missing)
    {
      NextKey(read, m, keys, k);
      var more;
      inDegree, dependents, more := EnterDependencies(read, m, keys[k], inDegree, dependents, Elems(keys[..k]));
      warnings := warnings + more;
    }
    assert keys[..|keys|] == keys;
  }

  lemma NothingEntered(
    read: Reader, m: map<Id, Path>, keys: seq<Id>, inDegree: map<Id, int>, dependents: map<Id, seq<Id>>)
    requires Elems(keys) == m.Keys
    requires inDegree == (map id | id in m :: 0) && dependents == map id | id in m :: []
    ensures AllIn(keys, m) && AllIn(keys[..0], m) && WarningsOf(read, m, keys[..0], m.Keys, Missing) == []
    ensures Counts(AllEdges(read, m, Elems(keys[..0])), inDegree, dependents)
  {
    assert AllEdges(read, m, Elems(keys[..0])) == map id | id in m :: [];
    forall id | id in keys ensures id in m { assert id in Elems(keys); }
  }

  lemma NextKey(read: Reader, m: map<Id, Path>, keys: seq<Id>, k: nat)
    requires Distinct(keys) && AllIn(keys, m) && k < |keys|
    ensures keys[k] in m && keys[k] !in Elems(keys[..k]) && Elems(keys[..k + 1]) == Elems(keys[..k]) + {keys[k]}
    ensures AllIn(keys[..k], m) && AllIn(keys[..k + 1], m)
    ensures WarningsOf(read, m, keys[..k + 1], m.Keys, Missing)
         == WarningsOf(read, m, keys[..k], m.Keys, Missing)
            + WarningsFor(keys[k], DepsOf(read, m, keys[k]), m.Keys, Missing)
  {
    assert keys[..k + 1][..k] == keys[..k];
    assert keys[..k + 1] == keys[..k] + [keys[k]];
    hide WarningsFor, DepsOf;
  }

  // ---- Step 3: Kahn's algorithm ----

  /** Edges to dependencies not emitted yet, with repetitions. */
  ghost function Pending(edges: seq<Id>, done: set<Id>): nat {
    if edges == [] then 0
    else
      var n := |edges| - 1;
      Pending(edges[..n], done) + if edges[n] in done then 0 else 1
  }

  lemma {:induction false} PendingZero(edges: seq<Id>, done: set<Id>)
    ensures Pending(edges, done) == 0 <==> Elems(edges) <= done
  {
    if edges != [] {
      PendingZero(edges[..|edges| - 1], done);
      SplitLast(edges);
    }
  }

  lemma {:induction false} PendingNothingDone(edges: seq<Id>)
    ensures Pending(edges, {}) == |edges|
  {
    if edges != [] {
      PendingNothingDone(edges[..|edges| - 1]);
    }
  }

  lemma {:induction false} PendingEmit(edges: seq<Id>, done: set<Id>, a: Id)
    requires a !in done
    ensures Pending(edges, done + {a}) == Pending(edges, done) - multiset(edges)[a]
  {
    if edges != [] {
      var n := |edges| - 1;
      PendingEmit(edges[..n], done, a);
      assert edges == edges[..n] + [edges[n]];
    }
  }

  /** The queue holds exactly the unemitted identifiers whose counter is zero, in order. */
  ghost predicate QueueOf(ready: seq<Id>, inDegree: map<Id, int>, done: set<Id>) {
    Ascending(ready) && forall x :: x in ready <==> x in inDegree && x !in done && inDegree[x] == 0
  }

  ghost predicate DegreesAre(inDegree: map<Id, int>, edges: map<Id, seq<Id>>, done: set<Id>) {
    inDegree.Keys == edges.Keys && forall x :: x in edges ==> inDegree[x] == Pending(edges[x], done)
  }

  /** Whatever has been emitted had nothing left to wait for. */
  ghost predicate DoneSettled(edges: map<Id, seq<Id>>, done: set<Id>) {
    forall x :: x in done ==> x in edges && Pending(edges[x], done) == 0
  }

  /** deps lists the dependents of a, which is about to be emitted. */
  ghost predicate Releasable(edges: map<Id, seq<Id>>, a: Id, deps: seq<Id>, done: set<Id>) {
    && a in edges && a !in done && a !in edges[a]
    && DoneSettled(edges, done)
    && forall x :: multiset(deps)[x] == Multiplicity(edges, x, a)
  }

  /** Part-way through the dependents of an emitted identifier. */
  ghost predicate DegreesWhileEmitting(
    inDegree: map<Id, int>, edges: map<Id, seq<Id>>, done: set<Id>, handled: seq<Id>)
  {
    inDegree.Keys == edges.Keys
    && forall x :: x in edges ==> inDegree[x] == Pending(edges[x], done) - multiset(handled)[x]
  }

  /** One dependent: its counter goes down, and it joins the queue when nothing is left. */
  method ReleaseOne(
    ghost edges: map<Id, seq<Id>>, ghost handled: seq<Id>, dep: Id, inDegree0: map<Id, int>, ready0: seq<Id>,
    ghost done: set<Id>, ghost done': set<Id>)
    returns (inDegree: map<Id, int>, ready: seq<Id>)
    requires dep in edges && dep !in done' && Pending(edges[dep], done) > multiset(handled)[dep]
    requires DegreesWhileEmitting(inDegree0, edges, done, handled) && QueueOf(ready0, inDegree0, done')
    ensures DegreesWhileEmitting(inDegree, edges, done, handled + [dep]) && QueueOf(ready, inDegree, done')
  {
    var newDegree := inDegree0[dep] - 1;
    inDegree := inDegree0[dep := newDegree];
    ready := ready0;
    if newDegree == 0 {
      InsertAscending(ready0, dep);
      InsertElems(ready0, dep);
      ready := Insert(ready0, dep);
      assert forall x :: x in ready <==> x in Elems(ready);
      assert forall x :: x in ready0 <==> x in Elems(ready0);
    }
  }

  /** The inner loop: release every dependent of the emitted identifier a. */
  method ReleaseDependents(
    ghost edges: map<Id, seq<Id>>, a: Id, deps: seq<Id>, inDegree0: map<Id, int>, ready0: seq<Id>, ghost done: set<Id>)
    returns (inDegree: map<Id, int>, ready: seq<Id>)
    requires Releasable(edges, a, deps, done)
    requires DegreesAre(inDegree0, edges, done)
    requires QueueOf(ready0, inDegree0, done + {a})
    ensures DegreesAre(inDegree, edges, done + {a})
    ensures QueueOf(ready, inDegree, done + {a})
  {
    hide *;
    inDegree, ready := inDegree0, ready0;
    NothingReleased(inDegree0, edges, done);
    assert deps[..0] == [];
    for k := 0 to |deps|
      invariant DegreesWhileEmitting(inDegree, edges, done, deps[..k])
      invariant QueueOf(ready, inDegree, done + {a})
    {
      NextDependent(edges, a, deps, k, done);
      inDegree, ready := ReleaseOne(edges, deps[..k], deps[k], inDegree, ready, done, done + {a});
      assert deps[..k + 1] == deps[..k] + [deps[k]];
    }
    assert deps[..|deps|] == deps;
    AllReleased(edges, a, deps, inDegree, done);
  }

  lemma NothingReleased(inDegree: map<Id, int>, edges: map<Id, seq<Id>>, done: set<Id>)
    requires DegreesAre(inDegree, edges, done)
    ensures DegreesWhileEmitting(inDegree, edges, done, [])
  {}

  lemma AllReleased(edges: map<Id, seq<Id>>, a: Id, deps: seq<Id>, inDegree: map<Id, int>, done: set<Id>)
    requires Releasable(edges, a, deps, done) && DegreesWhileEmitting(inDegree, edges, done, deps)
    ensures DegreesAre(inDegree, edges, done + {a})
  {
    forall x | x in edges ensures inDegree[x] == Pending(edges[x], done + {a}) {
      PendingEmit(edges[x], done, a);
    }
  }

  /** A dependent still to be handled is a real, unemitted node with an edge left to count down. */
  lemma NextDependent(edges: map<Id, seq<Id>>, a: Id, deps: seq<Id>, k: nat, done: set<Id>)
    requires k < |deps| && Releasable(edges, a, deps, done)
    ensures deps[k] in edges
    ensures Pending(edges[deps[k]], done) > multiset(deps[..k])[deps[k]]
    ensures deps[k] !in done + {a}
  {
    var dep := deps[k];
    assert deps == deps[..k] + [dep] + deps[k + 1..];
    assert multiset(deps)[dep] >= multiset(deps[..k])[dep] + 1;
    PendingEmit(edges[dep], done, a);
  }

  /** What BuildGraph hands to the Kahn loop. */
  ghost predicate GraphTables(
    g: Graph, edges: map<Id, seq<Id>>, dependents: map<Id, seq<Id>>)
  {
    && Closed(g)
    && edges.Keys == dependents.Keys == g.Keys
    && (forall x :: x in g ==> Elems(edges[x]) == g[x])
    && (forall a, x :: a in g ==> multiset(dependents[a])[x] == Multiplicity(edges, x, a))
  }

  /** The queue is the ascending list of the ready identifiers. */
  lemma QueueIsReady(
    g: Graph, edges: map<Id, seq<Id>>, dependents: map<Id, seq<Id>>,
    inDegree: map<Id, int>, ready: seq<Id>, done: set<Id>)
    requires GraphTables(g, edges, dependents)
    requires DegreesAre(inDegree, edges, done) && QueueOf(ready, inDegree, done)
    ensures Elems(ready) == Ready(g, done)
    ensures ready != [] ==> Ready(g, done) != {} && ready[0] == Least(Ready(g, done))
  {
    forall x ensures x in ready <==> x in Ready(g, done) {
      if x in g { PendingZero(edges[x], done); }
    }
    if ready != [] {
      forall x | x in Ready(g, done) ensures x == ready[0] || Less(ready[0], x) { assert x in ready; }
      LeastUnique(Ready(g, done), ready[0]);
    }
  }

  lemma EmittingSettles(
    g: Graph, edges: map<Id, seq<Id>>, dependents: map<Id, seq<Id>>, done: set<Id>, a: Id)
    requires GraphTables(g, edges, dependents) && DoneSettled(edges, done) && a in Ready(g, done)
    ensures a in dependents && Releasable(edges, a, dependents[a], done)
    ensures DoneSettled(edges, done + {a})
  {
    forall x | x in done + {a} ensures x in edges && Pending(edges[x], done + {a}) == 0 {
      PendingZero(edges[x], done + {a});
      if x in done { PendingZero(edges[x], done); }
    }
  }

  /** Taking the head off the queue leaves the queue for the larger emitted set. */
  lemma QueueTail(ready: seq<Id>, inDegree: map<Id, int>, done: set<Id>)
    requires ready != [] && QueueOf(ready, inDegree, done)
    ensures QueueOf(ready[1..], inDegree, done + {ready[0]})
  {
    AscendingDistinct(ready);
    forall x ensures x in ready[1..] <==> x in ready && x != ready[0] {
      if x in ready && x != ready[0] {
        var i :| 0 <= i < |ready| && ready[i] == x;
        assert ready[1..][i - 1] == x;
      }
    }
  }

  /** One round of the Kahn loop takes the step of the reference order. */
  lemma KahnRound(g: Graph, order: seq<Id>, id: Id)
    requires Ready(g, Elems(order)) != {} && id == Least(Ready(g, Elems(order)))
    ensures Greedy(g, order + [id]) == Greedy(g, order)
    ensures Elems(order + [id]) == Elems(order) + {id}
    ensures g.Keys - Elems(order + [id]) < g.Keys - Elems(order)
    ensures id in g
  {
    assert id in g.Keys - Elems(order);
    assert Elems(order + [id]) == Elems(order) + {id};
  }

  lemma NothingDone(edges: map<Id, seq<Id>>)
    ensures DoneSettled(edges, {}) && Elems([]) == {}
  {}

  lemma GreedyStops(g: Graph, order: seq<Id>)
    requires Ready(g, Elems(order)) == {}
    ensures Greedy(g, order) == order
  {}

  method KahnLoop(
    m: map<Id, Path>, ghost g: Graph, ghost edges: map<Id, seq<Id>>, dependents: map<Id, seq<Id>>,
    inDegree0: map<Id, int>, ready0: seq<Id>)
    returns (sorted: seq<Path>, inDegree: map<Id, int>)
    requires g.Keys == m.Keys && GraphTables(g, edges, dependents)
    requires DegreesAre(inDegree0, edges, {}) && QueueOf(ready0, inDegree0, {})
    ensures AllIn(Order(g), m) && sorted == PathsOf(m, Order(g))
    ensures DegreesAre(inDegree, edges, Elems(Order(g)))
  {
    hide QueueOf, DegreesAre, DoneSettled, GraphTables, Releasable, Greedy, Ready;
    var ready := ready0;
    sorted, inDegree := [], inDegree0;
    NothingDone(edges);
    ghost var order: seq<Id> := [];
    while ready != []
      invariant AllIn(order, m) && sorted == PathsOf(m, order)
      invariant Greedy(g, order) == Order(g)
      invariant DoneSettled(edges, Elems(order))
      invariant DegreesAre(inDegree, edges, Elems(order))
      invariant QueueOf(ready, inDegree, Elems(order))
      decreases g.Keys - Elems(order)
    {
      var id := ready[0];
      ghost var done := Elems(order);
      QueueIsReady(g, edges, dependents, inDegree, ready, done);
      QueueTail(ready, inDegree, done);
      EmittingSettles(g, edges, dependents, done, id);
      KahnRound(g, order, id);
      ready := ready[1..];
      sorted := sorted + [m[id]];
      inDegree, ready := ReleaseDependents(edges, id, dependents[id], inDegree, ready, done);
      assert (order + [id])[..|order|] == order;
      order := order + [id];
    }
    QueueIsReady(g, edges, dependents, inDegree, ready, Elems(order));
    assert Ready(g, Elems(order)) == Elems(ready) == {};
    GreedyStops(g, order);
  }

  // ---- Step 4: cycles ----

  /** The warnings of one cycle member. */
  method CycleWarningsOf(id: Id, deps: seq<Id>, cycleSet: set<Id>) returns (warnings: seq<SortWarning>)
    ensures warnings == WarningsFor(id, deps, cycleSet, Cycle)
  {
    warnings := [];
    for j := 0 to |deps|
      invariant warnings == WarningsFor(id, deps[..j], cycleSet, Cycle)
    {
      assert deps[..j + 1][..j] == deps[..j];
      if deps[j] != id && deps[j] in cycleSet {
        warnings := warnings + [SortWarning(id, deps[j], Cycle)];
      }
    }
    assert deps[..|deps|] == deps;
  }

  method AppendCycles(read: Reader, m: map<Id, Path>, cycleIds: seq<Id>)
    returns (paths: seq<Path>, warnings: seq<SortWarning>)
    requires AllIn(cycleIds, m)
    ensures paths == PathsOf(m, cycleIds)
    ensures warnings == WarningsOf(read, m, cycleIds, Elems(cycleIds), Cycle)
  {
    paths, warnings := [], [];
    var cycleSet := set id | id in cycleIds;
    for k := 0 to |cycleIds|
      invariant AllIn(cycleIds[..k], m) && paths == PathsOf(m, cycleIds[..k])
      invariant warnings == WarningsOf(read, m, cycleIds[..k], cycleSet, Cycle)
    {
      var id := cycleIds[k];
      var more := CycleWarningsOf(id, DepsOf(read, m, id), cycleSet);
      warnings := warnings + more;
      paths := paths + [m[id]];
      assert cycleIds[..k + 1][..k] == cycleIds[..k];
    }
    assert cycleIds[..|cycleIds|] == cycleIds;
  }

  // ---- sortExtensionPaths ----

  method SortExtensionPaths(paths: seq<Path>, read: Reader)
    returns (sortedPaths: seq<Path>, warnings: seq<SortWarning>)
    ensures SortResult(paths, read, sortedPaths, warnings)
  {
    var pathsWithoutId, m, keys := BuildIdMap(paths, read);
    IdKeysAreKeys(paths, read);
    hide *;
    var inDegree, dependents, missing := BuildGraph(read, m, keys);
    ghost var g := GraphOf(read, m);
    ghost var edges := AllEdges(read, m, m.Keys);
    TablesReady(read, m, keys, inDegree, dependents);
    var ready := FilterIds(keys, inDegree, true);
    var sorted;
    sorted, inDegree := KahnLoop(m, g, edges, dependents, inDegree, SortIds(ready));
    FinalLeftovers(g, edges, dependents, keys, inDegree);
    var cycleIds := SortIds(FilterIds(keys, inDegree, false));
    LeftoversInstalled(read, m);
    var tail, more := AppendCycles(read, m, cycleIds);
    AssembleResult(paths, read, sorted, tail, missing, more);
    sortedPaths := pathsWithoutId + (sorted + tail);
    warnings := missing + more;
  }

  /** What the first two steps leave for the loop. */
  lemma TablesReady(read: Reader, m: map<Id, Path>, keys: seq<Id>, inDegree: map<Id, int>, dependents: map<Id, seq<Id>>)
    requires Distinct(keys) && Elems(keys) == m.Keys && Counts(AllEdges(read, m, m.Keys), inDegree, dependents)
    ensures var g, edges := GraphOf(read, m), AllEdges(read, m, m.Keys);
      && g.Keys == m.Keys && GraphTables(g, edges, dependents)
      && (forall x :: x in keys ==> x in inDegree)
      && DegreesAre(inDegree, edges, {})
      && QueueOf(SortIds(FilterIds(keys, inDegree, true)), inDegree, {})
  {
    TablesOfGraph(read, m, inDegree, dependents);
    CountsGiveDegrees(AllEdges(read, m, m.Keys), inDegree, dependents);
    assert AllEdges(read, m, m.Keys).Keys == m.Keys && GraphOf(read, m).Keys == m.Keys;
    hide *;
    InitialQueue(AllEdges(read, m, m.Keys), keys, inDegree);
  }

  lemma TablesOfGraph(read: Reader, m: map<Id, Path>, inDegree: map<Id, int>, dependents: map<Id, seq<Id>>)
    requires Counts(AllEdges(read, m, m.Keys), inDegree, dependents)
    ensures GraphTables(GraphOf(read, m), AllEdges(read, m, m.Keys), dependents)
  {
    GraphOfClosed(read, m);
    hide Closed, EdgesOf, Multiplicity, Elems;
  }

  lemma CountsGiveDegrees(entered: map<Id, seq<Id>>, inDegree: map<Id, int>, dependents: map<Id, seq<Id>>)
    requires Counts(entered, inDegree, dependents)
    ensures inDegree.Keys == entered.Keys && forall x :: x in entered ==> inDegree[x] == |entered[x]|
  {}

  lemma LeftoversInstalled(read: Reader, m: map<Id, Path>)
    ensures AllIn(Ascend(Leftover(GraphOf(read, m))), m) && AllIn(Order(GraphOf(read, m)), m)
  {
    var g := GraphOf(read, m);
    AscendProperties(Leftover(g));
    OrderRespects(g);
    RespectsMeaning(g, Order(g));
    assert forall x :: x in Ascend(Leftover(g)) <==> x in Elems(Ascend(Leftover(g)));
    assert forall x :: x in Order(g) <==> x in Elems(Order(g));
    hide Order, Leftover, Ascend, Respects;
  }

  lemma AssembleResult(
    paths: seq<Path>, read: Reader, sorted: seq<Path>, tail: seq<Path>,
    missing: seq<SortWarning>, more: seq<SortWarning>)
    requires AllIn(IdKeys(paths, read), IdToPath(paths, read))
    requires var m := IdToPath(paths, read);
      var order, leftovers := Order(GraphOf(read, m)), Ascend(Leftover(GraphOf(read, m)));
      && AllIn(order, m) && AllIn(leftovers, m)
      && sorted == PathsOf(m, order) && tail == PathsOf(m, leftovers)
      && missing == WarningsOf(read, m, IdKeys(paths, read), m.Keys, Missing)
      && more == WarningsOf(read, m, leftovers, Elems(leftovers), Cycle)
    ensures SortResult(paths, read, WithoutId(paths, read) + (sorted + tail), missing + more)
  {
    var m := IdToPath(paths, read);
    var g := GraphOf(read, m);
    PathsOfConcat(m, Order(g), Ascend(Leftover(g)));
    hide IdToPath, IdKeys, Order, Leftover, Ascend, PathsOf, WarningsOf, GraphOf;
  }

  /** Keys whose counter is zero, or the others. */
  function FilterIds(keys: seq<Id>, inDegree: map<Id, int>, zero: bool): seq<Id>
    requires forall x :: x in keys ==> x in inDegree
  {
    if keys == [] then []
    else
      var n := |keys| - 1;
      FilterIds(keys[..n], inDegree, zero)
      + if (if zero then inDegree[keys[n]] == 0 else inDegree[keys[n]] > 0) then [keys[n]] else []
  }

  lemma DistinctSnoc(s: seq<Id>, x: Id)
    requires Distinct(s) && x !in s
    ensures Distinct(s + [x])
  {}

  lemma {:induction false} FilterIdsElems(keys: seq<Id>, inDegree: map<Id, int>, zero: bool)
    requires forall x :: x in keys ==> x in inDegree
    requires Distinct(keys)
    ensures Distinct(FilterIds(keys, inDegree, zero))
    ensures forall x :: x in FilterIds(keys, inDegree, zero) <==>
                          x in keys && if zero then inDegree[x] == 0 else inDegree[x] > 0
  {
    if keys != [] {
      var n := |keys| - 1;
      FilterIdsElems(keys[..n], inDegree, zero);
      assert keys == keys[..n] + [keys[n]];
      assert keys[n] !in keys[..n];
      ghost var init := FilterIds(keys[..n], inDegree, zero);
      assert keys[n] !in init;
      DistinctSnoc(init, keys[n]);
    }
  }

  lemma InitialQueue(edges: map<Id, seq<Id>>, keys: seq<Id>, inDegree: map<Id, int>)
    requires Distinct(keys) && Elems(keys) == edges.Keys == inDegree.Keys
    requires forall x :: x in edges ==> inDegree[x] == |edges[x]|
    ensures forall x :: x in keys ==> x in inDegree
    ensures DegreesAre(inDegree, edges, {})
    ensures QueueOf(SortIds(FilterIds(keys, inDegree, true)), inDegree, {})
  {
    assert forall x :: x in keys <==> x in Elems(keys);
    FilterIdsElems(keys, inDegree, true);
    var filtered := FilterIds(keys, inDegree, true);
    SortIdsAscend(filtered);
    AscendProperties(Elems(filtered));
    assert forall x :: x in SortIds(filtered) <==> x in Elems(SortIds(filtered));
    forall x | x in edges ensures inDegree[x] == Pending(edges[x], {}) { PendingNothingDone(edges[x]); }
  }

  /** A positive counter at the end marks exactly the leftovers. */
  lemma FinalLeftovers(
    g: Graph, edges: map<Id, seq<Id>>, dependents: map<Id, seq<Id>>, keys: seq<Id>, inDegree: map<Id, int>)
    requires GraphTables(g, edges, dependents) && Distinct(keys) && Elems(keys) == g.Keys
    requires DegreesAre(inDegree, edges, Elems(Order(g)))
    ensures forall x :: x in keys ==> x in inDegree
    ensures SortIds(FilterIds(keys, inDegree, false)) == Ascend(Leftover(g))
  {
    assert forall x :: x in keys <==> x in Elems(keys);
    FilterIdsElems(keys, inDegree, false);
    GreedySteps(g, []);
    OrderRespects(g);
    var filtered := FilterIds(keys, inDegree, false);
    forall x | x in g ensures x in filtered <==> x in Leftover(g) {
      PendingZero(edges[x], Elems(Order(g)));
      assert x !in Ready(g, Elems(Order(g)));
      if x in Order(g) { OrderHoldsDependencies(g, x); }
    }
    assert Elems(filtered) == Leftover(g);
    SortIdsAscend(filtered);
  }

  lemma OrderHoldsDependencies(g: Graph, x: Id)
    requires x in Order(g)
    ensures x in g && g[x] <= Elems(Order(g))
  {
    var o := Order(g);
    OrderRespects(g);
    var i :| 0 <= i < |o| && o[i] == x;
    assert o[i] in Ready(g, Elems(o[..i]));
  }

  /** The result as a whole: order of the paths and order of the warnings. */
  ghost predicate SortResult(paths: seq<Path>, read: Reader, sortedPaths: seq<Path>, warnings: seq<SortWarning>) {
    var m := IdToPath(paths, read);
    var leftovers := Ascend(Leftover(GraphOf(read, m)));
    && AllIn(IdKeys(paths, read), m)
    && AllIn(SortedIds(read, m), m)
    && AllIn(leftovers, m)
    && sortedPaths == WithoutId(paths, read) + PathsOf(m, SortedIds(read, m))
    && warnings == WarningsOf(read, m, IdKeys(paths, read), m.Keys, Missing)
                   + WarningsOf(read, m, leftovers, Elems(leftovers), Cycle)
  }

  lemma {:induction false} PathsOfConcat(m: map<Id, Path>, a: seq<Id>, b: seq<Id>)
    requires AllIn(a, m) && AllIn(b, m)
    ensures AllIn(a + b, m) && PathsOf(m, a + b) == PathsOf(m, a) + PathsOf(m, b)
  {
    if b == [] {
      assert a + b == a;
    } else {
      PathsOfConcat(m, a, b[..|b| - 1]);
      assert (a + b)[..|a + b| - 1] == a + b[..|b| - 1];
    }
  }

  // ---- What the result means ----

  /** The resolved identifiers come first, then exactly those that reach a cycle. */
  lemma LeftoversLast(read: Reader, m: map<Id, Path>, i: nat)
    requires i < |SortedIds(read, m)|
    ensures |Order(GraphOf(read, m))| <= i <==> ReachesCycle(GraphOf(read, m), SortedIds(read, m)[i])
  {
    var g := GraphOf(read, m);
    var n, rest := |Order(g)|, Ascend(Leftover(g));
    GraphOfClosed(read, m);
    AscendProperties(Leftover(g));
    if n <= i {
      assert SortedIds(read, m)[i] == rest[i - n] && rest[i - n] in Elems(rest);
      LeftoverIffReachesCycle(g, rest[i - n]);
    } else {
      assert SortedIds(read, m)[i] == Order(g)[i] && Order(g)[i] in Elems(Order(g));
      OrderHoldsDependencies(g, Order(g)[i]);
      LeftoverIffReachesCycle(g, Order(g)[i]);
    }
  }

  lemma LeftoversAlphabetical(read: Reader, m: map<Id, Path>, i: nat, j: nat)
    requires |Order(GraphOf(read, m))| <= i < j < |SortedIds(read, m)|
    ensures Less(SortedIds(read, m)[i], SortedIds(read, m)[j])
  {
    AscendProperties(Leftover(GraphOf(read, m)));
  }

  // ---- Independence from the input order ----

  predicate SameId(read: Reader, p: Path, q: Path) {
    read(p).Some? && read(q).Some? && read(p).value.id == read(q).value.id
  }

  /** No two entries of the input declare the same id. */
  ghost predicate UniqueIds(paths: seq<Path>, read: Reader) {
    && (forall p :: p in multiset(paths) && read(p).Some? ==> multiset(paths)[p] == 1)
    && (forall p, q :: p in multiset(paths) && q in multiset(paths) && SameId(read, p, q) ==> p == q)
  }

  /** With a repeated id the last path wins. */
  lemma {:induction false} LastPathWins(paths: seq<Path>, read: Reader, x: Id)
    ensures x in IdToPath(paths, read) <==>
            exists i :: 0 <= i < |paths| && read(paths[i]).Some? && read(paths[i]).value.id == x
    ensures x in IdToPath(paths, read) ==>
              exists i :: 0 <= i < |paths| && read(paths[i]).Some? && read(paths[i]).value.id == x
                          && IdToPath(paths, read)[x] == paths[i]
                          && forall j :: i < j < |paths| && read(paths[j]).Some? ==> read(paths[j]).value.id != x
  {
    if paths != [] {
      var n := |paths| - 1;
      LastPathWins(paths[..n], read, x);
      if read(paths[n]).Some? && read(paths[n]).value.id == x {
        assert 0 <= n < |paths|;
      } else if x in IdToPath(paths[..n], read) {
        var i :| 0 <= i < n && read(paths[..n][i]).Some? && read(paths[..n][i]).value.id == x
                 && IdToPath(paths[..n], read)[x] == paths[..n][i]
                 && forall j :: i < j < n && read(paths[..n][j]).Some? ==> read(paths[..n][j]).value.id != x;
        assert paths[i] == paths[..n][i];
        forall j | i < j < |paths| && read(paths[j]).Some? ensures read(paths[j]).value.id != x {
          if j < n { assert paths[..n][j] == paths[j]; }
        }
      }
    }
  }

  lemma SameIdMap(paths: seq<Path>, paths': seq<Path>, read: Reader)
    requires multiset(paths) == multiset(paths') && UniqueIds(paths, read)
    ensures IdToPath(paths, read) == IdToPath(paths', read)
  {
    var m, m' := IdToPath(paths, read), IdToPath(paths', read);
    assert forall p :: p in paths <==> p in multiset(paths);
    assert forall p :: p in paths' <==> p in multiset(paths');
    forall x ensures x in m <==> x in m' {
      LastPathWins(paths, read, x);
      LastPathWins(paths', read, x);
      if x in m {
        var i :| 0 <= i < |paths| && read(paths[i]).Some? && read(paths[i]).value.id == x;
        assert paths[i] in paths';
      }
      if x in m' {
        var i :| 0 <= i < |paths'| && read(paths'[i]).Some? && read(paths'[i]).value.id == x;
        assert paths'[i] in paths;
      }
    }
    forall x | x in m ensures m[x] == m'[x] {
      LastPathWins(paths, read, x);
      LastPathWins(paths', read, x);
      assert m[x] in paths && m'[x] in paths';
      assert SameId(read, m[x], m'[x]);
    }
  }

  /** Reordering an input with unique ids changes nothing after the manifest-less prefix. */
  lemma InputOrderIrrelevant(
    paths: seq<Path>, paths': seq<Path>, read: Reader,
    sorted: seq<Path>, warnings: seq<SortWarning>, sorted': seq<Path>, warnings': seq<SortWarning>)
    requires multiset(paths) == multiset(paths') && UniqueIds(paths, read)
    requires SortResult(paths, read, sorted, warnings) && SortResult(paths', read, sorted', warnings')
    ensures WithoutId(paths, read) <= sorted && WithoutId(paths', read) <= sorted'
    ensures sorted[|WithoutId(paths, read)|..] == sorted'[|WithoutId(paths', read)|..]
  {
    SameIdMap(paths, paths', read);
    var tail := PathsOf(IdToPath(paths, read), SortedIds(read, IdToPath(paths, read)));
    assert sorted[|WithoutId(paths, read)|..] == tail;
    assert sorted'[|WithoutId(paths', read)|..] == tail;
  }
}
