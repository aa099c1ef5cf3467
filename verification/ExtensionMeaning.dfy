/**
 * What the result of src/extension-sort.ts means in terms of the paths and the manifests read
 * from them.
 */
module ExtensionMeaning {
  import opened Wrappers
  import opened StringOrder
  import opened DependencyGraph
  import opened ExtensionSort

  // ---- The graph ----

  /** An edge for every declared dependency on another installed extension, and no other. */
  lemma GraphIsDeclared(read: Reader, m: map<Id, Path>, x: Id)
    requires x in m
    ensures x in GraphOf(read, m)
    ensures forall d :: d in GraphOf(read, m)[x] <==>
              read(m[x]).Some? && d in read(m[x]).value.deps && d != x && d in m
  {
    GraphOfClosed(read, m);
  }

  // ---- The order ----

  /** Unless it reaches a cycle, an identifier comes after every other installed one its manifest declares. */
  lemma DependenciesFirst(read: Reader, m: map<Id, Path>, i: nat, d: Id) returns (j: nat)
    requires i < |SortedIds(read, m)| && SortedIds(read, m)[i] in m
    requires !ReachesCycle(GraphOf(read, m), SortedIds(read, m)[i])
    requires var x := SortedIds(read, m)[i];
             read(m[x]).Some? && d in read(m[x]).value.deps && d != x && d in m
    ensures j < i && SortedIds(read, m)[j] == d
  {
    var ids, g := SortedIds(read, m), GraphOf(read, m);
    LeftoversLast(read, m, i);
    GraphIsDeclared(read, m, ids[i]);
    OrderRespects(g);
    RespectsMeaning(g, Order(g));
    assert ids[i] == Order(g)[i];
    hide GraphOf, Order, ReachesCycle, Respects;
    j :| 0 <= j < i && Order(g)[j] == d;
  }

  /** p is the last path whose manifest has the id x. */
  ghost predicate LastWith(paths: seq<Path>, read: Reader, x: Id, p: Path) {
    exists k :: 0 <= k < |paths| && paths[k] == p && read(p).Some? && read(p).value.id == x
                && forall l :: k < l < |paths| && read(paths[l]).Some? ==> read(paths[l]).value.id != x
  }

  lemma LastWithIs(paths: seq<Path>, read: Reader, x: Id, p: Path)
    requires LastWith(paths, read, x, p)
    ensures x in IdToPath(paths, read) && IdToPath(paths, read)[x] == p
  {
    LastPathWins(paths, read, x);
    hide IdToPath;
    var m := IdToPath(paths, read);
    var k :| 0 <= k < |paths| && paths[k] == p && read(p).Some? && read(p).value.id == x
             && forall l :: k < l < |paths| && read(paths[l]).Some? ==> read(paths[l]).value.id != x;
    var i :| 0 <= i < |paths| && read(paths[i]).Some? && read(paths[i]).value.id == x && m[x] == paths[i]
             && forall j :: i < j < |paths| && read(paths[j]).Some? ==> read(paths[j]).value.id != x;
    if i < k { assert false; }
    if k < i { assert false; }
  }

  lemma IdAt(read: Reader, m: map<Id, Path>, x: Id) returns (i: nat)
    requires x in m
    ensures i < |SortedIds(read, m)| && SortedIds(read, m)[i] == x
  {
    SortedIdsCoverKeys(read, m);
    assert x in Elems(SortedIds(read, m));
    i :| 0 <= i < |SortedIds(read, m)| && SortedIds(read, m)[i] == x;
  }

  /** The part behind the manifest-less paths: one path for each id. */
  lemma SortedPathAt(paths: seq<Path>, read: Reader, sortedPaths: seq<Path>, warnings: seq<SortWarning>, i: nat)
    requires SortResult(paths, read, sortedPaths, warnings)
    requires i < |SortedIds(read, IdToPath(paths, read))|
    ensures var m, n := IdToPath(paths, read), |WithoutId(paths, read)|;
            && |sortedPaths| == n + |SortedIds(read, m)|
            && SortedIds(read, m)[i] in m && sortedPaths[n + i] == m[SortedIds(read, m)[i]]
  {
    var m := IdToPath(paths, read);
    PathsOfAt(m, SortedIds(read, m));
    hide IdToPath, IdKeys, SortedIds, PathsOf, WarningsOf;
  }

  lemma IdsInOrder(read: Reader, m: map<Id, Path>, x: Id, d: Id) returns (b: nat, a: nat)
    requires x in m && read(m[x]).Some? && d in read(m[x]).value.deps && d != x && d in m
    requires !ReachesCycle(GraphOf(read, m), x)
    ensures b < a < |SortedIds(read, m)| && SortedIds(read, m)[b] == d && SortedIds(read, m)[a] == x
  {
    a := IdAt(read, m, x);
    b := DependenciesFirst(read, m, a, d);
    hide *;
  }

  lemma PathOfId(
    paths: seq<Path>, read: Reader, sortedPaths: seq<Path>, warnings: seq<SortWarning>, x: Id, p: Path, i: nat)
    requires SortResult(paths, read, sortedPaths, warnings) && LastWith(paths, read, x, p)
    requires i < |SortedIds(read, IdToPath(paths, read))| && SortedIds(read, IdToPath(paths, read))[i] == x
    ensures |WithoutId(paths, read)| + i < |sortedPaths| && sortedPaths[|WithoutId(paths, read)| + i] == p
  {
    LastWithIs(paths, read, x, p);
    SortedPathAt(paths, read, sortedPaths, warnings, i);
    hide *;
  }

  /**
   * On the loaded paths: p is the path in force for x, q that for d, x declares d and reaches no
   * cycle; then q is loaded before p.
   */
  lemma LoadsDependencyFirst(
    paths: seq<Path>, read: Reader, sortedPaths: seq<Path>, warnings: seq<SortWarning>,
    x: Id, p: Path, d: Id, q: Path) returns (j: nat, i: nat)
    requires SortResult(paths, read, sortedPaths, warnings)
    requires LastWith(paths, read, x, p) && LastWith(paths, read, d, q)
    requires read(p).Some? && d in read(p).value.deps && d != x
    requires !ReachesCycle(GraphOf(read, IdToPath(paths, read)), x)
    ensures j < i < |sortedPaths| && sortedPaths[j] == q && sortedPaths[i] == p
  {
    hide *;
    var m, n := IdToPath(paths, read), |WithoutId(paths, read)|;
    LastWithIs(paths, read, x, p);
    LastWithIs(paths, read, d, q);
    var b, a := IdsInOrder(read, m, x, d);
    PathOfId(paths, read, sortedPaths, warnings, x, p, a);
    PathOfId(paths, read, sortedPaths, warnings, d, q, b);
    j, i := n + b, n + a;
  }

  // ---- Paths without a manifest ----

  ghost predicate Rising(at: seq<nat>) {
    forall k, l :: 0 <= k < l < |at| ==> at[k] < at[l]
  }

  /** The paths without a manifest come first, all of them and in input order. */
  lemma {:induction false} WithoutManifestFirst(paths: seq<Path>, read: Reader) returns (at: seq<nat>)
    ensures forall i :: i in at <==> 0 <= i < |paths| && read(paths[i]).None?
    ensures Rising(at) && |WithoutId(paths, read)| == |at|
    ensures forall k :: 0 <= k < |at| ==> at[k] < |paths| && WithoutId(paths, read)[k] == paths[at[k]]
  {
    at := [];
    if paths != [] {
      var n := |paths| - 1;
      at := WithoutManifestFirst(paths[..n], read);
      assert forall k :: 0 <= k < |at| ==> at[k] in at;
      if read(paths[n]).None? { at := at + [n]; }
    }
  }

  // ---- The warnings ----

  lemma {:induction false} ForAt(id: Id, deps: seq<Id>, ids: set<Id>, kind: WarningKind, i: nat) returns (p: nat)
    requires i < |WarningsFor(id, deps, ids, kind)|
    ensures p < |deps| && WarningsFor(id, deps, ids, kind)[i] == SortWarning(id, deps[p], kind)
  {
    var n := |deps| - 1;
    p := n;
    if i < |WarningsFor(id, deps[..n], ids, kind)| { p := ForAt(id, deps[..n], ids, kind, i); }
  }

  lemma {:induction false} ForInOrder(id: Id, deps: seq<Id>, ids: set<Id>, kind: WarningKind, i: nat, j: nat)
    returns (p: nat, q: nat)
    requires i < j < |WarningsFor(id, deps, ids, kind)|
    ensures p < q < |deps| && WarningsFor(id, deps, ids, kind)[i] == SortWarning(id, deps[p], kind)
    ensures WarningsFor(id, deps, ids, kind)[j] == SortWarning(id, deps[q], kind)
  {
    var n := |deps| - 1;
    if j < |WarningsFor(id, deps[..n], ids, kind)| {
      p, q := ForInOrder(id, deps[..n], ids, kind, i, j);
    } else {
      p := ForAt(id, deps[..n], ids, kind, i);
      q := n;
    }
  }

  /** w is a warning of the kind that id can raise. */
  predicate Applies(id: Id, ids: set<Id>, kind: WarningKind, w: SortWarning) {
    w.kind == kind && w.declaringId == id && w.missingId != id && (kind.Cycle? <==> w.missingId in ids)
  }

  lemma {:induction false} ForCount(id: Id, deps: seq<Id>, ids: set<Id>, kind: WarningKind, w: SortWarning)
    ensures multiset(WarningsFor(id, deps, ids, kind))[w]
         == if Applies(id, ids, kind, w) then multiset(deps)[w.missingId] else 0
  {
    if deps != [] {
      hide *;
      var init, last := deps[..|deps| - 1], deps[|deps| - 1];
      ForUnfold(id, deps, ids, kind);
      EdgeCount(id, last, ids, kind, w);
      ForCount(id, init, ids, kind, w);
      assert deps == init + [last];
      CountConcat(WarningsFor(id, init, ids, kind), WarningEdge(id, last, ids, kind), w);
      CountConcat(init, [last], w.missingId);
    }
  }

  lemma EdgeCount(id: Id, dep: Id, ids: set<Id>, kind: WarningKind, w: SortWarning)
    ensures multiset(WarningEdge(id, dep, ids, kind))[w]
         == if Applies(id, ids, kind, w) then multiset([dep])[w.missingId] else 0
  {}

  lemma ForUnfold(id: Id, deps: seq<Id>, ids: set<Id>, kind: WarningKind)
    requires deps != []
    ensures WarningsFor(id, deps, ids, kind)
         == WarningsFor(id, deps[..|deps| - 1], ids, kind) + WarningEdge(id, deps[|deps| - 1], ids, kind)
  {}

  lemma CountConcat<T>(a: seq<T>, b: seq<T>, x: T)
    ensures multiset(a + b)[x] == multiset(a)[x] + multiset(b)[x]
  {}

  lemma {:induction false} OfAt(
    read: Reader, m: map<Id, Path>, keys: seq<Id>, ids: set<Id>, kind: WarningKind, i: nat) returns (a: nat, p: nat)
    requires AllIn(keys, m) && i < |WarningsOf(read, m, keys, ids, kind)|
    ensures a < |keys| && keys[a] in m && p < |DepsOf(read, m, keys[a])|
    ensures WarningsOf(read, m, keys, ids, kind)[i] == SortWarning(keys[a], DepsOf(read, m, keys[a])[p], kind)
  {
    hide DepsOf;
    var n := |keys| - 1;
    var before := |WarningsOf(read, m, keys[..n], ids, kind)|;
    if i < before {
      a, p := OfAt(read, m, keys[..n], ids, kind, i);
    } else {
      a := n;
      p := ForAt(keys[n], DepsOf(read, m, keys[n]), ids, kind, i - before);
    }
  }

  lemma {:induction false} OfInOrder(
    read: Reader, m: map<Id, Path>, keys: seq<Id>, ids: set<Id>, kind: WarningKind, i: nat, j: nat)
    returns (a: nat, p: nat, b: nat, q: nat)
    requires AllIn(keys, m) && i < j < |WarningsOf(read, m, keys, ids, kind)|
    ensures a <= b < |keys| && keys[a] in m && keys[b] in m && (a == b ==> p < q)
    ensures p < |DepsOf(read, m, keys[a])| && q < |DepsOf(read, m, keys[b])|
    ensures WarningsOf(read, m, keys, ids, kind)[i] == SortWarning(keys[a], DepsOf(read, m, keys[a])[p], kind)
    ensures WarningsOf(read, m, keys, ids, kind)[j] == SortWarning(keys[b], DepsOf(read, m, keys[b])[q], kind)
  {
    hide DepsOf;
    var n := |keys| - 1;
    var before := |WarningsOf(read, m, keys[..n], ids, kind)|;
    if j < before {
      a, p, b, q := OfInOrder(read, m, keys[..n], ids, kind, i, j);
    } else if i < before {
      a, p := OfAt(read, m, keys[..n], ids, kind, i);
      b := n;
      q := ForAt(keys[n], DepsOf(read, m, keys[n]), ids, kind, j - before);
    } else {
      a, b := n, n;
      p, q := ForInOrder(keys[n], DepsOf(read, m, keys[n]), ids, kind, i - before, j - before);
    }
  }

  lemma {:induction false} OfCount(
    read: Reader, m: map<Id, Path>, keys: seq<Id>, ids: set<Id>, kind: WarningKind, w: SortWarning)
    requires AllIn(keys, m) && Distinct(keys)
    ensures multiset(WarningsOf(read, m, keys, ids, kind))[w]
         == if && w.kind == kind && w.declaringId in keys && w.missingId != w.declaringId
               && (kind.Cycle? <==> w.missingId in ids)
            then multiset(DepsOf(read, m, w.declaringId))[w.missingId] else 0
  {
    if keys != [] {
      hide *;
      var n := |keys| - 1;
      var init, id := keys[..n], keys[n];
      var deps := DepsOf(read, m, id);
      OfUnfold(read, m, keys, ids, kind);
      OfCount(read, m, init, ids, kind, w);
      ForCount(id, deps, ids, kind, w);
      assert Applies(id, ids, kind, w) <==>
               w.kind == kind && w.declaringId == id && w.missingId != id && (kind.Cycle? <==> w.missingId in ids)
        by { AppliesIff(id, ids, kind, w); }
      CountConcat(WarningsOf(read, m, init, ids, kind), WarningsFor(id, deps, ids, kind), w);
    }
  }

  lemma AppliesIff(id: Id, ids: set<Id>, kind: WarningKind, w: SortWarning)
    ensures Applies(id, ids, kind, w) <==>
              w.kind == kind && w.declaringId == id && w.missingId != id && (kind.Cycle? <==> w.missingId in ids)
  {}

  lemma OfUnfold(read: Reader, m: map<Id, Path>, keys: seq<Id>, ids: set<Id>, kind: WarningKind)
    requires AllIn(keys, m) && Distinct(keys) && keys != []
    ensures var init, id := keys[..|keys| - 1], keys[|keys| - 1];
      && AllIn(init, m) && Distinct(init) && id in m && id !in init && (forall x :: x in keys <==> x in init || x == id)
      && WarningsOf(read, m, keys, ids, kind)
         == WarningsOf(read, m, init, ids, kind) + WarningsFor(id, DepsOf(read, m, id), ids, kind)
  {
    assert keys == keys[..|keys| - 1] + [keys[|keys| - 1]];
    hide WarningsFor, DepsOf;
  }

  /** How often each warning comes: as often as its dependency is declared, where it applies. */
  lemma WarningsCounted(
    paths: seq<Path>, read: Reader, sortedPaths: seq<Path>, warnings: seq<SortWarning>, x: Id, d: Id)
    requires SortResult(paths, read, sortedPaths, warnings)
    ensures var m := IdToPath(paths, read);
            var g := GraphOf(read, m);
            var times := if x in m && d != x && read(m[x]).Some? then multiset(read(m[x]).value.deps)[d] else 0;
            && multiset(warnings)[SortWarning(x, d, Missing)] == (if d in m then 0 else times)
            && multiset(warnings)[SortWarning(x, d, Cycle)]
               == if d in m && ReachesCycle(g, x) && ReachesCycle(g, d) then times else 0
  {
    var m := IdToPath(paths, read);
    var g, keys := GraphOf(read, m), IdKeys(paths, read);
    var leftovers := Ascend(Leftover(g));
    IdKeysAreKeys(paths, read);
    AscendProperties(Leftover(g));
    AscendingDistinct(leftovers);
    MembersOf(keys, m.Keys);
    MembersOf(leftovers, Leftover(g));
    LeftoverMeans(read, m, x);
    LeftoverMeans(read, m, d);
    var missing := WarningsOf(read, m, keys, m.Keys, Missing);
    var cycle := WarningsOf(read, m, leftovers, Elems(leftovers), Cycle);
    var v, w := SortWarning(x, d, Missing), SortWarning(x, d, Cycle);
    CountConcat(missing, cycle, v);
    CountConcat(missing, cycle, w);
    OfCount(read, m, keys, m.Keys, Missing, v);
    OfCount(read, m, keys, m.Keys, Missing, w);
    OfCount(read, m, leftovers, Elems(leftovers), Cycle, v);
    OfCount(read, m, leftovers, Elems(leftovers), Cycle, w);
    hide GraphOf, WarningsOf, ReachesCycle, IdToPath, IdKeys, Ascend, Leftover;
  }

  lemma MembersOf(s: seq<Id>, S: set<Id>)
    requires Elems(s) == S
    ensures forall x :: x in s <==> x in S
  {
    assert forall x :: x in s <==> x in Elems(s);
  }

  lemma LeftoverMeans(read: Reader, m: map<Id, Path>, x: Id)
    ensures x in Leftover(GraphOf(read, m)) <==> x in m && ReachesCycle(GraphOf(read, m), x)
  {
    GraphOfClosed(read, m);
    if x in m { LeftoverIffReachesCycle(GraphOf(read, m), x); }
  }

  /** Exactly which warnings come; every identifier that reaches a cycle has one. */
  lemma WarningsMeaning(paths: seq<Path>, read: Reader, sortedPaths: seq<Path>, warnings: seq<SortWarning>, x: Id)
    requires SortResult(paths, read, sortedPaths, warnings)
    ensures var m := IdToPath(paths, read);
            var g := GraphOf(read, m);
            && (forall d :: SortWarning(x, d, Missing) in warnings <==>
                  x in m && read(m[x]).Some? && d in read(m[x]).value.deps && d != x && d !in m)
            && (forall d :: SortWarning(x, d, Cycle) in warnings <==>
                  && x in m && read(m[x]).Some? && d in read(m[x]).value.deps && d != x && d in m
                  && ReachesCycle(g, x) && ReachesCycle(g, d))
            && (x in m && ReachesCycle(g, x) ==> exists d :: SortWarning(x, d, Cycle) in warnings)
  {
    var m := IdToPath(paths, read);
    var g := GraphOf(read, m);
    hide IdToPath, GraphOf, SortResult, ReachesCycle;
    forall d
      ensures SortWarning(x, d, Missing) in warnings <==>
                x in m && read(m[x]).Some? && d in read(m[x]).value.deps && d != x && d !in m
      ensures SortWarning(x, d, Cycle) in warnings <==>
                && x in m && read(m[x]).Some? && d in read(m[x]).value.deps && d != x && d in m
                && ReachesCycle(g, x) && ReachesCycle(g, d)
    {
      WarningsCounted(paths, read, sortedPaths, warnings, x, d);
    }
    if x in m && ReachesCycle(g, x) {
      var d := CycleDependency(read, m, x);
      assert SortWarning(x, d, Cycle) in warnings;
    }
  }

  lemma CycleDependency(read: Reader, m: map<Id, Path>, x: Id) returns (d: Id)
    requires x in m && ReachesCycle(GraphOf(read, m), x)
    ensures read(m[x]).Some? && d in read(m[x]).value.deps && d != x && d in m && ReachesCycle(GraphOf(read, m), d)
  {
    var g := GraphOf(read, m);
    GraphOfClosed(read, m);
    LeftoverMeans(read, m, x);
    LeftoverHasLeftoverDependency(g, x);
    d :| d in g[x] && d in Leftover(g);
    LeftoverMeans(read, m, d);
    GraphIsDeclared(read, m, x);
  }

  /** x is declared by a path before any path declares y. */
  ghost predicate FirstBefore(paths: seq<Path>, read: Reader, x: Id, y: Id) {
    exists k :: 0 <= k < |paths| && read(paths[k]).Some? && read(paths[k]).value.id == x
                && forall l :: 0 <= l <= k && read(paths[l]).Some? ==> read(paths[l]).value.id != y
  }

  lemma {:induction false} KeyDeclared(paths: seq<Path>, read: Reader, x: Id)
    ensures x in IdKeys(paths, read) <==>
              exists k :: 0 <= k < |paths| && read(paths[k]).Some? && read(paths[k]).value.id == x
  {
    IdKeysAreKeys(paths, read);
    LastPathWins(paths, read, x);
    assert x in IdKeys(paths, read) <==> x in Elems(IdKeys(paths, read));
    hide IdKeys, IdToPath;
  }

  /** Map keys come in the order in which their ids first occur. */
  lemma {:induction false} KeysInOrder(paths: seq<Path>, read: Reader, a: nat, b: nat)
    requires a < b < |IdKeys(paths, read)|
    ensures FirstBefore(paths, read, IdKeys(paths, read)[a], IdKeys(paths, read)[b])
  {
    var n := |paths| - 1;
    var init, keys, before := paths[..n], IdKeys(paths, read), IdKeys(paths[..n], read);
    if b < |before| {
      KeysInOrder(init, read, a, b);
      FirstBeforeLonger(paths, read, keys[a], keys[b]);
    } else {
      KeyDeclared(init, read, keys[a]);
      KeyDeclared(init, read, keys[b]);
      assert before[a] == keys[a] && before[a] in before && keys[b] !in before;
      var k :| 0 <= k < |init| && read(init[k]).Some? && read(init[k]).value.id == keys[a];
      assert paths[k] == init[k];
      assert forall l :: 0 <= l <= k ==> paths[l] == init[l];
    }
  }

  lemma FirstBeforeLonger(paths: seq<Path>, read: Reader, x: Id, y: Id)
    requires paths != [] && FirstBefore(paths[..|paths| - 1], read, x, y)
    ensures FirstBefore(paths, read, x, y)
  {
    var init := paths[..|paths| - 1];
    var k :| 0 <= k < |init| && read(init[k]).Some? && read(init[k]).value.id == x
             && forall l :: 0 <= l <= k && read(init[l]).Some? ==> read(init[l]).value.id != y;
    assert forall l :: 0 <= l <= k ==> paths[l] == init[l];
  }

  /** Where the manifest of id declares v's missing id, and later w's. */
  ghost predicate DeclaredInOrder(deps: seq<Id>, d: Id, e: Id) {
    exists p, q :: 0 <= p < q < |deps| && deps[p] == d && deps[q] == e
  }

  /**
   * Missing dependencies first, in the order in which the ids first occur and their manifests
   * declare; then cycles, in the order of the ids and of the declarations.
   */
  lemma WarningsInOrder(
    paths: seq<Path>, read: Reader, sortedPaths: seq<Path>, warnings: seq<SortWarning>, i: nat, j: nat)
    requires SortResult(paths, read, sortedPaths, warnings) && i < j < |warnings|
    ensures var v, w, m := warnings[i], warnings[j], IdToPath(paths, read);
            if v.kind != w.kind then v.kind == Missing
            else if v.declaringId == w.declaringId then
              && v.declaringId in m && read(m[v.declaringId]).Some?
              && DeclaredInOrder(read(m[v.declaringId]).value.deps, v.missingId, w.missingId)
            else if v.kind == Missing then FirstBefore(paths, read, v.declaringId, w.declaringId)
            else Less(v.declaringId, w.declaringId)
  {
    hide *;
    var m := IdToPath(paths, read);
    var n := SplitWarnings(paths, read, sortedPaths, warnings, i, j);
    if j < n {
      var a, b := MissingPair(paths, read, sortedPaths, warnings, i, j);
      if a < b { KeysInOrder(paths, read, a, b); }
    } else if i >= n {
      CyclePair(paths, read, sortedPaths, warnings, i, j);
    }
  }

  /** Two warnings of one kind: their ids in the given order, those of one id as it declares them. */
  lemma PairInOrder(
    read: Reader, m: map<Id, Path>, keys: seq<Id>, ids: set<Id>, kind: WarningKind, i: nat, j: nat)
    returns (a: nat, b: nat)
    requires AllIn(keys, m) && Distinct(keys) && i < j < |WarningsOf(read, m, keys, ids, kind)|
    ensures var v, w := WarningsOf(read, m, keys, ids, kind)[i], WarningsOf(read, m, keys, ids, kind)[j];
      && a <= b < |keys| && v.declaringId == keys[a] && w.declaringId == keys[b] && keys[a] in m
      && v.kind == w.kind == kind && (a < b <==> keys[a] != keys[b])
      && (a == b ==> read(m[keys[a]]).Some? && DeclaredInOrder(read(m[keys[a]]).value.deps, v.missingId, w.missingId))
  {
    var p, q;
    a, p, b, q := OfInOrder(read, m, keys, ids, kind, i, j);
    hide WarningsOf;
    var deps := DepsOf(read, m, keys[a]);
    if a == b { assert DeclaredInOrder(deps, deps[p], deps[q]); }
  }

  /** The number of missing-dependency warnings, which come first. */
  lemma SplitWarnings(
    paths: seq<Path>, read: Reader, sortedPaths: seq<Path>, warnings: seq<SortWarning>, i: nat, j: nat) returns (n: nat)
    requires SortResult(paths, read, sortedPaths, warnings) && i < j < |warnings|
    ensures AllIn(IdKeys(paths, read), IdToPath(paths, read))
    ensures n == |WarningsOf(read, IdToPath(paths, read), IdKeys(paths, read), IdToPath(paths, read).Keys, Missing)|
    ensures warnings[i].kind == (if i < n then Missing else Cycle)
    ensures warnings[j].kind == (if j < n then Missing else Cycle)
  {
    var m := IdToPath(paths, read);
    var keys, leftovers := IdKeys(paths, read), Ascend(Leftover(GraphOf(read, m)));
    hide IdToPath, IdKeys, WarningsOf, GraphOf, Leftover, Ascend;
    n := |WarningsOf(read, m, keys, m.Keys, Missing)|;
    forall k | 0 <= k < |warnings| ensures warnings[k].kind == if k < n then Missing else Cycle {
      if k < n {
        var a, p := OfAt(read, m, keys, m.Keys, Missing, k);
      } else {
        var a, p := OfAt(read, m, leftovers, Elems(leftovers), Cycle, k - n);
      }
    }
  }

  lemma MissingPair(
    paths: seq<Path>, read: Reader, sortedPaths: seq<Path>, warnings: seq<SortWarning>, i: nat, j: nat)
    returns (a: nat, b: nat)
    requires SortResult(paths, read, sortedPaths, warnings)
    requires var m := IdToPath(paths, read);
             i < j < |WarningsOf(read, m, IdKeys(paths, read), m.Keys, Missing)| && j < |warnings|
    ensures var v, w, m, keys := warnings[i], warnings[j], IdToPath(paths, read), IdKeys(paths, read);
      && a <= b < |keys| && v.declaringId == keys[a] && w.declaringId == keys[b] && keys[a] in m
      && (a < b <==> keys[a] != keys[b])
      && (a == b ==> read(m[keys[a]]).Some? && DeclaredInOrder(read(m[keys[a]]).value.deps, v.missingId, w.missingId))
  {
    var m, keys := IdToPath(paths, read), IdKeys(paths, read);
    IdKeysAreKeys(paths, read);
    a, b := PairInOrder(read, m, keys, m.Keys, Missing, i, j);
    hide IdToPath, IdKeys, WarningsOf, GraphOf, Leftover, Ascend, DeclaredInOrder;
  }

  lemma CyclePair(
    paths: seq<Path>, read: Reader, sortedPaths: seq<Path>, warnings: seq<SortWarning>, i: nat, j: nat)
    requires SortResult(paths, read, sortedPaths, warnings)
    requires var m := IdToPath(paths, read);
             |WarningsOf(read, m, IdKeys(paths, read), m.Keys, Missing)| <= i < j < |warnings|
    ensures var v, w, m := warnings[i], warnings[j], IdToPath(paths, read);
            if v.declaringId == w.declaringId then
              && v.declaringId in m && read(m[v.declaringId]).Some?
              && DeclaredInOrder(read(m[v.declaringId]).value.deps, v.missingId, w.missingId)
            else Less(v.declaringId, w.declaringId)
  {
    hide *;
    KeysKnown(paths, read);
    CycleAt(paths, read, sortedPaths, warnings, i);
    CycleAt(paths, read, sortedPaths, warnings, j);
    var m := IdToPath(paths, read);
    var n := |WarningsOf(read, m, IdKeys(paths, read), m.Keys, Missing)|;
    LeftoverPair(read, m, Ascend(Leftover(GraphOf(read, m))), i - n, j - n);
  }

  lemma KeysKnown(paths: seq<Path>, read: Reader)
    ensures AllIn(IdKeys(paths, read), IdToPath(paths, read))
  {
    IdKeysAreKeys(paths, read);
    MembersOf(IdKeys(paths, read), IdToPath(paths, read).Keys);
  }

  lemma LeftoverPair(read: Reader, m: map<Id, Path>, leftovers: seq<Id>, i: nat, j: nat)
    requires leftovers == Ascend(Leftover(GraphOf(read, m))) && AllIn(leftovers, m) && Distinct(leftovers)
    requires i < j < |WarningsOf(read, m, leftovers, Elems(leftovers), Cycle)|
    ensures var ws := WarningsOf(read, m, leftovers, Elems(leftovers), Cycle);
            var v, w := ws[i], ws[j];
            if v.declaringId == w.declaringId then
              && v.declaringId in m && read(m[v.declaringId]).Some?
              && DeclaredInOrder(read(m[v.declaringId]).value.deps, v.missingId, w.missingId)
            else Less(v.declaringId, w.declaringId)
  {
    hide *;
    var a, b := PairInOrder(read, m, leftovers, Elems(leftovers), Cycle, i, j);
    if a < b { LeftoversAscend(read, m, a, b); }
  }

  lemma CycleAt(paths: seq<Path>, read: Reader, sortedPaths: seq<Path>, warnings: seq<SortWarning>, i: nat)
    requires SortResult(paths, read, sortedPaths, warnings)
    requires var m := IdToPath(paths, read);
             |WarningsOf(read, m, IdKeys(paths, read), m.Keys, Missing)| <= i < |warnings|
    ensures var m := IdToPath(paths, read);
            var leftovers := Ascend(Leftover(GraphOf(read, m)));
            var n := |WarningsOf(read, m, IdKeys(paths, read), m.Keys, Missing)|;
            && AllIn(leftovers, m) && Distinct(leftovers)
            && |warnings| == n + |WarningsOf(read, m, leftovers, Elems(leftovers), Cycle)|
            && warnings[i] == WarningsOf(read, m, leftovers, Elems(leftovers), Cycle)[i - n]
  {
    var m := IdToPath(paths, read);
    AscendProperties(Leftover(GraphOf(read, m)));
    AscendingDistinct(Ascend(Leftover(GraphOf(read, m))));
    hide IdToPath, IdKeys, WarningsOf, GraphOf, Leftover, Ascend;
  }

  lemma LeftoversAscend(read: Reader, m: map<Id, Path>, a: nat, b: nat)
    requires a < b < |Ascend(Leftover(GraphOf(read, m)))|
    ensures Less(Ascend(Leftover(GraphOf(read, m)))[a], Ascend(Leftover(GraphOf(read, m)))[b])
  {
    AscendProperties(Leftover(GraphOf(read, m)));
    hide GraphOf, Leftover, Ascend, Less;
  }
}
